/**
 * The `Output` interface (pkg/output/output.go) as a closed set of sinks.
 * Stdout only logs and always succeeds with an empty reply
 * (pkg/output/stdout.go); the Slack and Grafana sinks post over the network,
 * so what they answer is an input to the model.
 */
module Output {
  import opened Common

  datatype Output =
    | Stdout
    | Slack(token: string, channel: string)
    | Grafana(url: string, apiKey: string)

  /** What one `Send` returns: the raw reply bytes, or an error. */
  datatype SendResult = Sent(reply: seq<bv8>) | SendFailed(message: string)

  /**
   * `Output.Send(e)`. `transport` is what the network answered for this
   * call; it is consulted only by the sinks that use the network.
   */
  function Send(o: Output, e: Event, transport: SendResult): (r: SendResult)
    ensures o.Stdout? ==> r == Sent([])
    ensures !o.Stdout? ==> r == transport
  {
    match o
    case Stdout => Sent([])
    case _ => transport
  }
}
