/**
 * The Imperva infrastructure-events poller (pkg/imperva/imperva.go): the
 * watermark-filtered fetch `GetNewEvents`, the output list, and one tick of
 * `Run`, which normalises every new event and sends it to every output.
 *
 * The HTTP request, reading the body and JSON decoding are not modelled: a
 * fetch is given as a `Feed`, either the decoded list of events or the error
 * of the step that failed.
 */
module Imperva {
  import opened Wrappers
  import opened Common
  import opened Output
  import opened Watermark
  import opened Delivery
  import EventTime

  /** One item of the `events` array of the infra-events response. */
  datatype ImpervaEvent = ImpervaEvent(
    eventTime: string,
    eventType: string,
    bwTotal: int,
    ppsTotal: int,
    bwPassed: int,
    ppsPassed: int,
    bwBlocked: int,
    ppsBlocked: int,
    eventTarget: string,
    itemType: string,
    reportedByPop: string)

  /** The three places where `GetNewEvents` can fail before it looks at any event. */
  datatype FetchError =
    | RequestFailed(message: string)  // client.Do
    | ReadFailed(message: string)     // reading the response body
    | DecodeFailed(message: string)   // json.Unmarshal

  type Feed = Result<seq<ImpervaEvent>, FetchError>

  /**
   * `ImpervaEvent.GetTime`: the parsed `eventTime`, or the zero instant when
   * it does not parse. Only a date in year 0 is before the zero instant.
   */
  function GetTime(ie: ImpervaEvent): (t: int)
    ensures EventTime.ParseLayout(ie.eventTime).None? ==> t == 0
    ensures t < 0 <==> EventTime.ParseLayout(ie.eventTime).Some? && EventTime.ParseLayout(ie.eventTime).value.year == 0
  {
    match EventTime.ParseLayout(ie.eventTime)
    case None => 0
    case Some(dt) =>
      EventTime.InstantSign(dt);
      EventTime.Instant(dt)
  }

  /** `ImpervaEvent.String`: "<type> <target> (POP: <pop>)". */
  function ImpervaEventString(ie: ImpervaEvent): (r: string)
    ensures |r| == |ie.eventType| + |ie.eventTarget| + |ie.reportedByPop| + 9
    ensures r[..|ie.eventType|] == ie.eventType
    ensures r[|ie.eventType|..|ie.eventType| + 1] == " "
    ensures r[|ie.eventType| + 1..|ie.eventType| + 1 + |ie.eventTarget|] == ie.eventTarget
    ensures r[|r| - |ie.reportedByPop| - 8..|r| - |ie.reportedByPop| - 1] == " (POP: "
    ensures r[|r| - |ie.reportedByPop| - 1..] == ie.reportedByPop + ")"
  {
    ie.eventType + " " + ie.eventTarget + " (POP: " + ie.reportedByPop + ")"
  }

  const EventTitle: string := "Imperva event"

  /** The `common.Event` that one tick of `Run` builds for a fetched event. */
  function Normalise(ie: ImpervaEvent): (e: Event)
    ensures e.time == GetTime(ie) && e.title == EventTitle && e.body == ImpervaEventString(ie)
  {
    Event(GetTime(ie), EventTitle, ImpervaEventString(ie))
  }

  /** What the Stdout output logs for a fetched event splits back into the title and the event's description. */
  lemma NormalisedRendering(ie: ImpervaEvent)
    ensures EventString(Normalise(ie))[..|EventTitle| + 2] == "Imperva event: "
    ensures SplitRendered(EventString(Normalise(ie))) == Some((EventTitle, ImpervaEventString(ie)))
  {
    var e := Normalise(ie);
    assert !HasSeparator(EventTitle) by {
      forall i | 0 <= i < |EventTitle| - 1 ensures !(EventTitle[i] == ':' && EventTitle[i + 1] == ' ') {
        assert EventTitle[i] != ':';
      }
    }
    RenderedSplitsBack(e);
  }

  /**
   * An item whose time does not parse gets the zero instant, so with a
   * watermark at or after zero it is never returned and never moves the
   * watermark.
   */
  lemma UnparsableIgnored(a: seq<ImpervaEvent>, x: ImpervaEvent, b: seq<ImpervaEvent>, w: int)
    requires EventTime.ParseLayout(x.eventTime).None? && w >= 0
    ensures x !in NewerThan(a + [x] + b, GetTime, w)
    ensures NewerThan(a + [x] + b, GetTime, w) == NewerThan(a + b, GetTime, w)
    ensures Advanced(w, a + [x] + b, GetTime) == Advanced(w, a + b, GetTime)
  {
    NewerThanMembers(a + [x] + b, GetTime, w, x);
    OldItemIrrelevant(a, x, b, GetTime, w);
  }

  // ---------------------------------------------------------------------------
  // The poller object.
  // ---------------------------------------------------------------------------

  /** Length of a minute in the model's unit of time. */
  const Minute: int := 60 * Second

  class Imperva {
    /** The credentials and account that `NewImperva` puts on the events request. */
    const apiId: string
    const apiKey: string
    const accountId: string

    /** The watermark: the latest event time `GetNewEvents` has returned, set before any send. */
    var lastEvent: int

    /** Where every new event is sent, in order. */
    var outputs: seq<Output>

    /** `NewImperva`: the watermark is the zero instant and Stdout is the only output. */
    constructor (id: string, token: string, account: string)
      ensures apiId == id && apiKey == token && accountId == account
      ensures lastEvent == 0
      ensures outputs == [Stdout]
    {
      apiId, apiKey, accountId := id, token, account;
      lastEvent := 0;
      outputs := [Stdout];
    }

    /** `AddOutput`: the output goes at the end; earlier outputs and the watermark stay. */
    method AddOutput(o: Output)
      modifies this`outputs
      ensures outputs == old(outputs) + [o]
      ensures lastEvent == old(lastEvent)
    {
      outputs := outputs + [o];
    }

    /**
     * `GetNewEvents`: on a failed fetch, nothing is returned and the
     * watermark stays; otherwise the items strictly after the watermark held
     * at entry are returned in feed order, and the watermark moves to the
     * latest time among them, if that is later.
     */
    method GetNewEvents(fetched: Feed) returns (e: seq<ImpervaEvent>, err: Option<FetchError>)
      modifies this`lastEvent
      ensures fetched.Failure? ==> e == [] && err == Some(fetched.error) && lastEvent == old(lastEvent)
      ensures fetched.Success? ==> err == None
      ensures fetched.Success? ==> e == NewerThan(fetched.value, GetTime, old(lastEvent))
      ensures fetched.Success? ==> lastEvent == Advanced(old(lastEvent), fetched.value, GetTime)
      ensures lastEvent >= old(lastEvent)
    {
      var w := lastEvent;
      var nle := w;
      e := [];
      if fetched.Failure? {
        return e, Some(fetched.error);
      }
      var feed := fetched.value;
      for k := 0 to |feed|
        invariant e == NewerThan(feed[..k], GetTime, w)
        invariant nle == MaxTime(w, e, GetTime)
      {
        var event := feed[k];
        assert feed[..k + 1][..k] == feed[..k];
        if GetTime(event) > w {
          if GetTime(event) > nle {
            nle := GetTime(event);
          }
          e := e + [event];
          assert e[..|e| - 1] == NewerThan(feed[..k], GetTime, w);
        }
      }
      assert feed[..|feed|] == feed;
      AdvancedIsMax(w, feed, GetTime);
      lastEvent := nle;
      err := None;
    }

    /**
     * The part of `Run` before the ticker starts: the watermark is set to
     * `initInterval` minutes before `now`.
     */
    method Run(now: int, initInterval: int)
      modifies this`lastEvent
      ensures lastEvent == now - initInterval * Minute
      ensures outputs == old(outputs)
    {
      lastEvent := now - initInterval * Minute;
    }

    /**
     * One tick of `Run`: fetch, then send every new event to every output.
     * A failed fetch is only logged and leads to no send at all.
     */
    method Tick(fetched: Feed, net: nat -> SendResult) returns (attempts: seq<Attempt>, err: Option<FetchError>)
      modifies this`lastEvent
      ensures fetched.Failure? ==> attempts == [] && err == Some(fetched.error) && lastEvent == old(lastEvent)
      ensures fetched.Success? ==> err == None
      ensures fetched.Success? ==> attempts == FanOut(Normalised(NewerThan(fetched.value, GetTime, old(lastEvent)), Normalise), outputs, net)
      ensures fetched.Success? ==> lastEvent == Advanced(old(lastEvent), fetched.value, GetTime)
      ensures |attempts| == (if fetched.Success? then |NewerThan(fetched.value, GetTime, old(lastEvent))| else 0) * |outputs|
      ensures outputs == old(outputs)
    {
      var events;
      events, err := GetNewEvents(fetched);
      attempts := Dispatch(events, Normalise, outputs, net);
    }
  }

  /** A client of the class: a second fetch of the same feed returns nothing and keeps the watermark. */
  method FetchTwice(poller: Imperva, feed: seq<ImpervaEvent>) returns (first: seq<ImpervaEvent>, second: seq<ImpervaEvent>)
    modifies poller`lastEvent
    ensures first == NewerThan(feed, GetTime, old(poller.lastEvent))
    ensures second == []
    ensures poller.lastEvent == Advanced(old(poller.lastEvent), feed, GetTime)
  {
    var err;
    first, err := poller.GetNewEvents(Success(feed));
    second, err := poller.GetNewEvents(Success(feed));
    Idempotent(old(poller.lastEvent), feed, GetTime);
  }
}
