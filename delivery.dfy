/**
 * The fan-out of one tick of `Imperva.Run` (pkg/imperva/imperva.go): every
 * event goes to every output, events outer and outputs inner, and a failed
 * `Send` is only logged.
 */
module Delivery {
  import opened Common
  import opened Output

  /** One call of `Send` during a tick: the output, the event sent and what came back. */
  datatype Attempt = Attempt(output: Output, event: Event, result: SendResult)

  /**
   * The attempts to send `e` to each of `outs` in list order, numbered from
   * `first`; `net(k)` is the network's answer to the tick's attempt number k.
   */
  function SendToAll(e: Event, outs: seq<Output>, net: nat -> SendResult, first: nat): seq<Attempt>
  {
    if outs == [] then []
    else
      var o := outs[|outs| - 1];
      SendToAll(e, outs[..|outs| - 1], net, first) + [Attempt(o, e, Send(o, e, net(first + |outs| - 1)))]
  }

  /** All attempts of one tick for `events`. */
  function FanOut(events: seq<Event>, outs: seq<Output>, net: nat -> SendResult): seq<Attempt>
  {
    if events == [] then []
    else FanOut(events[..|events| - 1], outs, net) + SendToAll(events[|events| - 1], outs, net, (|events| - 1) * |outs|)
  }

  lemma {:induction false} SendToAllAt(e: Event, outs: seq<Output>, net: nat -> SendResult, first: nat)
    ensures |SendToAll(e, outs, net, first)| == |outs|
    ensures forall j :: 0 <= j < |outs| ==>
      SendToAll(e, outs, net, first)[j] == Attempt(outs[j], e, Send(outs[j], e, net(first + j)))
  {
    if outs != [] {
      var init := outs[..|outs| - 1];
      SendToAllAt(e, init, net, first);
      assert forall j :: 0 <= j < |init| ==> outs[j] == init[j];
    }
  }

  /** The number, within a tick, of the attempt that sends event `i` to output `j` of `m`. */
  function Slot(i: nat, j: nat, m: nat): nat
  {
    i * m + j
  }

  lemma MultiplySucc(a: nat, m: nat)
    ensures a * m + m == (a + 1) * m
  {
  }

  lemma {:induction false} MultiplyMonotone(a: nat, b: nat, m: nat)
    requires a <= b
    ensures a * m <= b * m
  {
    if a < b {
      MultiplyMonotone(a, b - 1, m);
      MultiplySucc(b - 1, m);
    }
  }

  /** Slots of row i come before row n - 1 when i does, and all lie below n * m. */
  lemma SlotBounds(i: nat, j: nat, m: nat, n: nat)
    requires i < n && j < m
    ensures Slot(i, j, m) < n * m
    ensures i < n - 1 ==> Slot(i, j, m) < (n - 1) * m
    ensures i == n - 1 ==> Slot(i, j, m) == (n - 1) * m + j
  {
    MultiplySucc(i, m);
    MultiplyMonotone(i + 1, n, m);
    if i < n - 1 {
      MultiplyMonotone(i + 1, n - 1, m);
    }
  }

  lemma {:induction false} FanOutLength(events: seq<Event>, outs: seq<Output>, net: nat -> SendResult)
    ensures |FanOut(events, outs, net)| == |events| * |outs|
  {
    if events != [] {
      var n, m := |events|, |outs|;
      var init := events[..n - 1];
      FanOutLength(init, outs, net);
      SendToAllAt(events[n - 1], outs, net, (n - 1) * m);
      assert |init| == n - 1;
      assert |FanOut(events, outs, net)| == |FanOut(init, outs, net)| + m;
      MultiplySucc(n - 1, m);
    }
  }

  lemma {:induction false} FanOutSlot(events: seq<Event>, outs: seq<Output>, net: nat -> SendResult, i: nat, j: nat)
    requires i < |events| && j < |outs|
    ensures Slot(i, j, |outs|) < |FanOut(events, outs, net)|
    ensures FanOut(events, outs, net)[Slot(i, j, |outs|)] == Attempt(outs[j], events[i], Send(outs[j], events[i], net(Slot(i, j, |outs|))))
  {
    var n, m := |events|, |outs|;
    var init := events[..n - 1];
    var g := FanOut(init, outs, net);
    var h := SendToAll(events[n - 1], outs, net, (n - 1) * m);
    FanOutLength(events, outs, net);
    FanOutLength(init, outs, net);
    SlotBounds(i, j, m, n);
    var k := Slot(i, j, m);
    if i < n - 1 {
      FanOutSlot(init, outs, net, i, j);
      assert events[i] == init[i];
      assert FanOut(events, outs, net)[k] == g[k];
    } else {
      SendToAllAt(events[n - 1], outs, net, (n - 1) * m);
      assert FanOut(events, outs, net)[k] == h[j];
    }
  }

  /**
   * A tick makes exactly |events| * |outs| attempts; attempt number
   * i * |outs| + j sends event i to output j, whatever earlier attempts
   * returned.
   */
  lemma FanOutAt(events: seq<Event>, outs: seq<Output>, net: nat -> SendResult)
    ensures |FanOut(events, outs, net)| == |events| * |outs|
    ensures forall i, j :: 0 <= i < |events| && 0 <= j < |outs| ==>
      Slot(i, j, |outs|) < |FanOut(events, outs, net)| &&
      FanOut(events, outs, net)[Slot(i, j, |outs|)] == Attempt(outs[j], events[i], Send(outs[j], events[i], net(Slot(i, j, |outs|))))
  {
    FanOutLength(events, outs, net);
    forall i, j | 0 <= i < |events| && 0 <= j < |outs|
      ensures Slot(i, j, |outs|) < |FanOut(events, outs, net)|
      ensures FanOut(events, outs, net)[Slot(i, j, |outs|)] == Attempt(outs[j], events[i], Send(outs[j], events[i], net(Slot(i, j, |outs|))))
    {
      FanOutSlot(events, outs, net, i, j);
    }
  }

  /** Every event reaches every output: for each pair there is an attempt sending that event there. */
  lemma EveryEventReachesEveryOutput(events: seq<Event>, outs: seq<Output>, net: nat -> SendResult, i: nat, j: nat)
    requires i < |events| && j < |outs|
    ensures exists k :: (0 <= k < |FanOut(events, outs, net)| &&
      FanOut(events, outs, net)[k].event == events[i] && FanOut(events, outs, net)[k].output == outs[j])
  {
    FanOutAt(events, outs, net);
    var k := Slot(i, j, |outs|);
    assert FanOut(events, outs, net)[k].event == events[i];
  }

  /** The events built from `items`, one per item, in order. */
  function Normalised<T>(items: seq<T>, normalise: T -> Event): (r: seq<Event>)
    ensures |r| == |items|
    ensures forall i :: 0 <= i < |items| ==> r[i] == normalise(items[i])
  {
    if items == [] then [] else Normalised(items[..|items| - 1], normalise) + [normalise(items[|items| - 1])]
  }

  /**
   * The nested loop of one tick of `Run`: each fetched item, in order, is
   * turned into an `Event` and sent to every output in list order; a failed
   * `Send` is only logged, so it stops neither the later outputs nor the
   * later items.
   */
  method Dispatch<T>(items: seq<T>, normalise: T -> Event, outs: seq<Output>, net: nat -> SendResult)
    returns (attempts: seq<Attempt>)
    ensures attempts == FanOut(Normalised(items, normalise), outs, net)
    ensures |attempts| == |items| * |outs|
    ensures forall i, j :: 0 <= i < |items| && 0 <= j < |outs| ==>
      Slot(i, j, |outs|) < |attempts| &&
      attempts[Slot(i, j, |outs|)] == Attempt(outs[j], normalise(items[i]), Send(outs[j], normalise(items[i]), net(Slot(i, j, |outs|))))
  {
    attempts := [];
    for i := 0 to |items|
      invariant attempts == FanOut(Normalised(items[..i], normalise), outs, net)
    {
      var e := normalise(items[i]);
      ghost var before := attempts;
      for j := 0 to |outs|
        invariant attempts == before + SendToAll(e, outs[..j], net, i * |outs|)
      {
        var r := Send(outs[j], e, net(i * |outs| + j));
        assert outs[..j + 1][..j] == outs[..j];
        attempts := attempts + [Attempt(outs[j], e, r)];
      }
      assert outs[..|outs|] == outs;
      ghost var done := Normalised(items[..i + 1], normalise);
      assert items[..i + 1][..i] == items[..i];
      assert done == Normalised(items[..i], normalise) + [e];
    }
    assert items[..|items|] == items;
    FanOutAt(Normalised(items, normalise), outs, net);
  }
}
