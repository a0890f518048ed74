/**
 * The watermark filter behind `Imperva.GetNewEvents`
 * (pkg/imperva/imperva.go), stated for a feed of any item type and the
 * function that gives each item its time.
 */
module Watermark {
  import opened Common

  /** The feed items whose time is strictly after the watermark `w`, in feed order. */
  function NewerThan<T>(feed: seq<T>, time: T -> int, w: int): seq<T>
  {
    if feed == [] then []
    else
      var last := feed[|feed| - 1];
      NewerThan(feed[..|feed| - 1], time, w) + (if time(last) > w then [last] else [])
  }

  /** The positions in the feed of the items `NewerThan` keeps. */
  function KeptPositions<T>(feed: seq<T>, time: T -> int, w: int): seq<nat>
  {
    if feed == [] then []
    else KeptPositions(feed[..|feed| - 1], time, w) + (if time(feed[|feed| - 1]) > w then [|feed| - 1] else [])
  }

  function Max(a: int, b: int): int { if a < b then b else a }

  /** The running maximum of `w` and the times of `items`. */
  function MaxTime<T>(w: int, items: seq<T>, time: T -> int): int
  {
    if items == [] then w else Max(MaxTime(w, items[..|items| - 1], time), time(items[|items| - 1]))
  }

  /** The watermark after a successful fetch of `feed` from watermark `w`. */
  function Advanced<T>(w: int, feed: seq<T>, time: T -> int): int
  {
    MaxTime(w, NewerThan(feed, time, w), time)
  }

  lemma {:induction false} KeptPositionsPick<T>(feed: seq<T>, time: T -> int, w: int)
    ensures |KeptPositions(feed, time, w)| == |NewerThan(feed, time, w)|
    ensures forall j :: 0 <= j < |KeptPositions(feed, time, w)| ==>
      KeptPositions(feed, time, w)[j] < |feed| && NewerThan(feed, time, w)[j] == feed[KeptPositions(feed, time, w)[j]]
  {
    if feed != [] {
      var init := feed[..|feed| - 1];
      KeptPositionsPick(init, time, w);
      var p, q := KeptPositions(init, time, w), KeptPositions(feed, time, w);
      var r, r' := NewerThan(init, time, w), NewerThan(feed, time, w);
      forall j | 0 <= j < |q| ensures q[j] < |feed| && r'[j] == feed[q[j]] {
        if j < |p| {
          assert q[j] == p[j] && r'[j] == r[j];
          assert feed[p[j]] == init[p[j]];
        }
      }
    }
  }

  lemma {:induction false} KeptPositionsIncrease<T>(feed: seq<T>, time: T -> int, w: int)
    ensures forall j :: 0 <= j < |KeptPositions(feed, time, w)| ==> KeptPositions(feed, time, w)[j] < |feed|
    ensures forall j, k :: 0 <= j < k < |KeptPositions(feed, time, w)| ==>
      KeptPositions(feed, time, w)[j] < KeptPositions(feed, time, w)[k]
  {
    if feed != [] {
      var init := feed[..|feed| - 1];
      KeptPositionsIncrease(init, time, w);
    }
  }

  lemma {:induction false} KeptPositionsExact<T>(feed: seq<T>, time: T -> int, w: int)
    ensures forall i :: 0 <= i < |feed| ==> (i in KeptPositions(feed, time, w) <==> time(feed[i]) > w)
  {
    if feed != [] {
      var init := feed[..|feed| - 1];
      KeptPositionsExact(init, time, w);
      KeptPositionsIncrease(init, time, w);
      var p, q := KeptPositions(init, time, w), KeptPositions(feed, time, w);
      forall i | 0 <= i < |feed|
        ensures i in q <==> time(feed[i]) > w
      {
        if i < |init| {
          assert feed[i] == init[i];
          assert i != |feed| - 1;
          assert i in q <==> i in p;
        } else {
          assert i !in p;
        }
      }
    }
  }

  /**
   * The result is exactly the feed restricted to the positions whose time is
   * strictly after `w`, in increasing position order: the feed need not be
   * sorted, and every item sharing a new timestamp is kept.
   */
  lemma NewerThanSelects<T>(feed: seq<T>, time: T -> int, w: int)
    ensures |KeptPositions(feed, time, w)| == |NewerThan(feed, time, w)|
    ensures forall j :: 0 <= j < |KeptPositions(feed, time, w)| ==>
      KeptPositions(feed, time, w)[j] < |feed| && NewerThan(feed, time, w)[j] == feed[KeptPositions(feed, time, w)[j]]
    ensures forall j, k :: 0 <= j < k < |KeptPositions(feed, time, w)| ==>
      KeptPositions(feed, time, w)[j] < KeptPositions(feed, time, w)[k]
    ensures forall i :: 0 <= i < |feed| ==> (i in KeptPositions(feed, time, w) <==> time(feed[i]) > w)
  {
    KeptPositionsPick(feed, time, w);
    KeptPositionsIncrease(feed, time, w);
    KeptPositionsExact(feed, time, w);
  }

  /** An item is returned iff it occurs in the feed and its time is strictly after `w`. */
  lemma NewerThanMembers<T>(feed: seq<T>, time: T -> int, w: int, x: T)
    ensures x in NewerThan(feed, time, w) <==> x in feed && time(x) > w
  {
    NewerThanSelects(feed, time, w);
    var r, p := NewerThan(feed, time, w), KeptPositions(feed, time, w);
    if x in r {
      var j :| 0 <= j < |r| && r[j] == x;
      assert feed[p[j]] == x;
      assert p[j] in p;
    }
    if x in feed && time(x) > w {
      var i :| 0 <= i < |feed| && feed[i] == x;
      assert i in p;
      var j :| 0 <= j < |p| && p[j] == i;
      assert r[j] == x;
    }
  }

  /** Every copy of an item after `w` is returned, and none of an item at or before `w`. */
  lemma {:induction false} NewerThanCounts<T>(feed: seq<T>, time: T -> int, w: int, x: T)
    ensures multiset(NewerThan(feed, time, w))[x] == if time(x) > w then multiset(feed)[x] else 0
  {
    if feed != [] {
      var init := feed[..|feed| - 1];
      NewerThanCounts(init, time, w, x);
      assert feed == init + [feed[|feed| - 1]];
    }
  }

  lemma {:induction false} NewerThanAppend<T>(a: seq<T>, b: seq<T>, time: T -> int, w: int)
    ensures NewerThan(a + b, time, w) == NewerThan(a, time, w) + NewerThan(b, time, w)
  {
    if b != [] {
      var b' := b[..|b| - 1];
      NewerThanAppend(a, b', time, w);
      assert (a + b)[..|a + b| - 1] == a + b';
    } else {
      assert a + b == a;
    }
  }

  /**
   * The running maximum is at least `w`, bounds every item's time, and is
   * either `w` itself or the time of one of the items.
   */
  lemma {:induction false} MaxTimeIsMax<T>(w: int, items: seq<T>, time: T -> int)
    ensures MaxTime(w, items, time) >= w
    ensures forall i :: 0 <= i < |items| ==> time(items[i]) <= MaxTime(w, items, time)
    ensures MaxTime(w, items, time) == w || exists i :: 0 <= i < |items| && time(items[i]) == MaxTime(w, items, time)
  {
    if items != [] {
      var init := items[..|items| - 1];
      MaxTimeIsMax(w, init, time);
      assert forall i :: 0 <= i < |init| ==> items[i] == init[i];
    }
  }

  /**
   * After a successful fetch the watermark is the larger of the old one and
   * the latest returned time: it never decreases, it stays put when nothing
   * is returned, and no feed item is after it.
   */
  lemma AdvancedIsMax<T>(w: int, feed: seq<T>, time: T -> int)
    ensures Advanced(w, feed, time) >= w
    ensures NewerThan(feed, time, w) == [] ==> Advanced(w, feed, time) == w
    ensures forall j :: 0 <= j < |NewerThan(feed, time, w)| ==> time(NewerThan(feed, time, w)[j]) <= Advanced(w, feed, time)
    ensures Advanced(w, feed, time) == w ||
      exists j :: 0 <= j < |NewerThan(feed, time, w)| && time(NewerThan(feed, time, w)[j]) == Advanced(w, feed, time)
    ensures forall i :: 0 <= i < |feed| ==> time(feed[i]) <= Advanced(w, feed, time)
  {
    var r := NewerThan(feed, time, w);
    MaxTimeIsMax(w, r, time);
    forall i | 0 <= i < |feed| ensures time(feed[i]) <= Advanced(w, feed, time) {
      NewerThanMembers(feed, time, w, feed[i]);
      if time(feed[i]) > w {
        var j :| 0 <= j < |r| && r[j] == feed[i];
      }
    }
  }

  /** When no feed item is after `w`, nothing is returned. */
  lemma {:induction false} NothingNewer<T>(feed: seq<T>, time: T -> int, w: int)
    requires forall i :: 0 <= i < |feed| ==> time(feed[i]) <= w
    ensures NewerThan(feed, time, w) == []
  {
    if feed != [] {
      NothingNewer(feed[..|feed| - 1], time, w);
    }
  }

  /** Fetching the same feed again returns nothing and keeps the watermark. */
  lemma Idempotent<T>(w: int, feed: seq<T>, time: T -> int)
    ensures NewerThan(feed, time, Advanced(w, feed, time)) == []
    ensures Advanced(Advanced(w, feed, time), feed, time) == Advanced(w, feed, time)
  {
    AdvancedIsMax(w, feed, time);
    NothingNewer(feed, time, Advanced(w, feed, time));
  }

  /** An item at or before the watermark can be dropped from the feed without changing the outcome. */
  lemma OldItemIrrelevant<T>(a: seq<T>, x: T, b: seq<T>, time: T -> int, w: int)
    requires time(x) <= w
    ensures NewerThan(a + [x] + b, time, w) == NewerThan(a + b, time, w)
    ensures Advanced(w, a + [x] + b, time) == Advanced(w, a + b, time)
  {
    NewerThanAppend(a + [x], b, time, w);
    NewerThanAppend(a, [x], time, w);
    NewerThanAppend(a, b, time, w);
    assert NewerThan([x], time, w) == [] by {
      assert [x][..0] == [];
    }
  }

  /**
   * Items 10 s before, 5 s after and 20 s after the watermark: the last two
   * are returned and the watermark moves to the latest of them.
   */
  lemma ThreeItemScenario<T>(time: T -> int, t0: int, e1: T, e2: T, e3: T)
    requires time(e1) == t0 - 10 * Second
    requires time(e2) == t0 + 5 * Second
    requires time(e3) == t0 + 20 * Second
    ensures NewerThan([e1, e2, e3], time, t0) == [e2, e3]
    ensures Advanced(t0, [e1, e2, e3], time) == t0 + 20 * Second
  {
    assert Second > 0;
    var f1, f2, f3 := [e1], [e1, e2], [e1, e2, e3];
    assert f1[..0] == [] && f2[..1] == f1 && f3[..2] == f2;
    assert f1[0] == e1 && f2[1] == e2 && f3[2] == e3;
    var n1 := NewerThan(f1, time, t0);
    assert n1 == NewerThan(f1[..0], time, t0) + (if time(e1) > t0 then [e1] else []);
    assert NewerThan(f1[..0], time, t0) == [];
    assert !(time(e1) > t0);
    assert n1 == [];
    var n2 := NewerThan(f2, time, t0);
    assert n2 == [e2];
    assert NewerThan(f3, time, t0) == [e2, e3];
    var m1 := MaxTime(t0, [e2], time);
    assert [e2][..0] == [];
    assert m1 == Max(MaxTime(t0, [e2][..0], time), time(e2));
    assert MaxTime(t0, [e2][..0], time) == t0;
    assert m1 == t0 + 5 * Second;
    assert [e2, e3][..1] == [e2];
  }
}
