/**
 * The normalised notification record that the poller hands to every output
 * (pkg/common/event.go).
 */
module Common {
  import opened Wrappers

  /**
   * `time` is an instant in nanoseconds since 0001-01-01 00:00:00 UTC, so
   * that Go's zero `time.Time` is 0. An `Event` is a value: rendering it
   * cannot change its time, title or body.
   */
  datatype Event = Event(time: int, title: string, body: string)

  /** One second in the unit of `Event.time`. */
  const Second: int := 1_000_000_000

  /** `Event.String`: the title, then ": ", then the body. */
  function EventString(e: Event): (r: string)
    ensures |r| == |e.title| + |e.body| + 2
    ensures r[..|e.title|] == e.title
    ensures r[|e.title|..|e.title| + 2] == ": "
    ensures r[|e.title| + 2..] == e.body
  {
    e.title + ": " + e.body
  }

  /** Does `s` contain the separator ": " somewhere? */
  predicate HasSeparator(s: string) {
    exists i :: 0 <= i < |s| - 1 && s[i] == ':' && s[i + 1] == ' '
  }

  /**
   * Splits a rendered event at the first ": ". This is the inverse of
   * `EventString` for titles that do not themselves contain ": ".
   */
  function SplitRendered(s: string): (r: Option<(string, string)>)
    ensures r.Some? ==> s == r.value.0 + ": " + r.value.1 && !HasSeparator(r.value.0)
    ensures r.None? ==> !HasSeparator(s)
  {
    if |s| < 2 then None
    else if s[0] == ':' && s[1] == ' ' then Some(([], s[2..]))
    else
      match SplitRendered(s[1..])
      case None =>
        assert forall i :: 1 <= i < |s| - 1 ==> s[i] == s[1..][i - 1];
        None
      case Some(p) =>
        assert forall i :: 1 <= i < |[s[0]] + p.0| ==> ([s[0]] + p.0)[i] == p.0[i - 1];
        Some(([s[0]] + p.0, p.1))
  }

  /** Rendering loses nothing when the title has no ": " of its own. */
  lemma {:induction false} RenderedSplitsBack(e: Event)
    requires !HasSeparator(e.title)
    ensures SplitRendered(EventString(e)) == Some((e.title, e.body))
    decreases |e.title|
  {
    if e.title != [] {
      var t := e.title;
      var s := EventString(e);
      var rest := Event(e.time, t[1..], e.body);
      assert s[0] == t[0];
      assert s[1] == if |t| >= 2 then t[1] else ':';
      assert !(t[0] == ':' && |t| >= 2 && t[1] == ' ');
      forall i | 0 <= i < |t[1..]| - 1
        ensures !(t[1..][i] == ':' && t[1..][i + 1] == ' ')
      {
        assert t[1..][i] == t[i + 1] && t[1..][i + 1] == t[i + 2];
      }
      RenderedSplitsBack(rest);
      assert s[1..] == EventString(rest);
      assert [t[0]] + t[1..] == t;
    }
  }
}
