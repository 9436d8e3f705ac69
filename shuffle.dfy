/** The Fisher-Yates shuffle the page uses to deal the pool. */
module Shuffle {
  import opened Events

  /**
   * Copies `events` into a fresh array and walks it from the last index down
   * to 1, swapping each element with one at a position `j` in `[0, i]`. The
   * random draw is a nondeterministic choice, so the proof covers every
   * sequence of draws. The input is a value and cannot be altered.
   */
  method ShuffleArray(events: seq<Event>) returns (shuffled: seq<Event>)
    ensures |shuffled| == |events|
    ensures multiset(shuffled) == multiset(events)
  {
    var a := new Event[|events|](k requires 0 <= k < |events| => events[k]);
    assert a[..] == events;
    var i := a.Length - 1;
    while i > 0
      invariant -1 <= i < a.Length
      invariant multiset(a[..]) == multiset(events)
    {
      var j :| 0 <= j <= i;
      a[i], a[j] := a[j], a[i];
      i := i - 1;
    }
    shuffled := a[..];
  }
}
