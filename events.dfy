/** The day's events and the lookups the board performs on them. */
module Events {

  /** A slot is either empty (`null` in the page) or holds one event. */
  datatype Option<+T> = None | Some(value: T)

  /**
   * One historical event of the day's catalog. Only what the board logic
   * looks at is kept: the identity `id` and the calendar date, reduced to an
   * integer sort key that orders dates chronologically (equal dates have
   * equal keys).
   */
  datatype Event = Event(id: string, date: int)

  /** No two events of `es` share an id. */
  ghost predicate DistinctIds(es: seq<Event>) {
    forall i, j :: 0 <= i < j < |es| ==> es[i].id != es[j].id
  }

  /** `es.findIndex(e => e.id === id)`: the first index holding `id`, or -1. */
  function FindById(es: seq<Event>, id: string): (k: int)
    ensures -1 <= k < |es|
    ensures k == -1 <==> forall i :: 0 <= i < |es| ==> es[i].id != id
    ensures 0 <= k ==> es[k].id == id && forall i :: 0 <= i < k ==> es[i].id != id
  {
    if |es| == 0 then -1
    else if es[0].id == id then 0
    else
      var k := FindById(es[1..], id);
      if k == -1 then -1 else k + 1
  }

  /** `es.splice(k, 1)`: `es` without its element at `k`. */
  function Splice(es: seq<Event>, k: nat): (r: seq<Event>)
    requires k < |es|
    ensures |r| == |es| - 1
    ensures multiset(r) + multiset{es[k]} == multiset(es)
    ensures forall i :: 0 <= i < |r| ==> r[i] == if i < k then es[i] else es[i + 1]
  {
    assert es == es[..k] + [es[k]] + es[k + 1..];
    es[..k] + es[k + 1..]
  }

  /** Two events of a catalog with distinct ids that share an id are the same event. */
  lemma SameIdSameEvent(es: seq<Event>, a: Event, b: Event)
    requires DistinctIds(es) && a in es && b in es && a.id == b.id
    ensures a == b
  {
    var i :| 0 <= i < |es| && es[i] == a;
    var j :| 0 <= j < |es| && es[j] == b;
  }

  /** In a sequence with distinct ids every event occurs at most once. */
  lemma {:induction false} DistinctOccursOnce(es: seq<Event>, x: Event)
    requires DistinctIds(es)
    ensures multiset(es)[x] <= 1
  {
    if es != [] {
      assert es == [es[0]] + es[1..];
      assert DistinctIds(es[1..]) by {
        forall i, j | 0 <= i < j < |es[1..]| ensures es[1..][i].id != es[1..][j].id {
          assert es[1..][i] == es[i + 1] && es[1..][j] == es[j + 1];
        }
      }
      DistinctOccursOnce(es[1..], x);
      if es[0] == x {
        assert x !in es[1..] by {
          forall i | 0 <= i < |es[1..]| ensures es[1..][i] != x {
            assert es[1..][i] == es[i + 1];
          }
        }
      }
    }
  }

  /** An event found at two positions occurs at least twice. */
  lemma RepeatOccursTwice(es: seq<Event>, i: nat, j: nat)
    requires i < j < |es| && es[i] == es[j]
    ensures multiset(es)[es[i]] >= 2
  {
    assert es == es[..j] + es[j..];
    assert es[i] in es[..j];
    assert es[j..][0] == es[j];
  }
}
