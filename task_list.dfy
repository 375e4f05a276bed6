/**
 * The list operations the app performs on the stored tasks: `findIndex` by
 * exact string equality and removing the first occurrence of a text.
 */
module TaskList {

  /** No text occurs twice. */
  predicate Distinct(ts: seq<string>)
  {
    forall i, j :: 0 <= i < j < |ts| ==> ts[i] != ts[j]
  }

  /** `ts.findIndex(task => task === x)`: the first index holding `x`, or -1 when there is none. */
  function FindIndex(ts: seq<string>, x: string): (i: int)
    ensures -1 <= i < |ts|
    ensures i == -1 <==> x !in ts
    ensures i >= 0 ==> ts[i] == x && forall j :: 0 <= j < i ==> ts[j] != x
  {
    if ts == [] then -1
    else if ts[0] == x then 0
    else
      var k := FindIndex(ts[1..], x);
      if k == -1 then -1 else k + 1
  }

  /** `ts` with its first occurrence of `x` taken out; `ts` itself when `x` does not occur. */
  function RemoveFirst(ts: seq<string>, x: string): (r: seq<string>)
    ensures |r| == if x in ts then |ts| - 1 else |ts|
  {
    if ts == [] then []
    else if ts[0] == x then ts[1..]
    else [ts[0]] + RemoveFirst(ts[1..], x)
  }

  /** A text that does not occur is not removed from anywhere. */
  lemma {:induction false} RemoveFirstAbsent(ts: seq<string>, x: string)
    requires x !in ts
    ensures RemoveFirst(ts, x) == ts
  {
    if ts != [] {
      assert x !in ts[1..];
      RemoveFirstAbsent(ts[1..], x);
      assert [ts[0]] + ts[1..] == ts;
    }
  }

  /** Removing the first occurrence, where it sits at index `i`, is splicing out index `i`. */
  lemma {:induction false} RemoveFirstAt(ts: seq<string>, x: string, i: nat)
    requires i < |ts| && ts[i] == x
    requires forall j :: 0 <= j < i ==> ts[j] != x
    ensures RemoveFirst(ts, x) == ts[..i] + ts[i + 1..]
  {
    if i > 0 {
      var tail := ts[1..];
      assert ts[0] != x;
      RemoveFirstAt(tail, x, i - 1);
      assert ts[..i] == [ts[0]] + tail[..i - 1];
      assert ts[i + 1..] == tail[i..];
    }
  }

  /**
   * Splicing one element out at the index findIndex reports, when there is one,
   * is removing the first occurrence.
   */
  lemma SpliceAtFindIndex(ts: seq<string>, x: string)
    ensures var i := FindIndex(ts, x);
      RemoveFirst(ts, x) == if i == -1 then ts else ts[..i] + ts[i + 1..]
  {
    var i := FindIndex(ts, x);
    if i == -1 {
      RemoveFirstAbsent(ts, x);
    } else {
      RemoveFirstAt(ts, x, i);
    }
  }

  /** Removing the first occurrence takes exactly one copy of `x` out of the list, if there was one. */
  lemma {:induction false} RemoveFirstMultiset(ts: seq<string>, x: string)
    ensures multiset(RemoveFirst(ts, x)) == multiset(ts) - multiset{x}
  {
    if ts != [] {
      assert ts == [ts[0]] + ts[1..];
      if ts[0] != x {
        RemoveFirstMultiset(ts[1..], x);
      }
    }
  }

  /** When no text repeats, removing the first occurrence of the text at `k` removes index `k`. */
  lemma RemoveFirstDistinct(ts: seq<string>, k: nat)
    requires Distinct(ts) && k < |ts|
    ensures RemoveFirst(ts, ts[k]) == ts[..k] + ts[k + 1..]
  {
    RemoveFirstAt(ts, ts[k], k);
  }

  /**
   * With a repeated text, removing by the text of a later copy at `k` takes out
   * an element at or before the earlier copy at `j`, never the one at `k`.
   */
  lemma RemoveFirstEarlier(ts: seq<string>, j: nat, k: nat)
    requires j < k < |ts| && ts[j] == ts[k]
    ensures exists i :: 0 <= i <= j && RemoveFirst(ts, ts[k]) == ts[..i] + ts[i + 1..]
  {
    var i := FindIndex(ts, ts[k]);
    RemoveFirstAt(ts, ts[k], i);
  }

  /** The smallest instance: in [a, b, a], removing by the last row's text leaves [b, a], not [a, b]. */
  lemma RemoveFirstDuplicate(a: string, b: string)
    requires a != b
    ensures RemoveFirst([a, b, a], a) == [b, a]
    ensures RemoveFirst([a, b, a], a) != [a, b]
  {
    assert [a, b, a][1..] == [b, a];
  }
}
