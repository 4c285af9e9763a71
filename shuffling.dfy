/** The Fisher-Yates shuffle the room runs over the role pool and over the
    policy deck. The floating-point random source is replaced by an oracle:
    `d[i]` is the index `j` the shuffle picks at step `i`, and like
    `Math.floor(Math.random() * (i + 1))` it always lies in `[0, i]`. */
module Shuffling {

  /** The picks of one shuffle, indexed by step. */
  type Draws = d: seq<nat> | forall i | 0 <= i < |d| :: d[i] <= i witness []

  /** Exchange the elements at `i` and `j`. */
  function Swap<T>(s: seq<T>, i: nat, j: nat): (r: seq<T>)
    requires i < |s| && j < |s|
    ensures |r| == |s| && r[i] == s[j] && r[j] == s[i]
    ensures forall k | 0 <= k < |s| && k != i && k != j :: r[k] == s[k]
  {
    s[i := s[j]][j := s[i]]
  }

  /** A swap only reorders. */
  lemma SwapPermutes<T>(s: seq<T>, i: nat, j: nat)
    requires i < |s| && j < |s|
    ensures multiset(Swap(s, i, j)) == multiset(s)
  {
    var t := s[i := s[j]];
    assert multiset(t) == multiset(s) - multiset{s[i]} + multiset{s[j]};
    assert multiset(t[j := s[i]]) == multiset(t) - multiset{t[j]} + multiset{s[i]};
  }

  /** What is left of the shuffle when steps `i`, `i - 1`, ..., `1` remain to be done. */
  function ShuffleFrom<T>(s: seq<T>, d: Draws, i: nat): seq<T>
    requires i < |s| && i < |d|
    decreases i
  {
    if i == 0 then s else ShuffleFrom(Swap(s, i, d[i]), d, i - 1)
  }

  /** The whole shuffle: steps `|s| - 1` down to `1`. */
  function Shuffle<T>(s: seq<T>, d: Draws): seq<T>
    requires |s| <= |d|
  {
    if |s| == 0 then s else ShuffleFrom(s, d, |s| - 1)
  }

  lemma {:induction false} ShuffleFromPermutes<T>(s: seq<T>, d: Draws, i: nat)
    requires i < |s| && i < |d|
    ensures |ShuffleFrom(s, d, i)| == |s|
    ensures multiset(ShuffleFrom(s, d, i)) == multiset(s)
    decreases i
  {
    if i > 0 {
      SwapPermutes(s, i, d[i]);
      ShuffleFromPermutes(Swap(s, i, d[i]), d, i - 1);
    }
  }

  /** Whatever the picks, the shuffle only permutes its input. */
  lemma ShufflePermutes<T>(s: seq<T>, d: Draws)
    requires |s| <= |d|
    ensures |Shuffle(s, d)| == |s|
    ensures multiset(Shuffle(s, d)) == multiset(s)
  {
    if |s| > 0 {
      ShuffleFromPermutes(s, d, |s| - 1);
    }
  }

  /** The in-place loop: for `i` from the last index down to 1, swap `a[i]` with `a[d[i]]`. */
  method ShuffleInPlace<T>(a: array<T>, d: Draws)
    requires a.Length <= |d|
    modifies a
    ensures a[..] == Shuffle(old(a[..]), d)
    ensures multiset(a[..]) == multiset(old(a[..]))
  {
    ShufflePermutes(a[..], d);
    if a.Length == 0 {
      return;
    }
    var i := a.Length - 1;
    while i > 0
      invariant 0 <= i < a.Length
      invariant ShuffleFrom(a[..], d, i) == Shuffle(old(a[..]), d)
    {
      var j := d[i];
      ghost var before := a[..];
      var t := a[i];
      a[i] := a[j];
      a[j] := t;
      assert a[..] == Swap(before, i, j) by {
        assert a[..] == before[i := before[j]][j := before[i]];
      }
      assert ShuffleFrom(before, d, i) == ShuffleFrom(a[..], d, i - 1);
      i := i - 1;
    }
  }
}
