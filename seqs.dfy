/**
 * The two iterator shapes the handlers are built from: `iter().filter(..).collect()`
 * and "the first row that satisfies a condition" (`.filter(..).first()` in a query).
 */
module Seqs {
  import opened Wrappers

  /** The elements of `s` that satisfy `keep`, in their original order. */
  function Filter<T(!new)>(s: seq<T>, keep: T -> bool): (r: seq<T>)
    ensures |r| <= |s|
    ensures forall x :: x in r <==> x in s && keep(x)
  {
    if s == [] then []
    else if keep(s[0]) then [s[0]] + Filter(s[1..], keep)
    else Filter(s[1..], keep)
  }

  /** The positions of `s` whose elements satisfy `keep`, in increasing order. */
  function KeptIndices<T>(s: seq<T>, keep: T -> bool): (r: seq<nat>)
    ensures forall k :: 0 <= k < |r| ==> r[k] < |s|
  {
    if s == [] then []
    else (if keep(s[0]) then [0] else []) + Shift(KeptIndices(s[1..], keep))
  }

  /** Each position moved one place to the right. */
  function Shift(idx: seq<nat>): (r: seq<nat>)
    ensures |r| == |idx|
    ensures forall k :: 0 <= k < |r| ==> r[k] == idx[k] + 1
  {
    seq(|idx|, k requires 0 <= k < |idx| => idx[k] + 1)
  }

  /** `r` is `s` read at the strictly increasing positions `idx`. */
  ghost predicate SelectedAt<T>(r: seq<T>, s: seq<T>, idx: seq<nat>)
  {
    && |idx| == |r|
    && (forall k :: 0 <= k < |idx| ==> idx[k] < |s| && s[idx[k]] == r[k])
    && (forall k, l :: 0 <= k < l < |idx| ==> idx[k] < idx[l])
  }

  /** `KeptIndices` lists exactly the positions whose element is kept. */
  lemma {:induction false} KeptIndicesExact<T>(s: seq<T>, keep: T -> bool)
    ensures forall i :: 0 <= i < |s| ==> (i in KeptIndices(s, keep) <==> keep(s[i]))
  {
    if s != [] {
      var rest := KeptIndices(s[1..], keep);
      KeptIndicesExact(s[1..], keep);
      var shifted := Shift(rest);
      forall i | 0 <= i < |s|
        ensures i in shifted <==> 1 <= i && i - 1 in rest
      {
        if 1 <= i && i - 1 in rest {
          var k :| 0 <= k < |rest| && rest[k] == i - 1;
          assert shifted[k] == i;
        }
      }
    }
  }

  /** A selection from the tail of `s` is a selection from `s` at the shifted positions. */
  lemma SelectedAtShift<T>(r: seq<T>, s: seq<T>, idx: seq<nat>)
    requires s != [] && SelectedAt(r, s[1..], idx)
    ensures SelectedAt(r, s, Shift(idx))
  {
    forall k | 0 <= k < |idx|
      ensures s[Shift(idx)[k]] == r[k]
    {
      assert s[idx[k] + 1] == s[1..][idx[k]];
    }
  }

  /** A selection at positions after 0 extends by the first element at position 0. */
  lemma SelectedAtCons<T>(r: seq<T>, s: seq<T>, idx: seq<nat>)
    requires s != [] && SelectedAt(r, s, idx)
    requires forall k :: 0 <= k < |idx| ==> idx[k] > 0
    ensures SelectedAt([s[0]] + r, s, [0] + idx)
  {
    var r', idx' := [s[0]] + r, [0] + idx;
    forall k | 0 < k < |idx'|
      ensures idx'[k] < |s| && s[idx'[k]] == r'[k]
    {
      assert idx'[k] == idx[k - 1] && r'[k] == r[k - 1];
    }
    forall k, l | 0 <= k < l < |idx'|
      ensures idx'[k] < idx'[l]
    {
      assert idx'[l] == idx[l - 1];
      if k > 0 {
        assert idx'[k] == idx[k - 1];
      }
    }
  }

  /** Filtering keeps order: its result is `s` read at the kept positions, in increasing order. */
  lemma {:induction false} FilterSelects<T(!new)>(s: seq<T>, keep: T -> bool)
    ensures SelectedAt(Filter(s, keep), s, KeptIndices(s, keep))
  {
    if s != [] {
      var tail := s[1..];
      FilterSelects(tail, keep);
      SelectedAtShift(Filter(tail, keep), s, KeptIndices(tail, keep));
      if keep(s[0]) {
        SelectedAtCons(Filter(tail, keep), s, Shift(KeptIndices(tail, keep)));
      }
    }
  }

  lemma {:induction false} FilterAppend<T(!new)>(a: seq<T>, b: seq<T>, keep: T -> bool)
    ensures Filter(a + b, keep) == Filter(a, keep) + Filter(b, keep)
  {
    if a == [] {
      assert a + b == b;
    } else {
      assert (a + b)[0] == a[0];
      assert (a + b)[1..] == a[1..] + b;
      FilterAppend(a[1..], b, keep);
    }
  }

  /** Filtering a sequence none of whose elements is rejected changes nothing. */
  lemma {:induction false} FilterAllKept<T(!new)>(s: seq<T>, keep: T -> bool)
    requires forall x :: x in s ==> keep(x)
    ensures Filter(s, keep) == s
  {
    if s != [] {
      assert s == [s[0]] + s[1..];
      FilterAllKept(s[1..], keep);
    }
  }

  /** Filtering a sequence none of whose elements is kept leaves nothing. */
  lemma {:induction false} FilterNoneKept<T(!new)>(s: seq<T>, keep: T -> bool)
    requires forall x :: x in s ==> !keep(x)
    ensures Filter(s, keep) == []
  {
    if s != [] {
      FilterNoneKept(s[1..], keep);
    }
  }

  lemma FilterIdempotent<T(!new)>(s: seq<T>, keep: T -> bool)
    ensures Filter(Filter(s, keep), keep) == Filter(s, keep)
  {
    FilterAllKept(Filter(s, keep), keep);
  }

  /** The first element of `s` that satisfies `p`, if there is one. */
  function First<T(!new)>(s: seq<T>, p: T -> bool): (r: Option<T>)
    ensures r.Some? ==> r.value in s && p(r.value)
    ensures r.None? <==> forall x :: x in s ==> !p(x)
  {
    if s == [] then None
    else if p(s[0]) then Some(s[0])
    else First(s[1..], p)
  }

  /** `First` picks the element at the earliest position that satisfies `p`. */
  lemma {:induction false} FirstEarliest<T(!new)>(s: seq<T>, p: T -> bool, i: nat)
    requires i < |s| && p(s[i])
    requires forall j :: 0 <= j < i ==> !p(s[j])
    ensures First(s, p) == Some(s[i])
  {
    if i > 0 {
      FirstEarliest(s[1..], p, i - 1);
    }
  }

  lemma {:induction false} FirstAppend<T(!new)>(a: seq<T>, b: seq<T>, p: T -> bool)
    ensures First(a + b, p) == if First(a, p).Some? then First(a, p) else First(b, p)
  {
    if a == [] {
      assert a + b == b;
    } else {
      assert (a + b)[0] == a[0];
      assert (a + b)[1..] == a[1..] + b;
      FirstAppend(a[1..], b, p);
    }
  }

  /** No two positions of `s` carry the same key. */
  ghost predicate UniqueBy<T, K>(s: seq<T>, key: T -> K)
  {
    forall i, j :: 0 <= i < |s| && 0 <= j < |s| && key(s[i]) == key(s[j]) ==> i == j
  }

  /** Filtering keeps keys unique, since it only drops positions. */
  lemma FilterUniqueBy<T(!new), K>(s: seq<T>, keep: T -> bool, key: T -> K)
    requires UniqueBy(s, key)
    ensures UniqueBy(Filter(s, keep), key)
  {
    var r, idx := Filter(s, keep), KeptIndices(s, keep);
    FilterSelects(s, keep);
    forall i, j | 0 <= i < |r| && 0 <= j < |r| && key(r[i]) == key(r[j])
      ensures i == j
    {
      assert key(s[idx[i]]) == key(s[idx[j]]);
    }
  }
}
