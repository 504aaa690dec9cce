/** Sequence helpers shared by the model: distinctness, first-occurrence
    de-duplication (the iteration order of a JavaScript `Set`) and index lookup. */
module Seqs {

  datatype Option<T> = None | Some(value: T)

  /** No element occurs twice. */
  predicate Distinct<T(==)>(s: seq<T>) {
    forall i, j :: 0 <= i < j < |s| ==> s[i] != s[j]
  }

  /** The index of the first occurrence of `x` in `s`. */
  function IndexOf<T(==)>(s: seq<T>, x: T): (i: nat)
    requires x in s
    ensures i < |s| && s[i] == x && x !in s[..i]
  {
    if s[0] == x then 0 else 1 + IndexOf(s[1..], x)
  }

  /** The elements of `s` in order of first occurrence, each once: what
      `Array.from(set)` yields after adding the elements of `s` to an empty
      `Set` one by one. */
  function Dedup<T(==,!new)>(s: seq<T>): (r: seq<T>)
    ensures |r| <= |s|
    ensures forall x :: x in r <==> x in s
    ensures Distinct(r)
  {
    if s == [] then []
    else
      var p := Dedup(s[..|s| - 1]);
      if s[|s| - 1] in p then p else p + [s[|s| - 1]]
  }

  /** De-duplicating one element more. */
  lemma DedupSnoc<T(!new)>(s: seq<T>, x: T)
    ensures Dedup(s + [x]) == if x in Dedup(s) then Dedup(s) else Dedup(s) + [x]
  {
    assert (s + [x])[..|s|] == s;
  }

  /** Adding an element at the end does not move the first occurrence of an
      element that was already there. */
  lemma IndexOfSnoc<T>(s: seq<T>, y: T, x: T)
    requires x in s
    ensures x in s + [y] && IndexOf(s + [y], x) == IndexOf(s, x)
  {
    var i := IndexOf(s, x);
    assert (s + [y])[i] == x;
    assert (s + [y])[..i] == s[..i];
  }

  /** Two elements already de-duplicated keep their order when one more
      element is added. */
  lemma DedupKeepStep<T(!new)>(s: seq<T>, y: T, i: nat, j: nat)
    requires i < j < |Dedup(s)|
    requires IndexOf(s, Dedup(s)[i]) < IndexOf(s, Dedup(s)[j])
    ensures j < |Dedup(s + [y])|
    ensures IndexOf(s + [y], Dedup(s + [y])[i]) < IndexOf(s + [y], Dedup(s + [y])[j])
  {
    DedupSnoc(s, y);
    var p, r := Dedup(s), Dedup(s + [y]);
    assert r[i] == p[i] && r[j] == p[j];
    assert p[i] in p && p[j] in p;
    IndexOfSnoc(s, y, p[i]);
    IndexOfSnoc(s, y, p[j]);
  }

  /** A new element goes after every element already de-duplicated. */
  lemma DedupNewStep<T(!new)>(s: seq<T>, y: T, i: nat)
    requires y !in Dedup(s) && i < |Dedup(s)|
    ensures |Dedup(s + [y])| == |Dedup(s)| + 1
    ensures IndexOf(s + [y], Dedup(s + [y])[i]) < IndexOf(s + [y], Dedup(s + [y])[|Dedup(s)|])
  {
    DedupSnoc(s, y);
    var p, r := Dedup(s), Dedup(s + [y]);
    assert r[i] == p[i] && p[i] in p;
    assert r[|p|] == y && y !in s;
    IndexOfSnoc(s, y, p[i]);
    assert IndexOf(s + [y], y) == |s| by {
      assert (s + [y])[..|s|] == s;
    }
  }

  /** Two de-duplicated elements are in order of first occurrence. */
  lemma {:induction false} DedupPairOrder<T(!new)>(s: seq<T>, i: nat, j: nat)
    requires i < j < |Dedup(s)|
    ensures IndexOf(s, Dedup(s)[i]) < IndexOf(s, Dedup(s)[j])
  {
    var s', y := s[..|s| - 1], s[|s| - 1];
    assert s' + [y] == s;
    DedupSnoc(s', y);
    if y in Dedup(s') || j < |Dedup(s')| {
      DedupPairOrder(s', i, j);
      DedupKeepStep(s', y, i, j);
    } else {
      DedupNewStep(s', y, i);
    }
  }

  /** De-duplication keeps the order of first occurrence: an element that
      comes earlier in the result occurs for the first time earlier in the
      input. Together with `Distinct` and equal membership this determines
      `Dedup(s)` completely. */
  lemma DedupOrder<T(!new)>(s: seq<T>)
    ensures forall i, j :: 0 <= i < j < |Dedup(s)| ==>
      IndexOf(s, Dedup(s)[i]) < IndexOf(s, Dedup(s)[j])
  {
    forall i, j | 0 <= i < j < |Dedup(s)|
      ensures IndexOf(s, Dedup(s)[i]) < IndexOf(s, Dedup(s)[j])
    {
      DedupPairOrder(s, i, j);
    }
  }

  /** The map of `f` over `s`. */
  function Map<T, U>(f: T -> U, s: seq<T>): (r: seq<U>)
    ensures |r| == |s| && forall i :: 0 <= i < |s| ==> r[i] == f(s[i])
  {
    seq(|s|, i requires 0 <= i < |s| => f(s[i]))
  }

  /** The elements of `s` that satisfy `p`, in order: `s.filter(p)`. */
  function Filter<T(!new)>(p: T -> bool, s: seq<T>): (r: seq<T>)
    ensures |r| <= |s|
    ensures forall x :: x in r <==> x in s && p(x)
  {
    if s == [] then []
    else (if p(s[0]) then [s[0]] else []) + Filter(p, s[1..])
  }

  /** Filtering a list one element longer. */
  lemma {:induction false} FilterSnoc<T(!new)>(p: T -> bool, s: seq<T>, x: T)
    ensures Filter(p, s + [x]) == Filter(p, s) + (if p(x) then [x] else [])
  {
    if s != [] {
      assert (s + [x])[1..] == s[1..] + [x];
      FilterSnoc(p, s[1..], x);
    } else {
      assert [x][1..] == [];
    }
  }

  /** Past a head it differs from, an element is found one place later in
      the tail. */
  lemma IndexOfTail<T>(s: seq<T>, x: T)
    requires s != [] && x in s[1..] && x != s[0]
    ensures IndexOf(s, x) == 1 + IndexOf(s[1..], x)
  {
  }

  /** The tail of a list without repetitions has none either, and does
      not hold the head. */
  lemma DistinctTail<T>(s: seq<T>)
    requires s != [] && Distinct(s)
    ensures Distinct(s[1..]) && s[0] !in s[1..]
  {
    var t := s[1..];
    forall i, j | 0 <= i < j < |t| ensures t[i] != t[j] {
      assert t[i] == s[i + 1] && t[j] == s[j + 1];
    }
    forall k | 0 <= k < |t| ensures t[k] != s[0] {
      assert t[k] == s[k + 1];
    }
  }

  /** An element kept from the tail of a list without repetitions is found
      one place later in the whole list. */
  lemma FilterTailIndex<T(!new)>(p: T -> bool, s: seq<T>, k: nat)
    requires s != [] && Distinct(s) && k < |Filter(p, s[1..])|
    ensures var x := Filter(p, s[1..])[k];
      x in s && x in s[1..] && IndexOf(s, x) == 1 + IndexOf(s[1..], x)
  {
    DistinctTail(s);
    var x := Filter(p, s[1..])[k];
    assert x in s[1..];
    IndexOfTail(s, x);
  }

  /** A kept head comes before every element kept from the tail. */
  lemma FilterHeadStep<T(!new)>(p: T -> bool, s: seq<T>, j: nat)
    requires s != [] && Distinct(s) && p(s[0]) && 0 < j <= |Filter(p, s[1..])|
    ensures |Filter(p, s)| == 1 + |Filter(p, s[1..])|
    ensures IndexOf(s, Filter(p, s)[0]) < IndexOf(s, Filter(p, s)[j])
  {
    var r, ft := Filter(p, s), Filter(p, s[1..]);
    assert r == [s[0]] + ft;
    assert r[0] == s[0] && r[j] == ft[j - 1];
    FilterTailIndex(p, s, j - 1);
  }

  /** Two elements kept after a kept head keep their order. */
  lemma FilterKeepStep<T(!new)>(p: T -> bool, s: seq<T>, i: nat, j: nat)
    requires s != [] && Distinct(s) && p(s[0]) && 0 < i < j <= |Filter(p, s[1..])|
    requires IndexOf(s[1..], Filter(p, s[1..])[i - 1]) < IndexOf(s[1..], Filter(p, s[1..])[j - 1])
    ensures IndexOf(s, Filter(p, s)[i]) < IndexOf(s, Filter(p, s)[j])
  {
    var r, ft := Filter(p, s), Filter(p, s[1..]);
    assert r == [s[0]] + ft;
    assert r[i] == ft[i - 1] && r[j] == ft[j - 1];
    FilterTailIndex(p, s, i - 1);
    FilterTailIndex(p, s, j - 1);
  }

  /** Two elements kept after a dropped head keep their order. */
  lemma FilterSkipStep<T(!new)>(p: T -> bool, s: seq<T>, i: nat, j: nat)
    requires s != [] && Distinct(s) && !p(s[0]) && i < j < |Filter(p, s[1..])|
    requires IndexOf(s[1..], Filter(p, s[1..])[i]) < IndexOf(s[1..], Filter(p, s[1..])[j])
    ensures IndexOf(s, Filter(p, s)[i]) < IndexOf(s, Filter(p, s)[j])
  {
    assert Filter(p, s) == Filter(p, s[1..]);
    FilterTailIndex(p, s, i);
    FilterTailIndex(p, s, j);
  }

  /** Two kept elements keep their relative order. */
  lemma {:induction false} FilterPairOrder<T(!new)>(p: T -> bool, s: seq<T>, i: nat, j: nat)
    requires Distinct(s) && i < j < |Filter(p, s)|
    ensures IndexOf(s, Filter(p, s)[i]) < IndexOf(s, Filter(p, s)[j])
  {
    DistinctTail(s);
    if p(s[0]) {
      assert |Filter(p, s)| == 1 + |Filter(p, s[1..])|;
      if i == 0 {
        FilterHeadStep(p, s, j);
      } else {
        FilterPairOrder(p, s[1..], i - 1, j - 1);
        FilterKeepStep(p, s, i, j);
      }
    } else {
      assert Filter(p, s) == Filter(p, s[1..]);
      FilterPairOrder(p, s[1..], i, j);
      FilterSkipStep(p, s, i, j);
    }
  }

  /** Filtering keeps the relative order of the elements of a list without
      repetitions. */
  lemma FilterOrder<T(!new)>(p: T -> bool, s: seq<T>)
    requires Distinct(s)
    ensures Distinct(Filter(p, s))
    ensures forall i, j :: 0 <= i < j < |Filter(p, s)| ==>
      IndexOf(s, Filter(p, s)[i]) < IndexOf(s, Filter(p, s)[j])
  {
    var r := Filter(p, s);
    forall i, j | 0 <= i < j < |r|
      ensures IndexOf(s, r[i]) < IndexOf(s, r[j]) && r[i] != r[j]
    {
      FilterPairOrder(p, s, i, j);
    }
  }
}
