/** `splitToGlobalAndLocal`, the reducer that sorts page headers into global
    (directory wildcard) headers, merged per web path, and local (index
    page) headers, kept one per page. */
module HeaderSplit {
  import opened Seqs
  import opened Policies
  import opened FileProcessor

  /** The web path of each header, in order. */
  function WebPaths(hs: seq<Header>): (ps: seq<string>)
    ensures |ps| == |hs| && forall i :: 0 <= i < |hs| ==> ps[i] == hs[i].webPath
  {
    seq(|hs|, i requires 0 <= i < |hs| => hs[i].webPath)
  }

  predicate IsGlobal(h: Header) {
    h.globalCSP
  }

  predicate IsLocal(h: Header) {
    !h.globalCSP
  }

  /** `headers.findIndex(({ webPath }) => webPath === w)`: the first index
      holding `w`, or -1 when there is none. */
  function FindIndex(hs: seq<Header>, w: string): (i: int)
    ensures -1 <= i < |hs|
    ensures i == -1 <==> w !in WebPaths(hs)
    ensures i >= 0 ==> hs[i].webPath == w && forall k :: 0 <= k < i ==> hs[k].webPath != w
  {
    if hs == [] then -1
    else if hs[0].webPath == w then 0
    else
      var j := FindIndex(hs[1..], w);
      WebPathsTail(hs);
      if j == -1 then -1 else j + 1
  }

  /** The web paths of a list are its first one followed by those of its
      tail. */
  lemma WebPathsTail(hs: seq<Header>)
    requires hs != []
    ensures WebPaths(hs) == [hs[0].webPath] + WebPaths(hs[1..])
  {
  }

  /** The existing entry after a header with the same web path arrived: the
      new header's script and style sources appended to the entry's own. */
  function Absorb(existing: Header, header: Header): (merged: Header)
    ensures merged.webPath == existing.webPath && merged.globalCSP == existing.globalCSP
    ensures var (e, h, m) := (existing.cspObject, header.cspObject, merged.cspObject);
      && |m.scriptSrc| == |e.scriptSrc| + |h.scriptSrc| && |m.styleSrc| == |e.styleSrc| + |h.styleSrc|
      && m.scriptSrc[..|e.scriptSrc|] == e.scriptSrc && m.scriptSrc[|e.scriptSrc|..] == h.scriptSrc
      && m.styleSrc[..|e.styleSrc|] == e.styleSrc && m.styleSrc[|e.styleSrc|..] == h.styleSrc
  {
    existing.(cspObject := CspObject(existing.cspObject.scriptSrc + header.cspObject.scriptSrc,
                                     existing.cspObject.styleSrc + header.cspObject.styleSrc))
  }

  /** One call of `splitToGlobalAndLocal` on the accumulator
      `(globalHeaders, localHeaders)`. */
  function Step(acc: (seq<Header>, seq<Header>), header: Header): (r: (seq<Header>, seq<Header>))
    ensures |acc.0| <= |r.0| && |acc.1| <= |r.1| && |r.0| + |r.1| <= |acc.0| + |acc.1| + 1
    ensures header.globalCSP ==> r.1 == acc.1 && header.webPath in WebPaths(r.0)
    ensures header.globalCSP && header.webPath !in WebPaths(acc.0) ==> r.0 == acc.0 + [header]
    ensures !header.globalCSP ==> r == (acc.0, acc.1 + [header])
  {
    var (globals, locals) := acc;
    if header.globalCSP then
      var i := FindIndex(globals, header.webPath);
      if i != -1 then
        var merged := globals[i := Absorb(globals[i], header)];
        assert WebPaths(merged)[i] == header.webPath;
        (merged, locals)
      else
        assert WebPaths(globals + [header])[|globals|] == header.webPath;
        (globals + [header], locals)
    else (globals, locals + [header])
  }

  /** `headers.reduce(splitToGlobalAndLocal, { globalHeaders: [], localHeaders: [] })`. */
  function Split(hs: seq<Header>): (r: (seq<Header>, seq<Header>))
    ensures |r.0| + |r.1| <= |hs|
    ensures hs != [] ==> r.0 + r.1 != []
  {
    if hs == [] then ([], [])
    else Step(Split(hs[..|hs| - 1]), hs[|hs| - 1])
  }

  /** Everything the global headers of `hs` with web path `w` contribute, in
      order: what the merged entry for `w` ends up holding. */
  function Combined(hs: seq<Header>, w: string): (c: CspObject)
    ensures (forall k :: 0 <= k < |hs| ==> !(hs[k].globalCSP && hs[k].webPath == w)) ==> c == CspObject([], [])
  {
    if hs == [] then CspObject([], [])
    else
      var c := Combined(hs[..|hs| - 1], w);
      var h := hs[|hs| - 1];
      if h.globalCSP && h.webPath == w then
        CspObject(c.scriptSrc + h.cspObject.scriptSrc, c.styleSrc + h.cspObject.styleSrc)
      else c
  }

  /** The accumulator `final` of the reduction, whose two arrays the reducer
      extends with `push`. */
  class Accumulator {
    var globalHeaders: seq<Header>
    var localHeaders: seq<Header>

    /** Global entries have distinct web paths; each list holds only its own
        kind of header. */
    ghost predicate Valid()
      reads this
    {
      && Distinct(WebPaths(globalHeaders))
      && (forall i :: 0 <= i < |globalHeaders| ==> globalHeaders[i].globalCSP)
      && (forall i :: 0 <= i < |localHeaders| ==> !localHeaders[i].globalCSP)
    }

    /** `{ globalHeaders: [], localHeaders: [] }`. */
    constructor()
      ensures Valid()
      ensures globalHeaders == [] && localHeaders == []
    {
      globalHeaders := [];
      localHeaders := [];
    }

    /** `splitToGlobalAndLocal(final, header)`: a global header whose web
        path is already present is merged into that entry, which keeps its
        position; any other global header is appended; a local header is
        appended to the local list. */
    method SplitToGlobalAndLocal(header: Header)
      requires Valid()
      modifies this
      ensures Valid()
      ensures (globalHeaders, localHeaders) == Step((old(globalHeaders), old(localHeaders)), header)
    {
      if header.globalCSP {
        var existingIndex := FindIndex(globalHeaders, header.webPath);
        if existingIndex != -1 {
          var existing := globalHeaders[existingIndex];
          globalHeaders := globalHeaders[existingIndex := Absorb(existing, header)];
          assert WebPaths(globalHeaders) == WebPaths(old(globalHeaders));
        } else {
          globalHeaders := globalHeaders + [header];
          assert WebPaths(globalHeaders) == WebPaths(old(globalHeaders)) + [header.webPath];
        }
      } else {
        localHeaders := localHeaders + [header];
      }
    }
  }

  /** Splitting the headers up to one index further. */
  lemma SplitPrefix(hs: seq<Header>, i: nat)
    requires i < |hs|
    ensures Split(hs[..i + 1]) == Step(Split(hs[..i]), hs[i])
  {
    assert hs[..i + 1][..i] == hs[..i];
  }

  /** Local headers come out exactly as they went in, in input order, none
      merged. */
  lemma {:induction false} SplitLocals(hs: seq<Header>)
    ensures Split(hs).1 == Filter(IsLocal, hs)
  {
    if hs != [] {
      var init := hs[..|hs| - 1];
      assert hs == init + [hs[|hs| - 1]];
      SplitLocals(init);
      FilterSnoc(IsLocal, init, hs[|hs| - 1]);
    }
  }

  /** The web paths of the global entries after one step. */
  lemma StepGlobalPaths(acc: (seq<Header>, seq<Header>), h: Header)
    ensures WebPaths(Step(acc, h).0) ==
      if h.globalCSP && h.webPath !in WebPaths(acc.0) then WebPaths(acc.0) + [h.webPath] else WebPaths(acc.0)
    ensures (forall i :: 0 <= i < |acc.0| ==> acc.0[i].globalCSP) ==>
      forall i :: 0 <= i < |Step(acc, h).0| ==> Step(acc, h).0[i].globalCSP
  {
    var g := acc.0;
    if h.globalCSP {
      var i := FindIndex(g, h.webPath);
      if i != -1 {
        assert WebPaths(g[i := Absorb(g[i], h)]) == WebPaths(g);
      } else {
        assert WebPaths(g + [h]) == WebPaths(g) + [h.webPath];
      }
    }
  }

  /** The web paths of the global headers of a list one header longer. */
  lemma GlobalPathsSnoc(hs: seq<Header>, h: Header)
    ensures WebPaths(Filter(IsGlobal, hs + [h])) ==
      WebPaths(Filter(IsGlobal, hs)) + (if h.globalCSP then [h.webPath] else [])
  {
    FilterSnoc(IsGlobal, hs, h);
    var gs := Filter(IsGlobal, hs);
    assert WebPaths(gs + [h]) == WebPaths(gs) + [h.webPath];
  }

  /** The global entries are one per web path, in the order in which the web
      paths first occur among the global headers, and all are global. */
  lemma {:induction false} SplitGlobalPaths(hs: seq<Header>)
    ensures WebPaths(Split(hs).0) == Dedup(WebPaths(Filter(IsGlobal, hs)))
    ensures forall i :: 0 <= i < |Split(hs).0| ==> Split(hs).0[i].globalCSP
  {
    if hs != [] {
      var init, h := hs[..|hs| - 1], hs[|hs| - 1];
      assert hs == init + [h];
      SplitGlobalPaths(init);
      GlobalPathsSnoc(init, h);
      StepGlobalPaths(Split(init), h);
      var ps := WebPaths(Filter(IsGlobal, init));
      DedupSnoc(ps, h.webPath);
      if !h.globalCSP {
        assert ps + [] == ps;
      }
    }
  }

  /** No two global entries share a web path. */
  lemma SplitGlobalsDistinct(hs: seq<Header>)
    ensures Distinct(WebPaths(Split(hs).0))
  {
    SplitGlobalPaths(hs);
  }

  /** The contributions of a web path that no global header carries. */
  lemma {:induction false} CombinedAbsent(hs: seq<Header>, w: string)
    requires w !in WebPaths(Filter(IsGlobal, hs))
    ensures Combined(hs, w) == CspObject([], [])
  {
    if hs != [] {
      var init, h := hs[..|hs| - 1], hs[|hs| - 1];
      assert init + [h] == hs;
      GlobalPathsSnoc(init, h);
      CombinedAbsent(init, w);
    }
  }

  /** The contributions to `w` of a list one header longer. */
  lemma CombinedSnoc(hs: seq<Header>, h: Header, w: string)
    ensures Combined(hs + [h], w) ==
      if h.globalCSP && h.webPath == w then
        CspObject(Combined(hs, w).scriptSrc + h.cspObject.scriptSrc, Combined(hs, w).styleSrc + h.cspObject.styleSrc)
      else Combined(hs, w)
  {
    assert (hs + [h])[..|hs|] == hs;
  }

  /** One step keeps the global entry at `i` equal to its web path's
      contributions. */
  lemma StepCombinesAt(acc: (seq<Header>, seq<Header>), hs: seq<Header>, h: Header, i: nat)
    requires Distinct(WebPaths(acc.0))
    requires forall i :: 0 <= i < |acc.0| ==> acc.0[i].cspObject == Combined(hs, acc.0[i].webPath)
    requires h.globalCSP && h.webPath !in WebPaths(acc.0) ==> Combined(hs, h.webPath) == CspObject([], [])
    requires i < |Step(acc, h).0|
    ensures Step(acc, h).0[i].cspObject == Combined(hs + [h], Step(acc, h).0[i].webPath)
  {
    var g, g' := acc.0, Step(acc, h).0;
    CombinedSnoc(hs, h, g'[i].webPath);
    if h.globalCSP {
      var j := FindIndex(g, h.webPath);
      if j != -1 && i != j {
        assert WebPaths(g)[i] != WebPaths(g)[j];
      } else if j == -1 && i < |g| {
        assert WebPaths(g)[i] == g[i].webPath;
      }
    }
  }

  /** One step keeps every global entry equal to its web path's
      contributions. */
  lemma StepCombines(acc: (seq<Header>, seq<Header>), hs: seq<Header>, h: Header)
    requires Distinct(WebPaths(acc.0))
    requires forall i :: 0 <= i < |acc.0| ==> acc.0[i].cspObject == Combined(hs, acc.0[i].webPath)
    requires h.globalCSP && h.webPath !in WebPaths(acc.0) ==> Combined(hs, h.webPath) == CspObject([], [])
    ensures forall i :: 0 <= i < |Step(acc, h).0| ==>
      Step(acc, h).0[i].cspObject == Combined(hs + [h], Step(acc, h).0[i].webPath)
  {
    forall i | 0 <= i < |Step(acc, h).0|
      ensures Step(acc, h).0[i].cspObject == Combined(hs + [h], Step(acc, h).0[i].webPath)
    {
      StepCombinesAt(acc, hs, h, i);
    }
  }

  /** Each global entry holds, in order and with repeats, the script and
      style sources of every global header with its web path: the merge
      loses no hash token and removes no duplicate. */
  lemma {:induction false} SplitCombines(hs: seq<Header>)
    ensures forall i :: 0 <= i < |Split(hs).0| ==>
      Split(hs).0[i].cspObject == Combined(hs, Split(hs).0[i].webPath)
  {
    if hs != [] {
      var init, h := hs[..|hs| - 1], hs[|hs| - 1];
      assert hs == init + [h];
      SplitCombines(init);
      SplitGlobalPaths(init);
      var g := Split(init).0;
      if h.globalCSP && h.webPath !in WebPaths(g) {
        assert h.webPath !in WebPaths(Filter(IsGlobal, init));
        CombinedAbsent(init, h.webPath);
      }
      StepCombines(Split(init), init, h);
    }
  }

  /** Every source a global header carries is part of its web path's
      contributions. */
  lemma {:induction false} CombinedContains(hs: seq<Header>, k: nat)
    requires k < |hs| && hs[k].globalCSP
    ensures var c, h := Combined(hs, hs[k].webPath), hs[k];
      && (forall t :: t in h.cspObject.scriptSrc ==> t in c.scriptSrc)
      && (forall t :: t in h.cspObject.styleSrc ==> t in c.styleSrc)
  {
    var init, last := hs[..|hs| - 1], hs[|hs| - 1];
    if k < |init| {
      CombinedContains(init, k);
      assert init[k] == hs[k];
    }
  }

  /** No hash token is lost: whatever a global header carries is found in
      the one global entry for its web path. */
  lemma NoTokenLost(hs: seq<Header>, k: nat)
    requires k < |hs| && hs[k].globalCSP
    ensures exists i :: 0 <= i < |Split(hs).0| && Split(hs).0[i].webPath == hs[k].webPath
    ensures forall i :: 0 <= i < |Split(hs).0| && Split(hs).0[i].webPath == hs[k].webPath ==>
      && (forall t :: t in hs[k].cspObject.scriptSrc ==> t in Split(hs).0[i].cspObject.scriptSrc)
      && (forall t :: t in hs[k].cspObject.styleSrc ==> t in Split(hs).0[i].cspObject.styleSrc)
  {
    SplitGlobalPaths(hs);
    SplitCombines(hs);
    CombinedContains(hs, k);
    var gs := Filter(IsGlobal, hs);
    assert hs[k] in gs;
    var j :| 0 <= j < |gs| && gs[j] == hs[k];
    assert WebPaths(gs)[j] == hs[k].webPath;
    var ps := WebPaths(Split(hs).0);
    assert hs[k].webPath in ps;
    var i :| 0 <= i < |ps| && ps[i] == hs[k].webPath;
    assert Split(hs).0[i].webPath == hs[k].webPath;
  }

  /** Merging does not de-duplicate: the same page header arriving twice
      leaves one entry holding every source twice. */
  lemma DuplicatesRetained(h: Header)
    requires h.globalCSP
    ensures Split([h, h]) ==
      ([h.(cspObject := CspObject(h.cspObject.scriptSrc + h.cspObject.scriptSrc,
                                  h.cspObject.styleSrc + h.cspObject.styleSrc))], [])
  {
    assert [h, h][..1] == [h];
    assert [h][..0] == [];
    var none: seq<Header> := [];
    assert Split(none) == (none, none);
    assert FindIndex(none, h.webPath) == -1;
    assert none + [h] == [h];
    assert Split([h]) == Step((none, none), h) == ([h], none);
    assert WebPaths([h]) == [h.webPath];
    assert FindIndex([h], h.webPath) == 0;
    assert Split([h, h]) == Step(([h], none), h);
    assert [h][0 := Absorb(h, h)] == [Absorb(h, h)];
  }
}
