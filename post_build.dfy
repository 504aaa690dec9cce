/** `onPostBuild`: every page's header is built, the headers are split into
    global and local ones, and each becomes a stanza of the `_headers`
    file. Finding the pages, reading them and writing the file are outside
    the model: the pages come in as a list of paths with their extracted
    contents, and the text that would be appended is the result. */
module PostBuild {
  import opened Seqs
  import opened Text
  import opened Policies
  import opened Hashes
  import opened FileProcessor
  import opened HeaderSplit

  /** What follows the web path in a stanza. */
  const PolicyLabel := "  Content-Security-Policy: "

  /** `buildCSPArray(mergedPolicies, disablePolicies, cspObject).join(' ')`:
      empty exactly when no directive line is emitted. */
  function CspString(mergedPolicies: Entries, disablePolicies: seq<string>, cspObject: CspObject): (r: string)
    ensures r == "" <==> BuildCspArray(mergedPolicies, disablePolicies, cspObject) == []
  {
    LinesNotEmpty(mergedPolicies, disablePolicies, cspObject);
    Join(BuildCspArray(mergedPolicies, disablePolicies, cspObject), " ")
  }

  /** Lines are never empty, so neither is their join. */
  lemma LinesNotEmpty(mergedPolicies: Entries, disablePolicies: seq<string>, cspObject: CspObject)
    ensures var lines := BuildCspArray(mergedPolicies, disablePolicies, cspObject);
      lines != [] ==> Join(lines, " ") != ""
  {
    var lines := BuildCspArray(mergedPolicies, disablePolicies, cspObject);
    if lines != [] {
      var active := ActiveEntries(mergedPolicies, disablePolicies, cspObject);
      DirectiveLineShape(active[0].0, active[0].1, Generated(cspObject, active[0].0));
      assert |Join(lines, " ")| >= |lines[0]|;
    }
  }

  /** A stanza: the web path, a line break, and the policy line. When
      neither part holds a line break, it reads back as exactly those two
      lines. */
  function Stanza(webPath: string, cspString: string): (stanza: string)
    ensures '\n' !in webPath && '\n' !in cspString ==>
      SplitOn(stanza, '\n') == [webPath, PolicyLabel + cspString]
  {
    StanzaSplits(webPath, cspString);
    webPath + "\n" + PolicyLabel + cspString
  }

  lemma StanzaSplits(webPath: string, cspString: string)
    ensures '\n' !in webPath && '\n' !in cspString ==>
      SplitOn(webPath + "\n" + PolicyLabel + cspString, '\n') == [webPath, PolicyLabel + cspString]
  {
    if '\n' !in webPath && '\n' !in cspString {
      var policyLine := PolicyLabel + cspString;
      var lines := [webPath, policyLine];
      LabelNoBreak(cspString);
      assert forall i :: 0 <= i < |lines| ==> '\n' !in lines[i];
      assert lines[1..] == [policyLine];
      assert Join(lines[1..], "\n") == policyLine;
      assert Join(lines, "\n") == webPath + "\n" + policyLine;
      SplitJoin(lines, '\n');
      assert webPath + "\n" + PolicyLabel + cspString == webPath + "\n" + policyLine;
    }
  }

  /** `(webPath, cspString)` for each header, in order. */
  function Rendered(mergedPolicies: Entries, disablePolicies: seq<string>, hs: seq<Header>): (rs: seq<(string, string)>)
    ensures |rs| == |hs|
    ensures forall i :: 0 <= i < |hs| ==>
      rs[i] == (hs[i].webPath, CspString(mergedPolicies, disablePolicies, hs[i].cspObject))
  {
    seq(|hs|, i requires 0 <= i < |hs| => (hs[i].webPath, CspString(mergedPolicies, disablePolicies, hs[i].cspObject)))
  }

  function Stanzas(rs: seq<(string, string)>): (ss: seq<string>)
    ensures |ss| == |rs|
    ensures forall i :: 0 <= i < |rs| ==> ss[i] == Stanza(rs[i].0, rs[i].1)
  {
    seq(|rs|, i requires 0 <= i < |rs| => Stanza(rs[i].0, rs[i].1))
  }

  /** The `map` and `join('\n')` of lines 31-36. */
  function RenderHeaders(mergedPolicies: Entries, disablePolicies: seq<string>, hs: seq<Header>): (text: string)
    ensures text == "" <==> hs == []
    ensures hs != [] ==> StartsWith(text, hs[0].webPath + "\n" + PolicyLabel)
  {
    var ss := Stanzas(Rendered(mergedPolicies, disablePolicies, hs));
    assert hs != [] ==> StartsWith(ss[0], hs[0].webPath + "\n" + PolicyLabel);
    Join(ss, "\n")
  }

  /** The header of each page, in the order the pages are given. */
  function PageHeaders(buildDir: string, disableGeneratedPolicies: seq<string>,
                       pages: seq<(string, PageContent)>, digest: string -> string): (hs: seq<Header>)
    ensures |hs| == |pages|
    ensures forall i :: 0 <= i < |pages| ==>
      hs[i] == PageHeader(buildDir, disableGeneratedPolicies, pages[i].0, pages[i].1, digest)
  {
    seq(|pages|, i requires 0 <= i < |pages| =>
      PageHeader(buildDir, disableGeneratedPolicies, pages[i].0, pages[i].1, digest))
  }

  /** The headers of one page more. */
  lemma PageHeadersSnoc(buildDir: string, disableGeneratedPolicies: seq<string>,
                        pages: seq<(string, PageContent)>, digest: string -> string, i: nat)
    requires i < |pages|
    ensures PageHeaders(buildDir, disableGeneratedPolicies, pages[..i + 1], digest) ==
      PageHeaders(buildDir, disableGeneratedPolicies, pages[..i], digest)
        + [PageHeader(buildDir, disableGeneratedPolicies, pages[i].0, pages[i].1, digest)]
  {
  }

  /** The text `onPostBuild` appends to `_headers`: the stanzas of the
      global headers, then those of the local ones, joined by line breaks. */
  function HeadersFile(buildDir: string, policies: Entries, disablePolicies: seq<string>,
                       disableGeneratedPolicies: seq<string>, pages: seq<(string, PageContent)>,
                       digest: string -> string): (file: string)
    requires UniqueKeys(policies)
    ensures file == "" <==> pages == []
  {
    var split := Split(PageHeaders(buildDir, disableGeneratedPolicies, pages, digest));
    RenderHeaders(MergeWithDefaultPolicies(policies), disablePolicies, split.0 + split.1)
  }

  /** `paths.map(path => ... .then(processFile(path)))`: the pages'
      headers, in the order of the paths. */
  method ProcessFiles(buildDir: string, disableGeneratedPolicies: seq<string>,
                      pages: seq<(string, PageContent)>, digest: string -> string)
    returns (processedFileHeaders: seq<Header>)
    ensures processedFileHeaders == PageHeaders(buildDir, disableGeneratedPolicies, pages, digest)
  {
    processedFileHeaders := [];
    for i := 0 to |pages|
      invariant processedFileHeaders == PageHeaders(buildDir, disableGeneratedPolicies, pages[..i], digest)
    {
      var header := ProcessFile(buildDir, disableGeneratedPolicies, pages[i].0, pages[i].1, digest);
      PageHeadersSnoc(buildDir, disableGeneratedPolicies, pages, digest, i);
      processedFileHeaders := processedFileHeaders + [header];
    }
    assert pages[..|pages|] == pages;
  }

  /** `processedFileHeaders.reduce(splitToGlobalAndLocal, { globalHeaders: [], localHeaders: [] })`. */
  method SplitAll(processedFileHeaders: seq<Header>) returns (globalHeaders: seq<Header>, localHeaders: seq<Header>)
    ensures (globalHeaders, localHeaders) == Split(processedFileHeaders)
  {
    var final := new Accumulator();
    for i := 0 to |processedFileHeaders|
      invariant final.Valid()
      invariant (final.globalHeaders, final.localHeaders) == Split(processedFileHeaders[..i])
    {
      SplitPrefix(processedFileHeaders, i);
      final.SplitToGlobalAndLocal(processedFileHeaders[i]);
    }
    assert processedFileHeaders[..|processedFileHeaders|] == processedFileHeaders;
    globalHeaders, localHeaders := final.globalHeaders, final.localHeaders;
  }

  /** `onPostBuild({ inputs })`, from merging the policies to the text of
      the file; an absent `policies`, `disablePolicies` or
      `disableGeneratedPolicies` input is the empty list. */
  method OnPostBuild(buildDir: string, policies: Entries, disablePolicies: seq<string>,
                     disableGeneratedPolicies: seq<string>, pages: seq<(string, PageContent)>,
                     digest: string -> string) returns (file: string)
    requires UniqueKeys(policies)
    ensures file == HeadersFile(buildDir, policies, disablePolicies, disableGeneratedPolicies, pages, digest)
  {
    var mergedPolicies := MergeWithDefaultPolicies(policies);
    var processedFileHeaders := ProcessFiles(buildDir, disableGeneratedPolicies, pages, digest);
    var globalHeaders, localHeaders := SplitAll(processedFileHeaders);
    file := RenderHeaders(mergedPolicies, disablePolicies, globalHeaders + localHeaders);
  }

  /** Rendering a concatenation renders each part. */
  lemma RenderedAppend(mergedPolicies: Entries, disablePolicies: seq<string>, a: seq<Header>, b: seq<Header>)
    ensures Rendered(mergedPolicies, disablePolicies, a + b) ==
      Rendered(mergedPolicies, disablePolicies, a) + Rendered(mergedPolicies, disablePolicies, b)
  {
  }

  /** Stanzas of two lists, joined, are the two joins glued by a line
      break. */
  lemma StanzasAppend(ra: seq<(string, string)>, rb: seq<(string, string)>)
    requires ra != [] && rb != []
    ensures Join(Stanzas(ra + rb), "\n") == Join(Stanzas(ra), "\n") + "\n" + Join(Stanzas(rb), "\n")
  {
    assert Stanzas(ra + rb) == Stanzas(ra) + Stanzas(rb);
    JoinAppend(Stanzas(ra), Stanzas(rb), "\n");
  }

  /** The stanzas of the global headers come first, in one block, and those
      of the local headers follow. */
  lemma GlobalsBeforeLocals(mergedPolicies: Entries, disablePolicies: seq<string>, globals: seq<Header>, locals: seq<Header>)
    requires globals != [] && locals != []
    ensures RenderHeaders(mergedPolicies, disablePolicies, globals + locals) ==
      RenderHeaders(mergedPolicies, disablePolicies, globals) + "\n" + RenderHeaders(mergedPolicies, disablePolicies, locals)
  {
    RenderedAppend(mergedPolicies, disablePolicies, globals, locals);
    StanzasAppend(Rendered(mergedPolicies, disablePolicies, globals), Rendered(mergedPolicies, disablePolicies, locals));
  }

  /** The lines of the stanzas: each web path followed by its policy line. */
  function Lines(rs: seq<(string, string)>): (lines: seq<string>)
    ensures |lines| == 2 * |rs|
  {
    if rs == [] then []
    else [rs[0].0, PolicyLabel + rs[0].1] + Lines(rs[1..])
  }

  /** The stanzas joined by line breaks are their lines joined by line
      breaks. */
  lemma {:induction false} StanzasAreLines(rs: seq<(string, string)>)
    requires rs != []
    ensures Join(Stanzas(rs), "\n") == Join(Lines(rs), "\n")
  {
    var w, p := rs[0].0, PolicyLabel + rs[0].1;
    var ss := Stanzas(rs);
    assert ss[0] == w + "\n" + p;
    assert [w, p][1..] == [p];
    if |rs| == 1 {
      assert Lines(rs) == [w, p];
    } else {
      StanzasAreLines(rs[1..]);
      assert ss[1..] == Stanzas(rs[1..]);
      JoinAppend([w, p], Lines(rs[1..]), "\n");
    }
  }

  /** Where each stanza's lines sit. */
  lemma {:induction false} LinesAt(rs: seq<(string, string)>)
    ensures forall k :: 0 <= k < |rs| ==>
      Lines(rs)[2 * k] == rs[k].0 && Lines(rs)[2 * k + 1] == PolicyLabel + rs[k].1
  {
    if rs != [] {
      LinesAt(rs[1..]);
      var lines, rest := Lines(rs), Lines(rs[1..]);
      forall k | 1 <= k < |rs|
        ensures lines[2 * k] == rs[k].0 && lines[2 * k + 1] == PolicyLabel + rs[k].1
      {
        assert lines[2 * k] == rest[2 * (k - 1)];
        assert lines[2 * k + 1] == rest[2 * (k - 1) + 1];
        assert rs[1..][k - 1] == rs[k];
      }
    }
  }

  /** When no web path and no policy string holds a line break, splitting
      the stanzas' text at its line breaks gives back, for each stanza in
      turn, its web path and its policy line. */
  lemma StanzaLines(rs: seq<(string, string)>)
    requires rs != []
    requires forall i :: 0 <= i < |rs| ==> '\n' !in rs[i].0 && '\n' !in rs[i].1
    ensures var lines := SplitOn(Join(Stanzas(rs), "\n"), '\n');
      && |lines| == 2 * |rs|
      && forall k :: 0 <= k < |rs| ==> lines[2 * k] == rs[k].0 && lines[2 * k + 1] == PolicyLabel + rs[k].1
  {
    LinesAt(rs);
    StanzasAreLines(rs);
    LinesNoBreak(rs);
    SplitJoin(Lines(rs), '\n');
  }

  /** No line holds a line break when no web path and no policy string does. */
  lemma LinesNoBreak(rs: seq<(string, string)>)
    requires forall i :: 0 <= i < |rs| ==> '\n' !in rs[i].0 && '\n' !in rs[i].1
    ensures forall j :: 0 <= j < |Lines(rs)| ==> '\n' !in Lines(rs)[j]
  {
    LinesAt(rs);
    var lines := Lines(rs);
    forall j | 0 <= j < |lines| ensures '\n' !in lines[j] {
      var k := j / 2;
      if j % 2 == 1 {
        assert j == 2 * k + 1;
        LabelNoBreak(rs[k].1);
      } else {
        assert j == 2 * k;
      }
    }
  }

  lemma LabelNoBreak(c: string)
    requires '\n' !in c
    ensures '\n' !in PolicyLabel + c
  {
    forall m | 0 <= m < |PolicyLabel + c| ensures (PolicyLabel + c)[m] != '\n' {
      if m >= |PolicyLabel| {
        assert (PolicyLabel + c)[m] == c[m - |PolicyLabel|];
      }
    }
  }

  /** The file's lines are, for each header in turn, its web path and its
      policy line, as long as none of them holds a line break. */
  lemma FileLines(mergedPolicies: Entries, disablePolicies: seq<string>, hs: seq<Header>)
    requires hs != []
    requires forall i :: 0 <= i < |hs| ==>
      '\n' !in hs[i].webPath && '\n' !in CspString(mergedPolicies, disablePolicies, hs[i].cspObject)
    ensures var lines := SplitOn(RenderHeaders(mergedPolicies, disablePolicies, hs), '\n');
      && |lines| == 2 * |hs|
      && forall k :: 0 <= k < |hs| ==>
        && lines[2 * k] == hs[k].webPath
        && lines[2 * k + 1] == PolicyLabel + CspString(mergedPolicies, disablePolicies, hs[k].cspObject)
  {
    StanzaLines(Rendered(mergedPolicies, disablePolicies, hs));
  }
}
