/** `createFileProcessor(buildDir, disableGeneratedPolicies)(path)(file)`:
    one page's header, made of the web path its file path is classified
    into, whether the header is global (a directory wildcard) or local (one
    index page), and the page's script and style hashes. */
module FileProcessor {
  import opened Seqs
  import opened Text
  import opened Policies
  import opened Hashes

  /** The header object one page yields. */
  datatype Header = Header(webPath: string, cspObject: CspObject, globalCSP: bool)

  /** What the page's DOM queries extract, each list in document order: the
      `innerHTML` of every `script` element, the `innerHTML` of every `style`
      element, and the `style` attribute of every element that has one. */
  datatype PageContent = PageContent(scripts: seq<string>, styles: seq<string>, styleAttributes: seq<string>)

  /** No character that a regular-expression `.` refuses to match. */
  predicate LineFree(s: string) {
    forall i :: 0 <= i < |s| ==> !IsLineTerminator(s[i])
  }

  /** Index of the last occurrence of `c` in `s`. */
  function LastIndexOfChar(s: string, c: char): (i: nat)
    requires c in s
    ensures i < |s| && s[i] == c && c !in s[i + 1..]
  {
    if s[|s| - 1] == c then |s| - 1
    else
      assert c in s[..|s| - 1] by {
        var k :| 0 <= k < |s| && s[k] == c;
        assert s[..|s| - 1][k] == c;
      }
      var i := LastIndexOfChar(s[..|s| - 1], c);
      assert s[i + 1..] == s[..|s| - 1][i + 1..] + [s[|s| - 1]];
      i
  }

  /** `path.match(new RegExp(`^${buildDir}(.*)index\\.html$`))`, with
      `buildDir` read as a literal prefix: the rest of the path ends in
      `index.html` and holds no line terminator before it. */
  predicate MatchesIndex(buildDir: string, path: string) {
    && StartsWith(path, buildDir)
    && EndsWith(path[|buildDir|..], "index.html")
    && LineFree(path[|buildDir|..|path| - 10])
  }

  /** `new RegExp(`^${buildDir}(.*\\/).*?\\.html$`)` matches: the rest of the
      path ends in `.html` and holds a `/` and no line terminator before it. */
  predicate MatchesNonIndex(buildDir: string, path: string) {
    && StartsWith(path, buildDir)
    && var rest := path[|buildDir|..];
    && EndsWith(rest, ".html")
    && LineFree(rest[..|rest| - 5])
    && '/' in rest[..|rest| - 5]
  }

  /** The classification in `createFileProcessor`: `(webPath, globalCSP)`.
      An index page keeps the rest of its path without `index.html` and is
      local; any other page gets the rest of its path up to its last `/`,
      followed by `*`, and is global; a path neither pattern matches is
      left as it is (and is global). */
  function ClassifyPath(buildDir: string, path: string): (r: (string, bool))
    ensures r.1 <==> !MatchesIndex(buildDir, path)
    ensures MatchesIndex(buildDir, path) ==> path == buildDir + r.0 + "index.html"
    ensures !MatchesIndex(buildDir, path) && MatchesNonIndex(buildDir, path) ==>
      && 2 <= |r.0| <= |path| - |buildDir| + 1 && r.0[|r.0| - 2..] == "/*"
      && path[|buildDir|..][..|r.0| - 1] == r.0[..|r.0| - 1]
      && '/' !in path[|buildDir| + |r.0| - 1..]
    ensures !MatchesIndex(buildDir, path) && !MatchesNonIndex(buildDir, path) ==> r == (path, true)
  {
    if MatchesIndex(buildDir, path) then
      assert path == path[..|buildDir|] + path[|buildDir|..|path| - 10] + path[|path| - 10..];
      (path[|buildDir|..|path| - 10], false)
    else if MatchesNonIndex(buildDir, path) then
      var rest := path[|buildDir|..];
      var k := LastIndexOfChar(rest, '/');
      assert path[|buildDir| + k + 1..] == rest[k + 1..];
      (rest[..k + 1] + "*", true)
    else
      (path, true)
  }

  /** Path `buildDir + rest` with `rest` ending in `index.html`: the header
      is local and its web path is `rest` without that suffix. */
  lemma ClassifyIndexPage(buildDir: string, rest: string)
    requires EndsWith(rest, "index.html") && LineFree(rest)
    ensures ClassifyPath(buildDir, buildDir + rest) == (rest[..|rest| - 10], false)
  {
    var path := buildDir + rest;
    assert path[..|buildDir|] == buildDir;
    assert path[|buildDir|..] == rest;
    assert path[|buildDir|..|path| - 10] == rest[..|rest| - 10];
  }

  /** Path `buildDir + rest` with `rest` an HTML file other than an index
      page, inside some directory: the header is global and its web path is
      `rest` up to and including its last `/`, followed by `*`. */
  lemma ClassifyOtherPage(buildDir: string, rest: string)
    requires !EndsWith(rest, "index.html") && EndsWith(rest, ".html")
    requires '/' in rest && LineFree(rest)
    ensures ClassifyPath(buildDir, buildDir + rest) == (rest[..LastIndexOfChar(rest, '/') + 1] + "*", true)
  {
    var path := buildDir + rest;
    OtherPageMatches(buildDir, rest);
    assert path[|buildDir|..] == rest;
  }

  lemma OtherPageMatches(buildDir: string, rest: string)
    requires !EndsWith(rest, "index.html") && EndsWith(rest, ".html")
    requires '/' in rest && LineFree(rest)
    ensures !MatchesIndex(buildDir, buildDir + rest) && MatchesNonIndex(buildDir, buildDir + rest)
  {
    var path := buildDir + rest;
    assert path[..|buildDir|] == buildDir;
    assert path[|buildDir|..] == rest;
    assert rest[|rest| - 5..] == ".html";
    LastIndexBefore(rest, '/', |rest| - 5);
    LineFreePrefix(rest, |rest| - 5);
  }

  lemma LineFreePrefix(s: string, n: nat)
    requires LineFree(s) && n <= |s|
    ensures LineFree(s[..n])
  {
    forall i | 0 <= i < n ensures !IsLineTerminator(s[..n][i]) {
      assert s[..n][i] == s[i];
    }
  }

  /** A character that occurs in `s` but not from index `n` on occurs, for
      the last time, before `n`. */
  lemma LastIndexBefore(s: string, c: char, n: nat)
    requires c in s && n <= |s| && c !in s[n..]
    ensures LastIndexOfChar(s, c) < n && c in s[..n]
  {
    var k := LastIndexOfChar(s, c);
    assert s[..n][k] == c;
  }

  /** Every non-index page of one directory lands in that directory's single
      wildcard scope; pages in a subdirectory get the subdirectory's own. */
  lemma SameDirectorySameScope(buildDir: string, dir: string, name: string)
    requires '/' !in name && LineFree(dir) && LineFree(name)
    requires EndsWith(name, ".html") && !EndsWith(dir + "/" + name, "index.html")
    ensures ClassifyPath(buildDir, buildDir + dir + "/" + name) == (dir + "/*", true)
  {
    var rest := dir + "/" + name;
    assert buildDir + dir + "/" + name == buildDir + rest;
    assert rest[|rest| - 5..] == name[|name| - 5..];
    assert rest[|dir|] == '/';
    LineFreeConcat(dir + "/", name);
    LastIndexAfter(dir, '/', name);
    assert rest == dir + ['/'] + name;
    assert rest[..|dir| + 1] + "*" == dir + "/*";
    ClassifyOtherPage(buildDir, rest);
  }

  lemma LineFreeConcat(a: string, b: string)
    requires LineFree(a) && LineFree(b)
    ensures LineFree(a + b)
  {
    forall i | 0 <= i < |a + b| ensures !IsLineTerminator((a + b)[i]) {
      if i < |a| { assert (a + b)[i] == a[i]; } else { assert (a + b)[i] == b[i - |a|]; }
    }
  }

  /** The last `c` of `a + [c] + b` is the one between them when `b` holds
      none. */
  lemma {:induction false} LastIndexAfter(a: string, c: char, b: string)
    requires c !in b
    ensures c in a + [c] + b && LastIndexOfChar(a + [c] + b, c) == |a|
  {
    var s := a + [c] + b;
    assert s[|a|] == c;
    if b != [] {
      var b' := b[..|b| - 1];
      assert s[..|s| - 1] == a + [c] + b';
      assert s[|s| - 1] == b[|b| - 1];
      assert c !in b';
      LastIndexAfter(a, c, b');
    }
  }

  /** The suffix test does not stop at a `/`: `dir/myindex.html` is an
      index page too, and its header is the local header of `dir/my`. */
  lemma IndexSuffixOfFileName(buildDir: string, dir: string)
    requires LineFree(dir)
    ensures ClassifyPath(buildDir, buildDir + dir + "/myindex.html") == (dir + "/my", false)
  {
    var rest := dir + "/myindex.html";
    assert buildDir + dir + "/myindex.html" == buildDir + rest;
    assert rest[|rest| - 10..] == "index.html";
    LineFreeConcat(dir, "/myindex.html");
    assert rest[..|rest| - 10] == dir + "/my";
    ClassifyIndexPage(buildDir, rest);
  }

  // With build directory `build`, `build/blog/index.html` gets the local
  // header of `/blog/`.
  lemma BlogIndexExample()
    ensures ClassifyPath("build", "build/blog/index.html") == ("/blog/", false)
  {
    var rest := "/blog/index.html";
    assert rest == "/blog/" + "index.html";
    assert LineFree(rest);
    assert "build" + rest == "build/blog/index.html";
    ClassifyIndexPage("build", rest);
  }

  /** Two different index pages never share a web path, so local headers
      have nothing to merge. */
  lemma IndexPagesDistinct(buildDir: string, path1: string, path2: string)
    requires MatchesIndex(buildDir, path1) && MatchesIndex(buildDir, path2)
    requires path1 != path2
    ensures ClassifyPath(buildDir, path1).0 != ClassifyPath(buildDir, path2).0
  {
    var w1, w2 := path1[|buildDir|..|path1| - 10], path2[|buildDir|..|path2| - 10];
    assert path1 == buildDir + w1 + "index.html";
    assert path2 == buildDir + w2 + "index.html";
  }

  /** The header of one page. Hash generation is skipped for a family whose
      camel-case key is in `disableGeneratedPolicies`; `styleSrc` is the
      `<style>` hashes followed by the `style=` attribute hashes. */
  function PageHeader(buildDir: string, disableGeneratedPolicies: seq<string>, path: string,
                      page: PageContent, digest: string -> string): (header: Header)
    ensures Distinct(header.cspObject.scriptSrc) && |header.cspObject.scriptSrc| <= |page.scripts|
    ensures |header.cspObject.styleSrc| <= |page.styles| + |page.styleAttributes|
    ensures forall k :: 0 <= k < |header.cspObject.scriptSrc| ==> Clean(header.cspObject.scriptSrc[k])
    ensures forall k :: 0 <= k < |header.cspObject.styleSrc| ==> Clean(header.cspObject.styleSrc[k])
  {
    var scripts := if "scriptSrc" !in disableGeneratedPolicies then HashList(page.scripts, digest) else [];
    var styles := if "styleSrc" !in disableGeneratedPolicies then HashList(page.styles, digest) else [];
    var inlineStyles := if "styleSrc" !in disableGeneratedPolicies then HashList(page.styleAttributes, digest) else [];
    var (webPath, globalCSP) := ClassifyPath(buildDir, path);
    Header(webPath, CspObject(scripts, styles + inlineStyles), globalCSP)
  }

  /** `processFile(path)(file)`. */
  method ProcessFile(buildDir: string, disableGeneratedPolicies: seq<string>, path: string,
                     page: PageContent, digest: string -> string) returns (header: Header)
    ensures header == PageHeader(buildDir, disableGeneratedPolicies, path, page, digest)
    ensures (header.webPath, header.globalCSP) == ClassifyPath(buildDir, path)
    ensures "scriptSrc" in disableGeneratedPolicies ==> header.cspObject.scriptSrc == []
    ensures "styleSrc" in disableGeneratedPolicies ==> header.cspObject.styleSrc == []
    ensures "scriptSrc" !in disableGeneratedPolicies ==>
      header.cspObject.scriptSrc == HashList(page.scripts, digest)
    ensures "styleSrc" !in disableGeneratedPolicies ==>
      header.cspObject.styleSrc == HashList(page.styles, digest) + HashList(page.styleAttributes, digest)
  {
    var scripts: seq<string> := [];
    var styles: seq<string> := [];
    var inlineStyles: seq<string> := [];
    if "scriptSrc" !in disableGeneratedPolicies {
      scripts := GenerateHashes(page.scripts, digest);
    }
    if "styleSrc" !in disableGeneratedPolicies {
      styles := GenerateHashes(page.styles, digest);
      inlineStyles := GenerateHashes(page.styleAttributes, digest);
    }
    var classified := ClassifyPath(buildDir, path);
    header := Header(classified.0, CspObject(scripts, styles + inlineStyles), classified.1);
  }

  /** Every generated token is the hash source of a non-empty value of the
      matching family on the page, and every non-empty value's token is
      there unless its family is disabled. */
  lemma PageHeaderTokens(buildDir: string, disableGeneratedPolicies: seq<string>, path: string,
                         page: PageContent, digest: string -> string, t: string)
    ensures var h := PageHeader(buildDir, disableGeneratedPolicies, path, page, digest);
      && (t in h.cspObject.scriptSrc <==>
           "scriptSrc" !in disableGeneratedPolicies && t in Tokens(page.scripts, digest))
      && (t in h.cspObject.styleSrc <==>
           "styleSrc" !in disableGeneratedPolicies &&
           (t in Tokens(page.styles, digest) || t in Tokens(page.styleAttributes, digest)))
  {
    var a, b, c := Tokens(page.scripts, digest), Tokens(page.styles, digest), Tokens(page.styleAttributes, digest);
    DedupMember(a, t);
    DedupMember(b, t);
    DedupMember(c, t);
  }

  lemma DedupMember(s: seq<string>, t: string)
    ensures t in Dedup(s) <==> t in s
  {
    if t in s {
      var i :| 0 <= i < |s| && s[i] == t;
    }
  }

  /** The source list `buildCSPArray` renders for a page's generated
      hashes: with no default value, exactly the tokens separated by single
      spaces; with a clean default value, the tokens and then that value. */
  lemma PageSourceList(buildDir: string, disableGeneratedPolicies: seq<string>, path: string,
                       page: PageContent, digest: string -> string, key: string, defaultPolicy: string)
    ensures var g := Generated(PageHeader(buildDir, disableGeneratedPolicies, path, page, digest).cspObject, key);
      && (g != [] && defaultPolicy == "" ==> SourceList(g, defaultPolicy) == Join(g, " "))
      && (g != [] && Clean(defaultPolicy) ==> SourceList(g, defaultPolicy) == Join(g, " ") + " " + defaultPolicy)
  {
    var g := Generated(PageHeader(buildDir, disableGeneratedPolicies, path, page, digest).cspObject, key);
    if g != [] {
      assert forall i :: 0 <= i < |g| ==> Clean(g[i]);
      HashesOnlySourceList(g);
      if Clean(defaultPolicy) {
        HashesAndFallbackSourceList(defaultPolicy, g);
      }
    }
  }
}
