/** The policy table of the plugin (`mergeWithDefaultPolicies`) and the
    rendering of one header's directive lines (`buildCSPArray` with its
    `camelCaseToKebabCase`). */
module Policies {
  import opened Seqs
  import opened Text

  /** The entries of a JavaScript object whose values are strings, in the
      order `Object.entries` enumerates them. */
  type Entries = seq<(string, string)>

  /** The keys of the default policy table, in their fixed order. */
  const DefaultKeys: seq<string> := [
    "defaultSrc", "childSrc", "connectSrc", "fontSrc", "frameSrc", "imgSrc",
    "manifestSrc", "mediaSrc", "objectSrc", "prefetchSrc", "scriptSrc",
    "scriptSrcElem", "scriptSrcAttr", "styleSrc", "styleSrcElem",
    "styleSrcAttr", "workerSrc", "baseUri", "formAction", "frameAncestors"
  ]

  function Keys(es: Entries): (ks: seq<string>)
    ensures |ks| == |es| && forall i :: 0 <= i < |es| ==> ks[i] == es[i].0
  {
    seq(|es|, i requires 0 <= i < |es| => es[i].0)
  }

  /** What every JavaScript object guarantees: no key occurs twice. */
  predicate UniqueKeys(es: Entries) {
    Distinct(Keys(es))
  }

  /** The value stored under `k`, if any. */
  function Lookup(es: Entries, k: string): (r: Option<string>)
    ensures r.Some? <==> k in Keys(es)
    ensures r.Some? ==> (k, r.value) in es
  {
    if es == [] then None
    else if es[0].0 == k then Some(es[0].1)
    else
      assert Keys(es[1..]) == Keys(es)[1..];
      Lookup(es[1..], k)
  }

  /** With unique keys, an entry is found by its key. */
  lemma LookupEntry(es: Entries, i: nat)
    requires UniqueKeys(es) && i < |es|
    ensures Lookup(es, es[i].0) == Some(es[i].1)
  {
    var r := Lookup(es, es[i].0);
    var j :| 0 <= j < |es| && es[j] == (es[i].0, r.value);
    assert Keys(es)[i] == Keys(es)[j];
  }

  // ---------------------------------------------------------------------
  // mergeWithDefaultPolicies

  predicate IsUnknown(e: (string, string)) {
    e.0 !in DefaultKeys
  }

  /** The operator's entries whose keys are not default keys, in order. */
  function UnknownEntries(policies: Entries): (r: Entries)
    ensures forall e :: e in r <==> e in policies && e.0 !in DefaultKeys
  {
    Filter(IsUnknown, policies)
  }

  function DefaultValue(policies: Entries, k: string): string {
    match Lookup(policies, k)
    case Some(v) => v
    case None => ""
  }

  /** `{...defaultPolicies, ...policies}`: the 20 default keys keep their
      places and take the operator's value where one is given, else `''`;
      the operator's other keys follow in the operator's order. */
  function MergeWithDefaultPolicies(policies: Entries): (merged: Entries)
    requires UniqueKeys(policies)
    ensures |merged| >= |DefaultKeys|
    ensures Keys(merged)[..|DefaultKeys|] == DefaultKeys
    ensures forall i :: 0 <= i < |DefaultKeys| && DefaultKeys[i] in Keys(policies) ==>
      (DefaultKeys[i], merged[i].1) in policies
    ensures forall i :: 0 <= i < |DefaultKeys| && DefaultKeys[i] !in Keys(policies) ==>
      merged[i].1 == ""
    ensures merged[|DefaultKeys|..] == UnknownEntries(policies)
    ensures UniqueKeys(merged)
    ensures forall e :: e in policies ==> e in merged
    ensures forall k :: k in Keys(merged) <==> k in DefaultKeys || k in Keys(policies)
  {
    var defaults := seq(|DefaultKeys|, i requires 0 <= i < |DefaultKeys| =>
      (DefaultKeys[i], DefaultValue(policies, DefaultKeys[i])));
    var merged := defaults + UnknownEntries(policies);
    MergeFacts(policies, defaults, merged);
    merged
  }

  /** A number that tells the default keys apart: their length, first
      letter and fourth letter from the end, as length * 2^32 + first *
      2^16 + fourth. The letters are ASCII, so each sits in its own four
      hexadecimal digits: `"scriptSrcElem"` (13 = 0xd letters, `s` = 0x73,
      `E` = 0x45) has signature 0xd_0073_0045. Keys with different
      signatures differ. */
  function KeySignature(s: string): int {
    if |s| < 4 then 0 else (|s| * 0x1_0000 + s[0] as int) * 0x1_0000 + s[|s| - 4] as int
  }

  /** The place in `DefaultKeys` of the key with each signature, read off
      the table: the signatures of the 20 keys, in order, then -1 for any
      other number. Being a function, it proves the 20 signatures (and so
      the 20 keys) distinct. */
  function SignaturePlace(sig: int): int {
    if sig == 0xa00640074 then 0
    else if sig == 0x800630064 then 1
    else if sig == 0xa00630074 then 2
    else if sig == 0x700660074 then 3
    else if sig == 0x800660065 then 4
    else if sig == 0x600690067 then 5
    else if sig == 0xb006d0074 then 6
    else if sig == 0x8006d0061 then 7
    else if sig == 0x9006f0074 then 8
    else if sig == 0xb00700068 then 9
    else if sig == 0x900730074 then 10
    else if sig == 0xd00730045 then 11
    else if sig == 0xd00730041 then 12
    else if sig == 0x800730065 then 13
    else if sig == 0xc00730045 then 14
    else if sig == 0xc00730041 then 15
    else if sig == 0x900770072 then 16
    else if sig == 0x700620065 then 17
    else if sig == 0xa00660074 then 18
    else if sig == 0xe00660074 then 19
    else -1
  }

  lemma DefaultKeysDistinct()
    ensures Distinct(DefaultKeys)
  {
    forall i | 0 <= i < |DefaultKeys| ensures SignaturePlace(KeySignature(DefaultKeys[i])) == i {
    }
  }

  /** Entries of an object with unique keys are themselves distinct. */
  lemma UniqueKeysDistinct(es: Entries)
    requires UniqueKeys(es)
    ensures Distinct(es)
  {
    forall i, j | 0 <= i < j < |es| ensures es[i] != es[j] {
      assert Keys(es)[i] != Keys(es)[j];
    }
  }

  lemma MergeFacts(policies: Entries, defaults: Entries, merged: Entries)
    requires UniqueKeys(policies)
    requires |defaults| == |DefaultKeys|
    requires forall i :: 0 <= i < |DefaultKeys| ==>
      defaults[i] == (DefaultKeys[i], DefaultValue(policies, DefaultKeys[i]))
    requires merged == defaults + UnknownEntries(policies)
    ensures Keys(merged)[..|DefaultKeys|] == DefaultKeys
    ensures UniqueKeys(merged)
    ensures forall e :: e in policies ==> e in merged
    ensures forall k :: k in Keys(merged) <==> k in DefaultKeys || k in Keys(policies)
  {
    MergeUniqueKeys(policies, defaults, merged);
    MergeKeepsOperatorEntries(policies, defaults, merged);
    MergeKeySet(policies, defaults, merged);
  }

  lemma MergeUniqueKeys(policies: Entries, defaults: Entries, merged: Entries)
    requires UniqueKeys(policies)
    requires |defaults| == |DefaultKeys|
    requires forall i :: 0 <= i < |DefaultKeys| ==> defaults[i].0 == DefaultKeys[i]
    requires merged == defaults + UnknownEntries(policies)
    ensures Keys(merged)[..|DefaultKeys|] == DefaultKeys
    ensures UniqueKeys(merged)
  {
    var n := |DefaultKeys|;
    var unknown := UnknownEntries(policies);
    DefaultKeysDistinct();
    UniqueKeysDistinct(policies);
    FilterOrder(IsUnknown, policies);
    forall i, j | 0 <= i < j < |merged| ensures Keys(merged)[i] != Keys(merged)[j] {
      if j < n {
        assert Keys(merged)[i] == DefaultKeys[i];
      } else if i >= n {
        var a, b := unknown[i - n], unknown[j - n];
        assert a != b;
        var ia :| 0 <= ia < |policies| && policies[ia] == a;
        var ib :| 0 <= ib < |policies| && policies[ib] == b;
        assert Keys(policies)[ia] == a.0 && Keys(policies)[ib] == b.0;
      } else {
        assert unknown[j - n] in unknown;
      }
    }
  }

  lemma MergeKeepsOperatorEntries(policies: Entries, defaults: Entries, merged: Entries)
    requires UniqueKeys(policies)
    requires |defaults| == |DefaultKeys|
    requires forall i :: 0 <= i < |DefaultKeys| ==>
      defaults[i] == (DefaultKeys[i], DefaultValue(policies, DefaultKeys[i]))
    requires merged == defaults + UnknownEntries(policies)
    ensures forall e :: e in policies ==> e in merged
  {
    forall e | e in policies ensures e in merged {
      var i :| 0 <= i < |policies| && policies[i] == e;
      if e.0 in DefaultKeys {
        var k :| 0 <= k < |DefaultKeys| && DefaultKeys[k] == e.0;
        LookupEntry(policies, i);
        assert merged[k] == e;
      } else {
        assert e in UnknownEntries(policies);
      }
    }
  }

  lemma MergeKeySet(policies: Entries, defaults: Entries, merged: Entries)
    requires UniqueKeys(policies)
    requires |defaults| == |DefaultKeys|
    requires forall i :: 0 <= i < |DefaultKeys| ==> defaults[i].0 == DefaultKeys[i]
    requires forall e :: e in policies ==> e in merged
    requires merged == defaults + UnknownEntries(policies)
    ensures forall k :: k in Keys(merged) <==> k in DefaultKeys || k in Keys(policies)
  {
    forall k | k in Keys(merged) ensures k in DefaultKeys || k in Keys(policies) {
      var i :| 0 <= i < |merged| && Keys(merged)[i] == k;
      MergedKeyOrigin(policies, defaults, merged, i);
    }
    forall k | k in DefaultKeys || k in Keys(policies) ensures k in Keys(merged) {
      if k in DefaultKeys {
        var i :| 0 <= i < |DefaultKeys| && DefaultKeys[i] == k;
        assert Keys(merged)[i] == k;
      } else {
        var i :| 0 <= i < |policies| && Keys(policies)[i] == k;
        OperatorKeyKept(policies, merged, i);
      }
    }
  }

  /** Every merged key is a default key or one of the operator's. */
  lemma MergedKeyOrigin(policies: Entries, defaults: Entries, merged: Entries, i: nat)
    requires |defaults| == |DefaultKeys|
    requires forall i :: 0 <= i < |DefaultKeys| ==> defaults[i].0 == DefaultKeys[i]
    requires merged == defaults + UnknownEntries(policies)
    requires i < |merged|
    ensures Keys(merged)[i] in DefaultKeys || Keys(merged)[i] in Keys(policies)
  {
    if i >= |DefaultKeys| {
      assert merged[i] in UnknownEntries(policies);
      var j :| 0 <= j < |policies| && policies[j] == merged[i];
      assert Keys(policies)[j] == Keys(merged)[i];
    } else {
      assert Keys(merged)[i] == DefaultKeys[i];
    }
  }

  /** An operator's key survives the merge. */
  lemma OperatorKeyKept(policies: Entries, merged: Entries, i: nat)
    requires forall e :: e in policies ==> e in merged
    requires i < |policies|
    ensures Keys(policies)[i] in Keys(merged)
  {
    assert policies[i] in merged;
    var j :| 0 <= j < |merged| && merged[j] == policies[i];
    assert Keys(merged)[j] == Keys(policies)[i];
  }

  // ---------------------------------------------------------------------
  // camelCaseToKebabCase

  predicate IsLowerOrDigit(c: char) {
    ('a' <= c <= 'z') || ('0' <= c <= '9')
  }

  predicate IsUpper(c: char) {
    'A' <= c <= 'Z'
  }

  /** `s.replace(/([a-z0-9])([A-Z])/g, '$1-$2')`: scanning left to right, a
      lower-case letter or digit directly followed by an upper-case letter
      gets a hyphen between them, and the scan resumes after the pair. */
  function InsertHyphens(s: string): (r: string)
    ensures |s| <= |r|
    ensures s != [] ==> r != [] && r[0] == s[0]
  {
    if |s| < 2 then s
    else if IsLowerOrDigit(s[0]) && IsUpper(s[1]) then [s[0], '-', s[1]] + InsertHyphens(s[2..])
    else [s[0]] + InsertHyphens(s[1..])
  }

  function LowerChar(c: char): char {
    if IsUpper(c) then (c as int + 32) as char else c
  }

  /** `toLowerCase` on ASCII letters. */
  function ToLower(s: string): (r: string)
    ensures |r| == |s|
    ensures forall i :: 0 <= i < |s| ==> r[i] == LowerChar(s[i])
  {
    seq(|s|, i requires 0 <= i < |s| => LowerChar(s[i]))
  }

  /** `camelCaseToKebabCase`; its result holds no upper-case letter. */
  function CamelCaseToKebabCase(key: string): (name: string)
    ensures forall i :: 0 <= i < |name| ==> !IsUpper(name[i])
  {
    ToLower(InsertHyphens(key))
  }

  function WithoutHyphens(s: string): string {
    if s == [] then [] else (if s[0] == '-' then [] else [s[0]]) + WithoutHyphens(s[1..])
  }

  /** The conversion only inserts hyphens: removing every hyphen from the
      result gives the input with its hyphens removed. */
  lemma {:induction false} InsertHyphensOnlyAddsHyphens(s: string)
    ensures WithoutHyphens(InsertHyphens(s)) == WithoutHyphens(s)
  {
    if |s| >= 2 {
      var r := InsertHyphens(s);
      var head := if s[0] == '-' then [] else [s[0]];
      if IsLowerOrDigit(s[0]) && IsUpper(s[1]) {
        var t := InsertHyphens(s[2..]);
        InsertHyphensOnlyAddsHyphens(s[2..]);
        assert r == [s[0]] + (['-'] + ([s[1]] + t));
        WithoutHyphensCons(s[0], ['-'] + ([s[1]] + t));
        WithoutHyphensCons('-', [s[1]] + t);
        WithoutHyphensCons(s[1], t);
        assert s == [s[0]] + ([s[1]] + s[2..]);
        WithoutHyphensCons(s[0], [s[1]] + s[2..]);
        WithoutHyphensCons(s[1], s[2..]);
      } else {
        InsertHyphensOnlyAddsHyphens(s[1..]);
        assert r == [s[0]] + InsertHyphens(s[1..]);
        WithoutHyphensCons(s[0], InsertHyphens(s[1..]));
        assert s == [s[0]] + s[1..];
        WithoutHyphensCons(s[0], s[1..]);
      }
    }
  }

  lemma WithoutHyphensCons(c: char, s: string)
    ensures WithoutHyphens([c] + s) == (if c == '-' then [] else [c]) + WithoutHyphens(s)
  {
    assert ([c] + s)[1..] == s;
  }

  /** A lower-case letter or digit at `i` directly followed by an upper-case letter. */
  predicate CamelBoundaryAt(s: string, i: nat)
    requires i + 1 < |s|
  {
    IsLowerOrDigit(s[i]) && IsUpper(s[i + 1])
  }

  predicate NoCamelBoundary(s: string) {
    forall i :: 0 <= i < |s| - 1 ==> !CamelBoundaryAt(s, i)
  }

  /** After the replacement no lower-case letter or digit is directly
      followed by an upper-case letter: every camel-case boundary was
      split. */
  lemma {:induction false} InsertHyphensSplitsEveryBoundary(s: string)
    ensures NoCamelBoundary(InsertHyphens(s))
  {
    if |s| >= 2 {
      var r := InsertHyphens(s);
      if IsLowerOrDigit(s[0]) && IsUpper(s[1]) {
        InsertHyphensSplitsEveryBoundary(s[2..]);
        var t := InsertHyphens(s[2..]);
        assert r == [s[0], '-', s[1]] + t;
        forall i | 0 <= i < |r| - 1 ensures !CamelBoundaryAt(r, i) {
          if i >= 3 {
            assert r[i] == t[i - 3] && r[i + 1] == t[i - 2];
            assert !CamelBoundaryAt(t, i - 3);
          }
        }
      } else {
        InsertHyphensSplitsEveryBoundary(s[1..]);
        var t := InsertHyphens(s[1..]);
        assert r == [s[0]] + t;
        forall i | 0 <= i < |r| - 1 ensures !CamelBoundaryAt(r, i) {
          if i >= 1 {
            assert r[i] == t[i - 1] && r[i + 1] == t[i];
            assert !CamelBoundaryAt(t, i - 1);
          }
        }
      }
    }
  }

  /** The number of camel-case boundaries in `s`. */
  function CamelBoundaries(s: string): nat {
    if |s| < 2 then 0
    else (if CamelBoundaryAt(s, 0) then 1 else 0) + CamelBoundaries(s[1..])
  }

  /** Reference definition, character by character: every character of
      `s`, followed by a hyphen exactly where a camel-case boundary starts,
      so the result is as long as `s` plus one per boundary. */
  function HyphenatedAtBoundaries(s: string): (r: string)
    ensures |r| == |s| + CamelBoundaries(s)
  {
    if s == [] then []
    else [s[0]] + (if |s| >= 2 && CamelBoundaryAt(s, 0) then "-" else "") + HyphenatedAtBoundaries(s[1..])
  }

  /** The left-to-right scan agrees with the reference: two boundaries
      never overlap, since a boundary ends in an upper-case letter and
      starts with a lower-case letter or digit. So hyphens go exactly at
      the boundaries, and nowhere else. */
  lemma {:induction false} InsertHyphensAtBoundaries(s: string)
    ensures InsertHyphens(s) == HyphenatedAtBoundaries(s)
  {
    if |s| >= 2 {
      if CamelBoundaryAt(s, 0) {
        InsertHyphensAtBoundaries(s[2..]);
        BoundaryThenNone(s);
        assert HyphenatedAtBoundaries(s) == [s[0]] + "-" + HyphenatedAtBoundaries(s[1..]);
      } else {
        InsertHyphensAtBoundaries(s[1..]);
        assert HyphenatedAtBoundaries(s) == [s[0]] + HyphenatedAtBoundaries(s[1..]);
      }
    }
  }

  /** After a boundary at 0 the next character starts no boundary. */
  lemma BoundaryThenNone(s: string)
    requires |s| >= 2 && CamelBoundaryAt(s, 0)
    ensures HyphenatedAtBoundaries(s[1..]) == [s[1]] + HyphenatedAtBoundaries(s[2..])
  {
    var t := s[1..];
    assert t[0] == s[1] && t[1..] == s[2..];
    assert |t| >= 2 ==> !CamelBoundaryAt(t, 0);
  }

  /** One hyphen per boundary. */
  lemma {:induction false} InsertHyphensLength(s: string)
    ensures |InsertHyphens(s)| == |s| + CamelBoundaries(s)
  {
    InsertHyphensAtBoundaries(s);
  }

  /** A key without camel-case boundaries is left as it is. */
  lemma {:induction false} NoBoundaryUnchanged(s: string)
    requires NoCamelBoundary(s)
    ensures InsertHyphens(s) == s
  {
    if |s| >= 2 {
      assert !CamelBoundaryAt(s, 0);
      var t := s[1..];
      forall i | 0 <= i < |t| - 1 ensures !CamelBoundaryAt(t, i) {
        assert !CamelBoundaryAt(s, i + 1);
      }
      NoBoundaryUnchanged(t);
      assert s == [s[0]] + t;
    }
  }

  // ---------------------------------------------------------------------
  // buildCSPArray

  /** The `cspObject` of one header: its only keys are `scriptSrc` and
      `styleSrc`, each an array of hash-source tokens. */
  datatype CspObject = CspObject(scriptSrc: seq<string>, styleSrc: seq<string>)

  /** `hashes[key]`, with an absent key read as an empty list. */
  function Generated(hashes: CspObject, key: string): seq<string> {
    if key == "scriptSrc" then hashes.scriptSrc
    else if key == "styleSrc" then hashes.styleSrc
    else []
  }

  /** The filter of `buildCSPArray`: the key has generated hashes or a
      non-empty default value, and it is not listed in `disablePolicies`. */
  predicate IsActive(disablePolicies: seq<string>, hashes: CspObject, e: (string, string)) {
    (|Generated(hashes, e.0)| > 0 || e.1 != "") && e.0 !in disablePolicies
  }

  /** The entries of the policy table that `buildCSPArray` renders, in
      table order. */
  function ActiveEntries(allPolicies: Entries, disablePolicies: seq<string>, hashes: CspObject): (r: Entries)
    ensures forall e :: e in r <==> e in allPolicies && IsActive(disablePolicies, hashes, e)
  {
    Filter((e: (string, string)) => IsActive(disablePolicies, hashes, e), allPolicies)
  }

  /** The line for one key: its kebab-case name, a space, the generated
      tokens and the default value joined by a space and trimmed, and `;`. */
  function DirectiveLine(key: string, defaultPolicy: string, generated: seq<string>): (line: string)
    ensures StartsWith(line, CamelCaseToKebabCase(key) + " ") && line[|line| - 1] == ';'
  {
    CamelCaseToKebabCase(key) + " " + SourceList(generated, defaultPolicy) + ";"
  }

  /** The source list of a line: `` `${hashes.join(' ')} ${defaultPolicy}`.trim() ``. */
  function SourceList(generated: seq<string>, defaultPolicy: string): (r: string)
    ensures r == "" || Clean(r)
  {
    Trim(Join(generated, " ") + " " + defaultPolicy)
  }

  /** `buildCSPArray(allPolicies, disablePolicies, hashes)`: one directive
      line per active entry of the table, in table order. */
  function BuildCspArray(allPolicies: Entries, disablePolicies: seq<string>, hashes: CspObject): (lines: seq<string>)
    ensures var active := ActiveEntries(allPolicies, disablePolicies, hashes);
      |lines| == |active| &&
      forall i :: 0 <= i < |lines| ==>
        lines[i] == DirectiveLine(active[i].0, active[i].1, Generated(hashes, active[i].0))
  {
    var active := ActiveEntries(allPolicies, disablePolicies, hashes);
    Map((e: (string, string)) => DirectiveLine(e.0, e.1, Generated(hashes, e.0)), active)
  }

  /** Whether some line of `buildCSPArray` is the line of key `k`. */
  predicate EmitsKey(allPolicies: Entries, disablePolicies: seq<string>, hashes: CspObject, k: string) {
    var active := ActiveEntries(allPolicies, disablePolicies, hashes);
    exists j :: 0 <= j < |active| && active[j].0 == k
  }

  /** A key of the table gets a line iff it has generated hashes or a
      non-empty default value and is not disabled; the line it gets is the
      one for its own value. */
  lemma BuildCspArrayEmitsIff(allPolicies: Entries, disablePolicies: seq<string>, hashes: CspObject, i: nat)
    requires UniqueKeys(allPolicies) && i < |allPolicies|
    ensures EmitsKey(allPolicies, disablePolicies, hashes, allPolicies[i].0)
      <==> (|Generated(hashes, allPolicies[i].0)| > 0 || allPolicies[i].1 != "")
           && allPolicies[i].0 !in disablePolicies
    ensures forall j ::
      (0 <= j < |BuildCspArray(allPolicies, disablePolicies, hashes)| &&
       ActiveEntries(allPolicies, disablePolicies, hashes)[j].0 == allPolicies[i].0) ==>
        BuildCspArray(allPolicies, disablePolicies, hashes)[j] ==
          DirectiveLine(allPolicies[i].0, allPolicies[i].1, Generated(hashes, allPolicies[i].0))
  {
    var active := ActiveEntries(allPolicies, disablePolicies, hashes);
    var e := allPolicies[i];
    forall j | 0 <= j < |active| && active[j].0 == e.0 ensures active[j] == e {
      assert active[j] in active;
      var m :| 0 <= m < |allPolicies| && allPolicies[m] == active[j];
      assert Keys(allPolicies)[m] == Keys(allPolicies)[i];
    }
    if IsActive(disablePolicies, hashes, e) {
      assert e in active;
      var j :| 0 <= j < |active| && active[j] == e;
      assert active[j].0 == e.0;
    }
  }

  /** The lines follow policy-table order, with at most one line per key,
      and no line belongs to a disabled key. */
  lemma {:induction false} BuildCspArrayOrder(allPolicies: Entries, disablePolicies: seq<string>, hashes: CspObject)
    requires UniqueKeys(allPolicies)
    ensures var active := ActiveEntries(allPolicies, disablePolicies, hashes);
      && UniqueKeys(active)
      && (forall i, j :: 0 <= i < j < |active| ==> IndexOf(allPolicies, active[i]) < IndexOf(allPolicies, active[j]))
      && (forall i :: 0 <= i < |active| ==> active[i].0 !in disablePolicies)
  {
    var active := ActiveEntries(allPolicies, disablePolicies, hashes);
    UniqueKeysDistinct(allPolicies);
    FilterOrder((e: (string, string)) => IsActive(disablePolicies, hashes, e), allPolicies);
    forall i, j | 0 <= i < j < |active| ensures Keys(active)[i] != Keys(active)[j] {
      var a, b := IndexOf(allPolicies, active[i]), IndexOf(allPolicies, active[j]);
      assert a != b;
      assert Keys(allPolicies)[a] != Keys(allPolicies)[b];
    }
    forall i | 0 <= i < |active| ensures active[i].0 !in disablePolicies {
      assert active[i] in active;
    }
  }

  /** The part of a line before its first space. */
  function DirectiveName(line: string): string {
    if ' ' in line then line[..IndexOfChar(line, ' ')] else line
  }

  /** Every line starts with the kebab-case name of its key (which holds no
      upper-case letter) and ends with `;`; for a key without spaces that
      name is the line's first word. */
  lemma DirectiveLineShape(key: string, defaultPolicy: string, generated: seq<string>)
    ensures var line := DirectiveLine(key, defaultPolicy, generated);
      ' ' !in key ==> DirectiveName(line) == CamelCaseToKebabCase(key)
  {
    var name := CamelCaseToKebabCase(key);
    var line := DirectiveLine(key, defaultPolicy, generated);
    assert line[..|name| + 1] == name + " ";
    if ' ' !in key {
      KebabHasNoSpace(key);
      assert line[|name|] == ' ';
      assert line[..|name|] == name;
      assert IndexOfChar(line, ' ') == |name|;
    }
  }

  lemma KebabHasNoSpace(key: string)
    requires ' ' !in key
    ensures ' ' !in CamelCaseToKebabCase(key)
  {
    InsertHyphensNoSpace(key);
  }

  lemma {:induction false} InsertHyphensNoSpace(s: string)
    requires ' ' !in s
    ensures ' ' !in InsertHyphens(s)
  {
    if |s| >= 2 {
      assert ' ' !in s[1..] && ' ' !in s[2..];
      InsertHyphensNoSpace(s[1..]);
      InsertHyphensNoSpace(s[2..]);
    }
  }

  /** Joining clean tokens gives a clean string. */
  lemma {:induction false} JoinClean(xs: seq<string>, sep: string)
    requires xs != [] && forall i :: 0 <= i < |xs| ==> Clean(xs[i])
    ensures Clean(Join(xs, sep))
  {
    if |xs| > 1 {
      JoinClean(xs[1..], sep);
      var rest := Join(xs[1..], sep);
      assert Join(xs, sep) == xs[0] + sep + rest;
    }
  }

  lemma ConcatClean(a: string, b: string)
    requires Clean(a) && Clean(b)
    ensures Clean(a + " " + b)
  {
    var t := a + " " + b;
    assert t[0] == a[0];
    assert t[|t| - 1] == b[|b| - 1];
  }

  lemma TrimOfClean(t: string)
    requires Clean(t)
    ensures Trim(t) == t
  {
    TrimClean(t);
  }

  /** A key with no generated hashes renders only its (trimmed) default
      value. */
  lemma FallbackOnlySourceList(defaultPolicy: string)
    ensures SourceList([], defaultPolicy) == Trim(defaultPolicy)
  {
    assert Join([], " ") + " " + defaultPolicy == " " + defaultPolicy;
    TrimLeadingSpace(defaultPolicy);
  }

  /** A key with generated hashes and an empty default renders exactly its
      tokens separated by single spaces. */
  lemma HashesOnlySourceList(generated: seq<string>)
    requires generated != [] && forall i :: 0 <= i < |generated| ==> Clean(generated[i])
    ensures SourceList(generated, "") == Join(generated, " ")
  {
    var j := Join(generated, " ");
    assert j + " " + "" == j + " ";
    TrimTrailingSpace(j);
    JoinClean(generated, " ");
    TrimOfClean(j);
  }

  /** With both, the tokens come first and the default value last. */
  lemma HashesAndFallbackSourceList(defaultPolicy: string, generated: seq<string>)
    requires generated != [] && forall i :: 0 <= i < |generated| ==> Clean(generated[i])
    requires Clean(defaultPolicy)
    ensures SourceList(generated, defaultPolicy) == Join(generated, " ") + " " + defaultPolicy
  {
    var j := Join(generated, " ");
    JoinClean(generated, " ");
    ConcatClean(j, defaultPolicy);
    TrimOfClean(j + " " + defaultPolicy);
  }

  /** A key that is not disabled, has a non-empty default value and no
      generated hashes (none found, or generation disabled for its family)
      still gets its line, holding only the default value. */
  lemma FallbackOnlyLine(allPolicies: Entries, disablePolicies: seq<string>, hashes: CspObject, i: nat)
    requires UniqueKeys(allPolicies) && i < |allPolicies|
    requires Generated(hashes, allPolicies[i].0) == [] && allPolicies[i].1 != ""
    requires allPolicies[i].0 !in disablePolicies
    ensures exists j :: 0 <= j < |BuildCspArray(allPolicies, disablePolicies, hashes)| &&
                        BuildCspArray(allPolicies, disablePolicies, hashes)[j] ==
                        CamelCaseToKebabCase(allPolicies[i].0) + " " + Trim(allPolicies[i].1) + ";"
  {
    BuildCspArrayEmitsIff(allPolicies, disablePolicies, hashes, i);
    FallbackOnlySourceList(allPolicies[i].1);
    var active := ActiveEntries(allPolicies, disablePolicies, hashes);
    var j :| 0 <= j < |active| && active[j].0 == allPolicies[i].0;
    assert BuildCspArray(allPolicies, disablePolicies, hashes)[j] ==
      DirectiveLine(allPolicies[i].0, allPolicies[i].1, []);
  }
}
