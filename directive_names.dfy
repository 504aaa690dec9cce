/** The directive names behind the default keys: `camelCaseToKebabCase`
    turns each of the 20 keys of the default table into the name of a
    Content Security Policy Level 3 directive. `Spells` checks one key
    against one name character by character; `KeySpellsName` turns such a
    check into a statement about the conversion, and the `KeysSpelled`
    lemmas check the 20 keys of the table against their directive names. */
module DirectiveNames {
  import opened Text
  import opened Policies

  /** A key that spells a name converts to it. */
  lemma KeySpellsName(key: string, name: string)
    requires Spells(key, 0, name, 0)
    ensures CamelCaseToKebabCase(key) == name
  {
    SpellsSound(key, 0, name, 0);
    assert key[0..] == key && name[0..] == name;
    InsertHyphensAtBoundaries(key);
  }

  /** A key with two boundaries, stated on the conversion itself. */
  lemma ScriptSrcElemName()
    ensures CamelCaseToKebabCase("scriptSrcElem") == "script-src-elem"
  {
    KeySpellsName("scriptSrcElem", "script-src-elem");
  }

  /** `n[j..]` is what the conversion makes of `s[i..]`, checked one
      character at a time, so that it unfolds on literal strings: an
      upper-case letter stands for its lower-case form, and a camel-case
      boundary for the two characters with a hyphen between them. */
  predicate Spells(s: string, i: nat, n: string, j: nat)
    decreases |s| - i
  {
    if i >= |s| then j == |n|
    else if j >= |n| then false
    else if IsUpper(s[i]) then n[j] == LowerChar(s[i]) && Spells(s, i + 1, n, j + 1)
    else if i + 1 < |s| && CamelBoundaryAt(s, i) then
      j + 1 < |n| && n[j] == s[i] && n[j + 1] == '-' && Spells(s, i + 1, n, j + 2)
    else n[j] == s[i] && Spells(s, i + 1, n, j + 1)
  }

  lemma {:induction false} SpellsSound(s: string, i: nat, n: string, j: nat)
    requires i <= |s| && j <= |n|
    requires Spells(s, i, n, j)
    ensures n[j..] == ToLower(HyphenatedAtBoundaries(s[i..]))
    decreases |s| - i
  {
    if i < |s| {
      HyphenatedFrom(s, i);
      var rest := HyphenatedAtBoundaries(s[i + 1..]);
      if i + 1 < |s| && CamelBoundaryAt(s, i) {
        assert !IsUpper(s[i]);
        SpellsSound(s, i + 1, n, j + 2);
        SpelledWithHyphen(s[i], rest, n, j);
      } else {
        assert n[j] == LowerChar(s[i]) && Spells(s, i + 1, n, j + 1);
        SpellsSound(s, i + 1, n, j + 1);
        SpelledAlone(s[i], rest, n, j);
      }
    }
  }

  lemma SpelledWithHyphen(c: char, rest: string, n: string, j: nat)
    requires j + 2 <= |n| && n[j] == c && !IsUpper(c) && n[j + 1] == '-'
    requires n[j + 2..] == ToLower(rest)
    ensures n[j..] == ToLower([c] + "-" + rest)
  {
    HyphenLower(c, rest);
    assert [c] + "-" + rest == [c, '-'] + rest;
    assert n[j..] == [n[j], n[j + 1]] + n[j + 2..];
  }

  lemma SpelledAlone(c: char, rest: string, n: string, j: nat)
    requires j + 1 <= |n| && n[j] == LowerChar(c)
    requires n[j + 1..] == ToLower(rest)
    ensures n[j..] == ToLower([c] + "" + rest)
  {
    ToLowerAppend([c], rest);
    assert [c] + "" + rest == [c] + rest;
    assert n[j..] == [n[j]] + n[j + 1..];
  }

  /** The reference conversion of a suffix, one character at a time. */
  lemma HyphenatedFrom(s: string, i: nat)
    requires i < |s|
    ensures HyphenatedAtBoundaries(s[i..]) ==
      [s[i]] + (if i + 1 < |s| && CamelBoundaryAt(s, i) then "-" else "") + HyphenatedAtBoundaries(s[i + 1..])
  {
    var t := s[i..];
    assert t[0] == s[i] && t[1..] == s[i + 1..];
    assert (i + 1 < |s| && CamelBoundaryAt(s, i)) == (|t| >= 2 && CamelBoundaryAt(t, 0));
  }

  lemma HyphenLower(c: char, rest: string)
    ensures ToLower([c, '-'] + rest) == [LowerChar(c), '-'] + ToLower(rest)
  {
    ToLowerAppend([c, '-'], rest);
  }

  lemma ToLowerAppend(a: string, b: string)
    ensures ToLower(a + b) == ToLower(a) + ToLower(b)
  {
  }

  /** Default keys 0 to 3. */
  lemma KeysSpelled0To3()
    ensures Spells("defaultSrc", 0, "default-src", 0)
    ensures Spells("childSrc", 0, "child-src", 0)
    ensures Spells("connectSrc", 0, "connect-src", 0)
    ensures Spells("fontSrc", 0, "font-src", 0)
  {
  }

  /** Default keys 4 to 7. */
  lemma KeysSpelled4To7()
    ensures Spells("frameSrc", 0, "frame-src", 0)
    ensures Spells("imgSrc", 0, "img-src", 0)
    ensures Spells("manifestSrc", 0, "manifest-src", 0)
    ensures Spells("mediaSrc", 0, "media-src", 0)
  {
  }

  /** Default keys 8 to 10. */
  lemma KeysSpelled8To10()
    ensures Spells("objectSrc", 0, "object-src", 0)
    ensures Spells("prefetchSrc", 0, "prefetch-src", 0)
    ensures Spells("scriptSrc", 0, "script-src", 0)
  {
  }

  /** Default keys 11 to 12. */
  lemma KeysSpelled11To12()
    ensures Spells("scriptSrcElem", 0, "script-src-elem", 0)
    ensures Spells("scriptSrcAttr", 0, "script-src-attr", 0)
  {
  }

  /** Default keys 13 to 15. */
  lemma KeysSpelled13To15()
    ensures Spells("styleSrc", 0, "style-src", 0)
    ensures Spells("styleSrcElem", 0, "style-src-elem", 0)
    ensures Spells("styleSrcAttr", 0, "style-src-attr", 0)
  {
  }

  /** Default keys 16 to 19. */
  lemma KeysSpelled16To19()
    ensures Spells("workerSrc", 0, "worker-src", 0)
    ensures Spells("baseUri", 0, "base-uri", 0)
    ensures Spells("formAction", 0, "form-action", 0)
    ensures Spells("frameAncestors", 0, "frame-ancestors", 0)
  {
  }
}
