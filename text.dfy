/** String operations of JavaScript that the plugin relies on: `join`,
    `split` on one character, `trim`, and prefix/suffix tests. */
module Text {

  /** `xs.join(sep)`: it starts with the first piece, and `SplitJoin`
      below takes it apart again. */
  function Join(xs: seq<string>, sep: string): (r: string)
    ensures xs != [] ==> StartsWith(r, xs[0])
  {
    if xs == [] then ""
    else if |xs| == 1 then xs[0]
    else xs[0] + sep + Join(xs[1..], sep)
  }

  /** Joining two non-empty lists is joining each and gluing the results
      with one more separator. */
  lemma {:induction false} JoinAppend(a: seq<string>, b: seq<string>, sep: string)
    requires a != [] && b != []
    ensures Join(a + b, sep) == Join(a, sep) + sep + Join(b, sep)
  {
    var ab := a + b;
    assert ab[0] == a[0];
    if |a| == 1 {
      assert ab[1..] == b;
      assert Join(ab, sep) == a[0] + sep + Join(b, sep);
    } else {
      assert ab[1..] == a[1..] + b;
      JoinAppend(a[1..], b, sep);
      var x, y, z := Join(a[1..], sep), Join(b, sep), a[0] + sep;
      assert Join(ab, sep) == z + (x + sep + y);
      assert Join(a, sep) == z + x;
      assert z + (x + sep + y) == (z + x) + sep + y;
    }
  }

  /** `s.split(c)` for a one-character separator: the pieces between the
      occurrences of `c`; the empty string splits into `[""]`. */
  function SplitOn(s: string, c: char): (pieces: seq<string>)
    ensures |pieces| >= 1
    ensures forall i :: 0 <= i < |pieces| ==> c !in pieces[i]
    decreases |s|
  {
    if c !in s then [s]
    else
      var i := IndexOfChar(s, c);
      [s[..i]] + SplitOn(s[i + 1..], c)
  }

  /** Index of the first occurrence of `c` in `s`. */
  function IndexOfChar(s: string, c: char): (i: nat)
    requires c in s
    ensures i < |s| && s[i] == c && c !in s[..i]
  {
    if s[0] == c then 0 else 1 + IndexOfChar(s[1..], c)
  }

  /** Splitting a join on its one-character separator gives back the
      pieces, provided no piece contains the separator. */
  lemma {:induction false} SplitJoin(xs: seq<string>, c: char)
    requires xs != []
    requires forall i :: 0 <= i < |xs| ==> c !in xs[i]
    ensures SplitOn(Join(xs, [c]), c) == xs
  {
    if |xs| > 1 {
      var s := Join(xs, [c]);
      var rest := Join(xs[1..], [c]);
      assert s == xs[0] + [c] + rest;
      assert s[|xs[0]|] == c;
      assert s[..|xs[0]|] == xs[0];
      assert IndexOfChar(s, c) == |xs[0]|;
      assert s[|xs[0]| + 1..] == rest;
      SplitJoin(xs[1..], c);
    }
  }

  predicate StartsWith(s: string, prefix: string) {
    |prefix| <= |s| && s[..|prefix|] == prefix
  }

  predicate EndsWith(s: string, suffix: string) {
    |suffix| <= |s| && s[|s| - |suffix|..] == suffix
  }

  /** The characters JavaScript's `trim` removes: WhiteSpace (tab, vertical
      tab, form feed, space, no-break space, byte-order mark and the Unicode
      space separators) and LineTerminator. */
  predicate IsWhitespace(c: char) {
    || c == '\t' || c == '\U{000B}' || c == '\U{000C}' || c == ' '
    || c == '\U{00A0}' || c == '\U{FEFF}' || c == '\U{1680}'
    || ('\U{2000}' <= c <= '\U{200A}') || c == '\U{202F}' || c == '\U{205F}' || c == '\U{3000}'
    || IsLineTerminator(c)
  }

  /** Non-empty, with no whitespace at either end. */
  predicate Clean(t: string) {
    t != [] && !IsWhitespace(t[0]) && !IsWhitespace(t[|t| - 1])
  }

  /** The characters a regular-expression `.` does not match. */
  predicate IsLineTerminator(c: char) {
    c == '\n' || c == '\r' || c == '\U{2028}' || c == '\U{2029}'
  }

  predicate AllWhitespace(s: string) {
    forall i :: 0 <= i < |s| ==> IsWhitespace(s[i])
  }

  /** Every character of `s` from `lo` up to `hi` is whitespace. */
  predicate WhitespaceBetween(s: string, lo: nat, hi: nat)
    requires lo <= hi <= |s|
  {
    forall j :: lo <= j < hi ==> IsWhitespace(s[j])
  }

  /** The first index from `i` on that does not hold whitespace, or `|s|`. */
  function StartFrom(s: string, i: nat): (k: nat)
    requires i <= |s|
    ensures i <= k <= |s| && WhitespaceBetween(s, i, k)
    ensures k == |s| || !IsWhitespace(s[k])
    decreases |s| - i
  {
    if i < |s| && IsWhitespace(s[i]) then StartFrom(s, i + 1) else i
  }

  /** The index after the last character below `hi` and from `lo` on that
      is not whitespace, or `lo`. */
  function EndBetween(s: string, lo: nat, hi: nat): (k: nat)
    requires lo <= hi <= |s|
    ensures lo <= k <= hi && WhitespaceBetween(s, k, hi)
    ensures k == lo || !IsWhitespace(s[k - 1])
  {
    if lo < hi && IsWhitespace(s[hi - 1]) then EndBetween(s, lo, hi - 1) else hi
  }

  /** `s.trim()`: `s` is some whitespace, then the result, then some more
      whitespace, and the result neither starts nor ends with whitespace. */
  function Trim(s: string): (r: string)
    ensures exists i :: 0 <= i <= |s| - |r| && s[i..i + |r|] == r
                        && WhitespaceBetween(s, 0, i) && WhitespaceBetween(s, i + |r|, |s|)
    ensures r == [] || (!IsWhitespace(r[0]) && !IsWhitespace(r[|r| - 1]))
  {
    var i := StartFrom(s, 0);
    var j := EndBetween(s, i, |s|);
    assert s[i..j][0..] == s[i..j];
    s[i..j]
  }

  /** A string with no whitespace at either end is its own trim. */
  lemma TrimClean(s: string)
    requires s == [] || (!IsWhitespace(s[0]) && !IsWhitespace(s[|s| - 1]))
    ensures Trim(s) == s
  {
    assert s[0..|s|] == s;
  }

  /** Skipping whitespace in `p + s` after `p` is skipping it in `s`. */
  lemma {:induction false} StartFromShift(p: string, s: string, i: nat)
    requires i <= |s|
    ensures StartFrom(p + s, |p| + i) == |p| + StartFrom(s, i)
    decreases |s| - i
  {
    if i < |s| {
      assert (p + s)[|p| + i] == s[i];
      if IsWhitespace(s[i]) {
        StartFromShift(p, s, i + 1);
      }
    }
  }

  /** Trailing whitespace in `p + s` after `p` is trailing whitespace in `s`. */
  lemma {:induction false} EndBetweenShift(p: string, s: string, lo: nat, hi: nat)
    requires lo <= hi <= |s|
    ensures EndBetween(p + s, |p| + lo, |p| + hi) == |p| + EndBetween(s, lo, hi)
  {
    if lo < hi {
      assert (p + s)[|p| + hi - 1] == s[hi - 1];
      if IsWhitespace(s[hi - 1]) {
        EndBetweenShift(p, s, lo, hi - 1);
      }
    }
  }

  /** Whitespace prepended to a string disappears under trim. */
  lemma TrimLeadingSpace(s: string)
    ensures Trim(" " + s) == Trim(s)
  {
    LeadingSpaceBounds(s);
    var i := StartFrom(s, 0);
    SliceShift(" ", s, i, EndBetween(s, i, |s|));
  }

  lemma LeadingSpaceBounds(s: string)
    ensures var i := StartFrom(s, 0);
      && StartFrom(" " + s, 0) == 1 + i
      && EndBetween(" " + s, 1 + i, 1 + |s|) == 1 + EndBetween(s, i, |s|)
  {
    var t := " " + s;
    StartFromShift(" ", s, 0);
    assert t[0] == ' ';
    EndBetweenShift(" ", s, StartFrom(s, 0), |s|);
  }

  lemma SliceShift(p: string, s: string, a: nat, b: nat)
    requires a <= b <= |s|
    ensures (p + s)[|p| + a..|p| + b] == s[a..b]
  {
    forall k | 0 <= k < b - a ensures (p + s)[|p| + a..|p| + b][k] == s[a..b][k] {
      assert (p + s)[|p| + a + k] == s[a + k];
    }
  }

  /** Extending a string does not move a start that is found before its end. */
  lemma {:induction false} StartFromAppend(s: string, w: string, i: nat)
    requires i <= |s| && StartFrom(s, i) < |s|
    ensures StartFrom(s + w, i) == StartFrom(s, i)
    decreases |s| - i
  {
    assert (s + w)[i] == s[i];
    if IsWhitespace(s[i]) {
      StartFromAppend(s, w, i + 1);
    }
  }

  /** Below the end of `s`, trailing whitespace is found the same in `s + w`. */
  lemma {:induction false} EndBetweenAppend(s: string, w: string, lo: nat, hi: nat)
    requires lo <= hi <= |s|
    ensures EndBetween(s + w, lo, hi) == EndBetween(s, lo, hi)
  {
    if lo < hi {
      assert (s + w)[hi - 1] == s[hi - 1];
      if IsWhitespace(s[hi - 1]) {
        EndBetweenAppend(s, w, lo, hi - 1);
      }
    }
  }

  /** Whitespace appended to a string disappears under trim. */
  lemma TrimTrailingSpace(s: string)
    ensures Trim(s + " ") == Trim(s)
  {
    var t := s + " ";
    var i := StartFrom(s, 0);
    if i < |s| {
      StartFromAppend(s, " ", 0);
      assert t[|s|] == ' ';
      assert EndBetween(t, i, |t|) == EndBetween(t, i, |s|);
      EndBetweenAppend(s, " ", i, |s|);
      var j := EndBetween(s, i, |s|);
      assert t[i..j] == s[i..j];
    } else {
      assert StartFrom(t, 0) == StartFrom(t, |s|) by {
        StartFromAllWhitespace(t, 0, |s|);
      }
      assert t[|s|] == ' ';
    }
  }

  /** A run of whitespace is skipped entirely. */
  lemma {:induction false} StartFromAllWhitespace(s: string, i: nat, k: nat)
    requires i <= k <= |s| && WhitespaceBetween(s, i, k)
    ensures StartFrom(s, i) == StartFrom(s, k)
    decreases k - i
  {
    if i < k {
      StartFromAllWhitespace(s, i + 1, k);
    }
  }
}
