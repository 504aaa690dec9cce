/** `generateHashes`: the hash-source tokens for the inline contents of the
    elements one selector matches on a page. Parsing the page and querying
    it are outside the model: a page is given as the list of strings the
    extraction function returned for the matched elements, in document
    order. SHA-256 followed by base64 is the parameter `digest`, about which
    nothing is assumed. */
module Hashes {
  import opened Seqs
  import opened Text

  /** A hash-source token (Content Security Policy Level 3, section 2.3.1):
      `'sha256-<base64 digest>'`. */
  function HashSource(b64: string): (token: string)
    ensures |token| == |b64| + 9
    ensures token[..8] == "'sha256-" && token[|token| - 1] == '\''
  {
    "'sha256-" + b64 + "'"
  }

  /** The digest a hash-source token carries. */
  function DigestOf(token: string): string
    requires |token| >= 9
  {
    token[8..|token| - 1]
  }

  /** Reading the digest back from a token gives the digest it was built
      from, so different digests give different tokens. */
  lemma DigestOfHashSource(b64: string)
    ensures DigestOf(HashSource(b64)) == b64
  {
    var t := HashSource(b64);
    assert t[8..|t| - 1] == b64;
  }

  /** Tokens are never empty and carry no whitespace at either end. */
  lemma HashSourceClean(b64: string)
    ensures Clean(HashSource(b64))
  {
    var t := HashSource(b64);
    assert t[0] == t[..8][0] == '\'';
  }

  /** The token of every non-empty extracted value, in document order,
      repeats included. */
  function Tokens(values: seq<string>, digest: string -> string): (tokens: seq<string>)
    ensures |tokens| <= |values|
  {
    if values == [] then []
    else
      var last := values[|values| - 1];
      Tokens(values[..|values| - 1], digest) + (if last != "" then [HashSource(digest(last))] else [])
  }

  /** Hashing one value more. */
  lemma TokensSnoc(values: seq<string>, value: string, digest: string -> string)
    ensures Tokens(values + [value], digest) ==
      Tokens(values, digest) + (if value != "" then [HashSource(digest(value))] else [])
  {
    assert (values + [value])[..|values|] == values;
  }

  /** Hashing the values up to one index further. */
  lemma TokensPrefix(values: seq<string>, i: nat, digest: string -> string)
    requires i < |values|
    ensures values[i] == "" ==> Tokens(values[..i + 1], digest) == Tokens(values[..i], digest)
    ensures values[i] != "" ==>
      Tokens(values[..i + 1], digest) == Tokens(values[..i], digest) + [HashSource(digest(values[i]))]
  {
    assert values[..i + 1] == values[..i] + [values[i]];
    TokensSnoc(values[..i], values[i], digest);
    assert Tokens(values[..i], digest) + [] == Tokens(values[..i], digest);
  }

  /** A token is produced iff some non-empty extracted value hashes to it. */
  lemma {:induction false} TokensFromValues(values: seq<string>, digest: string -> string, t: string)
    ensures t in Tokens(values, digest) <==>
      exists i :: 0 <= i < |values| && values[i] != "" && t == HashSource(digest(values[i]))
  {
    if t in Tokens(values, digest) {
      var i := ValueOfToken(values, digest, t);
    }
    forall i | 0 <= i < |values| && values[i] != "" && t == HashSource(digest(values[i]))
      ensures t in Tokens(values, digest)
    {
      TokenOfValue(values, digest, i);
    }
  }

  /** Some non-empty value hashes to each token. */
  lemma {:induction false} ValueOfToken(values: seq<string>, digest: string -> string, t: string) returns (i: nat)
    requires t in Tokens(values, digest)
    ensures i < |values| && values[i] != "" && t == HashSource(digest(values[i]))
  {
    var n := |values| - 1;
    var before := Tokens(values[..n], digest);
    assert Tokens(values, digest) == before + (if values[n] != "" then [HashSource(digest(values[n]))] else []);
    if t in before {
      i := ValueOfToken(values[..n], digest, t);
      assert values[..n][i] == values[i];
    } else {
      i := n;
    }
  }

  /** Every non-empty value gets its token. */
  lemma {:induction false} TokenOfValue(values: seq<string>, digest: string -> string, i: nat)
    requires i < |values| && values[i] != ""
    ensures HashSource(digest(values[i])) in Tokens(values, digest)
  {
    var n := |values| - 1;
    var before := Tokens(values[..n], digest);
    assert Tokens(values, digest) == before + (if values[n] != "" then [HashSource(digest(values[n]))] else []);
    if i < n {
      assert values[..n][i] == values[i];
      TokenOfValue(values[..n], digest, i);
    }
  }

  /** The result of `generateHashes`, as a function: no repeats, no more
      tokens than elements, and every token clean, so that the source-list
      lemmas of `buildCSPArray` apply to it. */
  function HashList(values: seq<string>, digest: string -> string): (hashes: seq<string>)
    ensures Distinct(hashes) && |hashes| <= |values|
    ensures forall k :: 0 <= k < |hashes| ==> Clean(hashes[k])
  {
    TokensClean(values, digest);
    Dedup(Tokens(values, digest))
  }

  /** Every token is a hash-source token, hence clean. */
  lemma {:induction false} TokensClean(values: seq<string>, digest: string -> string)
    ensures forall t :: t in Tokens(values, digest) ==> Clean(t)
  {
    if values != [] {
      var last := values[|values| - 1];
      TokensClean(values[..|values| - 1], digest);
      HashSourceClean(digest(last));
    }
  }

  /** The hash list has no repeats, is in the order in which the tokens
      first occur, holds a token exactly for the non-empty values, and is
      no longer than the list of matched elements. */
  lemma HashListFacts(values: seq<string>, digest: string -> string, hashes: seq<string>)
    requires hashes == HashList(values, digest)
    ensures Distinct(hashes) && |hashes| <= |values|
    ensures forall k :: 0 <= k < |hashes| ==>
      exists i :: 0 <= i < |values| && values[i] != "" && hashes[k] == HashSource(digest(values[i]))
    ensures forall i :: 0 <= i < |values| && values[i] != "" ==> HashSource(digest(values[i])) in hashes
    ensures forall a, b :: 0 <= a < b < |hashes| ==>
      IndexOf(Tokens(values, digest), hashes[a]) < IndexOf(Tokens(values, digest), hashes[b])
  {
    var tokens := Tokens(values, digest);
    DedupOrder(tokens);
    forall k | 0 <= k < |hashes|
      ensures exists i :: 0 <= i < |values| && values[i] != "" && hashes[k] == HashSource(digest(values[i]))
    {
      assert hashes[k] in hashes;
      TokensFromValues(values, digest, hashes[k]);
    }
    forall i | 0 <= i < |values| && values[i] != ""
      ensures HashSource(digest(values[i])) in hashes
    {
      TokensFromValues(values, digest, HashSource(digest(values[i])));
    }
  }

  /** `generateHashes(dom, getPropertyValue)(selector)`: each non-empty
      value is hashed and its token added to a `Set`, whose contents are
      returned in insertion order. The result has no repeats and holds the
      token of every non-empty value; `HashListFacts` gives the rest. */
  method GenerateHashes(values: seq<string>, digest: string -> string) returns (hashes: seq<string>)
    ensures hashes == HashList(values, digest)
    ensures Distinct(hashes) && |hashes| <= |values|
    ensures forall i :: 0 <= i < |values| && values[i] != "" ==> HashSource(digest(values[i])) in hashes
  {
    hashes := [];
    var i := 0;
    while i < |values|
      invariant 0 <= i <= |values|
      invariant hashes == Dedup(Tokens(values[..i], digest))
    {
      var value := values[i];
      TokensPrefix(values, i, digest);
      if |value| > 0 {
        var hash := HashSource(digest(value));
        DedupSnoc(Tokens(values[..i], digest), hash);
        if hash !in hashes {
          hashes := hashes + [hash];
        }
      }
      i := i + 1;
    }
    assert values[..i] == values;
    HashListFacts(values, digest, hashes);
  }

  /** A single inline script gives exactly its own token. */
  lemma SingleValue(value: string, digest: string -> string)
    requires value != ""
    ensures HashList([value], digest) == [HashSource(digest(value))]
  {
    assert [value][..0] == [];
  }

  /** Two elements with the same content give one token. */
  lemma RepeatedValue(value: string, digest: string -> string)
    requires value != ""
    ensures HashList([value, value], digest) == [HashSource(digest(value))]
  {
    assert [value, value][..1] == [value];
    SingleValue(value, digest);
  }

  /** Empty extracted values are skipped. */
  lemma EmptyValueSkipped(values: seq<string>, digest: string -> string)
    ensures HashList(values + [""], digest) == HashList(values, digest)
  {
    TokensSnoc(values, "", digest);
    assert Tokens(values, digest) + [] == Tokens(values, digest);
  }
}
