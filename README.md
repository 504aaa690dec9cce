# CSP header generator: a Dafny model

This project models the Netlify build plugin in
`plugins/netlify-plugin-csp-generator.js`. After a site is built, the
plugin generates a Content-Security-Policy header for each HTML page and
appends the headers to the site's `_headers` file. The model covers these
steps:

- **Policy table** (`Policies`). `mergeWithDefaultPolicies` overlays the
  operator's policies on the fixed table of 20 camel-case directive keys.
- **Hashes** (`Hashes`). `generateHashes` turns the inline contents of one
  family of elements into `'sha256-…'` hash-source tokens. These are the
  tokens of Content Security Policy Level 3, section 2.3.1. An insertion-ordered
  `Set` collects them.
- **Per-page header** (`FileProcessor`). `createFileProcessor` hashes a
  page's scripts, styles and `style=` attributes. It classifies the page's
  path into a web path and a global/local flag.
- **Merging** (`HeaderSplit`). The reducer `splitToGlobalAndLocal` merges
  global (directory wildcard `dir/*`) headers that share a web path. Local
  (index page) headers are kept one per page. The reducer is a class whose
  method updates the accumulator in place.
- **Directive lines** (`Policies`). `buildCSPArray` renders a header's
  directive lines in table order. Key names go through
  `camelCaseToKebabCase`.
- **Output text** (`PostBuild`). `onPostBuild` combines the steps above into
  the text written to `_headers`: one stanza per header, globals first.

`Seqs` and `Text` hold sequence and string helpers. They model the
JavaScript built-ins the plugin relies on: the iteration order of a `Set`,
`filter`, `join` and `trim`. They also define a one-character `split`,
which states how the output text reads back.

Modelling choices:

- **Timing and I/O.** The following are outside the model: parsing pages,
  querying the DOM, SHA-256 with base64, reading and globbing files,
  writing `_headers`, logging and timing.
  - A page is given as the strings its three DOM queries extract, in
    document order.
  - `base64(sha256(s))` is a function parameter `digest`. Nothing is
    assumed about it.
- **Policies.** The operator's policies object is a list of (key, value)
  entries with distinct keys, in the order `Object.entries` enumerates them.
- **Absent inputs.** An absent `policies`, `disablePolicies` or
  `disableGeneratedPolicies` input is the empty list, which is what the
  source's `|| []` and object spread make of `undefined`.

Behaviour of the code a reader may not expect:

- **Hash accumulation.** Merging global headers appends their hash arrays,
  so repeated tokens stay repeated. Merging a header with a copy of itself
  doubles its lists (`HeaderSplit.DuplicatesRetained`).
- **Stanza order.** The output holds the global (wildcard) stanzas first,
  in the order their web paths first occur, then the local (index page)
  stanzas in page order.
- **Disable lists use camel-case keys.** `disablePolicies` and
  `disableGeneratedPolicies` are compared with the camel-case keys of the
  table (`scriptSrc`, `styleSrc`). A kebab-case entry such as `script-src`
  disables nothing.
- **Unknown operator keys are emitted.** Keys outside the default table
  follow the 20 default keys and get directive lines like any other key.
- **Empty stanzas are emitted.** A header with no active directive still
  gets a stanza. Its policy line is `  Content-Security-Policy: ` with
  nothing after it.
- **Index pages are matched by suffix.** The index test is a suffix test on
  `index.html`. So `dir/myindex.html` counts as an index page, with the local
  web path `dir/my` (`FileProcessor.IndexSuffixOfFileName`).
- **Unmatched paths.** A path that neither pattern matches keeps its full
  file path as its web path and is treated as global.

## Model

| member | source | states |
|---|---|---|
| Seqs.Dedup | plugins/netlify-plugin-csp-generator.js:113-122 | the elements of a `Set` filled in order: no repeats, and exactly the elements that were added |
| Seqs.DedupOrder | plugins/netlify-plugin-csp-generator.js:113-122 | `Array.from(set)` lists the elements in the order they were first added |
| Seqs.Filter | plugins/netlify-plugin-csp-generator.js:130-134 | `filter` keeps exactly the elements that satisfy the predicate |
| Seqs.FilterOrder | plugins/netlify-plugin-csp-generator.js:130-134 | `filter` on a list without repeats keeps the relative order and adds no repeats |
| Text.Trim | plugins/netlify-plugin-csp-generator.js:137 | `trim` removes exactly the leading and trailing JavaScript whitespace and line terminators |
| Text.TrimLeadingSpace | plugins/netlify-plugin-csp-generator.js:136-137 | the space after an empty hash list disappears under `trim` |
| Text.TrimTrailingSpace | plugins/netlify-plugin-csp-generator.js:136-137 | the space before an empty default value disappears under `trim` |
| Text.Join | plugins/netlify-plugin-csp-generator.js:34-36 | `join` of a non-empty list starts with its first element |
| Text.JoinAppend | plugins/netlify-plugin-csp-generator.js:31-36 | joining two non-empty lists is joining each and putting one separator between the results |
| Text.SplitJoin | plugins/netlify-plugin-csp-generator.js:31-36 | splitting a join at its one-character separator gives back the pieces when none contains the separator |
| Policies.MergeWithDefaultPolicies | plugins/netlify-plugin-csp-generator.js:47-72 | the 20 default keys come first, in their fixed order; an operator-supplied key takes the operator's value and any other default key is `''`; the operator's other keys follow in order; keys stay unique; no operator entry is lost; the key set is the union of the two key sets |
| Policies.UnknownEntries | plugins/netlify-plugin-csp-generator.js:71 | the spread adds exactly the operator entries whose keys are not default keys |
| Policies.InsertHyphens | plugins/netlify-plugin-csp-generator.js:127 | the replacement never shortens the key and keeps its first character |
| Policies.InsertHyphensOnlyAddsHyphens | plugins/netlify-plugin-csp-generator.js:127 | the replacement only inserts hyphens: without hyphens, input and output are the same |
| Policies.InsertHyphensSplitsEveryBoundary | plugins/netlify-plugin-csp-generator.js:127 | after the replacement no lower-case letter or digit is directly followed by an upper-case letter |
| Policies.HyphenatedAtBoundaries | plugins/netlify-plugin-csp-generator.js:127 | the key with one hyphen after each lower-case letter or digit that is followed by an upper-case letter: its length is the key's length plus the number of such boundaries |
| Policies.InsertHyphensAtBoundaries | plugins/netlify-plugin-csp-generator.js:127 | the global replacement puts a hyphen exactly at every camel-case boundary of the original key and nowhere else |
| Policies.InsertHyphensLength | plugins/netlify-plugin-csp-generator.js:127 | the replacement lengthens the key by exactly its number of camel-case boundaries |
| Policies.NoBoundaryUnchanged | plugins/netlify-plugin-csp-generator.js:127 | a key without a lower-case letter or digit before an upper-case letter is left as it is |
| Policies.ToLower | plugins/netlify-plugin-csp-generator.js:127 | `toLowerCase` maps each character to its lower-case form |
| Policies.CamelCaseToKebabCase | plugins/netlify-plugin-csp-generator.js:127 | a directive name holds no upper-case letter |
| Policies.KebabHasNoSpace | plugins/netlify-plugin-csp-generator.js:127 | a key without spaces gives a directive name without spaces |
| DirectiveNames.KeySpellsName | plugins/netlify-plugin-csp-generator.js:127 | a key that spells a name character by character (upper-case letters lowered, a hyphen at each boundary) converts to exactly that name |
| DirectiveNames.SpellsSound | plugins/netlify-plugin-csp-generator.js:127 | the character-by-character spelling check agrees with lowering the hyphenated key |
| DirectiveNames.ScriptSrcElemName | plugins/netlify-plugin-csp-generator.js:60 | `scriptSrcElem` becomes `script-src-elem` |
| DirectiveNames.KeysSpelled0To3 | plugins/netlify-plugin-csp-generator.js:49-52 | `defaultSrc`, `childSrc`, `connectSrc` and `fontSrc` spell `default-src`, `child-src`, `connect-src` and `font-src` |
| DirectiveNames.KeysSpelled4To7 | plugins/netlify-plugin-csp-generator.js:53-56 | `frameSrc`, `imgSrc`, `manifestSrc` and `mediaSrc` spell `frame-src`, `img-src`, `manifest-src` and `media-src` |
| DirectiveNames.KeysSpelled8To10 | plugins/netlify-plugin-csp-generator.js:57-59 | `objectSrc`, `prefetchSrc` and `scriptSrc` spell `object-src`, `prefetch-src` and `script-src` |
| DirectiveNames.KeysSpelled11To12 | plugins/netlify-plugin-csp-generator.js:60-61 | `scriptSrcElem` and `scriptSrcAttr` spell `script-src-elem` and `script-src-attr` |
| DirectiveNames.KeysSpelled13To15 | plugins/netlify-plugin-csp-generator.js:62-64 | `styleSrc`, `styleSrcElem` and `styleSrcAttr` spell `style-src`, `style-src-elem` and `style-src-attr` |
| DirectiveNames.KeysSpelled16To19 | plugins/netlify-plugin-csp-generator.js:65-68 | `workerSrc`, `baseUri`, `formAction` and `frameAncestors` spell `worker-src`, `base-uri`, `form-action` and `frame-ancestors` |
| Policies.ActiveEntries | plugins/netlify-plugin-csp-generator.js:129-134 | an entry is kept iff it has generated hashes or a non-empty default value and its key is not disabled |
| Policies.BuildCspArray | plugins/netlify-plugin-csp-generator.js:126-139 | one line per kept entry, in table order; each line is the entry's kebab-case name, a space, the trimmed join of hashes and default value, and `;` |
| Policies.BuildCspArrayEmitsIff | plugins/netlify-plugin-csp-generator.js:129-138 | a table key gets a line iff it has generated hashes or a non-empty default value and is not in `disablePolicies`; the line is built from that key's own value |
| Policies.BuildCspArrayOrder | plugins/netlify-plugin-csp-generator.js:129-134 | lines follow table order with at most one line per key, and no line belongs to a disabled key |
| Policies.DirectiveLineShape | plugins/netlify-plugin-csp-generator.js:137 | for a key without spaces, the line's first word is the key's directive name |
| Policies.DirectiveLine | plugins/netlify-plugin-csp-generator.js:135-137 | each line starts with its key's kebab-case name and a space and ends with `;` |
| Policies.SourceList | plugins/netlify-plugin-csp-generator.js:136-137 | the trimmed source list is empty or has no whitespace at either end |
| Policies.FallbackOnlySourceList | plugins/netlify-plugin-csp-generator.js:136-137 | a key without generated hashes renders only its trimmed default value |
| Policies.HashesOnlySourceList | plugins/netlify-plugin-csp-generator.js:136-137 | a key with hashes and an empty default renders exactly its tokens separated by single spaces |
| Policies.HashesAndFallbackSourceList | plugins/netlify-plugin-csp-generator.js:136-137 | with hashes and a default value, the tokens come first and the default value last |
| Policies.FallbackOnlyLine | plugins/netlify-plugin-csp-generator.js:129-138 | a key that is not disabled and has a default value but no hashes still gets a line holding only the default value |
| Hashes.HashSource | plugins/netlify-plugin-csp-generator.js:119 | a token is `'sha256-`, the digest, and `'` |
| Hashes.DigestOfHashSource | plugins/netlify-plugin-csp-generator.js:117-119 | the digest can be read back from its token, so different digests give different tokens |
| Hashes.HashSourceClean | plugins/netlify-plugin-csp-generator.js:119 | a token is non-empty and has no whitespace at either end |
| Hashes.Tokens | plugins/netlify-plugin-csp-generator.js:114-120 | there are no more tokens than matched elements |
| Hashes.TokensFromValues | plugins/netlify-plugin-csp-generator.js:114-120 | a token is produced iff some non-empty extracted value hashes to it |
| Hashes.GenerateHashes | plugins/netlify-plugin-csp-generator.js:111-124 | the loop returns `HashList`, the de-duplicated tokens: no repeats, no more tokens than elements, and the token of every non-empty value |
| Hashes.HashListFacts | plugins/netlify-plugin-csp-generator.js:111-124 | the hash list has no repeats, holds a token exactly for the non-empty values, and keeps the order in which tokens first occur |
| Hashes.HashList | plugins/netlify-plugin-csp-generator.js:111-124 | the hash list has no repeats, no more tokens than elements, and every token is non-empty with no whitespace at either end |
| Hashes.TokensClean | plugins/netlify-plugin-csp-generator.js:116-119 | every token added to the set is a non-empty hash source with no whitespace at either end |
| Hashes.SingleValue | plugins/netlify-plugin-csp-generator.js:114-122 | one inline script gives exactly its own token |
| Hashes.RepeatedValue | plugins/netlify-plugin-csp-generator.js:113-122 | two elements with the same content give one token |
| Hashes.EmptyValueSkipped | plugins/netlify-plugin-csp-generator.js:116 | an empty extracted value contributes nothing |
| FileProcessor.LastIndexOfChar | plugins/netlify-plugin-csp-generator.js:86 | the greedy group ends at the last `/` |
| FileProcessor.ClassifyPath | plugins/netlify-plugin-csp-generator.js:85-96 | the header is local iff the index pattern matches, and then the path is build dir + web path + `index.html`; when only the wildcard pattern matches, the web path is a prefix of the rest of the path ending in `/*` with no `/` after it in the path; when neither matches, the path is kept and the header is global |
| FileProcessor.ClassifyIndexPage | plugins/netlify-plugin-csp-generator.js:85-92 | `buildDir + R` with `R` ending in `index.html` gets the local web path `R` without that suffix |
| FileProcessor.ClassifyOtherPage | plugins/netlify-plugin-csp-generator.js:86-96 | any other HTML page `buildDir + R` inside a directory gets the global web path `R` up to its last `/`, then `*` |
| FileProcessor.SameDirectorySameScope | plugins/netlify-plugin-csp-generator.js:86-96 | every non-index page of one directory gets that directory's single wildcard path |
| FileProcessor.IndexSuffixOfFileName | plugins/netlify-plugin-csp-generator.js:85-92 | `dir/myindex.html` is an index page with the local web path `dir/my` |
| FileProcessor.BlogIndexExample | plugins/netlify-plugin-csp-generator.js:85-92 | `build/blog/index.html` gets the local web path `/blog/` |
| FileProcessor.IndexPagesDistinct | plugins/netlify-plugin-csp-generator.js:85-92 | two different index pages never share a web path |
| FileProcessor.ProcessFile | plugins/netlify-plugin-csp-generator.js:74-108 | the header has the classified path and flag; a family listed in `disableGeneratedPolicies` has no hashes; otherwise `scriptSrc` is the script hashes and `styleSrc` is the `<style>` hashes followed by the `style=` hashes |
| FileProcessor.PageHeaderTokens | plugins/netlify-plugin-csp-generator.js:77-83 | a token is in the page's `scriptSrc` (`styleSrc`) iff its family is not disabled and some non-empty script (style or style attribute) value hashes to it |
| FileProcessor.PageHeader | plugins/netlify-plugin-csp-generator.js:74-108 | a page's `scriptSrc` has no repeats and no more tokens than scripts; `styleSrc` has no more tokens than `<style>` elements and `style=` attributes together; every token is non-empty with no whitespace at either end |
| FileProcessor.PageSourceList | plugins/netlify-plugin-csp-generator.js:136-137 | when a key has generated hashes on a page, its source list is exactly those tokens joined by single spaces, followed by a space and the default value when that value is non-empty with no surrounding whitespace |
| HeaderSplit.FindIndex | plugins/netlify-plugin-csp-generator.js:143 | `findIndex` gives the first index with the web path, or -1 exactly when there is none |
| HeaderSplit.Absorb | plugins/netlify-plugin-csp-generator.js:144-146 | the merged entry keeps the existing web path and flag; each list is the existing list followed by the arriving header's list |
| HeaderSplit.Step | plugins/netlify-plugin-csp-generator.js:141-155 | a global header leaves the locals alone, adds at most one global entry, and its web path is then among the globals; one with an unknown web path is appended; a local header is appended to the locals and the globals are unchanged |
| HeaderSplit.Split | plugins/netlify-plugin-csp-generator.js:28-29 | the reduction yields no more entries than headers, and at least one entry when there is a header |
| HeaderSplit.SplitPrefix | plugins/netlify-plugin-csp-generator.js:28-29 | reducing one more header is one more call of the reducer |
| HeaderSplit.Combined | plugins/netlify-plugin-csp-generator.js:144-146 | a web path that no global header carries receives no sources |
| HeaderSplit.Accumulator.constructor | plugins/netlify-plugin-csp-generator.js:29 | the accumulator starts with two empty lists |
| HeaderSplit.Accumulator.SplitToGlobalAndLocal | plugins/netlify-plugin-csp-generator.js:141-155 | a global header with a known web path is appended onto that entry in place; any other global header is appended to the globals; a local header is appended to the locals; the distinct web paths of the globals are kept |
| HeaderSplit.SplitLocals | plugins/netlify-plugin-csp-generator.js:150-152 | the locals are exactly the local headers, in input order, unmerged |
| HeaderSplit.SplitGlobalPaths | plugins/netlify-plugin-csp-generator.js:142-149 | there is one global entry per web path of the global headers, in first-occurrence order, and all are global |
| HeaderSplit.SplitGlobalsDistinct | plugins/netlify-plugin-csp-generator.js:143-149 | no two global entries share a web path |
| HeaderSplit.SplitCombines | plugins/netlify-plugin-csp-generator.js:144-146 | each global entry holds, in order and with repeats, the `scriptSrc` and `styleSrc` of every global header with its web path |
| HeaderSplit.NoTokenLost | plugins/netlify-plugin-csp-generator.js:142-149 | every source a global header carries is in the global entry for its web path |
| HeaderSplit.DuplicatesRetained | plugins/netlify-plugin-csp-generator.js:144-146 | merging a header with itself doubles its lists: repeated tokens are not removed |
| PostBuild.CspString | plugins/netlify-plugin-csp-generator.js:34 | the policy string is empty exactly when no directive line is emitted |
| PostBuild.Stanza | plugins/netlify-plugin-csp-generator.js:35 | a stanza with no line break in its web path or policy string reads back as two lines: the web path and `  Content-Security-Policy: ` followed by the policy string |
| PostBuild.RenderHeaders | plugins/netlify-plugin-csp-generator.js:31-36 | the text is empty exactly when there is no header, and otherwise starts with the first header's web path, a line break and the policy label |
| PostBuild.HeadersFile | plugins/netlify-plugin-csp-generator.js:11-36 | the text appended to `_headers` is empty exactly when no page was found |
| PostBuild.PageHeaders | plugins/netlify-plugin-csp-generator.js:24-26 | one header per page, in path order |
| PostBuild.ProcessFiles | plugins/netlify-plugin-csp-generator.js:22-26 | the loop's result is the header of each page, in path order |
| PostBuild.SplitAll | plugins/netlify-plugin-csp-generator.js:28-29 | the reduction with a fresh accumulator gives the split of the headers |
| PostBuild.OnPostBuild | plugins/netlify-plugin-csp-generator.js:11-36 | the text appended to `_headers` is the stanzas of the merged global headers, then those of the local headers |
| PostBuild.StanzasAppend | plugins/netlify-plugin-csp-generator.js:31-36 | the stanzas of two header lists render as the two texts joined by one line break |
| PostBuild.GlobalsBeforeLocals | plugins/netlify-plugin-csp-generator.js:31-36 | the global stanzas come first, as one block, and the local stanzas follow |
| PostBuild.StanzasAreLines | plugins/netlify-plugin-csp-generator.js:31-36 | the stanzas joined by line breaks alternate web-path lines and policy lines |
| PostBuild.StanzaLines | plugins/netlify-plugin-csp-generator.js:31-36 | when no web path or policy string holds a line break, splitting the text at line breaks gives each stanza's web path and policy line in turn |
| PostBuild.FileLines | plugins/netlify-plugin-csp-generator.js:31-36 | line `2k` of the file is header `k`'s web path and line `2k+1` is `  Content-Security-Policy: ` and its policy string |

## Left out

- Discovering the pages via `globby` and building the exclude patterns (lines 14-20). This is file-system globbing. The pages are an input list.
- Reading files, appending to `_headers`, `console` output and `performance` timing. These are I/O with no effect on the text produced.
- `Promise.all`. Pages are processed as a plain sequence in path order, which is the order `Promise.all` returns the results in.
- JSDOM parsing and `querySelectorAll`. These are a foreign library. A page is the list of strings each query extracts, in document order.
- SHA-256 (FIPS 180-4) and base64 (section 4 of RFC 4648). These are foreign calls, replaced by the uninterpreted parameter `digest`.
- `nuxt.config.js`. It is static build configuration with no logic to verify.
- FileProcessor.ClassifyPath: treats `buildDir` as a literal prefix. The source interpolates it unescaped into a regular expression, so a `buildDir` with regex metacharacters would match differently.
- Policies.ToLower: lowers ASCII letters only. JavaScript's `toLowerCase` also lowers non-ASCII letters. The default keys are ASCII.
- Policies.MergeWithDefaultPolicies: does not model that JavaScript enumerates integer-like keys (such as `"1"`) before other keys. It also does not model keys such as `constructor`, which `hashes[key]` reads from `Object.prototype`, or values that are not strings.
- HeaderSplit.Accumulator.SplitToGlobalAndLocal: headers are values. The source appends onto the arrays of the first page's own header object, which `processedFileHeaders` also holds. That aliasing is not modelled, and neither is the argument-count limit of `push(...array)`.
- PostBuild.FileLines: only describes files in which no web path or policy string contains a line break. Such a break could come from an operator's policy value or a file name.
- DirectiveNames.KeysSpelled0To3 (and the other five `KeysSpelled` lemmas): state that each of the 20 default keys spells its directive name, not the conversion's result itself. `KeySpellsName` turns each fact into `CamelCaseToKebabCase(key) == name`, one call per key, as `ScriptSrcElemName` does. Evaluating the conversion on all 20 literal keys in one proof is too costly for the verifier.
