# BibTeX loader of a personal website, in Dafny

This project models the bibliography code of a small academic website
(`js/bibloader.js`). The code reads a `.bib` text with two regular
expressions and turns it into a list of entries. Each entry is an object
holding its `type`, its `key` and its fields. The code then renders two
publication lists and three counters from those entries.

The project has six files:

- `js_strings.dfy` (module `JsStrings`) restates the JavaScript built-ins
  the loader relies on over `seq<char>`:
  - the `\w` and `\s` classes;
  - `trim`;
  - `toLowerCase` on word characters;
  - `replace(/\s+/g, ' ')`;
  - `Array.prototype.join`.
- `bibtex.dfy` (module `Bibtex`) is `parseBibtex`.
  - Each of the two patterns is a function that says what the pattern
    matches when tried at one position (`EntryAt`, `FieldAt`).
  - `NextEntry` and `NextField` give what one `exec` call returns: the
    leftmost match at or after `lastIndex`.
  - The parser is the method `ParseBibtex`. Its inner `exec` loop is the
    method `ReadFields`. Both are proved against recursive functions
    (`Parse`, `Fields`) that state the same scans.
- `bibtex_properties.dfy` (module `BibtexProperties`) states what the
  parser promises for every input text:
  - the shape of every entry and field;
  - at most one entry per `@`;
  - the last assignment of a field wins.
- `bibtex_roundtrip.dfy` (module `BibtexRoundTrip`) states the round trips
  of the parser in both directions:
  - text written as well-formed entry blocks parses to exactly one entry
    per block, built from the block's own type, key and body;
  - a body written as well-formed `name = {value}` pieces holds exactly the
    properties those pieces assign, the last one winning;
  - conversely, whatever either pattern matches is its delimiters with the
    captured groups and whitespace between them.
- `publications.dfy` (module `Publications`) holds the rendering helpers:
  - `formatAuthors`;
  - `formatDetails`, as a method with its five pushes, and the table-driven
    function `Details` that specifies it;
  - the title expression of `pubHTML`;
  - the filters and counters of `renderPublications`.
- `publications_properties.dfy` (module `PublicationsProperties`) states the
  properties of those helpers.

Behaviour of the source that the model keeps:

- **Field values end at the first `}`.** A value such as
  `{The {BERT} model}` is cut short, as the field pattern does.
- **Where an entry ends.** An entry's body ends at the first `}` whose
  following whitespace reaches an `@` or the end of the text.
- **Fields can override `type` and `key`.** A body field named `type` or
  `key` replaces the value the parser assigned, because the object is built
  with spread syntax.
- **A field named `__proto__` is dropped.** Assigning a string to that
  property of a plain object has no effect, so such a field never reaches
  the entry.
- **Only ASCII letters match the separator.** No non-ASCII character
  upper-cases or case-folds to `A`, `N` or `D`, so `/ and /i` matches only
  ASCII `a`, `n` and `d` in either case, with or without the `u` flag.
- **No empty matches.** Neither pattern can match the empty string, so each
  `exec` loop makes progress.

## Model

| member | source | states |
|---|---|---|
| JsStrings.LowerChar | js/bibloader.js:31 | a word character lower-cases to a word character that is no upper-case letter; every other character is kept |
| JsStrings.LowerCharAlphabet | js/bibloader.js:31 | the n-th letter of `A`…`Z` lower-cases to the n-th letter of `a`…`z` |
| JsStrings.LowerWordToken | js/bibloader.js:31 | lower-casing a non-empty `\w+` token gives a non-empty token of lower-case word characters |
| JsStrings.SpaceEnd | js/bibloader.js:28 | a greedy `\s*` stops at the end of the maximal whitespace run |
| JsStrings.WordEnd | js/bibloader.js:28 | a greedy `\w+` stops at the end of the maximal word-character run |
| JsStrings.FindChar | js/bibloader.js:28 | `[^,]+,` and `[^}]*\}` stop at the first occurrence of the delimiter, or find none |
| JsStrings.Trim | js/bibloader.js:32 | `trim` leaves no whitespace at either end and keeps exactly the slice between the leading and trailing whitespace runs |
| JsStrings.TrimmedIsFixed | js/bibloader.js:32 | `trim` changes nothing in an already trimmed string |
| JsStrings.Collapse | js/bibloader.js:40 | `replace(/\s+/g, ' ')` is empty exactly when its input is, starts with whitespace exactly when its input does, leaves every whitespace a lone space, and keeps the non-whitespace characters in order |
| JsStrings.CollapseAppend | js/bibloader.js:40 | where no whitespace run spans the cut, collapsing a concatenation collapses each part on its own |
| JsStrings.CollapseRun | js/bibloader.js:40 | a non-empty whitespace run on its own collapses to exactly one space |
| JsStrings.CollapseAtRun | js/bibloader.js:40 | a whitespace run between non-whitespace characters, or at either end, becomes exactly one space, and the text on both sides collapses independently |
| JsStrings.TrimJoin | js/bibloader.js:40 | trimming two texts joined by one space trims each of them and keeps the space, when the space is flanked by non-whitespace characters |
| JsStrings.NormalizeAtRun | js/bibloader.js:40 | in a field value, a whitespace run between non-whitespace characters becomes exactly one space, so `"J.\nSmith"` becomes `"J. Smith"` |
| JsStrings.Normalize | js/bibloader.js:40 | a field value ends up trimmed and single-spaced, with exactly the non-whitespace characters of the raw value in order |
| JsStrings.NormalizeIdempotent | js/bibloader.js:40 | normalising a normalised value changes nothing |
| Bibtex.ClosingBrace | js/bibloader.js:28 | the lazy body stops at the first `}` whose following whitespace reaches an `@` or the end of the text |
| Bibtex.EntryAt | js/bibloader.js:28 | an entry match starts at an `@`, has a non-empty `\w` type token and a non-empty comma-free key, and ends at the end of the text or just before an `@` |
| Bibtex.KeyAndBody | js/bibloader.js:28 | the rest of an entry match keeps the token found before it, has a non-empty comma-free key, and ends after the `{` at the end of the text or just before an `@` |
| Bibtex.NextEntry | js/bibloader.js:30 | one `exec` of the entry pattern returns the match at a position at or after `lastIndex` |
| Bibtex.NextEntryIsLeftmost | js/bibloader.js:30 | no entry match starts between `lastIndex` and the one `exec` returns, nor after `lastIndex` when it returns none |
| Bibtex.FieldAt | js/bibloader.js:36 | a field match has a non-empty `\w` name and a value without `}`, and does not end before it starts |
| Bibtex.NextField | js/bibloader.js:38 | one `exec` of the field pattern returns the match at a position at or after `lastIndex` |
| Bibtex.NextFieldIsLeftmost | js/bibloader.js:38 | no field match starts between `lastIndex` and the one `exec` returns, nor after `lastIndex` when it returns none |
| Bibtex.Store | js/bibloader.js:39-41 | one assignment gives the property its match names the normalised value, unless the name is `__proto__`; every other property keeps its value, and no other property appears |
| Bibtex.EntryObject | js/bibloader.js:44 | the entry holds the fields; a field named `type` or `key` overrides the parsed type or key, and otherwise the parsed one is kept |
| Bibtex.Parse | js/bibloader.js:26-47 | the parser returns no more entries than the text has characters; `BibtexRoundTrip.ParseBlocks` states what it returns |
| Bibtex.ParseBibtex | js/bibloader.js:26-47 | the two nested `exec` loops return exactly the entries `Parse` describes, for every input text and without failing |
| Bibtex.ReadFields | js/bibloader.js:35-42 | the inner loop builds exactly the field object `Fields` describes, assigning in match order |
| BibtexProperties.StoreShaped | js/bibloader.js:39-41 | one assignment of a lower-cased name and a normalised value keeps every field well shaped |
| BibtexProperties.StoreAssigns | js/bibloader.js:41 | an assignment sets the property it names to the normalised value |
| BibtexProperties.StoreSkips | js/bibloader.js:41 | an assignment leaves every other property, and a `__proto__` assignment leaves every property, as it was |
| BibtexProperties.CollectShaped | js/bibloader.js:38-42 | assigning well-formed matches in order keeps every field well shaped |
| BibtexProperties.FieldMatchesShaped | js/bibloader.js:36-38 | every match the inner loop visits has a non-empty `\w` name and a value without `}` |
| BibtexProperties.TrimmedKeyHasNoComma | js/bibloader.js:32 | trimming a comma-free key leaves it comma-free |
| BibtexProperties.MakeEntryShaped | js/bibloader.js:31-44 | the entry built from one match is well shaped |
| BibtexProperties.ParseFromShaped | js/bibloader.js:30-45 | every entry the outer loop pushes from `lastIndex` on is well shaped |
| BibtexProperties.ParsedEntriesAreShaped | js/bibloader.js:26-47 | for every input: `type` is a lower-cased `\w+` token and `key` is trimmed and comma-free, unless a body field of that name replaced them; every field name is a lower-case word and every value is normalised and holds no `}` |
| BibtexProperties.ParseFromBound | js/bibloader.js:28-30 | the outer loop pushes at most one entry per `@` from `lastIndex` on |
| BibtexProperties.ParseBound | js/bibloader.js:26-30 | the parser returns at most as many entries as the text has `@` characters |
| BibtexProperties.NoAtNoEntries | js/bibloader.js:26-30 | a text without `@` gives the empty list |
| BibtexProperties.UnassignedUnchanged | js/bibloader.js:38-42 | a property that no match assigns keeps its value, or stays absent |
| BibtexProperties.LastAssignmentWins | js/bibloader.js:38-42 | with duplicate fields, a property ends up with the normalised value of the last match that assigns it |
| BibtexProperties.AssignedNames | js/bibloader.js:38-42 | a property exists after the loop exactly when some match assigns it |
| BibtexRoundTrip.EntryAtBlock | js/bibloader.js:28 | tried at a well-formed block `@type{key,body}` followed by the end or an `@`, the entry pattern matches exactly that block, with its type token, key and body as groups |
| BibtexRoundTrip.EntryMatchText | js/bibloader.js:28 | conversely, an entry match is `@`, the type token (the maximal `\w` run), whitespace, `{`, the key up to the first `,`, the body up to the first closing `}`, and whitespace |
| BibtexRoundTrip.NextEntrySkips | js/bibloader.js:30 | `exec` passes over text without `@` |
| BibtexRoundTrip.ParseFromBlocks | js/bibloader.js:30-45 | from the start of a run of well-formed blocks, the outer loop pushes one entry per block, in order |
| BibtexRoundTrip.ParseBlocks | js/bibloader.js:26-47 | text without `@` followed by well-formed blocks parses to one entry per block: the lower-cased type, the trimmed key and the fields of its body |
| BibtexRoundTrip.ParseSingleBlock | js/bibloader.js:26-47 | the text `@type{key,body}` parses to exactly one entry, built from that type, key and body |
| BibtexRoundTrip.PiecesCloseNothing | js/bibloader.js:28 | a body written as pieces cannot end its entry early |
| BibtexRoundTrip.FieldAtPiece | js/bibloader.js:36 | tried at a well-formed piece `name = {value}`, the field pattern matches it with that name and value as groups, and ends inside the piece's separator |
| BibtexRoundTrip.FieldMatchText | js/bibloader.js:36 | conversely, a field match is the name (the maximal `\w` run), whitespace, `=`, whitespace, `{`, the value up to the first `}`, whitespace, and the `,` exactly when there is one |
| BibtexRoundTrip.NextFieldSkips | js/bibloader.js:38 | `exec` passes over text without word characters |
| BibtexRoundTrip.MatchesOfPieces | js/bibloader.js:36-38 | from the start of a run of well-formed pieces, the inner loop visits one match per piece, with the piece's name and value as groups |
| BibtexRoundTrip.BodyMatches | js/bibloader.js:35-38 | a body written as a gap and pieces yields the names and values of its pieces, in order |
| BibtexRoundTrip.FieldNamesOfPieces | js/bibloader.js:35-42 | such a body has a property exactly for each lower-cased piece name other than `__proto__` |
| BibtexRoundTrip.FieldValueOfPieces | js/bibloader.js:35-42 | each such property holds the normalised value of the last piece that assigns it |
| BibtexRoundTrip.OnlyPiece | js/bibloader.js:35-42 | a body holding one piece has exactly the one property that piece assigns |
| BibtexRoundTrip.FieldsOfSingleField | js/bibloader.js:35-42 | the body `name={value}` yields exactly the property with the lower-cased name and the normalised value |
| Publications.FindSep | js/bibloader.js:54 | the separator search returns the leftmost ` and ` match, in any ASCII case, or finds none |
| Publications.SplitAnd | js/bibloader.js:54 | `split(/ and /i)` gives at least one piece, and no piece holds a separator |
| Publications.TrimAll | js/bibloader.js:54 | `map(a => a.trim())` trims every piece and keeps their number and order |
| Publications.FormatAuthors | js/bibloader.js:53 | a missing or empty author field gives `""` |
| Publications.FormatDetails | js/bibloader.js:57-64 | the five conditional pushes and the join give the line `Details` describes: the decorated present fields in slot order, joined by `", "` |
| Publications.StripBraces | js/bibloader.js:68 | the result holds no `{` or `}` and is no longer than the input |
| Publications.Title | js/bibloader.js:68 | the title holds no braces, and an absent or empty title gives `"Untitled"` |
| Publications.PubView | js/bibloader.js:67-69 | the shown title holds no braces and is `"Untitled"` for an absent or empty title; an absent or empty author field shows no authors |
| Publications.Bucket | js/bibloader.js:92-93 | a filtered list is no longer than its input and holds only input entries of the requested type |
| Publications.RenderPublications | js/bibloader.js:92-101 | `total` is the number of entries, and `totalJ` and `totalC` are the lengths of the two lists, each at most `total` |
| Publications.Views | js/bibloader.js:95-96 | each list shows what `pubHTML` interpolates for each entry, in order |
| PublicationsProperties.SplitAndRejoins | js/bibloader.js:54 | joining the split pieces with `" and "` gives back the author field, up to ASCII case, so the split loses only the separators |
| PublicationsProperties.FirstSepAfterName | js/bibloader.js:54 | in `name + " and " + rest`, the first separator is the one after `name` when `name` holds no separator, even at its end |
| PublicationsProperties.SplitJoinedNames | js/bibloader.js:54 | names that no separator can cut come back from the split unchanged and in order |
| PublicationsProperties.AuthorListOfNames | js/bibloader.js:54 | splitting and trimming an author field that lists plain names gives back those names |
| PublicationsProperties.AuthorsOfNames | js/bibloader.js:52-56 | for an author field listing trimmed names: at most three names are joined by `", "` in order, four or more give the first name followed by `" et al."` |
| PublicationsProperties.PresentPartsNonEmpty | js/bibloader.js:58-63 | no part of the detail line is empty, so the join has no empty part and no leading, trailing or doubled separator |
| PublicationsProperties.PresentPartsEmptyIff | js/bibloader.js:58-63 | no part is pushed exactly when none of the fields is present and non-empty |
| PublicationsProperties.DetailsEmptyIff | js/bibloader.js:57-64 | the detail line is `""` exactly when journal, booktitle, volume, pages and year are all absent or empty |
| PublicationsProperties.DetailsAllPresent | js/bibloader.js:57-64 | with all five fields present, the line shows `<em>journal</em>`, `<em>booktitle</em>`, `Vol. volume`, `pp. pages`, year, in that order |
| PublicationsProperties.StripBracesAppend | js/bibloader.js:68 | brace removal works character by character, so it keeps the order of the characters it keeps |
| PublicationsProperties.StripBracesKeepsPlain | js/bibloader.js:68 | a title without braces is shown unchanged |
| PublicationsProperties.StripBracesKeepsOthers | js/bibloader.js:68 | every character other than a brace occurs in the shown title as often as in the field |
| PublicationsProperties.BucketMembers | js/bibloader.js:92-93 | the journal list holds exactly the entries of type `article`, the conference list exactly those of type `inproceedings` |
| PublicationsProperties.BucketAppend | js/bibloader.js:92-93 | filtering keeps the input order |
| PublicationsProperties.BucketCounts | js/bibloader.js:92-101 | the two lists together are no longer than the input, and exactly as long when every entry is an `article` or an `inproceedings` |
| PublicationsProperties.RenderCounts | js/bibloader.js:92-101 | `total` is the number of entries, `totalJ` and `totalC` are the lengths of the two lists, `totalJ + totalC <= total`, with equality exactly when every entry has one of the two types |
| PublicationsProperties.OtherTypesUnlisted | js/bibloader.js:92-93 | an entry of any other type is counted in `total` and shown in neither list |

## Left out

- `loadBibliography` (js/bibloader.js:5-21) is left out. It covers the `fetch` of `references.bib`, the status check and the error message written to both lists. These are network I/O and asynchronous control flow; the text they deliver is the input of `Bibtex.ParseBibtex`.
- The DOM reads and writes of `renderPublications` are left out (js/bibloader.js:89-90, 95-96, 102-104). These are the `getElementById` lookups, the `innerHTML` and `textContent` assignments and the presence checks on the counters. `Publications.RenderPublications` returns the two lists and the three counters those writes would show.
- The HTML template of `pubHTML` is left out (js/bibloader.js:72-82). That includes its placeholder links. An entry renders to the three values the template interpolates: title, authors and details.
- The page trigger on `location.pathname` and `DOMContentLoaded` is left out (js/bibloader.js:110-112). This is browser lifecycle wiring.
- `js/main.js` is not part of this model. It fetches and injects the header and footer and highlights the current navigation link.
- No general regular-expression engine is modelled. Only the two patterns of `parseBibtex`, the separator of `formatAuthors` and the brace and whitespace replacements are modelled.
- A JavaScript string is a sequence of UTF-16 code units, while a Dafny `char` is a Unicode scalar value. The model therefore treats a character outside the Basic Multilingual Plane as one character, not two. Neither `\w`, `\s` nor `trim` treats such characters specially, so no result changes.
- An entry's fields are a `map`, so the insertion order of the object's properties is not modelled. Nothing in the core reads that order.
- The round trips cover well-formed text only. A block has a non-empty `\w` type and a non-empty comma-free key, and its body has no `}` that, followed by whitespace, reaches an `@`. A piece has a `\w` name and a value without `}`, and it is separated from the next by text without word characters, `}` or `@`. Malformed text is described only by `Bibtex.Parse` itself. For example, `@a{k, t={x}` (the field's closing brace is missing) still yields an entry, with no fields.
- A field value with nested braces, such as `{The {BERT} model}`, is cut at its first `}`, as the field pattern does. The piece round trips therefore require values without `}`.
- `Bibtex.Store`'s meaning is stated by its own contract and by `BibtexProperties.StoreAssigns` and `BibtexProperties.StoreSkips`.
- `Publications.FormatAuthors`: its own contract states only the empty case. Its behaviour on author fields made of names is stated by `PublicationsProperties.AuthorsOfNames`. That lemma covers names that are trimmed and contain no separator. Other author fields are described only by the definition through `SplitAnd` and `TrimAll`.
- `Publications.PubView` uses the function `Details`; `Publications.FormatDetails` is the method that `formatDetails` is, and is proved equal to it.
