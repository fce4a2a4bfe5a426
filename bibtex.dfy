/*
 * The BibTeX reader of js/bibloader.js (`parseBibtex`).
 *
 * The two global regular expressions it runs are modelled as functions
 * that say what the expression matches when tried at one position
 * (`EntryAt`, `FieldAt`), and `NextEntry` / `NextField` give what one
 * `exec` call returns: the leftmost match at or after `lastIndex`.
 * `ParseBibtex` is the parser itself, with its two nested `exec` loops;
 * `Parse` is the same scan stated as a recursive function, which the
 * lemmas at the end of the module are about.
 */
module Bibtex {
  import opened JsStrings

  /** One parsed record, the object literal `{type, key, ...fields}`;
      `kind` is its `type` property. `kind` and `key` are the values the
      object ends up with, so a body field named `type` or `key` has
      already replaced the parser's. */
  datatype Entry = Entry(kind: string, key: string, fields: map<string, string>)

  /** One match of the entry pattern: where it starts, its three capture
      groups (type token, raw key, body) and where it ends. */
  datatype EntryMatch = EntryMatch(start: nat, token: string, rawKey: string, body: string, end: nat)

  /** One match of the field pattern: its two capture groups (the raw
      name and the raw value) and where it ends. */
  datatype FieldMatch = FieldMatch(start: nat, rawName: string, rawValue: string, end: nat)

  /** Assigning a string to this property of a plain JavaScript object
      changes nothing, so a field of this name never reaches the entry. */
  const ProtoName := "__proto__"

  // ---------------------------------------------------------------------
  // The entry pattern  /@(\w+)\s*\{([^,]+),([\s\S]*?)\}\s*(?=@|$)/g
  // ---------------------------------------------------------------------

  /** A `}` at `q` after which the pattern's tail `\s*(?=@|$)` succeeds:
      the whitespace that follows runs up to an `@` or to the end of the
      text (`$` without the `m` flag). */
  predicate ClosesEntry(s: string, q: nat) {
    q < |s| && s[q] == '}' &&
    var r := SpaceEnd(s, q + 1); r == |s| || s[r] == '@'
  }

  /** The lazy body `[\s\S]*?` stops at the first `}` that closes the
      entry. */
  function ClosingBrace(s: string, i: nat): (q: Option<nat>)
    requires i <= |s|
    ensures q.Some? ==> i <= q.value < |s| && ClosesEntry(s, q.value)
    ensures q.Some? ==> forall k :: i <= k < q.value ==> !ClosesEntry(s, k)
    ensures q.None? ==> forall k :: i <= k ==> !ClosesEntry(s, k)
    decreases |s| - i
  {
    if i == |s| then None
    else if ClosesEntry(s, i) then Some(i)
    else ClosingBrace(s, i + 1)
  }

  /** What the entry pattern matches when tried at position `p`. Each
      greedy part has one choice that can succeed (the classes `\w`, `\s`,
      `{`, `,` do not overlap where they meet), so the match is unique. */
  function EntryAt(s: string, p: nat): (m: Option<EntryMatch>)
    requires p <= |s|
    ensures m.Some? ==> m.value.start == p && p < m.value.end <= |s| && s[p] == '@'
    ensures m.Some? ==> |m.value.token| > 0 && forall k :: 0 <= k < |m.value.token| ==> IsWord(m.value.token[k])
    ensures m.Some? ==> |m.value.rawKey| > 0 && ',' !in m.value.rawKey
    ensures m.Some? ==> m.value.end == |s| || s[m.value.end] == '@'
  {
    if p == |s| || s[p] != '@' then None
    else
      var w := WordEnd(s, p + 1);
      var o := SpaceEnd(s, w);
      if w == p + 1 || o == |s| || s[o] != '{' then None
      else KeyAndBody(s, p, s[p + 1..w], o)
  }

  /** The rest of an entry match once `@`, the type token and the `{` at
      `o` are found: the key up to the first `,`, then the lazy body. */
  function KeyAndBody(s: string, p: nat, token: string, o: nat): (m: Option<EntryMatch>)
    requires p < o < |s|
    ensures m.Some? ==> m.value.start == p && m.value.token == token && o < m.value.end <= |s|
    ensures m.Some? ==> |m.value.rawKey| > 0 && ',' !in m.value.rawKey
    ensures m.Some? ==> m.value.end == |s| || s[m.value.end] == '@'
  {
    match FindChar(s, ',', o + 1)
    case None => None
    case Some(c) =>
      if c == o + 1 then None
      else match ClosingBrace(s, c + 1)
        case None => None
        case Some(q) => Some(EntryMatch(p, token, s[o + 1..c], s[c + 1..q], SpaceEnd(s, q + 1)))
  }

  /** One `entryRe.exec(bib)` with `entryRe.lastIndex == from`: the
      leftmost match that starts at or after `from`. */
  function NextEntry(s: string, from: nat): (m: Option<EntryMatch>)
    requires from <= |s|
    ensures m.Some? ==> from <= m.value.start <= |s| && EntryAt(s, m.value.start) == m
    decreases |s| - from
  {
    match EntryAt(s, from)
    case Some(m) => Some(m)
    case None => if from == |s| then None else NextEntry(s, from + 1)
  }

  /** No match starts between `from` and the match `NextEntry` returns,
      nor anywhere after `from` when it returns none. */
  lemma {:induction false} NextEntryIsLeftmost(s: string, from: nat, p: nat)
    requires from <= p <= |s|
    requires NextEntry(s, from).None? || p < NextEntry(s, from).value.start
    ensures EntryAt(s, p).None?
    decreases p - from
  {
    if EntryAt(s, from).None? && p > from {
      assert NextEntry(s, from) == NextEntry(s, from + 1);
      NextEntryIsLeftmost(s, from + 1, p);
    }
  }

  // ---------------------------------------------------------------------
  // The field pattern  /(\w+)\s*=\s*\{([^}]*)\}\s*,?/g
  // ---------------------------------------------------------------------

  /** What the field pattern matches when tried at position `p`. */
  function FieldAt(s: string, p: nat): (m: Option<FieldMatch>)
    requires p <= |s|
    ensures m.Some? ==> m.value.start == p && p < m.value.end <= |s|
    ensures m.Some? ==> |m.value.rawName| > 0 && forall k :: 0 <= k < |m.value.rawName| ==> IsWord(m.value.rawName[k])
    ensures m.Some? ==> '}' !in m.value.rawValue
  {
    var w := WordEnd(s, p);
    var a := SpaceEnd(s, w);
    if w == p || a == |s| || s[a] != '=' then None
    else ValueAt(s, p, s[p..w], SpaceEnd(s, a + 1))
  }

  /** The rest of a field match once the name and the `=` are found and
      the whitespace after the `=` ends at `b`: `{`, the value up to the
      first `}`, the `}`, whitespace and an optional `,`. */
  function ValueAt(s: string, p: nat, name: string, b: nat): (m: Option<FieldMatch>)
    requires p < b <= |s|
    ensures m.Some? ==> m.value.start == p && m.value.rawName == name && b < m.value.end <= |s|
    ensures m.Some? ==> '}' !in m.value.rawValue
  {
    if b == |s| || s[b] != '{' then None
    else match FindChar(s, '}', b + 1)
      case None => None
      case Some(q) =>
        var t := SpaceEnd(s, q + 1);
        Some(FieldMatch(p, name, s[b + 1..q], if t < |s| && s[t] == ',' then t + 1 else t))
  }

  /** One `fieldRe.exec(body)` with `fieldRe.lastIndex == from`. */
  function NextField(s: string, from: nat): (m: Option<FieldMatch>)
    requires from <= |s|
    ensures m.Some? ==> from <= m.value.start <= |s| && FieldAt(s, m.value.start) == m
    decreases |s| - from
  {
    match FieldAt(s, from)
    case Some(m) => Some(m)
    case None => if from == |s| then None else NextField(s, from + 1)
  }

  /** No field match starts between `from` and the one `NextField`
      returns, nor anywhere after `from` when it returns none. */
  lemma {:induction false} NextFieldIsLeftmost(s: string, from: nat, p: nat)
    requires from <= p <= |s|
    requires NextField(s, from).None? || p < NextField(s, from).value.start
    ensures FieldAt(s, p).None?
    decreases p - from
  {
    if FieldAt(s, from).None? && p > from {
      assert NextField(s, from) == NextField(s, from + 1);
      NextFieldIsLeftmost(s, from + 1, p);
    }
  }

  /** The matches the inner loop visits, from `lastIndex == from` on. */
  function FieldMatches(body: string, from: nat): seq<FieldMatch>
    requires from <= |body|
    decreases |body| - from
  {
    match NextField(body, from)
    case None => []
    case Some(f) => [f] + FieldMatches(body, f.end)
  }

  // ---------------------------------------------------------------------
  // Building the entries
  // ---------------------------------------------------------------------

  /** The property name a field match assigns, and whether it sticks. */
  predicate Stores(f: FieldMatch, name: string) {
    LowerAscii(f.rawName) == name && name != ProtoName
  }

  /** `fields[name] = val` for one field match: the property the match
      names gets the normalised value, unless that name is `__proto__`,
      whose setter ignores a string; nothing else changes. */
  function Store(fields: map<string, string>, f: FieldMatch): (r: map<string, string>)
    ensures forall k :: k in r <==> k in fields || Stores(f, k)
    ensures forall k :: k in r ==> r[k] == if Stores(f, k) then Normalize(f.rawValue) else fields[k]
  {
    var name := LowerAscii(f.rawName);
    if name == ProtoName then fields else fields[name := Normalize(f.rawValue)]
  }

  /** The field assignments of `ms`, applied in order to `fields`. */
  function Collect(fields: map<string, string>, ms: seq<FieldMatch>): map<string, string>
    decreases |ms|
  {
    if ms == [] then fields else Collect(Store(fields, ms[0]), ms[1..])
  }

  /** The `fields` object the inner loop builds for one body. */
  function Fields(body: string): map<string, string> {
    Collect(map[], FieldMatches(body, 0))
  }

  /** The object literal `{type, key, ...fields}`: own properties of
      `fields` that are named `type` or `key` override the first two. */
  function EntryObject(kind: string, key: string, fields: map<string, string>): (e: Entry)
    ensures e.fields == fields
    ensures "type" in fields ==> e.kind == fields["type"]
    ensures "type" !in fields ==> e.kind == kind
    ensures "key" in fields ==> e.key == fields["key"]
    ensures "key" !in fields ==> e.key == key
  {
    Entry(if "type" in fields then fields["type"] else kind,
          if "key" in fields then fields["key"] else key,
          fields)
  }

  function MakeEntry(m: EntryMatch): Entry {
    EntryObject(LowerAscii(m.token), Trim(m.rawKey), Fields(m.body))
  }

  /** The entries the outer loop pushes, from `lastIndex == from` on. */
  function ParseFrom(s: string, from: nat): (r: seq<Entry>)
    requires from <= |s|
    ensures |r| <= |s| - from
    decreases |s| - from
  {
    match NextEntry(s, from)
    case None => []
    case Some(m) => [MakeEntry(m)] + ParseFrom(s, m.end)
  }

  /** What `parseBibtex(bib)` returns. */
  function Parse(s: string): (r: seq<Entry>)
    ensures |r| <= |s|
  {
    ParseFrom(s, 0)
  }

  /** `parseBibtex`: the outer loop runs the entry pattern over the text
      and pushes one entry per match; the inner loop, `ReadFields`, runs
      the field pattern over the body. */
  method ParseBibtex(bib: string) returns (entries: seq<Entry>)
    ensures entries == Parse(bib)
  {
    entries := [];
    var lastIndex := 0;
    var m := NextEntry(bib, lastIndex);
    while m.Some?
      invariant lastIndex <= |bib|
      invariant m == NextEntry(bib, lastIndex)
      invariant entries + ParseFrom(bib, lastIndex) == Parse(bib)
      decreases |bib| - lastIndex
    {
      var kind := LowerAscii(m.value.token);
      var key := Trim(m.value.rawKey);
      var fields := ReadFields(m.value.body);
      ParseLoopStep(bib, lastIndex, entries, fields);
      entries := entries + [EntryObject(kind, key, fields)];
      lastIndex := m.value.end;
      m := NextEntry(bib, lastIndex);
    }
  }

  /** One turn of the outer loop of `ParseBibtex` keeps its invariant. */
  lemma ParseLoopStep(s: string, from: nat, done: seq<Entry>, fields: map<string, string>)
    requires from <= |s| && NextEntry(s, from).Some?
    requires done + ParseFrom(s, from) == Parse(s)
    requires fields == Fields(NextEntry(s, from).value.body)
    ensures var m := NextEntry(s, from).value;
      (done + [EntryObject(LowerAscii(m.token), Trim(m.rawKey), fields)]) + ParseFrom(s, m.end) == Parse(s)
  {
    var m := NextEntry(s, from).value;
    ParseFromStep(s, from);
    EntryFromParts(m, fields);
    AppendOne(done, MakeEntry(m), ParseFrom(s, m.end));
  }

  lemma AppendOne<T>(done: seq<T>, x: T, rest: seq<T>)
    ensures (done + [x]) + rest == done + ([x] + rest)
  {
  }

  lemma EntryFromParts(m: EntryMatch, fields: map<string, string>)
    requires fields == Fields(m.body)
    ensures EntryObject(LowerAscii(m.token), Trim(m.rawKey), fields) == MakeEntry(m)
  {
  }

  lemma ParseFromStep(s: string, from: nat)
    requires from <= |s| && NextEntry(s, from).Some?
    ensures ParseFrom(s, from) == [MakeEntry(NextEntry(s, from).value)] + ParseFrom(s, NextEntry(s, from).value.end)
  {
  }

  /** The inner loop of `parseBibtex`: a fresh field pattern runs over one
      body and each match assigns `fields[name] = val` in place. */
  method ReadFields(body: string) returns (fields: map<string, string>)
    ensures fields == Fields(body)
  {
    fields := map[];
    var lastIndex := 0;
    var f := NextField(body, lastIndex);
    while f.Some?
      invariant lastIndex <= |body|
      invariant f == NextField(body, lastIndex)
      invariant Collect(fields, FieldMatches(body, lastIndex)) == Fields(body)
      decreases |body| - lastIndex
    {
      assert FieldMatches(body, lastIndex) == [f.value] + FieldMatches(body, f.value.end);
      ghost var stored := Store(fields, f.value);
      var name := LowerAscii(f.value.rawName);
      var val := Normalize(f.value.rawValue);
      if name != ProtoName {
        assert stored == fields[name := val];
        fields := fields[name := val];
      } else {
        assert stored == fields;
      }
      lastIndex := f.value.end;
      f := NextField(body, lastIndex);
    }
    assert FieldMatches(body, lastIndex) == [];
  }
}
