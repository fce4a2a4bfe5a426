/*
 * The rendering helpers of js/bibloader.js: `formatAuthors`,
 * `formatDetails`, the title expression of `pubHTML`, and the partition
 * and counting of `renderPublications`. The HTML around the three values
 * `pubHTML` interpolates is left out, so an entry renders to the triple
 * (title, authors, details).
 */
module Publications {
  import opened JsStrings
  import opened Bibtex

  /** The property lookup `e[name]` on the object `{type, key, ...fields}`;
      `None` is `undefined`. */
  function Prop(e: Entry, name: string): Option<string> {
    if name == "type" then Some(e.kind)
    else if name == "key" then Some(e.key)
    else if name in e.fields then Some(e.fields[name])
    else None
  }

  /** JavaScript truthiness of a property that is absent or a string. */
  predicate Truthy(v: Option<string>) {
    v.Some? && v.value != ""
  }

  // ---------------------------------------------------------------------
  // formatAuthors
  // ---------------------------------------------------------------------

  /** The separator `/ and /i` matches at `q`: a space, the letters a, n, d
      in either case, a space. */
  predicate IsSepAt(s: string, q: int) {
    0 <= q && q + 5 <= |s| && s[q] == ' ' && LowerChar(s[q + 1]) == 'a' &&
    LowerChar(s[q + 2]) == 'n' && LowerChar(s[q + 3]) == 'd' && s[q + 4] == ' '
  }

  /** No separator anywhere in `s`. */
  predicate NoSep(s: string) {
    forall q :: 0 <= q < |s| ==> !IsSepAt(s, q)
  }

  /** The leftmost separator at or after `i`. */
  function FindSep(s: string, i: nat): (q: Option<nat>)
    requires i <= |s|
    ensures q.Some? ==> i <= q.value && IsSepAt(s, q.value)
    ensures q.Some? ==> forall k :: i <= k < q.value ==> !IsSepAt(s, k)
    ensures q.None? ==> forall k :: i <= k ==> !IsSepAt(s, k)
    decreases |s| - i
  {
    if i + 5 > |s| then None
    else if IsSepAt(s, i) then Some(i)
    else FindSep(s, i + 1)
  }

  /** `authors.split(/ and /i)`: the pieces between the leftmost,
      non-overlapping separators; no piece holds a separator. */
  function SplitAnd(s: string): (pieces: seq<string>)
    ensures |pieces| >= 1
    ensures forall k :: 0 <= k < |pieces| ==> NoSep(pieces[k])
    decreases |s|
  {
    match FindSep(s, 0)
    case None => [s]
    case Some(q) =>
      assert forall k :: !IsSepAt(s[..q], k) by {
        forall k | IsSepAt(s[..q], k) ensures false {
          assert IsSepAt(s, k);
        }
      }
      [s[..q]] + SplitAnd(s[q + 5..])
  }

  function TrimAll(names: seq<string>): (r: seq<string>)
    ensures |r| == |names|
    ensures forall k :: 0 <= k < |r| ==> r[k] == Trim(names[k])
  {
    seq(|names|, k requires 0 <= k < |names| => Trim(names[k]))
  }

  /** `formatAuthors`: nothing for an absent or empty field; otherwise the
      trimmed names joined by ", " when there are at most three, or the
      first name followed by " et al.". */
  function FormatAuthors(authors: Option<string>): (r: string)
    ensures authors.None? || authors == Some("") ==> r == ""
  {
    if !Truthy(authors) then ""
    else
      var list := TrimAll(SplitAnd(authors.value));
      if |list| <= 3 then JoinWith(list, ", ") else list[0] + " et al."
  }

  // ---------------------------------------------------------------------
  // formatDetails
  // ---------------------------------------------------------------------

  /** One optional piece of the detail line: the field it shows and the
      text written before and after its value. */
  datatype Slot = Slot(name: string, before: string, after: string)

  /** The detail line's pieces, in the order `formatDetails` pushes them. */
  const DetailSlots: seq<Slot> := [
    Slot("journal", "<em>", "</em>"),
    Slot("booktitle", "<em>", "</em>"),
    Slot("volume", "Vol. ", ""),
    Slot("pages", "pp. ", ""),
    Slot("year", "", "")
  ]

  /** The piece one slot contributes: its decorated value when the field
      is present and non-empty, nothing otherwise. */
  function Piece(e: Entry, s: Slot): seq<string> {
    var v := Prop(e, s.name);
    if Truthy(v) then [s.before + v.value + s.after] else []
  }

  /** The pieces of `slots` whose field is present and non-empty, each
      decorated, in slot order. */
  function PresentParts(e: Entry, slots: seq<Slot>): seq<string> {
    if slots == [] then [] else Piece(e, slots[0]) + PresentParts(e, slots[1..])
  }

  /** The detail line as the rest of the model uses it. */
  function Details(e: Entry): string {
    JoinWith(PresentParts(e, DetailSlots), ", ")
  }

  lemma DetailPartsUnrolled(e: Entry)
    ensures PresentParts(e, DetailSlots) ==
      Piece(e, DetailSlots[0]) + Piece(e, DetailSlots[1]) + Piece(e, DetailSlots[2]) +
      Piece(e, DetailSlots[3]) + Piece(e, DetailSlots[4])
  {
    var s := DetailSlots;
    assert PresentParts(e, s[4..]) == Piece(e, s[4]) by {
      assert s[4..][1..] == [];
    }
    assert PresentParts(e, s[3..]) == Piece(e, s[3]) + PresentParts(e, s[4..]) by {
      assert s[3..][1..] == s[4..];
    }
    assert PresentParts(e, s[2..]) == Piece(e, s[2]) + PresentParts(e, s[3..]) by {
      assert s[2..][1..] == s[3..];
    }
    assert PresentParts(e, s[1..]) == Piece(e, s[1]) + PresentParts(e, s[2..]) by {
      assert s[1..][1..] == s[2..];
    }
  }

  lemma NoSuffix(s: string)
    ensures s + "" == s
  {
  }

  /** `formatDetails`: one `if` and one push per field, then the join. */
  method FormatDetails(e: Entry) returns (line: string)
    ensures line == Details(e)
  {
    var parts: seq<string> := [];
    if Truthy(Prop(e, "journal")) {
      parts := parts + ["<em>" + Prop(e, "journal").value + "</em>"];
    }
    assert parts == Piece(e, DetailSlots[0]);
    if Truthy(Prop(e, "booktitle")) {
      parts := parts + ["<em>" + Prop(e, "booktitle").value + "</em>"];
    }
    assert parts == Piece(e, DetailSlots[0]) + Piece(e, DetailSlots[1]);
    if Truthy(Prop(e, "volume")) {
      NoSuffix("Vol. " + Prop(e, "volume").value);
      parts := parts + ["Vol. " + Prop(e, "volume").value];
    }
    assert parts == Piece(e, DetailSlots[0]) + Piece(e, DetailSlots[1]) + Piece(e, DetailSlots[2]);
    if Truthy(Prop(e, "pages")) {
      NoSuffix("pp. " + Prop(e, "pages").value);
      parts := parts + ["pp. " + Prop(e, "pages").value];
    }
    assert parts == Piece(e, DetailSlots[0]) + Piece(e, DetailSlots[1]) + Piece(e, DetailSlots[2]) +
      Piece(e, DetailSlots[3]);
    if Truthy(Prop(e, "year")) {
      NoSuffix("" + Prop(e, "year").value);
      assert "" + Prop(e, "year").value == Prop(e, "year").value;
      parts := parts + [Prop(e, "year").value];
    }
    assert parts == Piece(e, DetailSlots[0]) + Piece(e, DetailSlots[1]) + Piece(e, DetailSlots[2]) +
      Piece(e, DetailSlots[3]) + Piece(e, DetailSlots[4]);
    DetailPartsUnrolled(e);
    line := JoinWith(parts, ", ");
  }

  // ---------------------------------------------------------------------
  // The title expression of pubHTML
  // ---------------------------------------------------------------------

  /** `replace(/[{}]/g, '')`. */
  function StripBraces(t: string): (r: string)
    ensures '{' !in r && '}' !in r
    ensures |r| <= |t|
  {
    if t == [] then []
    else (if t[0] == '{' || t[0] == '}' then [] else [t[0]]) + StripBraces(t[1..])
  }

  /** `e.title ? e.title.replace(/[{}]/g, '') : 'Untitled'`. */
  function Title(e: Entry): (r: string)
    ensures '{' !in r && '}' !in r
    ensures !Truthy(Prop(e, "title")) ==> r == "Untitled"
  {
    var t := Prop(e, "title");
    if Truthy(t) then StripBraces(t.value) else "Untitled"
  }

  /** What `pubHTML` shows of an entry. */
  datatype Pub = Pub(title: string, authors: string, details: string)

  function PubView(e: Entry): (r: Pub)
    ensures '{' !in r.title && '}' !in r.title
    ensures !Truthy(Prop(e, "title")) ==> r.title == "Untitled"
    ensures !Truthy(Prop(e, "author")) ==> r.authors == ""
  {
    Pub(Title(e), FormatAuthors(Prop(e, "author")), Details(e))
  }

  // ---------------------------------------------------------------------
  // renderPublications
  // ---------------------------------------------------------------------

  /** `entries.filter(e => e.type === kind)`. */
  function Bucket(entries: seq<Entry>, kind: string): (r: seq<Entry>)
    ensures |r| <= |entries|
    ensures forall e :: e in r ==> e in entries && e.kind == kind
  {
    if entries == [] then []
    else (if entries[0].kind == kind then [entries[0]] else []) + Bucket(entries[1..], kind)
  }

  function Views(entries: seq<Entry>): (r: seq<Pub>)
    ensures |r| == |entries|
    ensures forall k :: 0 <= k < |r| ==> r[k] == PubView(entries[k])
  {
    seq(|entries|, k requires 0 <= k < |entries| => PubView(entries[k]))
  }

  /** What `renderPublications` writes: the two lists and the three
      counters. */
  datatype Rendered = Rendered(
    journals: seq<Pub>, conferences: seq<Pub>,
    total: nat, totalJournal: nat, totalConference: nat)

  function RenderPublications(entries: seq<Entry>): (r: Rendered)
    ensures r.total == |entries|
    ensures |r.journals| == r.totalJournal <= r.total && |r.conferences| == r.totalConference <= r.total
  {
    var journals := Bucket(entries, "article");
    var confs := Bucket(entries, "inproceedings");
    Rendered(Views(journals), Views(confs), |entries|, |journals|, |confs|)
  }
}
