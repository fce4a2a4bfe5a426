/*
 * Round trips for `parseBibtex`: a text written as well-formed entry
 * blocks `@type{key,body}` parses to exactly one entry per block, with the
 * lower-cased type, the trimmed key and the fields of the body; a body
 * written as `name={value},` pieces yields exactly those properties, the
 * last assignment of a name winning.
 *
 * The converse direction holds too: whatever either pattern matches is
 * its delimiters with the captured groups and whitespace between them,
 * so the groups can be read back into the matched text.
 *
 * The proofs work on positions: each scan of a pattern is pinned to the
 * place where it stops, and the match follows from those places.
 */
module BibtexRoundTrip {
  import opened JsStrings
  import opened Bibtex
  import opened BibtexProperties

  // ---------------------------------------------------------------------
  // Scans that stop at a known place
  // ---------------------------------------------------------------------

  lemma WordEndIs(s: string, i: nat, j: nat)
    requires i <= j <= |s|
    requires forall k :: i <= k < j ==> IsWord(s[k])
    requires j == |s| || !IsWord(s[j])
    ensures WordEnd(s, i) == j
  {
  }

  lemma FindCharIs(s: string, c: char, i: nat, j: nat)
    requires i <= j < |s| && s[j] == c
    requires forall k :: i <= k < j ==> s[k] != c
    ensures FindChar(s, c, i) == Some(j)
  {
  }

  lemma ClosingBraceIs(s: string, i: nat, q: nat)
    requires i <= q < |s| && ClosesEntry(s, q)
    requires forall k :: i <= k < q ==> !ClosesEntry(s, k)
    ensures ClosingBrace(s, i) == Some(q)
  {
  }

  // ---------------------------------------------------------------------
  // What a match covers
  // ---------------------------------------------------------------------

  lemma SliceCons(s: string, a: nat, e: nat)
    requires a < e <= |s|
    ensures s[a..e] == [s[a]] + s[a + 1..e]
  {
  }

  lemma SliceCat(s: string, a: nat, b: nat, e: nat)
    requires a <= b <= e <= |s|
    ensures s[a..e] == s[a..b] + s[b..e]
  {
  }

  /** The text from `p` to `e` cut at the four delimiters of an entry. */
  lemma EntryTextParts(s: string, p: nat, w: nat, o: nat, c: nat, q: nat, e: nat)
    requires p < w <= o < c < q < e <= |s|
    requires s[p] == '@' && s[o] == '{' && s[c] == ',' && s[q] == '}'
    ensures s[p..e] == "@" + s[p + 1..w] + s[w..o] + "{" + s[o + 1..c] + "," + s[c + 1..q] + "}" + s[q + 1..e]
  {
    var t := s[p..e];
    SliceCons(s, p, e);
    var l := "@";
    CutSlice(t, l, s, p + 1, w, e);
    l := l + s[p + 1..w];
    CutSlice(t, l, s, w, o, e);
    l := l + s[w..o];
    CutChar(t, l, s, o, e);
    l := l + "{";
    CutSlice(t, l, s, o + 1, c, e);
    l := l + s[o + 1..c];
    CutChar(t, l, s, c, e);
    l := l + ",";
    CutSlice(t, l, s, c + 1, q, e);
    l := l + s[c + 1..q];
    CutChar(t, l, s, q, e);
  }

  /** Splitting the unread rest `s[a..e]` of `t` at `b`. */
  lemma CutSlice(t: string, l: string, s: string, a: nat, b: nat, e: nat)
    requires a <= b <= e <= |s| && t == l + s[a..e]
    ensures t == l + s[a..b] + s[b..e]
  {
    SliceCat(s, a, b, e);
    AssocThree(l, s[a..b], s[b..e]);
  }

  /** Taking the first character off the unread rest `s[a..e]` of `t`. */
  lemma CutChar(t: string, l: string, s: string, a: nat, e: nat)
    requires a < e <= |s| && t == l + s[a..e]
    ensures t == l + [s[a]] + s[a + 1..e]
  {
    SliceCons(s, a, e);
    AssocThree(l, [s[a]], s[a + 1..e]);
  }

  lemma AssocThree(x: string, y: string, z: string)
    ensures x + (y + z) == x + y + z
  {
  }

  /** Where the scans of a successful entry match stop. */
  lemma EntryAtStops(s: string, p: nat, m: EntryMatch) returns (w: nat, o: nat, c: nat, q: nat)
    requires p <= |s| && EntryAt(s, p) == Some(m)
    ensures p < w <= |s| && w == WordEnd(s, p + 1) && o == SpaceEnd(s, w)
    ensures FindChar(s, ',', o + 1) == Some(c) && ClosingBrace(s, c + 1) == Some(q)
    ensures m.token == s[p + 1..w] && m.rawKey == s[o + 1..c] && m.body == s[c + 1..q]
    ensures m.end == SpaceEnd(s, q + 1) && s[p] == '@' && s[o] == '{'
  {
    w := WordEnd(s, p + 1);
    o := SpaceEnd(s, w);
    assert w > p + 1 && o < |s| && s[o] == '{';
    c, q := KeyAndBodyStops(s, p, s[p + 1..w], o, m);
  }

  lemma KeyAndBodyStops(s: string, p: nat, token: string, o: nat, m: EntryMatch) returns (c: nat, q: nat)
    requires p < o < |s| && KeyAndBody(s, p, token, o) == Some(m)
    ensures FindChar(s, ',', o + 1) == Some(c) && ClosingBrace(s, c + 1) == Some(q)
    ensures m.token == token && m.rawKey == s[o + 1..c] && m.body == s[c + 1..q]
    ensures m.end == SpaceEnd(s, q + 1)
  {
    c := FindChar(s, ',', o + 1).value;
    q := ClosingBrace(s, c + 1).value;
  }

  /** `EntryMatchText` stated over the places where the scans stop. */
  lemma EntryScansText(s: string, p: nat, w: nat, o: nat, c: nat, q: nat)
    requires p < w <= |s| && w == WordEnd(s, p + 1) && o == SpaceEnd(s, w) && o < |s|
    requires FindChar(s, ',', o + 1) == Some(c) && ClosingBrace(s, c + 1) == Some(q)
    requires s[p] == '@' && s[o] == '{'
    ensures q < SpaceEnd(s, q + 1) && AllSpace(s[w..o]) && AllSpace(s[q + 1..SpaceEnd(s, q + 1)])
    ensures ClosesEntry(s, q) && forall k :: c < k < q ==> !ClosesEntry(s, k)
    ensures s[p..SpaceEnd(s, q + 1)] == "@" + s[p + 1..w] + s[w..o] + "{" + s[o + 1..c] + "," + s[c + 1..q] + "}" + s[q + 1..SpaceEnd(s, q + 1)]
  {
    EntryTextParts(s, p, w, o, c, q, SpaceEnd(s, q + 1));
  }

  /** The converse of `EntryAtBlock`: an entry match covers `@`, its type
      token (the maximal `\w` run after the `@`), whitespace, the `{` at
      `o`, its key up to the first `,` (at `c`), its body up to the first
      `}` after it that closes the entry (at `q`), and the whitespace after
      that brace. */
  lemma EntryMatchText(s: string, p: nat, m: EntryMatch) returns (w: nat, o: nat, c: nat, q: nat)
    requires p <= |s| && EntryAt(s, p) == Some(m)
    ensures p < w <= o < c < q < m.end <= |s| && WordEnd(s, p + 1) == w
    ensures m.token == s[p + 1..w] && m.rawKey == s[o + 1..c] && m.body == s[c + 1..q]
    ensures AllSpace(s[w..o]) && AllSpace(s[q + 1..m.end])
    ensures ClosesEntry(s, q) && forall k :: c < k < q ==> !ClosesEntry(s, k)
    ensures s[p..m.end] == "@" + s[p + 1..w] + s[w..o] + "{" + s[o + 1..c] + "," + s[c + 1..q] + "}" + s[q + 1..m.end]
  {
    w, o, c, q := EntryAtStops(s, p, m);
    EntryScansText(s, p, w, o, c, q);
  }

  /** The text from `p` to `e` cut at the four delimiters of a field. */
  lemma FieldTextParts(s: string, p: nat, w: nat, a: nat, b: nat, q: nat, e: nat)
    requires p <= w <= a < b < q < e <= |s|
    requires s[a] == '=' && s[b] == '{' && s[q] == '}'
    ensures s[p..e] == s[p..w] + s[w..a] + "=" + s[a + 1..b] + "{" + s[b + 1..q] + "}" + s[q + 1..e]
  {
    var t := s[p..e];
    SliceCat(s, p, w, e);
    var l := s[p..w];
    CutSlice(t, l, s, w, a, e);
    l := l + s[w..a];
    CutChar(t, l, s, a, e);
    l := l + "=";
    CutSlice(t, l, s, a + 1, b, e);
    l := l + s[a + 1..b];
    CutChar(t, l, s, b, e);
    l := l + "{";
    CutSlice(t, l, s, b + 1, q, e);
    l := l + s[b + 1..q];
    CutChar(t, l, s, q, e);
  }

  /** Where the scans of a successful field match stop. */
  lemma FieldAtStops(s: string, p: nat, f: FieldMatch) returns (w: nat, a: nat, b: nat, q: nat, t: nat)
    requires p <= |s| && FieldAt(s, p) == Some(f)
    ensures p < w <= a < b < q < |s| && w == WordEnd(s, p) && a == SpaceEnd(s, w) && b == SpaceEnd(s, a + 1)
    ensures FindChar(s, '}', b + 1) == Some(q) && t == SpaceEnd(s, q + 1)
    ensures f.rawName == s[p..w] && f.rawValue == s[b + 1..q] && s[a] == '=' && s[b] == '{'
    ensures f.end == if t < |s| && s[t] == ',' then t + 1 else t
  {
    w := WordEnd(s, p);
    a := SpaceEnd(s, w);
    assert w > p && a < |s| && s[a] == '=';
    b := SpaceEnd(s, a + 1);
    q, t := ValueAtStops(s, p, s[p..w], b, f);
  }

  lemma ValueAtStops(s: string, p: nat, name: string, b: nat, f: FieldMatch) returns (q: nat, t: nat)
    requires p < b <= |s| && ValueAt(s, p, name, b) == Some(f)
    ensures b < q < |s| && s[b] == '{' && FindChar(s, '}', b + 1) == Some(q) && t == SpaceEnd(s, q + 1)
    ensures f.rawName == name && f.rawValue == s[b + 1..q]
    ensures f.end == if t < |s| && s[t] == ',' then t + 1 else t
  {
    q := FindChar(s, '}', b + 1).value;
    t := SpaceEnd(s, q + 1);
  }

  /** The converse of `FieldAtPiece`: a field match covers its name (the
      maximal `\w` run at `p`), whitespace, the `=` at `a`, whitespace, the
      `{` at `b`, its value up to the first `}` (at `q`), whitespace up to
      `t`, and the `,` there exactly when there is one. */
  lemma FieldMatchText(s: string, p: nat, f: FieldMatch) returns (w: nat, a: nat, b: nat, q: nat, t: nat)
    requires p <= |s| && FieldAt(s, p) == Some(f)
    ensures p < w <= a < b < q < t <= f.end <= |s| && WordEnd(s, p) == w
    ensures f.rawName == s[p..w] && f.rawValue == s[b + 1..q] && '}' !in f.rawValue
    ensures AllSpace(s[w..a]) && AllSpace(s[a + 1..b]) && AllSpace(s[q + 1..t])
    ensures f.end == t + 1 <==> t < |s| && s[t] == ','
    ensures s[p..f.end] == s[p..w] + s[w..a] + "=" + s[a + 1..b] + "{" + s[b + 1..q] + "}" + s[q + 1..f.end]
  {
    w, a, b, q, t := FieldAtStops(s, p, f);
    FieldScansText(s, p, w, a, b, q, t, f.end);
  }

  /** `FieldMatchText` stated over the places where the scans stop. */
  lemma FieldScansText(s: string, p: nat, w: nat, a: nat, b: nat, q: nat, t: nat, e: nat)
    requires p < w <= a < b < q < |s| && a == SpaceEnd(s, w) && b == SpaceEnd(s, a + 1)
    requires FindChar(s, '}', b + 1) == Some(q) && t == SpaceEnd(s, q + 1)
    requires s[a] == '=' && s[b] == '{'
    requires e == if t < |s| && s[t] == ',' then t + 1 else t
    ensures q < t <= e <= |s| && '}' !in s[b + 1..q]
    ensures AllSpace(s[w..a]) && AllSpace(s[a + 1..b]) && AllSpace(s[q + 1..t])
    ensures s[p..e] == s[p..w] + s[w..a] + "=" + s[a + 1..b] + "{" + s[b + 1..q] + "}" + s[q + 1..e]
  {
    FieldTextParts(s, p, w, a, b, q, e);
  }

  // ---------------------------------------------------------------------
  // Entry blocks
  // ---------------------------------------------------------------------

  /** The source text of one entry: `@type{key,body}`, with whitespace
      `pad` between the type and the `{` and whitespace `gap` after the
      closing `}`. */
  datatype Block = Block(token: string, pad: string, rawKey: string, body: string, gap: string)

  function BlockText(blk: Block): string {
    BlockHead(blk) + blk.body + "}" + blk.gap
  }

  /** The part of a block before its body. */
  function BlockHead(blk: Block): string {
    "@" + blk.token + blk.pad + "{" + blk.rawKey + ","
  }

  /** A `}` of the body followed, after whitespace, by an `@`: such a
      brace would end the entry early. */
  predicate CloserAt(b: string, x: nat)
    requires x < |b|
  {
    b[x] == '}' && var r := SpaceEnd(b, x + 1); r < |b| && b[r] == '@'
  }

  predicate NoCloserIn(b: string) {
    forall x {:trigger CloserAt(b, x)} :: 0 <= x < |b| ==> !CloserAt(b, x)
  }

  /** A block the entry pattern reads back as written: a non-empty `\w`
      type token, a non-empty key without a comma, a body that cannot end
      the entry early, and whitespace where the pattern allows it. */
  predicate WellFormedBlock(blk: Block) {
    && |blk.token| > 0 && (forall x :: 0 <= x < |blk.token| ==> IsWord(blk.token[x]))
    && AllSpace(blk.pad)
    && |blk.rawKey| > 0 && ',' !in blk.rawKey
    && NoCloserIn(blk.body)
    && AllSpace(blk.gap)
  }

  /** Where `x + y` lies in `s`, `x` and `y` lie one after the other. */
  lemma Within(s: string, i: nat, x: string, y: string)
    requires i + |x + y| <= |s| && s[i..i + |x + y|] == x + y
    ensures s[i..i + |x|] == x && s[i + |x|..i + |x| + |y|] == y
    ensures |y| == 1 ==> s[i + |x|] == y[0]
  {
    assert s[i..i + |x|] == s[i..i + |x + y|][..|x|];
    assert s[i + |x|..i + |x| + |y|] == s[i..i + |x + y|][|x|..];
  }

  lemma BlockChars(s: string, i: nat, blk: Block) returns (w: nat, o: nat, c: nat, q: nat)
    requires i + |BlockText(blk)| <= |s| && s[i..i + |BlockText(blk)|] == BlockText(blk)
    ensures w == i + 1 + |blk.token| && o == w + |blk.pad| && c == o + 1 + |blk.rawKey|
    ensures q == c + 1 + |blk.body| && q + 1 + |blk.gap| == i + |BlockText(blk)|
    ensures s[i] == '@' && s[o] == '{' && s[c] == ',' && s[q] == '}'
    ensures s[i + 1..w] == blk.token && s[w..o] == blk.pad && s[o + 1..c] == blk.rawKey
    ensures s[c + 1..q] == blk.body && s[q + 1..q + 1 + |blk.gap|] == blk.gap
  {
    var h := BlockHead(blk);
    Within(s, i, h + blk.body + "}", blk.gap);
    Within(s, i, h + blk.body, "}");
    Within(s, i, h, blk.body);
    w, o, c := HeadChars(s, i, blk);
    q := c + 1 + |blk.body|;
  }

  lemma HeadChars(s: string, i: nat, blk: Block) returns (w: nat, o: nat, c: nat)
    requires i + |BlockHead(blk)| <= |s| && s[i..i + |BlockHead(blk)|] == BlockHead(blk)
    ensures w == i + 1 + |blk.token| && o == w + |blk.pad| && c == o + 1 + |blk.rawKey|
    ensures c + 1 == i + |BlockHead(blk)|
    ensures s[i] == '@' && s[o] == '{' && s[c] == ','
    ensures s[i + 1..w] == blk.token && s[w..o] == blk.pad && s[o + 1..c] == blk.rawKey
  {
    var p1 := "@" + blk.token;
    var p2 := p1 + blk.pad;
    var p3 := p2 + "{";
    var p4 := p3 + blk.rawKey;
    Within(s, i, p4, ",");
    Within(s, i, p3, blk.rawKey);
    Within(s, i, p2, "{");
    Within(s, i, p1, blk.pad);
    Within(s, i, "@", blk.token);
    w := i + 1 + |blk.token|;
    o := w + |blk.pad|;
    c := o + 1 + |blk.rawKey|;
  }

  /** A body brace does not close the entry: the whitespace after it ends
      inside the body at something other than `@`, or at the entry's own
      closing brace. */
  lemma BodyBraceDoesNotClose(s: string, c: nat, b: string, x: nat)
    requires c + 1 + |b| < |s| && s[c + 1..c + 1 + |b|] == b && s[c + 1 + |b|] == '}'
    requires NoCloserIn(b) && x < |b|
    ensures !ClosesEntry(s, c + 1 + x)
  {
    assert !CloserAt(b, x);
    if b[x] == '}' {
      var r := SpaceEnd(b, x + 1);
      forall y | c + 2 + x <= y < c + 1 + r ensures IsSpace(s[y]) {
        assert s[y] == b[y - c - 1];
      }
      if r < |b| {
        assert s[c + 1 + r] == b[r];
      }
      SpaceEndIs(s, c + 2 + x, c + 1 + r);
    } else {
      assert s[c + 1 + x] == b[x];
    }
  }

  lemma TokenScan(s: string, i: nat, t: string)
    requires i + |t| < |s| && s[i..i + |t|] == t && !IsWord(s[i + |t|])
    requires forall x :: 0 <= x < |t| ==> IsWord(t[x])
    ensures WordEnd(s, i) == i + |t|
  {
    forall y | i <= y < i + |t| ensures IsWord(s[y]) {
      assert s[y] == t[y - i];
    }
    WordEndIs(s, i, i + |t|);
  }

  /** Whitespace `g` written at `a` and followed by something else is
      where `\s*` stops. */
  lemma SpacesAt(s: string, a: nat, g: string, e: nat)
    requires e == a + |g| && e <= |s| && s[a..e] == g && AllSpace(g)
    requires e == |s| || !IsSpace(s[e])
    ensures SpaceEnd(s, a) == e
  {
    forall y | a <= y < e ensures IsSpace(s[y]) {
      assert s[y] == g[y - a];
    }
    SpaceEndIs(s, a, e);
  }

  lemma KeyScan(s: string, o: nat, k: string)
    requires o + 1 + |k| < |s| && s[o + 1..o + 1 + |k|] == k && s[o + 1 + |k|] == ','
    requires ',' !in k
    ensures FindChar(s, ',', o + 1) == Some(o + 1 + |k|)
  {
    forall y | o + 1 <= y < o + 1 + |k| ensures s[y] != ',' {
      assert s[y] == k[y - o - 1];
    }
    FindCharIs(s, ',', o + 1, o + 1 + |k|);
  }

  lemma BodyScan(s: string, c: nat, b: string, q: nat)
    requires q == c + 1 + |b| && q < |s| && s[c + 1..q] == b && s[q] == '}' && NoCloserIn(b)
    requires SpaceEnd(s, q + 1) == |s| || s[SpaceEnd(s, q + 1)] == '@'
    ensures ClosingBrace(s, c + 1) == Some(q)
  {
    forall y | c + 1 <= y < q ensures !ClosesEntry(s, y) {
      BodyBraceDoesNotClose(s, c, b, y - c - 1);
    }
    ClosingBraceIs(s, c + 1, q);
  }

  /** The entry pattern at `i`, given where its scans stop. */
  lemma EntryAtParts(s: string, i: nat, w: nat, o: nat, c: nat, q: nat, e: nat)
    requires i < w <= o < c < q < |s| && s[i] == '@' && s[o] == '{'
    requires i + 1 < w && WordEnd(s, i + 1) == w && SpaceEnd(s, w) == o
    requires o + 1 < c && FindChar(s, ',', o + 1) == Some(c)
    requires ClosingBrace(s, c + 1) == Some(q) && SpaceEnd(s, q + 1) == e
    ensures EntryAt(s, i) == Some(EntryMatch(i, s[i + 1..w], s[o + 1..c], s[c + 1..q], e))
  {
  }

  /** Tried where a well-formed block starts, the entry pattern matches
      exactly that block, with its type token, key and body as the three
      groups, provided the block, ending at `E`, is followed by the end of
      the text or by the next `@`. */
  lemma EntryAtBlock(s: string, i: nat, blk: Block, E: nat)
    requires WellFormedBlock(blk) && E == i + |BlockText(blk)|
    requires E <= |s| && s[i..E] == BlockText(blk)
    requires E == |s| || s[E] == '@'
    ensures EntryAt(s, i) == Some(EntryMatch(i, blk.token, blk.rawKey, blk.body, E))
  {
    var w, o, c, q := BlockStops(s, i, blk, E);
    EntryAtParts(s, i, w, o, c, q, E);
    assert EntryMatch(i, s[i + 1..w], s[o + 1..c], s[c + 1..q], E)
        == EntryMatch(i, blk.token, blk.rawKey, blk.body, E);
  }

  /** Where the scans of the entry pattern stop on a well-formed block. */
  lemma BlockStops(s: string, i: nat, blk: Block, E: nat) returns (w: nat, o: nat, c: nat, q: nat)
    requires WellFormedBlock(blk) && E == i + |BlockText(blk)|
    requires E <= |s| && s[i..E] == BlockText(blk)
    requires E == |s| || s[E] == '@'
    ensures i + 1 < w <= o && o + 1 < c < q < |s|
    ensures s[i] == '@' && s[o] == '{'
    ensures s[i + 1..w] == blk.token && s[o + 1..c] == blk.rawKey && s[c + 1..q] == blk.body
    ensures WordEnd(s, i + 1) == w && SpaceEnd(s, w) == o && FindChar(s, ',', o + 1) == Some(c)
    ensures ClosingBrace(s, c + 1) == Some(q) && SpaceEnd(s, q + 1) == E
  {
    w, o, c, q := BlockChars(s, i, blk);
    HeadScans(s, i, w, o, c, blk);
    TailScans(s, c, q, blk);
  }

  lemma HeadScans(s: string, i: nat, w: nat, o: nat, c: nat, blk: Block)
    requires WellFormedBlock(blk)
    requires w == i + 1 + |blk.token| && o == w + |blk.pad| && c == o + 1 + |blk.rawKey| && c < |s|
    requires s[o] == '{' && s[c] == ','
    requires s[i + 1..w] == blk.token && s[w..o] == blk.pad && s[o + 1..c] == blk.rawKey
    ensures WordEnd(s, i + 1) == w && SpaceEnd(s, w) == o && FindChar(s, ',', o + 1) == Some(c)
  {
    if blk.pad != [] {
      assert s[w] == blk.pad[0];
    }
    TokenScan(s, i + 1, blk.token);
    SpacesAt(s, w, blk.pad, o);
    KeyScan(s, o, blk.rawKey);
  }

  lemma TailScans(s: string, c: nat, q: nat, blk: Block)
    requires WellFormedBlock(blk)
    requires q == c + 1 + |blk.body| && q + 1 + |blk.gap| <= |s| && s[q] == '}'
    requires s[c + 1..q] == blk.body && s[q + 1..q + 1 + |blk.gap|] == blk.gap
    requires q + 1 + |blk.gap| == |s| || s[q + 1 + |blk.gap|] == '@'
    ensures ClosingBrace(s, c + 1) == Some(q) && SpaceEnd(s, q + 1) == q + 1 + |blk.gap|
  {
    SpacesAt(s, q + 1, blk.gap, q + 1 + |blk.gap|);
    BodyScan(s, c, blk.body, q);
  }

  predicate AllWellFormed(blks: seq<Block>) {
    blks == [] || (WellFormedBlock(blks[0]) && AllWellFormed(blks[1..]))
  }

  /** The text of several entry blocks, one after the other. */
  function BlocksText(blks: seq<Block>): string {
    if blks == [] then "" else BlockText(blks[0]) + BlocksText(blks[1..])
  }

  /** The entry `parseBibtex` builds from a block read back as written. */
  function BlockEntry(blk: Block): Entry {
    EntryObject(LowerAscii(blk.token), Trim(blk.rawKey), Fields(blk.body))
  }

  function BlockEntries(blks: seq<Block>): (r: seq<Entry>)
    ensures |r| == |blks|
  {
    if blks == [] then [] else [BlockEntry(blks[0])] + BlockEntries(blks[1..])
  }

  lemma BlocksTextSplit(blks: seq<Block>)
    requires blks != []
    ensures BlocksText(blks) == BlockText(blks[0]) + BlocksText(blks[1..])
    ensures BlocksText(blks[1..]) == [] || BlocksText(blks[1..])[0] == '@'
  {
    if |blks| > 1 {
      assert BlocksText(blks[1..]) == BlockText(blks[1]) + BlocksText(blks[2..]);
    }
  }

  lemma SuffixParts(s: string, i: nat, a: string, b: string)
    requires i <= |s| && s[i..] == a + b
    ensures i + |a| <= |s| && s[i..i + |a|] == a && s[i + |a|..] == b
  {
    assert s[i..i + |a|] == s[i..][..|a|];
    assert s[i + |a|..] == s[i..][|a|..];
  }

  /** The outer loop, started where a run of well-formed blocks fills the
      rest of the text, pushes one entry per block, built from the block's
      own type token, key and body. */
  lemma {:induction false} ParseFromBlocks(s: string, i: nat, blks: seq<Block>)
    requires AllWellFormed(blks)
    requires i <= |s| && s[i..] == BlocksText(blks)
    ensures ParseFrom(s, i) == BlockEntries(blks)
    decreases blks
  {
    if blks == [] {
      assert i == |s|;
    } else {
      var E := FirstBlockAt(s, i, blks);
      FirstBlockParses(s, i, blks[0], E);
      ParseFromBlocks(s, E, blks[1..]);
    }
  }

  /** Where the first of several blocks written at `i` ends, and what
      follows it. */
  lemma FirstBlockAt(s: string, i: nat, blks: seq<Block>) returns (E: nat)
    requires blks != [] && i <= |s| && s[i..] == BlocksText(blks)
    ensures E == i + |BlockText(blks[0])| && E <= |s| && s[i..E] == BlockText(blks[0])
    ensures E == |s| || s[E] == '@'
    ensures s[E..] == BlocksText(blks[1..])
  {
    BlocksTextSplit(blks);
    SuffixParts(s, i, BlockText(blks[0]), BlocksText(blks[1..]));
    E := i + |BlockText(blks[0])|;
    if E < |s| {
      assert s[E] == s[E..][0];
    }
  }

  /** The outer loop takes a well-formed block written at `i`. */
  lemma FirstBlockParses(s: string, i: nat, blk: Block, E: nat)
    requires WellFormedBlock(blk) && E == i + |BlockText(blk)|
    requires E <= |s| && s[i..E] == BlockText(blk)
    requires E == |s| || s[E] == '@'
    ensures ParseFrom(s, i) == [BlockEntry(blk)] + ParseFrom(s, E)
  {
    EntryAtBlock(s, i, blk, E);
    ParseFromBlock(s, i, blk, E);
  }

  /** One turn of the outer loop over a well-formed block. */
  lemma ParseFromBlock(s: string, i: nat, blk: Block, e: nat)
    requires i <= |s| && EntryAt(s, i) == Some(EntryMatch(i, blk.token, blk.rawKey, blk.body, e))
    ensures e <= |s| && ParseFrom(s, i) == [BlockEntry(blk)] + ParseFrom(s, e)
  {
  }

  /** No entry match starts inside a lead without `@`, so `exec` passes
      over it. */
  lemma {:induction false} NextEntrySkips(lead: string, rest: string, e: nat)
    requires '@' !in lead && e <= |lead|
    ensures NextEntry(lead + rest, e) == NextEntry(lead + rest, |lead|)
    decreases |lead| - e
  {
    if e < |lead| {
      assert (lead + rest)[e] == lead[e];
      NoEntryAt(lead + rest, e);
      NextEntrySkips(lead, rest, e + 1);
    }
  }

  /** The entry pattern fails where the text has no `@`, and `exec`
      moves on to the next position. */
  lemma NoEntryAt(s: string, e: nat)
    requires e < |s| && s[e] != '@'
    ensures NextEntry(s, e) == NextEntry(s, e + 1)
  {
    assert EntryAt(s, e).None?;
  }

  /** The round trip of `parseBibtex`: text without `@` followed by
      well-formed blocks parses to one entry per block, in order, each
      with the lower-cased type, the trimmed key and the fields of its
      body (which a field named `type` or `key` overrides). */
  lemma ParseBlocks(lead: string, blks: seq<Block>)
    requires '@' !in lead && AllWellFormed(blks)
    ensures Parse(lead + BlocksText(blks)) == BlockEntries(blks)
  {
    var s := lead + BlocksText(blks);
    NextEntrySkips(lead, BlocksText(blks), 0);
    assert s[|lead|..] == BlocksText(blks);
    ParseFromBlocks(s, |lead|, blks);
  }

  // ---------------------------------------------------------------------
  // Field pieces
  // ---------------------------------------------------------------------

  /** The source text of one field: `name = {value}` with whitespace
      `before` and `after` the `=`, then the separator `sep` up to the next
      field or the end of the body. */
  datatype Piece = Piece(name: string, before: string, after: string, value: string, sep: string)

  function PieceText(f: Piece): string {
    PieceHead(f) + f.value + "}" + f.sep
  }

  /** The part of a piece before its value. */
  function PieceHead(f: Piece): string {
    f.name + f.before + "=" + f.after + "{"
  }

  function PiecesText(fs: seq<Piece>): string {
    if fs == [] then "" else PieceText(fs[0]) + PiecesText(fs[1..])
  }

  /** Text around the fields of a body, such as `,` and line breaks: no
      word character, so no field match starts in it, and no `}` or `@`,
      so it cannot end the entry. */
  predicate Gap(g: string) {
    forall k :: 0 <= k < |g| ==> !IsWord(g[k]) && g[k] != '}' && g[k] != '@'
  }

  /** A piece the field pattern reads back as written: a non-empty `\w`
      name, whitespace around the `=`, a value without `}` and a gap after
      it. */
  predicate WellFormedPiece(f: Piece) {
    && |f.name| > 0 && (forall x :: 0 <= x < |f.name| ==> IsWord(f.name[x]))
    && AllSpace(f.before) && AllSpace(f.after) && '}' !in f.value && Gap(f.sep)
  }

  predicate AllPiecesWellFormed(fs: seq<Piece>) {
    forall j :: 0 <= j < |fs| ==> WellFormedPiece(fs[j])
  }

  lemma PieceChars(s: string, i: nat, f: Piece) returns (w: nat, a: nat, b: nat, q: nat)
    requires i + |PieceText(f)| <= |s| && s[i..i + |PieceText(f)|] == PieceText(f)
    ensures w == i + |f.name| && a == w + |f.before| && b == a + 1 + |f.after|
    ensures q == b + 1 + |f.value| && q + 1 + |f.sep| == i + |PieceText(f)|
    ensures s[a] == '=' && s[b] == '{' && s[q] == '}'
    ensures s[i..w] == f.name && s[w..a] == f.before && s[a + 1..b] == f.after
    ensures s[b + 1..q] == f.value && s[q + 1..q + 1 + |f.sep|] == f.sep
  {
    var h := PieceHead(f);
    Within(s, i, h + f.value + "}", f.sep);
    Within(s, i, h + f.value, "}");
    Within(s, i, h, f.value);
    w, a, b := PieceHeadChars(s, i, f);
    q := b + 1 + |f.value|;
  }

  lemma PieceHeadChars(s: string, i: nat, f: Piece) returns (w: nat, a: nat, b: nat)
    requires i + |PieceHead(f)| <= |s| && s[i..i + |PieceHead(f)|] == PieceHead(f)
    ensures w == i + |f.name| && a == w + |f.before| && b == a + 1 + |f.after|
    ensures b + 1 == i + |PieceHead(f)|
    ensures s[a] == '=' && s[b] == '{'
    ensures s[i..w] == f.name && s[w..a] == f.before && s[a + 1..b] == f.after
  {
    var p1 := f.name + f.before;
    var p2 := p1 + "=";
    var p3 := p2 + f.after;
    Within(s, i, p3, "{");
    Within(s, i, p2, f.after);
    Within(s, i, p1, "=");
    Within(s, i, f.name, f.before);
    w := i + |f.name|;
    a := w + |f.before|;
    b := a + 1 + |f.after|;
  }

  lemma ValueScan(s: string, b: nat, v: string)
    requires b + 1 + |v| < |s| && s[b + 1..b + 1 + |v|] == v && s[b + 1 + |v|] == '}'
    requires '}' !in v
    ensures FindChar(s, '}', b + 1) == Some(b + 1 + |v|)
  {
    forall y | b + 1 <= y < b + 1 + |v| ensures s[y] != '}' {
      assert s[y] == v[y - b - 1];
    }
    FindCharIs(s, '}', b + 1, b + 1 + |v|);
  }

  /** No word character in `s[a..b]`. */
  predicate NoWordIn(s: string, a: nat, b: nat)
    requires a <= b <= |s|
  {
    forall k :: a <= k < b ==> !IsWord(s[k])
  }

  /** The field pattern at `p`, given where its scans stop. */
  lemma FieldAtParts(s: string, p: nat, w: nat, a: nat, b: nat, q: nat, t: nat)
    requires p < w <= a < b < q < |s|
    requires WordEnd(s, p) == w && SpaceEnd(s, w) == a && s[a] == '='
    requires SpaceEnd(s, a + 1) == b && s[b] == '{'
    requires FindChar(s, '}', b + 1) == Some(q) && SpaceEnd(s, q + 1) == t
    ensures FieldAt(s, p) == Some(FieldMatch(p, s[p..w], s[b + 1..q], if t < |s| && s[t] == ',' then t + 1 else t))
  {
  }

  /** Where the scans of the field pattern stop on a well-formed piece. */
  lemma PieceStops(s: string, i: nat, f: Piece) returns (w: nat, a: nat, b: nat, q: nat)
    requires WellFormedPiece(f)
    requires i + |PieceText(f)| <= |s| && s[i..i + |PieceText(f)|] == PieceText(f)
    ensures i < w <= a < b < q && q + 1 + |f.sep| == i + |PieceText(f)|
    ensures s[a] == '=' && s[b] == '{'
    ensures s[i..w] == f.name && s[b + 1..q] == f.value && s[q + 1..q + 1 + |f.sep|] == f.sep
    ensures WordEnd(s, i) == w && SpaceEnd(s, w) == a && SpaceEnd(s, a + 1) == b
    ensures FindChar(s, '}', b + 1) == Some(q)
  {
    w, a, b, q := PieceChars(s, i, f);
    PieceScans(s, i, w, a, b, q, f);
  }

  lemma PieceScans(s: string, i: nat, w: nat, a: nat, b: nat, q: nat, f: Piece)
    requires WellFormedPiece(f)
    requires w == i + |f.name| && a == w + |f.before| && b == a + 1 + |f.after| && q == b + 1 + |f.value|
    requires q < |s| && s[a] == '=' && s[b] == '{' && s[q] == '}'
    requires s[i..w] == f.name && s[w..a] == f.before && s[a + 1..b] == f.after && s[b + 1..q] == f.value
    ensures WordEnd(s, i) == w && SpaceEnd(s, w) == a && SpaceEnd(s, a + 1) == b
    ensures FindChar(s, '}', b + 1) == Some(q)
  {
    if f.before != [] {
      assert s[w] == f.before[0];
    }
    TokenScan(s, i, f.name);
    SpacesAt(s, w, f.before, a);
    SpacesAt(s, a + 1, f.after, b);
    ValueScan(s, b, f.value);
  }

  /** After the `}` at `q`, the optional whitespace and `,` of the field
      pattern end inside the gap `g` that follows it, when `g` is followed
      by a word character or the end of the text. */
  lemma GapStops(s: string, q: nat, g: string) returns (e: nat)
    requires q + 1 + |g| <= |s| && s[q + 1..q + 1 + |g|] == g && Gap(g)
    requires q + 1 + |g| == |s| || IsWord(s[q + 1 + |g|])
    ensures e == (var t := SpaceEnd(s, q + 1); if t < |s| && s[t] == ',' then t + 1 else t)
    ensures q < e <= q + 1 + |g| && NoWordIn(s, e, q + 1 + |g|)
  {
    var t := SpaceEnd(s, q + 1);
    e := if t < |s| && s[t] == ',' then t + 1 else t;
    forall k | e <= k < q + 1 + |g| ensures !IsWord(s[k]) {
      assert s[k] == g[k - q - 1];
    }
  }

  /** Tried where a well-formed piece starts, the field pattern matches
      that piece, with its name and value as the two groups, and ends in
      the piece's separator; the piece must be followed by the next field
      name or by the end of the body. */
  lemma FieldAtPiece(s: string, i: nat, f: Piece) returns (e: nat)
    requires WellFormedPiece(f)
    requires i + |PieceText(f)| <= |s| && s[i..i + |PieceText(f)|] == PieceText(f)
    requires i + |PieceText(f)| == |s| || IsWord(s[i + |PieceText(f)|])
    ensures FieldAt(s, i) == Some(FieldMatch(i, f.name, f.value, e))
    ensures i < e <= i + |PieceText(f)| && NoWordIn(s, e, i + |PieceText(f)|)
  {
    var w, a, b, q := PieceStops(s, i, f);
    e := GapStops(s, q, f.sep);
    FieldAtParts(s, i, w, a, b, q, SpaceEnd(s, q + 1));
  }

  /** The two groups of each match, in order. */
  function Groups(ms: seq<FieldMatch>): (r: seq<(string, string)>)
    ensures |r| == |ms|
    ensures forall j :: 0 <= j < |ms| ==> r[j] == (ms[j].rawName, ms[j].rawValue)
  {
    if ms == [] then [] else [(ms[0].rawName, ms[0].rawValue)] + Groups(ms[1..])
  }

  /** The name and value of each piece, in order. */
  function Named(fs: seq<Piece>): (r: seq<(string, string)>)
    ensures |r| == |fs|
    ensures forall j :: 0 <= j < |fs| ==> r[j] == (fs[j].name, fs[j].value)
  {
    if fs == [] then [] else [(fs[0].name, fs[0].value)] + Named(fs[1..])
  }

  lemma PiecesTextSplit(fs: seq<Piece>)
    requires fs != [] && AllPiecesWellFormed(fs)
    ensures PiecesText(fs) == PieceText(fs[0]) + PiecesText(fs[1..])
    ensures PiecesText(fs[1..]) == [] || IsWord(PiecesText(fs[1..])[0])
  {
    if |fs| > 1 {
      assert PiecesText(fs[1..]) == PieceText(fs[1]) + PiecesText(fs[2..]);
      assert PieceText(fs[1])[0] == fs[1].name[0];
    }
  }

  lemma FieldMatchesStep(s: string, i: nat, m: FieldMatch)
    requires i <= |s| && FieldAt(s, i) == Some(m)
    ensures m.end <= |s| && FieldMatches(s, i) == [m] + FieldMatches(s, m.end)
  {
  }

  /** No field match starts at a non-word character, so `exec` passes
      over text without word characters. */
  lemma {:induction false} NextFieldSkips(s: string, e: nat, j: nat)
    requires e <= j <= |s| && NoWordIn(s, e, j)
    ensures NextField(s, e) == NextField(s, j)
    decreases j - e
  {
    if e < j {
      NoFieldAt(s, e);
      NextFieldSkips(s, e + 1, j);
    }
  }

  /** The field pattern fails where the text has no word character, and
      `exec` moves on to the next position. */
  lemma NoFieldAt(s: string, e: nat)
    requires e < |s| && !IsWord(s[e])
    ensures NextField(s, e) == NextField(s, e + 1)
  {
    WordEndIs(s, e, e);
    assert FieldAt(s, e).None?;
  }

  lemma FieldMatchesSkip(s: string, e: nat, j: nat)
    requires e <= j <= |s| && NoWordIn(s, e, j)
    ensures FieldMatches(s, e) == FieldMatches(s, j)
  {
    NextFieldSkips(s, e, j);
  }

  /** The inner loop, started where a run of well-formed pieces fills the
      rest of the body, visits one match per piece, with the piece's name
      and value as its groups. */
  lemma {:induction false} MatchesOfPieces(s: string, i: nat, fs: seq<Piece>)
    requires AllPiecesWellFormed(fs)
    requires i <= |s| && s[i..] == PiecesText(fs)
    ensures Groups(FieldMatches(s, i)) == Named(fs)
    decreases fs
  {
    if fs == [] {
      assert i == |s|;
      WordEndIs(s, i, i);
    } else {
      var P := i + |PieceText(fs[0])|;
      PiecesTextSplit(fs);
      SuffixParts(s, i, PieceText(fs[0]), PiecesText(fs[1..]));
      if P < |s| {
        assert s[P] == s[P..][0];
      }
      FirstPieceMatches(s, i, fs[0], P);
      MatchesOfPieces(s, P, fs[1..]);
    }
  }

  /** One turn of the inner loop over a well-formed piece that ends at `P`. */
  lemma FirstPieceMatches(s: string, i: nat, f: Piece, P: nat)
    requires WellFormedPiece(f) && P == i + |PieceText(f)|
    requires P <= |s| && s[i..P] == PieceText(f)
    requires P == |s| || IsWord(s[P])
    ensures Groups(FieldMatches(s, i)) == [(f.name, f.value)] + Groups(FieldMatches(s, P))
  {
    var e := FieldAtPiece(s, i, f);
    MatchThenSkip(s, i, FieldMatch(i, f.name, f.value, e), P);
  }

  /** A match at `i` followed by text without word characters up to `j`:
      the inner loop takes that match and resumes as if started at `j`. */
  lemma MatchThenSkip(s: string, i: nat, m: FieldMatch, j: nat)
    requires i <= |s| && FieldAt(s, i) == Some(m)
    requires m.end <= j <= |s| && NoWordIn(s, m.end, j)
    ensures Groups(FieldMatches(s, i)) == [(m.rawName, m.rawValue)] + Groups(FieldMatches(s, j))
  {
    FieldMatchesStep(s, i, m);
    FieldMatchesSkip(s, m.end, j);
    GroupsCons(m, FieldMatches(s, j));
  }

  lemma GroupsCons(m: FieldMatch, ms: seq<FieldMatch>)
    ensures Groups([m] + ms) == [(m.rawName, m.rawValue)] + Groups(ms)
  {
    assert ([m] + ms)[1..] == ms;
  }

  /** The inner loop over a body written as a gap and then pieces. */
  lemma BodyMatches(lead: string, fs: seq<Piece>)
    requires Gap(lead) && AllPiecesWellFormed(fs)
    ensures Groups(FieldMatches(lead + PiecesText(fs), 0)) == Named(fs)
  {
    var body := lead + PiecesText(fs);
    forall k | 0 <= k < |lead| ensures !IsWord(body[k]) {
      assert body[k] == lead[k];
    }
    FieldMatchesSkip(body, 0, |lead|);
    assert body[|lead|..] == PiecesText(fs);
    MatchesOfPieces(body, |lead|, fs);
  }

  /** The property a piece assigns. */
  predicate Assigns(f: Piece, name: string) {
    LowerAscii(f.name) == name && name != ProtoName
  }

  /** The round trip of the field loop, part one: a body written as a gap
      and well-formed pieces has a property exactly for the lower-cased
      names of its pieces other than `__proto__`. */
  lemma FieldNamesOfPieces(lead: string, fs: seq<Piece>, name: string)
    requires Gap(lead) && AllPiecesWellFormed(fs)
    ensures name in Fields(lead + PiecesText(fs)) <==> exists j :: 0 <= j < |fs| && Assigns(fs[j], name)
  {
    var body := lead + PiecesText(fs);
    BodyMatches(lead, fs);
    var ms := FieldMatches(body, 0);
    assert |ms| == |fs|;
    AssignedNames(map[], ms, name);
    if exists j :: 0 <= j < |fs| && Assigns(fs[j], name) {
      var j :| 0 <= j < |fs| && Assigns(fs[j], name);
      assert Groups(ms)[j] == Named(fs)[j];
    }
    if exists j :: 0 <= j < |ms| && Stores(ms[j], name) {
      var j :| 0 <= j < |ms| && Stores(ms[j], name);
      assert Groups(ms)[j] == Named(fs)[j];
    }
  }

  /** The round trip of the field loop, part two: each property holds the
      normalised value of the last piece that assigns it. */
  lemma FieldValueOfPieces(lead: string, fs: seq<Piece>, j: nat, name: string)
    requires Gap(lead) && AllPiecesWellFormed(fs)
    requires j < |fs| && Assigns(fs[j], name)
    requires forall k :: j < k < |fs| ==> !Assigns(fs[k], name)
    ensures name in Fields(lead + PiecesText(fs))
    ensures Fields(lead + PiecesText(fs))[name] == Normalize(fs[j].value)
  {
    var body := lead + PiecesText(fs);
    BodyMatches(lead, fs);
    var ms := FieldMatches(body, 0);
    assert |ms| == |fs| && Groups(ms)[j] == Named(fs)[j];
    forall k | j < k < |ms| ensures !Stores(ms[k], name) {
      assert Groups(ms)[k] == Named(fs)[k];
    }
    LastAssignmentWins(map[], ms, j, name);
  }

  /** The only `}` of a well-formed piece is the one before its
      separator. */
  lemma PieceBrace(f: Piece, x: nat)
    requires WellFormedPiece(f) && x < |PieceText(f)| && PieceText(f)[x] == '}'
    ensures x + 1 + |f.sep| == |PieceText(f)|
  {
    var t := PieceText(f);
    assert t[0..|t|] == t;
    var w, a, b, q := PieceChars(t, 0, f);
    forall y | 0 <= y < |t| && y != q ensures t[y] != '}' {
      if y < w {
        assert t[y] == f.name[y];
      } else if y < a {
        assert t[y] == f.before[y - w];
      } else if a < y < b {
        assert t[y] == f.after[y - a - 1];
      } else if b < y < q {
        assert t[y] == f.value[y - b - 1];
      } else if q < y {
        assert t[y] == f.sep[y - q - 1];
      }
    }
  }

  /** Every `}` of a run of pieces is followed by a gap that runs up to
      the next field name or to the end. */
  lemma {:induction false} PiecesBraceFollow(fs: seq<Piece>, x: nat) returns (e: nat)
    requires AllPiecesWellFormed(fs)
    requires x < |PiecesText(fs)| && PiecesText(fs)[x] == '}'
    ensures x < e <= |PiecesText(fs)| && Gap(PiecesText(fs)[x + 1..e])
    ensures e == |PiecesText(fs)| || IsWord(PiecesText(fs)[e])
    decreases fs
  {
    var f := fs[0];
    var t := PieceText(f);
    var rest := PiecesText(fs[1..]);
    PiecesTextSplit(fs);
    var text := PiecesText(fs);
    if x < |t| {
      assert t[x] == text[x];
      e := BraceInPiece(f, rest, x);
    } else {
      ShiftedIndex(t, rest, x);
      var e' := PiecesBraceFollow(fs[1..], x - |t|);
      e := GapShifted(t, rest, x - |t|, e');
    }
  }

  /** A gap after a brace of `rest`, seen in `t + rest`. */
  lemma GapShifted(t: string, rest: string, x': nat, e': nat) returns (e: nat)
    requires x' < e' <= |rest| && Gap(rest[x' + 1..e']) && (e' == |rest| || IsWord(rest[e']))
    ensures e == e' + |t| && |t| + x' < e <= |t + rest|
    ensures Gap((t + rest)[|t| + x' + 1..e]) && (e == |t + rest| || IsWord((t + rest)[e]))
  {
    e := e' + |t|;
    ShiftedSlice(t, rest, |t| + x' + 1, e, x' + 1, e');
  }

  /** In `u + g + r`, the part after `u` and up to the end of `g` is `g`. */
  lemma TailOfFirst(u: string, g: string, r: string)
    ensures (u + g + r)[|u|..|u + g|] == g
    ensures |u + g| < |u + g + r| ==> (u + g + r)[|u + g|] == r[0]
  {
    assert (u + g + r)[|u|..|u + g|] == (u + g)[|u|..];
  }

  /** Indexing `t + r` past `t` indexes `r`. */
  lemma ShiftedIndex(t: string, r: string, x: nat)
    requires |t| <= x < |t + r|
    ensures (t + r)[x] == r[x - |t|]
  {
  }

  /** Slicing `t + r` past `t` slices `r`. */
  lemma ShiftedSlice(t: string, r: string, a: nat, b: nat, a': nat, b': nat)
    requires a' + |t| == a && b' + |t| == b && a' <= b' <= |r|
    ensures (t + r)[a..b] == r[a'..b']
    ensures b' < |r| ==> (t + r)[b] == r[b']
  {
    assert (t + r)[a..b] == (t + r)[|t|..][a'..b'];
    assert (t + r)[|t|..] == r;
  }

  /** A `}` of a piece followed by `rest` is followed by the piece's
      separator, which runs up to the start of `rest`. */
  lemma BraceInPiece(f: Piece, rest: string, x: nat) returns (e: nat)
    requires WellFormedPiece(f) && x < |PieceText(f)| && PieceText(f)[x] == '}'
    ensures e == |PieceText(f)| && x < e
    ensures (PieceText(f) + rest)[x + 1..e] == f.sep
    ensures e < |PieceText(f) + rest| ==> (PieceText(f) + rest)[e] == rest[0]
  {
    PieceBrace(f, x);
    e := |PieceText(f)|;
    TailOfFirst(PieceHead(f) + f.value + "}", f.sep, rest);
  }

  /** A `}` followed by a gap up to a word character or the end of the
      body does not end the entry. */
  lemma GapAfterBrace(b: string, x: nat, e: nat)
    requires x < e <= |b| && Gap(b[x + 1..e]) && (e == |b| || IsWord(b[e]))
    ensures !CloserAt(b, x)
  {
    var r := SpaceEnd(b, x + 1);
    if r < e {
      assert b[r] == b[x + 1..e][r - x - 1];
    }
  }

  lemma BraceAfterLead(lead: string, fs: seq<Piece>, x: nat)
    requires AllPiecesWellFormed(fs)
    requires |lead| <= x < |lead + PiecesText(fs)| && (lead + PiecesText(fs))[x] == '}'
    ensures !CloserAt(lead + PiecesText(fs), x)
  {
    var text := PiecesText(fs);
    ShiftedIndex(lead, text, x);
    var e' := PiecesBraceFollow(fs, x - |lead|);
    var e := e' + |lead|;
    ShiftedSlice(lead, text, x + 1, e, x - |lead| + 1, e');
    GapAfterBrace(lead + text, x, e);
  }

  /** A body written as a gap and pieces cannot end its entry early, so
      a block with such a body is well formed as soon as its token, key
      and whitespace are. */
  lemma PiecesCloseNothing(lead: string, fs: seq<Piece>)
    requires Gap(lead) && AllPiecesWellFormed(fs)
    ensures NoCloserIn(lead + PiecesText(fs))
  {
    var b := lead + PiecesText(fs);
    forall x | 0 <= x < |b| ensures !CloserAt(b, x) {
      if x < |lead| {
        assert b[x] == lead[x];
      } else if b[x] == '}' {
        BraceAfterLead(lead, fs, x);
      }
    }
  }

  /** A text that is a single entry `@type{key,body}` parses to that one
      entry. */
  lemma ParseSingleBlock(token: string, rawKey: string, body: string)
    requires |token| > 0 && forall x :: 0 <= x < |token| ==> IsWord(token[x])
    requires |rawKey| > 0 && ',' !in rawKey && NoCloserIn(body)
    ensures Parse("@" + token + "{" + rawKey + "," + body + "}")
         == [EntryObject(LowerAscii(token), Trim(rawKey), Fields(body))]
  {
    var blk := Block(token, "", rawKey, body, "");
    assert BlockText(blk) == "@" + token + "{" + rawKey + "," + body + "}";
    assert BlocksText([blk]) == BlockText(blk);
    ParseBlocks("", [blk]);
    assert "" + BlocksText([blk]) == BlockText(blk);
  }

  /** A body that is a single field `name={value}` holds exactly that
      property, with the lower-cased name and the normalised value. */
  lemma FieldsOfSingleField(name: string, value: string)
    requires |name| > 0 && forall x :: 0 <= x < |name| ==> IsWord(name[x])
    requires '}' !in value && LowerAscii(name) != ProtoName
    ensures Fields(name + "={" + value + "}") == map[LowerAscii(name) := Normalize(value)]
  {
    var f := Piece(name, "", "", value, "");
    assert "" + PiecesText([f]) == name + "={" + value + "}" by {
      assert PiecesText([f]) == PieceText(f) + PiecesText([]);
    }
    OnlyPiece("", f);
  }

  /** A body written as a gap and one well-formed piece holds exactly the
      property that piece assigns. */
  lemma OnlyPiece(lead: string, f: Piece)
    requires Gap(lead) && WellFormedPiece(f) && LowerAscii(f.name) != ProtoName
    ensures Fields(lead + PiecesText([f])) == map[LowerAscii(f.name) := Normalize(f.value)]
  {
    forall k ensures k in Fields(lead + PiecesText([f])) <==> k == LowerAscii(f.name) {
      OnlyPieceName(lead, f, k);
    }
    FieldValueOfPieces(lead, [f], 0, LowerAscii(f.name));
  }

  lemma OnlyPieceName(lead: string, f: Piece, k: string)
    requires Gap(lead) && WellFormedPiece(f) && LowerAscii(f.name) != ProtoName
    ensures k in Fields(lead + PiecesText([f])) <==> k == LowerAscii(f.name)
  {
    FieldNamesOfPieces(lead, [f], k);
    if k == LowerAscii(f.name) {
      assert Assigns([f][0], k);
    }
  }
}
