/*
 * The JavaScript string built-ins that the bibliography loader relies on,
 * restated over `seq<char>`: the `\w` and `\s` character classes of a
 * regular expression without the `u` flag, `String.prototype.trim`,
 * `toLowerCase` on ASCII word characters, `replace(/\s+/g, ' ')` and
 * `Array.prototype.join`.
 */
module JsStrings {

  datatype Option<T> = None | Some(value: T)

  /** `\w`: the ASCII letters, the digits and the underscore. */
  predicate IsWord(c: char) {
    ('a' <= c <= 'z') || ('A' <= c <= 'Z') || ('0' <= c <= '9') || c == '_'
  }

  /** `\s`, which is also the set of code points that `trim` removes:
      ECMAScript's WhiteSpace (tab, vertical tab, form feed, the Zs
      category and the byte order mark) and LineTerminator (LF, CR,
      LINE SEPARATOR, PARAGRAPH SEPARATOR). */
  predicate IsSpace(c: char) {
    ('\t' <= c <= '\r') || c == ' ' || c == '\U{00A0}' || c == '\U{1680}'
    || ('\U{2000}' <= c <= '\U{200A}') || c == '\U{2028}' || c == '\U{2029}'
    || c == '\U{202F}' || c == '\U{205F}' || c == '\U{3000}' || c == '\U{FEFF}'
  }

  predicate AllSpace(s: string) {
    forall k :: 0 <= k < |s| ==> IsSpace(s[k])
  }

  /** No whitespace at either end, as `trim` leaves a string. */
  predicate IsTrimmed(s: string) {
    s == [] || (!IsSpace(s[0]) && !IsSpace(s[|s| - 1]))
  }

  /** Every whitespace character is a ' ' that no other whitespace
      follows: the shape `replace(/\s+/g, ' ')` produces. */
  predicate SingleSpaced(s: string) {
    forall k :: 0 <= k < |s| && IsSpace(s[k]) ==>
      s[k] == ' ' && (k + 1 == |s| || !IsSpace(s[k + 1]))
  }

  /** The shape `replace(/\s+/g, ' ').trim()` produces. */
  predicate IsNormalized(s: string) {
    IsTrimmed(s) && SingleSpaced(s)
  }

  const UpperLetters := "ABCDEFGHIJKLMNOPQRSTUVWXYZ"
  const LowerLetters := "abcdefghijklmnopqrstuvwxyz"

  /** `toLowerCase` restricted to the ASCII range, which is all it meets
      on `\w` tokens. */
  function LowerChar(c: char): (d: char)
    ensures !('A' <= c <= 'Z') ==> d == c
    ensures IsWord(c) ==> IsWord(d) && !('A' <= d <= 'Z')
  {
    if 'A' <= c <= 'Z' then (c as int + 32) as char else c
  }

  /** Against the alphabet: the n-th upper-case letter lower-cases to the
      n-th lower-case letter. */
  lemma LowerCharAlphabet(n: nat)
    requires n < |UpperLetters|
    ensures LowerChar(UpperLetters[n]) == LowerLetters[n]
  {
  }

  function LowerAscii(s: string): (r: string) {
    seq(|s|, i requires 0 <= i < |s| => LowerChar(s[i]))
  }

  /** A non-empty token of lower-case word characters: what
      `(\w+)` followed by `toLowerCase()` yields. */
  predicate IsLowerWord(s: string) {
    |s| > 0 && forall k :: 0 <= k < |s| ==> IsWord(s[k]) && !('A' <= s[k] <= 'Z')
  }

  lemma LowerWordToken(s: string)
    requires |s| > 0 && forall k :: 0 <= k < |s| ==> IsWord(s[k])
    ensures IsLowerWord(LowerAscii(s))
  {
  }

  /** End of the maximal run of whitespace that starts at `i`: where a
      greedy `\s*` stops. */
  function SpaceEnd(s: string, i: nat): (j: nat)
    requires i <= |s|
    ensures i <= j <= |s|
    ensures forall k :: i <= k < j ==> IsSpace(s[k])
    ensures j == |s| || !IsSpace(s[j])
    decreases |s| - i
  {
    if i < |s| && IsSpace(s[i]) then SpaceEnd(s, i + 1) else i
  }

  /** End of the maximal run of word characters that starts at `i`: where
      a greedy `\w+` stops (the run is empty when `s[i]` is no word
      character). */
  function WordEnd(s: string, i: nat): (j: nat)
    requires i <= |s|
    ensures i <= j <= |s|
    ensures forall k :: i <= k < j ==> IsWord(s[k])
    ensures j == |s| || !IsWord(s[j])
    decreases |s| - i
  {
    if i < |s| && IsWord(s[i]) then WordEnd(s, i + 1) else i
  }

  /** Start of the maximal run of whitespace that ends at `j`. */
  function SpaceStart(s: string, j: nat): (i: nat)
    requires j <= |s|
    ensures i <= j
    ensures forall k :: i <= k < j ==> IsSpace(s[k])
    ensures i == 0 || !IsSpace(s[i - 1])
  {
    if j > 0 && IsSpace(s[j - 1]) then SpaceStart(s, j - 1) else j
  }

  /** The first occurrence of `c` at or after `i`: where `[^c]*` followed
      by `c` stops. */
  function FindChar(s: string, c: char, i: nat): (r: Option<nat>)
    requires i <= |s|
    ensures r.Some? ==> i <= r.value < |s| && s[r.value] == c
    ensures r.Some? ==> forall k :: i <= k < r.value ==> s[k] != c
    ensures r.None? ==> forall k :: i <= k < |s| ==> s[k] != c
    decreases |s| - i
  {
    if i == |s| then None
    else if s[i] == c then Some(i)
    else FindChar(s, c, i + 1)
  }

  /** `String.prototype.trim`: the string with its leading and trailing
      whitespace removed, and nothing else. */
  function Trim(s: string): (r: string)
    ensures IsTrimmed(r)
    ensures SpaceEnd(s, 0) + |r| <= |s|
    ensures r == s[SpaceEnd(s, 0)..SpaceEnd(s, 0) + |r|]
    ensures AllSpace(s[..SpaceEnd(s, 0)]) && AllSpace(s[SpaceEnd(s, 0) + |r|..])
  {
    var i := SpaceEnd(s, 0);
    var j := SpaceStart(s, |s|);
    if i < j then s[i..j] else []
  }

  lemma {:induction false} TrimmedIsFixed(s: string)
    requires IsTrimmed(s)
    ensures Trim(s) == s
  {
    if s != [] {
      assert SpaceEnd(s, 0) == 0;
      assert SpaceStart(s, |s|) == |s|;
    }
  }

  /** The characters of `s` that are not whitespace, in order. */
  function NonSpace(s: string): (r: string)
    ensures forall c :: c in r <==> c in s && !IsSpace(c)
  {
    if s == [] then []
    else if IsSpace(s[0]) then NonSpace(s[1..])
    else [s[0]] + NonSpace(s[1..])
  }

  lemma {:induction false} NonSpaceAppend(a: string, b: string)
    ensures NonSpace(a + b) == NonSpace(a) + NonSpace(b)
    decreases |a|
  {
    if a != [] {
      assert (a + b)[0] == a[0];
      assert (a + b)[1..] == a[1..] + b;
      NonSpaceAppend(a[1..], b);
    } else {
      assert a + b == b;
    }
  }

  lemma {:induction false} NonSpaceOfSpace(s: string)
    requires AllSpace(s)
    ensures NonSpace(s) == []
    decreases |s|
  {
    if s != [] {
      NonSpaceOfSpace(s[1..]);
    }
  }

  /** `replace(/\s+/g, ' ')`: every maximal run of whitespace becomes one
      space; every other character is kept, in order. */
  function Collapse(s: string): (r: string)
    ensures r == [] <==> s == []
    ensures r != [] ==> (IsSpace(r[0]) <==> IsSpace(s[0]))
    ensures SingleSpaced(r)
    ensures NonSpace(r) == NonSpace(s)
    decreases |s|
  {
    if s == [] then []
    else if IsSpace(s[0]) then
      var j := SpaceEnd(s, 0);
      var rest := Collapse(s[j..]);
      assert s == s[..j] + s[j..];
      NonSpaceAppend(s[..j], s[j..]);
      NonSpaceOfSpace(s[..j]);
      NonSpaceAppend(" ", rest);
      SingleSpacedCons(' ', rest);
      " " + rest
    else
      var rest := Collapse(s[1..]);
      assert s == [s[0]] + s[1..];
      NonSpaceAppend([s[0]], s[1..]);
      NonSpaceAppend([s[0]], rest);
      SingleSpacedCons(s[0], rest);
      [s[0]] + rest
  }

  /** Putting `c` in front of a single-spaced string keeps it single
      spaced, unless `c` is whitespace other than ' ' or is followed by
      whitespace. */
  lemma SingleSpacedCons(c: char, rest: string)
    requires SingleSpaced(rest)
    requires IsSpace(c) ==> c == ' ' && (rest == [] || !IsSpace(rest[0]))
    ensures SingleSpaced([c] + rest)
  {
    var r := [c] + rest;
    forall k | 1 <= k < |r| ensures r[k] == rest[k - 1] {
    }
  }

  /** `replace(/\s+/g, ' ').trim()`, the normalisation of a field value:
      the result is normalised and keeps exactly the non-whitespace
      characters of the input, in order. */
  function Normalize(v: string): (r: string)
    ensures IsNormalized(r)
    ensures NonSpace(r) == NonSpace(v)
    ensures forall c :: !IsSpace(c) ==> (c in r <==> c in v)
  {
    var collapsed := Collapse(v);
    TrimKeepsContent(collapsed);
    Trim(collapsed)
  }

  /** Trimming removes whitespace only, so it keeps the non-whitespace
      characters and the single spacing. */
  lemma TrimKeepsContent(s: string)
    ensures NonSpace(Trim(s)) == NonSpace(s)
    ensures SingleSpaced(s) ==> SingleSpaced(Trim(s))
  {
    var r := Trim(s);
    var i := SpaceEnd(s, 0);
    var pre, post := s[..i], s[i + |r|..];
    assert s == pre + r + post;
    NonSpaceAppend(pre + r, post);
    NonSpaceAppend(pre, r);
    NonSpaceOfSpace(pre);
    NonSpaceOfSpace(post);
    if SingleSpaced(s) {
      SingleSpacedSlice(s, i, i + |r|);
    }
  }

  lemma SingleSpacedSlice(s: string, i: nat, j: nat)
    requires i <= j <= |s| && SingleSpaced(s)
    ensures SingleSpaced(s[i..j])
  {
    forall k | 0 <= k < j - i && IsSpace(s[i..j][k])
      ensures s[i..j][k] == ' ' && (k + 1 == j - i || !IsSpace(s[i..j][k + 1]))
    {
      assert s[i..j][k] == s[i + k];
      if k + 1 < j - i {
        assert s[i..j][k + 1] == s[i + k + 1];
      }
    }
  }

  lemma {:induction false} CollapseSingleSpacedIsFixed(s: string)
    requires SingleSpaced(s)
    ensures Collapse(s) == s
    decreases |s|
  {
    if s != [] {
      SingleSpacedTail(s);
      CollapseSingleSpacedIsFixed(s[1..]);
      assert s == [s[0]] + s[1..];
      if IsSpace(s[0]) {
        SpaceEndIs(s, 0, 1);
      }
    }
  }

  lemma SingleSpacedTail(s: string)
    requires s != [] && SingleSpaced(s)
    ensures SingleSpaced(s[1..])
  {
    forall k | 0 <= k < |s[1..]| && IsSpace(s[1..][k])
      ensures s[1..][k] == ' ' && (k + 1 == |s[1..]| || !IsSpace(s[1..][k + 1]))
    {
      assert s[1..][k] == s[k + 1];
    }
  }

  /** `Collapse` works run by run: it distributes over a concatenation
      that does not join two whitespace characters. */
  lemma {:induction false} CollapseAppend(a: string, b: string)
    requires a == [] || b == [] || !IsSpace(a[|a| - 1]) || !IsSpace(b[0])
    ensures Collapse(a + b) == Collapse(a) + Collapse(b)
    decreases |a|
  {
    if a == [] {
      assert a + b == b;
    } else if IsSpace(a[0]) {
      var j := SpaceEnd(a, 0);
      if j == |a| {
        SpaceEndAppend(a, b);
        assert (a + b)[|a|..] == b;
        assert a[j..] == [];
        assert Collapse(a) == " ";
        assert Collapse(a + b) == " " + Collapse(b);
      } else {
        SpaceEndPrefix(a, b);
        var rest := a[j..];
        assert (a + b)[j..] == rest + b;
        CollapseAppend(rest, b);
        assert Collapse(a) == " " + Collapse(rest);
        assert Collapse(a + b) == " " + Collapse(rest + b);
        AppendAssoc(" ", Collapse(rest), Collapse(b));
      }
    } else {
      var rest := a[1..];
      assert (a + b)[0] == a[0];
      assert (a + b)[1..] == rest + b;
      CollapseAppend(rest, b);
      assert Collapse(a) == [a[0]] + Collapse(rest);
      assert Collapse(a + b) == [a[0]] + Collapse(rest + b);
      AppendAssoc([a[0]], Collapse(rest), Collapse(b));
    }
  }

  lemma SpaceEndAppend(a: string, b: string)
    requires a != [] && AllSpace(a) && (b == [] || !IsSpace(b[0]))
    ensures SpaceEnd(a + b, 0) == |a|
  {
    SpaceEndIs(a + b, 0, |a|);
  }

  lemma SpaceEndPrefix(a: string, b: string)
    requires SpaceEnd(a, 0) < |a|
    ensures SpaceEnd(a + b, 0) == SpaceEnd(a, 0)
  {
    SpaceEndIs(a + b, 0, SpaceEnd(a, 0));
  }

  lemma SpaceEndIs(s: string, i: nat, j: nat)
    requires i <= j <= |s|
    requires forall k :: i <= k < j ==> IsSpace(s[k])
    requires j == |s| || !IsSpace(s[j])
    ensures SpaceEnd(s, i) == j
  {
  }

  /** A non-empty run of whitespace collapses to exactly one space. */
  lemma CollapseRun(w: string)
    requires w != [] && AllSpace(w)
    ensures Collapse(w) == " "
  {
    SpaceEndIs(w, 0, |w|);
    assert w[|w|..] == [];
  }

  /** The characterisation of `replace(/\s+/g, ' ')`: between two parts
      that do not touch it with whitespace, a run of whitespace becomes a
      single space and the parts are collapsed on their own. */
  lemma CollapseAtRun(a: string, w: string, b: string)
    requires w != [] && AllSpace(w)
    requires a == [] || !IsSpace(a[|a| - 1])
    requires b == [] || !IsSpace(b[0])
    ensures Collapse(a + w + b) == Collapse(a) + " " + Collapse(b)
  {
    var wb := w + b;
    CollapseAppend(w, b);
    CollapseRun(w);
    assert Collapse(wb) == " " + Collapse(b);
    CollapseAppend(a, wb);
    AppendAssoc(a, w, b);
    AppendAssoc(Collapse(a), " ", Collapse(b));
  }

  lemma AppendAssoc(a: string, w: string, b: string)
    ensures a + w + b == a + (w + b)
  {
  }

  /** A character that is not whitespace is kept as it is. */
  lemma CollapseKeeps(c: char)
    requires !IsSpace(c)
    ensures Collapse([c]) == [c]
  {
    assert [c][1..] == [];
  }

  /** A string that ends with a character other than whitespace
      collapses to one that ends with that character. */
  lemma CollapseLast(a: string)
    requires a != [] && !IsSpace(a[|a| - 1])
    ensures Collapse(a) != [] && Collapse(a)[|Collapse(a)| - 1] == a[|a| - 1]
  {
    var init, c := a[..|a| - 1], a[|a| - 1];
    assert a == init + [c];
    CollapseAppend(init, [c]);
    CollapseKeeps(c);
  }

  lemma SpaceStartIs(s: string, i: nat, j: nat)
    requires i <= j <= |s|
    requires forall k :: i <= k < j ==> IsSpace(s[k])
    requires i == 0 || !IsSpace(s[i - 1])
    ensures SpaceStart(s, j) == i
  {
  }

  lemma TrimIs(s: string, i: nat, j: nat)
    requires i < j <= |s| && SpaceEnd(s, 0) == i && SpaceStart(s, |s|) == j
    ensures Trim(s) == s[i..j]
  {
  }

  /** The leading whitespace of `x + " " + y` is that of `x`, when `x`
      ends with something other than whitespace. */
  lemma LeadingSpaceOfJoin(x: string, y: string)
    requires x != [] && !IsSpace(x[|x| - 1])
    ensures SpaceEnd(x + " " + y, 0) == SpaceEnd(x, 0) < |x|
  {
    var s := x + " " + y;
    var i := SpaceEnd(x, 0);
    forall k | 0 <= k < i ensures IsSpace(s[k]) {
      assert s[k] == x[k];
    }
    assert s[i] == x[i];
    SpaceEndIs(s, 0, i);
  }

  /** The trailing whitespace of `x + " " + y` is that of `y`, when `y`
      starts with something other than whitespace. */
  lemma TrailingSpaceOfJoin(x: string, y: string)
    requires y != [] && !IsSpace(y[0])
    ensures SpaceStart(x + " " + y, |x + " " + y|) == |x| + 1 + SpaceStart(y, |y|) > |x| + 1
  {
    var s := x + " " + y;
    var j := SpaceStart(y, |y|);
    forall k | |x| + 1 + j <= k < |s| ensures IsSpace(s[k]) {
      assert s[k] == y[k - |x| - 1];
    }
    assert s[|x| + j] == y[j - 1];
    SpaceStartIs(s, |x| + 1 + j, |s|);
  }

  lemma JoinSlice(x: string, y: string, i: nat, j: nat)
    requires i <= |x| && j <= |y|
    ensures (x + " " + y)[i..|x| + 1 + j] == x[i..|x|] + " " + y[0..j]
  {
  }

  /** Trimming a join at a single space trims the two sides on their own,
      when neither side touches the space with whitespace. */
  lemma TrimJoin(x: string, y: string)
    requires x != [] && !IsSpace(x[|x| - 1]) && y != [] && !IsSpace(y[0])
    ensures Trim(x + " " + y) == Trim(x) + " " + Trim(y)
  {
    var i := SpaceEnd(x, 0);
    var j := SpaceStart(y, |y|);
    var s := x + " " + y;
    LeadingSpaceOfJoin(x, y);
    TrailingSpaceOfJoin(x, y);
    TrimIs(s, i, |x| + 1 + j);
    SpaceStartIs(x, |x|, |x|);
    TrimIs(x, i, |x|);
    SpaceEndIs(y, 0, 0);
    TrimIs(y, 0, j);
    JoinSlice(x, y, i, j);
  }

  /** The characterisation of a field value's normalisation: a run of
      whitespace between two parts that do not touch it with whitespace
      becomes a single space, and each part is normalised on its own. */
  lemma NormalizeAtRun(a: string, w: string, b: string)
    requires w != [] && AllSpace(w)
    requires a != [] && !IsSpace(a[|a| - 1])
    requires b != [] && !IsSpace(b[0])
    ensures Normalize(a + w + b) == Normalize(a) + " " + Normalize(b)
  {
    CollapseAtRun(a, w, b);
    CollapseLast(a);
    TrimJoin(Collapse(a), Collapse(b));
  }

  /** Normalising twice changes nothing. */
  lemma NormalizeIdempotent(v: string)
    ensures Normalize(Normalize(v)) == Normalize(v)
  {
    var r := Normalize(v);
    CollapseSingleSpacedIsFixed(r);
    TrimmedIsFixed(r);
  }

  /** `Array.prototype.join` over strings. */
  function JoinWith(parts: seq<string>, sep: string): string {
    if parts == [] then []
    else if |parts| == 1 then parts[0]
    else parts[0] + sep + JoinWith(parts[1..], sep)
  }
}
