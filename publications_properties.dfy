/*
 * What the rendering helpers promise: how the author list is split and
 * abbreviated, that the detail line holds only present fields in a fixed
 * order, that titles lose their braces and nothing else, and how the
 * entries fall into the two lists and the three counters.
 */
module PublicationsProperties {
  import opened JsStrings
  import opened Bibtex
  import opened Publications

  // ---------------------------------------------------------------------
  // Splitting the author field
  // ---------------------------------------------------------------------

  lemma LowerAsciiAppend(a: string, b: string)
    ensures LowerAscii(a + b) == LowerAscii(a) + LowerAscii(b)
  {
    assert forall k :: 0 <= k < |a + b| ==> LowerAscii(a + b)[k] == (LowerAscii(a) + LowerAscii(b))[k];
  }

  function LowerAll(pieces: seq<string>): (r: seq<string>)
    ensures |r| == |pieces|
  {
    seq(|pieces|, k requires 0 <= k < |pieces| => LowerAscii(pieces[k]))
  }

  lemma LowerAllCons(a: string, rest: seq<string>)
    ensures LowerAll([a] + rest) == [LowerAscii(a)] + LowerAll(rest)
  {
    assert forall k :: 0 < k <= |rest| ==> ([a] + rest)[k] == rest[k - 1];
  }

  lemma LowerSeparator(s: string, q: nat)
    requires IsSepAt(s, q)
    ensures LowerAscii(s[q..q + 5]) == " and "
  {
    var w := s[q..q + 5];
    assert w[0] == s[q] && w[1] == s[q + 1] && w[2] == s[q + 2] && w[3] == s[q + 3] && w[4] == s[q + 4];
  }

  lemma JoinCons(x: string, rest: seq<string>, sep: string)
    requires |rest| >= 1
    ensures JoinWith([x] + rest, sep) == x + sep + JoinWith(rest, sep)
  {
    assert ([x] + rest)[1..] == rest;
  }

  /** Splitting loses nothing but the letter case of the separators:
      joining the pieces with " and " gives back the input, up to ASCII
      case. */
  lemma {:induction false} SplitAndRejoins(s: string)
    ensures LowerAscii(s) == JoinWith(LowerAll(SplitAnd(s)), " and ")
    decreases |s|
  {
    match FindSep(s, 0)
    case None =>
      assert LowerAll([s]) == [LowerAscii(s)];
    case Some(q) =>
      var head, sep, rest := s[..q], s[q..q + 5], s[q + 5..];
      SplitAndRejoins(rest);
      LowerAllCons(head, SplitAnd(rest));
      JoinCons(LowerAscii(head), LowerAll(SplitAnd(rest)), " and ");
      assert s == head + sep + rest;
      LowerAsciiAppend(head + sep, rest);
      LowerAsciiAppend(head, sep);
      LowerSeparator(s, q);
  }

  /** A name the separator cannot cut: trimmed, and no " and " inside it
      or at its end once the following space is added. */
  predicate PlainName(n: string) {
    IsTrimmed(n) && NoSep(n + " ")
  }

  lemma FirstSepAfterName(n: string, tail: string)
    requires NoSep(n + " ")
    ensures FindSep(n + " and " + tail, 0) == Some(|n|)
  {
    var j := n + " and " + tail;
    assert j[|n|..|n| + 5] == " and ";
    assert IsSepAt(j, |n|);
    forall k | 0 <= k < |n| ensures !IsSepAt(j, k) {
      if k + 4 <= |n| {
        assert !IsSepAt(n + " ", k);
        assert forall i :: k <= i <= k + 4 ==> j[i] == (n + " ")[i];
      } else {
        assert j[k + 4] == " and "[k + 4 - |n|];
      }
    }
  }

  lemma NoSepWithoutSpace(n: string)
    requires NoSep(n + " ")
    ensures NoSep(n)
  {
    forall q | 0 <= q < |n| && IsSepAt(n, q) ensures false {
      assert IsSepAt(n + " ", q);
    }
  }

  /** Names that the separator cannot cut come back out of the split
      unchanged, in their order. */
  lemma {:induction false} SplitJoinedNames(names: seq<string>)
    requires |names| >= 1
    requires forall k :: 0 <= k < |names| ==> NoSep(names[k] + " ")
    ensures SplitAnd(JoinWith(names, " and ")) == names
    decreases |names|
  {
    if |names| == 1 {
      NoSepWithoutSpace(names[0]);
      assert FindSep(names[0], 0).None?;
    } else {
      var tail := JoinWith(names[1..], " and ");
      var j := names[0] + " and " + tail;
      assert JoinWith(names, " and ") == j;
      FirstSepAfterName(names[0], tail);
      assert j[..|names[0]|] == names[0];
      assert j[|names[0]| + 5..] == tail;
      SplitJoinedNames(names[1..]);
      assert names == [names[0]] + names[1..];
    }
  }

  lemma TrimAllPlain(names: seq<string>)
    requires forall k :: 0 <= k < |names| ==> PlainName(names[k])
    ensures TrimAll(names) == names
  {
    forall k | 0 <= k < |names| ensures TrimAll(names)[k] == names[k] {
      TrimmedIsFixed(names[k]);
    }
  }

  /** `formatAuthors` on an author field that lists `names`: at most three
      names are joined by ", " in their order, four or more become the
      first name followed by " et al.". An empty single name gives "". */
  lemma AuthorsOfNames(names: seq<string>)
    requires |names| >= 1
    requires forall k :: 0 <= k < |names| ==> PlainName(names[k])
    ensures FormatAuthors(Some(JoinWith(names, " and "))) ==
      if |names| <= 3 then JoinWith(names, ", ") else names[0] + " et al."
  {
    AuthorListOfNames(names);
  }

  /** Split and trimmed, an author field listing plain names gives back
      those names. */
  lemma AuthorListOfNames(names: seq<string>)
    requires |names| >= 1
    requires forall k :: 0 <= k < |names| ==> PlainName(names[k])
    ensures TrimAll(SplitAnd(JoinWith(names, " and "))) == names
  {
    SplitJoinedNames(names);
    TrimAllPlain(names);
  }

  // ---------------------------------------------------------------------
  // The detail line
  // ---------------------------------------------------------------------

  /** Every piece of the detail line is non-empty, so the join never shows
      an empty part or a doubled separator. */
  lemma {:induction false} PresentPartsNonEmpty(e: Entry, slots: seq<Slot>)
    ensures forall k :: 0 <= k < |PresentParts(e, slots)| ==> PresentParts(e, slots)[k] != ""
    decreases |slots|
  {
    if slots != [] {
      PresentPartsNonEmpty(e, slots[1..]);
    }
  }

  /** A slot contributes a piece exactly when its field is present and
      non-empty. */
  lemma {:induction false} PresentPartsEmptyIff(e: Entry, slots: seq<Slot>)
    ensures PresentParts(e, slots) == [] <==> forall k :: 0 <= k < |slots| ==> !Truthy(Prop(e, slots[k].name))
    decreases |slots|
  {
    if slots != [] {
      PresentPartsEmptyIff(e, slots[1..]);
      assert forall k :: 0 < k < |slots| ==> slots[k] == slots[1..][k - 1];
    }
  }

  lemma {:induction false} JoinEmptyIff(parts: seq<string>, sep: string)
    requires |sep| > 0
    requires forall k :: 0 <= k < |parts| ==> parts[k] != ""
    ensures JoinWith(parts, sep) == "" <==> parts == []
    decreases |parts|
  {
    if |parts| > 1 {
      JoinEmptyIff(parts[1..], sep);
    }
  }

  /** The detail line is empty exactly when journal, booktitle, volume,
      pages and year are all absent or empty. */
  lemma DetailsEmptyIff(e: Entry)
    ensures Details(e) == "" <==>
      !Truthy(Prop(e, "journal")) && !Truthy(Prop(e, "booktitle")) && !Truthy(Prop(e, "volume")) &&
      !Truthy(Prop(e, "pages")) && !Truthy(Prop(e, "year"))
  {
    PresentPartsNonEmpty(e, DetailSlots);
    PresentPartsEmptyIff(e, DetailSlots);
    JoinEmptyIff(PresentParts(e, DetailSlots), ", ");
    assert DetailSlots[0].name == "journal" && DetailSlots[1].name == "booktitle";
    assert DetailSlots[2].name == "volume" && DetailSlots[3].name == "pages" && DetailSlots[4].name == "year";
  }

  lemma JoinFive(a: string, b: string, c: string, d: string, x: string, sep: string)
    ensures JoinWith([a, b, c, d, x], sep) == a + sep + b + sep + c + sep + d + sep + x
  {
    var parts := [a, b, c, d, x];
    assert JoinWith(parts[3..], sep) == d + sep + x by { assert parts[3..][1..] == [x]; }
    assert JoinWith(parts[2..], sep) == c + sep + JoinWith(parts[3..], sep) by { assert parts[2..][1..] == parts[3..]; }
    assert JoinWith(parts[1..], sep) == b + sep + JoinWith(parts[2..], sep) by { assert parts[1..][1..] == parts[2..]; }
  }

  /** With all five fields present, the line shows them in the order
      journal, booktitle, volume, pages, year. */
  lemma DetailsAllPresent(e: Entry, j: string, b: string, v: string, p: string, y: string)
    requires Prop(e, "journal") == Some(j) && Prop(e, "booktitle") == Some(b) && Prop(e, "volume") == Some(v)
    requires Prop(e, "pages") == Some(p) && Prop(e, "year") == Some(y)
    requires j != "" && b != "" && v != "" && p != "" && y != ""
    ensures Details(e) ==
      ("<em>" + j + "</em>") + ", " + ("<em>" + b + "</em>") + ", " + ("Vol. " + v) + ", " + ("pp. " + p) + ", " + y
  {
    DetailPartsUnrolled(e);
    assert "Vol. " + v + "" == "Vol. " + v && "pp. " + p + "" == "pp. " + p && "" + y + "" == y;
    assert PresentParts(e, DetailSlots) == ["<em>" + j + "</em>", "<em>" + b + "</em>", "Vol. " + v, "pp. " + p, y];
    JoinFive("<em>" + j + "</em>", "<em>" + b + "</em>", "Vol. " + v, "pp. " + p, y, ", ");
  }

  // ---------------------------------------------------------------------
  // Titles
  // ---------------------------------------------------------------------

  /** Removing braces works character by character, so it keeps the order
      of what it keeps. */
  lemma {:induction false} StripBracesAppend(a: string, b: string)
    ensures StripBraces(a + b) == StripBraces(a) + StripBraces(b)
    decreases |a|
  {
    if a != [] {
      assert (a + b)[0] == a[0];
      assert (a + b)[1..] == a[1..] + b;
      StripBracesAppend(a[1..], b);
    } else {
      assert a + b == b;
    }
  }

  /** A title without braces is shown as it is. */
  lemma {:induction false} StripBracesKeepsPlain(t: string)
    requires '{' !in t && '}' !in t
    ensures StripBraces(t) == t
    decreases |t|
  {
    if t != [] {
      StripBracesKeepsPlain(t[1..]);
      assert t == [t[0]] + t[1..];
    }
  }

  /** Only braces are removed: every other character occurs in the title
      as often as in the field. */
  lemma {:induction false} StripBracesKeepsOthers(t: string, c: char)
    requires c != '{' && c != '}'
    ensures multiset(StripBraces(t))[c] == multiset(t)[c]
    decreases |t|
  {
    if t != [] {
      StripBracesKeepsOthers(t[1..], c);
      assert t == [t[0]] + t[1..];
    }
  }

  // ---------------------------------------------------------------------
  // The two lists and the counters
  // ---------------------------------------------------------------------

  /** A list holds exactly the entries of its type. */
  lemma {:induction false} BucketMembers(entries: seq<Entry>, kind: string, e: Entry)
    ensures e in Bucket(entries, kind) <==> e in entries && e.kind == kind
    decreases |entries|
  {
    if entries != [] {
      BucketMembers(entries[1..], kind, e);
      assert entries == [entries[0]] + entries[1..];
    }
  }

  /** Filtering keeps the input order. */
  lemma {:induction false} BucketAppend(a: seq<Entry>, b: seq<Entry>, kind: string)
    ensures Bucket(a + b, kind) == Bucket(a, kind) + Bucket(b, kind)
    decreases |a|
  {
    if a != [] {
      assert (a + b)[0] == a[0];
      assert (a + b)[1..] == a[1..] + b;
      BucketAppend(a[1..], b, kind);
    } else {
      assert a + b == b;
    }
  }

  ghost predicate Listed(e: Entry) {
    e.kind == "article" || e.kind == "inproceedings"
  }

  lemma {:induction false} BucketCounts(entries: seq<Entry>)
    ensures |Bucket(entries, "article")| + |Bucket(entries, "inproceedings")| <= |entries|
    ensures |Bucket(entries, "article")| + |Bucket(entries, "inproceedings")| == |entries| <==>
      forall k :: 0 <= k < |entries| ==> Listed(entries[k])
    decreases |entries|
  {
    if entries != [] {
      BucketCounts(entries[1..]);
      assert forall k :: 0 < k < |entries| ==> entries[k] == entries[1..][k - 1];
    }
  }

  /** The journal and conference counters never exceed the total, and
      they add up to it exactly when every entry is an article or an
      inproceedings. */
  lemma RenderCounts(entries: seq<Entry>)
    ensures var r := RenderPublications(entries);
      && r.total == |entries|
      && r.totalJournal == |r.journals| && r.totalConference == |r.conferences|
      && r.totalJournal + r.totalConference <= r.total
      && (r.totalJournal + r.totalConference == r.total <==> forall k :: 0 <= k < |entries| ==> Listed(entries[k]))
  {
    BucketCounts(entries);
  }

  /** An entry of another type is counted in the total and shown in
      neither list. */
  lemma OtherTypesUnlisted(entries: seq<Entry>, e: Entry)
    requires e in entries && !Listed(e)
    ensures e !in Bucket(entries, "article") && e !in Bucket(entries, "inproceedings")
  {
    BucketMembers(entries, "article", e);
    BucketMembers(entries, "inproceedings", e);
  }
}
