/*
 * What `parseBibtex` promises of every input: it never fails, it yields
 * at most one entry per `@` of the text, every entry and field has the
 * shape the two patterns and the normalisation give it, and a field
 * that is assigned twice keeps its last value.
 */
module BibtexProperties {
  import opened JsStrings
  import opened Bibtex

  /** Every property name is a lower-cased `\w+` token (never the
      prototype name) and every value is normalised and holds no `}`. */
  ghost predicate FieldsShaped(fields: map<string, string>) {
    forall n :: n in fields ==>
      IsLowerWord(n) && n != ProtoName && IsNormalized(fields[n]) && '}' !in fields[n]
  }

  /** The shape of a parsed entry: its `type` is the lower-cased entry
      token and its `key` the trimmed, comma-free key, unless a body
      field of that name has replaced them. */
  ghost predicate WellShaped(e: Entry) {
    && FieldsShaped(e.fields)
    && (if "type" in e.fields then e.kind == e.fields["type"] else IsLowerWord(e.kind))
    && (if "key" in e.fields then e.key == e.fields["key"] else IsTrimmed(e.key) && ',' !in e.key)
  }

  ghost predicate RawFieldShaped(f: FieldMatch) {
    |f.rawName| > 0 && (forall k :: 0 <= k < |f.rawName| ==> IsWord(f.rawName[k])) && '}' !in f.rawValue
  }

  lemma StoreShaped(fields: map<string, string>, f: FieldMatch)
    requires FieldsShaped(fields) && RawFieldShaped(f)
    ensures FieldsShaped(Store(fields, f))
  {
    LowerWordToken(f.rawName);
  }

  lemma {:induction false} CollectShaped(fields: map<string, string>, ms: seq<FieldMatch>)
    requires FieldsShaped(fields)
    requires forall i :: 0 <= i < |ms| ==> RawFieldShaped(ms[i])
    ensures FieldsShaped(Collect(fields, ms))
    decreases |ms|
  {
    if ms != [] {
      StoreShaped(fields, ms[0]);
      CollectShaped(Store(fields, ms[0]), ms[1..]);
    }
  }

  lemma {:induction false} FieldMatchesShaped(body: string, from: nat)
    requires from <= |body|
    ensures forall i :: 0 <= i < |FieldMatches(body, from)| ==> RawFieldShaped(FieldMatches(body, from)[i])
    decreases |body| - from
  {
    match NextField(body, from)
    case None =>
    case Some(f) =>
      FieldMatchesShaped(body, f.end);
  }

  lemma TrimmedKeyHasNoComma(raw: string)
    requires ',' !in raw
    ensures ',' !in Trim(raw)
  {
    var r := Trim(raw);
    var i := SpaceEnd(raw, 0);
    assert forall k :: 0 <= k < |r| ==> r[k] == raw[i + k];
  }

  lemma MakeEntryShaped(m: EntryMatch)
    requires |m.token| > 0 && forall k :: 0 <= k < |m.token| ==> IsWord(m.token[k])
    requires ',' !in m.rawKey
    ensures WellShaped(MakeEntry(m))
  {
    FieldMatchesShaped(m.body, 0);
    CollectShaped(map[], FieldMatches(m.body, 0));
    LowerWordToken(m.token);
    TrimmedKeyHasNoComma(m.rawKey);
  }

  lemma {:induction false} ParseFromShaped(s: string, from: nat)
    requires from <= |s|
    ensures forall e :: e in ParseFrom(s, from) ==> WellShaped(e)
    decreases |s| - from
  {
    match NextEntry(s, from)
    case None =>
    case Some(m) =>
      MakeEntryShaped(m);
      ParseFromShaped(s, m.end);
  }

  /** Every entry `parseBibtex` returns is well shaped. */
  lemma ParsedEntriesAreShaped(s: string)
    ensures forall e :: e in Parse(s) ==> WellShaped(e)
  {
    ParseFromShaped(s, 0);
  }

  lemma {:induction false} ParseFromBound(s: string, from: nat)
    requires from <= |s|
    ensures |ParseFrom(s, from)| <= multiset(s[from..])['@']
    decreases |s| - from
  {
    match NextEntry(s, from)
    case None =>
    case Some(m) =>
      ParseFromBound(s, m.end);
      AtSignConsumed(s, from, m.start, m.end);
  }

  lemma AtSignConsumed(s: string, from: nat, at: nat, end: nat)
    requires from <= at < end <= |s| && s[at] == '@'
    ensures multiset(s[from..])['@'] >= 1 + multiset(s[end..])['@']
  {
    assert s[from..] == s[from..end] + s[end..];
    assert s[from..end][at - from] == '@';
  }

  /** Each entry consumes its own `@`, so there are never more entries
      than `@` characters in the text. */
  lemma ParseBound(s: string)
    ensures |Parse(s)| <= multiset(s)['@']
  {
    ParseFromBound(s, 0);
    assert s[0..] == s;
  }

  /** Text without an `@` yields no entry. */
  lemma NoAtNoEntries(s: string)
    requires '@' !in s
    ensures Parse(s) == []
  {
    ParseBound(s);
  }

  /** One assignment sets the property it names. */
  lemma StoreAssigns(fields: map<string, string>, f: FieldMatch, name: string)
    requires Stores(f, name)
    ensures name in Store(fields, f) && Store(fields, f)[name] == Normalize(f.rawValue)
  {
  }

  /** One assignment leaves every other property as it was. */
  lemma StoreSkips(fields: map<string, string>, f: FieldMatch, name: string)
    requires !Stores(f, name)
    ensures name in Store(fields, f) <==> name in fields
    ensures name in fields ==> Store(fields, f)[name] == fields[name]
  {
  }

  lemma CollectStep(fields: map<string, string>, ms: seq<FieldMatch>)
    requires ms != []
    ensures Collect(fields, ms) == Collect(Store(fields, ms[0]), ms[1..])
  {
  }

  /** A property no match assigns keeps whatever it was before. */
  lemma {:induction false} UnassignedUnchanged(fields: map<string, string>, ms: seq<FieldMatch>, name: string)
    requires forall i :: 0 <= i < |ms| ==> !Stores(ms[i], name)
    ensures name in Collect(fields, ms) <==> name in fields
    ensures name in fields ==> Collect(fields, ms)[name] == fields[name]
    decreases |ms|
  {
    if ms != [] {
      CollectStep(fields, ms);
      StoreSkips(fields, ms[0], name);
      UnassignedUnchanged(Store(fields, ms[0]), ms[1..], name);
    }
  }

  /** Duplicate fields: the value a property ends up with is the one the
      last match that assigns it gives. */
  lemma {:induction false} LastAssignmentWins(fields: map<string, string>, ms: seq<FieldMatch>, i: nat, name: string)
    requires i < |ms| && Stores(ms[i], name)
    requires forall j :: i < j < |ms| ==> !Stores(ms[j], name)
    ensures name in Collect(fields, ms) && Collect(fields, ms)[name] == Normalize(ms[i].rawValue)
    decreases |ms|
  {
    var rest := ms[1..];
    CollectStep(fields, ms);
    forall j | i <= j < |rest| ensures !Stores(rest[j], name) {
      assert rest[j] == ms[j + 1];
    }
    if i == 0 {
      StoreAssigns(fields, ms[0], name);
      UnassignedUnchanged(Store(fields, ms[0]), rest, name);
    } else {
      assert rest[i - 1] == ms[i];
      LastAssignmentWins(Store(fields, ms[0]), rest, i - 1, name);
    }
  }

  /** A property exists after the loop exactly when it existed before or
      some match assigns it. */
  lemma {:induction false} AssignedNames(fields: map<string, string>, ms: seq<FieldMatch>, name: string)
    ensures name in Collect(fields, ms) <==> name in fields || exists i :: 0 <= i < |ms| && Stores(ms[i], name)
    decreases |ms|
  {
    if ms != [] {
      AssignedNames(Store(fields, ms[0]), ms[1..], name);
      assert forall i :: 0 < i < |ms| ==> ms[i] == ms[1..][i - 1];
    }
  }
}
