/** The diff document the renderers consume: decoded JSON values, records as key/value pairs in
    `Object.keys` order, and the three kinds of diff entry. */
module DiffModel {
  import opened Wrappers
  import opened Types

  /** A decoded JSON value. Objects hold their members in `Object.keys` order. */
  datatype Json =
    | JNull
    | JBool(b: bool)
    | JNumber(n: real)
    | JString(s: string)
    | JArray(items: seq<Json>)
    | JObject(members: seq<(string, Json)>)

  /** A subject record as the renderers see it: its keys in `Object.keys` order with their values.
      Keys of a decoded JSON object are unique, so walking the pairs is walking the keys and
      looking each one up. */
  type Record = seq<(string, Json)>

  /** One changed field of a modified entry. */
  datatype Change = Change(from: Json, to: Json)

  /** The sparse map of changed fields. A key may be present with an `undefined` or `null` value,
      which the renderers skip; that is the `None` case. */
  type DiffMap = seq<(string, Option<Change>)>

  datatype DiffType = Added | Modified | Removed

  /** An entry carries the subject record, and a modified entry also the map of changed fields. */
  datatype DiffEntry =
    | AddedEntry(value: Record)
    | RemovedEntry(value: Record)
    | ModifiedEntry(value: Record, diff: DiffMap)
  {
    function Type(): DiffType
    {
      match this
      case AddedEntry(_) => Added
      case RemovedEntry(_) => Removed
      case ModifiedEntry(_, _) => Modified
    }
  }

  /** The diff document: catalog key to entry, in `Object.keys` order. */
  type DiffJson = seq<(string, DiffEntry)>

  /** `Object.values(diff)`. */
  function Values(diff: DiffJson): (r: seq<DiffEntry>)
    ensures |r| == |diff| && forall i :: 0 <= i < |r| ==> r[i] == diff[i].1
  {
    seq(|diff|, i requires 0 <= i < |diff| => diff[i].1)
  }

  /** The keys of a list of pairs, in order. */
  function Keys<V>(pairs: seq<(string, V)>): (r: seq<string>)
    ensures |r| == |pairs| && forall i :: 0 <= i < |r| ==> r[i] == pairs[i].0
  {
    if pairs == [] then [] else [pairs[0].0] + Keys(pairs[1..])
  }

  /** `Object.keys(o).filter(isKey)`, kept with each key's value: the pairs whose key passes. */
  function KnownPairs<V(!new)>(isKey: string -> bool, pairs: seq<(string, V)>): (r: seq<(string, V)>)
    ensures |r| <= |pairs|
    ensures forall p :: p in r <==> p in pairs && isKey(p.0)
  {
    if pairs == [] then []
    else
      var last := pairs[|pairs| - 1];
      KnownPairs(isKey, pairs[..|pairs| - 1]) + (if isKey(last.0) then [last] else [])
  }

  /** Filtering keeps order: it distributes over concatenation. */
  lemma {:induction false} KnownPairsAppend<V(!new)>(isKey: string -> bool, a: seq<(string, V)>, b: seq<(string, V)>)
    ensures KnownPairs(isKey, a + b) == KnownPairs(isKey, a) + KnownPairs(isKey, b)
    decreases |b|
  {
    if b == [] {
      assert a + b == a;
    } else {
      var b' := b[..|b| - 1];
      assert (a + b)[..|a + b| - 1] == a + b';
      KnownPairsAppend(isKey, a, b');
    }
  }

  /** A pair whose key is not known leaves the filtered pairs as they were, wherever it stands. */
  lemma UnknownPairIgnored<V(!new)>(isKey: string -> bool, a: seq<(string, V)>, p: (string, V), b: seq<(string, V)>)
    requires !isKey(p.0)
    ensures KnownPairs(isKey, a + [p] + b) == KnownPairs(isKey, a + b)
  {
    KnownPairsAppend(isKey, a + [p], b);
    KnownPairsAppend(isKey, a, [p]);
    KnownPairsAppend(isKey, a, b);
    assert KnownPairs(isKey, [p]) == KnownPairs(isKey, []) + [];
  }

  /** The changes of a diff map that are present: the `undefined` or `null` values are dropped. */
  function DefinedChanges(pairs: DiffMap): (r: seq<(string, Change)>)
    ensures |r| <= |pairs|
    ensures forall k, c :: (k, c) in r <==> (k, Some(c)) in pairs
  {
    if pairs == [] then []
    else
      var last := pairs[|pairs| - 1];
      var init := pairs[..|pairs| - 1];
      assert pairs == init + [last];
      DefinedChanges(init) + (if last.1.Some? then [(last.0, last.1.value)] else [])
  }

  /** The changes the renderers show: known key and a defined value, in key order. */
  function KnownChanges(isKey: string -> bool, diff: DiffMap): (r: seq<(string, Change)>)
    ensures forall k, c :: (k, c) in r <==> (k, Some(c)) in diff && isKey(k)
  {
    DefinedChanges(KnownPairs(isKey, diff))
  }

  /** Extending a diff map by one pair extends its known changes by that pair's change, if any. */
  lemma KnownChangesSnoc(isKey: string -> bool, init: DiffMap, last: (string, Option<Change>))
    ensures KnownChanges(isKey, init + [last])
      == KnownChanges(isKey, init) + (if isKey(last.0) && last.1.Some? then [(last.0, last.1.value)] else [])
  {
    var d := init + [last];
    assert d[..|d| - 1] == init;
    var ks := KnownPairs(isKey, init);
    if isKey(last.0) {
      assert KnownPairs(isKey, d) == ks + [last];
      assert (ks + [last])[..|ks + [last]| - 1] == ks;
    } else {
      assert KnownPairs(isKey, d) == ks + [];
      assert ks + [] == ks;
    }
  }

  /** `o[key]`: the value of the first pair with that key. */
  function Lookup(pairs: Record, key: string): (r: Option<Json>)
    ensures r.Some? <==> key in Keys(pairs)
    ensures r.Some? ==> (key, r.value) in pairs
  {
    if pairs == [] then None
    else if pairs[0].0 == key then Some(pairs[0].1)
    else Lookup(pairs[1..], key)
  }

  /** A value the TypeScript types allow for `name` and `code`: missing, `null` or a string. */
  predicate IsNullableString(v: Option<Json>)
  {
    v.None? || v.value.JNull? || v.value.JString?
  }

  /** The record's `name` and `code` are of the types the renderers expect. */
  predicate HasTitleFields(subject: Record)
  {
    IsNullableString(Lookup(subject, "name")) && IsNullableString(Lookup(subject, "code"))
  }

  /** Every entry's record has `name` and `code` of the expected types. */
  predicate WellTyped(entries: seq<DiffEntry>)
  {
    forall e :: e in entries ==> HasTitleFields(e.value)
  }

  const UnknownName := "科目名不明"
  const UnknownCode := "科目番号不明"

  /** `v ?? fallback` for a string value: the fallback stands in for a missing or `null` value. */
  function OrFallback(v: Option<Json>, fallback: string): (r: string)
    requires IsNullableString(v)
    ensures v.None? || v.value.JNull? ==> r == fallback
    ensures v.Some? && v.value.JString? ==> r == v.value.s
  {
    if v.Some? && v.value.JString? then v.value.s else fallback
  }

  /** The card and paragraph title of an entry: type label, subject name and subject code. */
  function EntryTitle(typeLabel: string, subject: Record): (r: string)
    requires HasTitleFields(subject)
    ensures |r| >= |typeLabel| + 5 && r[..|typeLabel| + 2] == typeLabel + ": " && r[|r| - 1] == ')'
  {
    var r := typeLabel + ": " + OrFallback(Lookup(subject, "name"), UnknownName)
      + " (" + OrFallback(Lookup(subject, "code"), UnknownCode) + ")";
    assert r[..|typeLabel| + 2] == typeLabel + ": ";
    r
  }

  /** A record without a name and a code, or with both `null`, gets both fallbacks. */
  lemma MissingTitleFields(typeLabel: string, subject: Record)
    requires Lookup(subject, "name").None? || Lookup(subject, "name") == Some(JNull)
    requires Lookup(subject, "code").None? || Lookup(subject, "code") == Some(JNull)
    ensures HasTitleFields(subject)
    ensures EntryTitle(typeLabel, subject) == typeLabel + ": 科目名不明 (科目番号不明)"
  {
    assert OrFallback(Lookup(subject, "name"), UnknownName) == UnknownName;
    assert OrFallback(Lookup(subject, "code"), UnknownCode) == UnknownCode;
  }

  // The JSON form of a typed merged subject, as the diff document carries it.

  function NullableString(o: Option<string>): Json
  {
    if o.Some? then JString(o.value) else JNull
  }

  function StringArray(xs: seq<string>): Json
  {
    JArray(seq(|xs|, i requires 0 <= i < |xs| => JString(xs[i])))
  }

  function FlagsJson(f: Flags): Json
  {
    JObject([("講義", JBool(f.lecture)), ("演習", JBool(f.seminar)), ("実習･実験･実技", JBool(f.practical)),
             ("卒業論文･卒業研究等", JBool(f.thesis)), ("その他", JBool(f.other))])
  }

  function InstructionalTypeJson(f: InstructionalTypeField): Json
  {
    var value := if f.value.Some? then JObject([("text", JString(f.value.value.text)), ("flags", FlagsJson(f.value.value.flags))]) else JNull;
    JObject([("value", value), ("kdbRaw", NullableString(f.kdbRaw))])
  }

  function CreditsJson(f: CreditsField): Json
  {
    var value :=
      match f.value
      case None => JNull
      case Some(NormalCredits(amount)) => JObject([("type", JString("normal")), ("value", JNumber(amount))])
      case Some(NoCredits) => JObject([("type", JString("none"))])
      case Some(UnknownCredits) => JObject([("type", JString("unknown"))]);
    JObject([("value", value), ("kdbRaw", NullableString(f.kdbRaw))])
  }

  function YearJson(f: YearField): Json
  {
    var value :=
      match f.value
      case NormalYear(years) =>
        JObject([("type", JString("normal")), ("value", JArray(seq(|years|, i requires 0 <= i < |years| => JNumber(years[i] as real))))])
      case UnknownYear => JObject([("type", JString("unknown"))]);
    JObject([("value", value), ("kdbRaw", NullableString(f.kdbRaw)), ("twinsRaw", NullableString(f.twinsRaw))])
  }

  function SlotJson(t: TimeTable): Json
  {
    JObject([("day", JString(t.day)), ("period", if t.period.Some? then JNumber(t.period.value as real) else JNull)])
  }

  function TimeTableJson(t: ModuleTimeTable): Json
  {
    JObject(seq(|ModuleKeys|, i requires 0 <= i < |ModuleKeys| =>
      var slots := t[ModuleKeys[i]];
      (ModuleKeys[i].Name(), JArray(seq(|slots|, j requires 0 <= j < |slots| => SlotJson(slots[j]))))))
  }

  function TermsJson(f: TermsField): Json
  {
    JObject([
      ("term", if f.term.Some? then JObject([("text", JString(f.term.value.text)), ("code", JString(f.term.value.code))]) else JNull),
      ("module", NullableString(f.moduleText)),
      ("weekdayAndPeriod", NullableString(f.weekdayAndPeriod)),
      ("moduleTimeTable", if f.moduleTimeTable.Some? then TimeTableJson(f.moduleTimeTable.value) else JNull),
      ("twinsRaw", if f.twinsRaw.Some? then JObject([("term", JString(f.twinsRaw.value.term)), ("module", JString(f.twinsRaw.value.moduleText))]) else JNull)])
  }

  function InstructorJson(f: InstructorField): Json
  {
    JObject([("value", StringArray(f.value)), ("kdbRaw", NullableString(f.kdbRaw)), ("twinsRaw", NullableString(f.twinsRaw))])
  }

  function AffiliationJson(f: AffiliationField): Json
  {
    JObject([
      ("name", NullableString(f.name)),
      ("code", NullableString(f.code)),
      ("twinsRaw", if f.twinsRaw.Some? then JObject([("name", JString(f.twinsRaw.value.name)), ("code", JString(f.twinsRaw.value.code))]) else JNull)])
  }

  function RequisiteJson(r: Requisite): Json
  {
    JObject([("id", JString(r.id)), ("name", JString(r.name)), ("hasLower", JBool(r.hasLower))])
  }

  /** The record of a typed merged subject, keys in declaration order. */
  function SubjectRecord(s: MergedSubject): Record
  {
    [ ("code", JString(s.code)),
      ("name", JString(s.name)),
      ("syllabusLatestLink", NullableString(s.syllabusLatestLink)),
      ("instructionalType", InstructionalTypeJson(s.instructionalType)),
      ("credits", CreditsJson(s.credits)),
      ("year", YearJson(s.year)),
      ("terms", TermsJson(s.terms)),
      ("classroom", JNull),
      ("instructor", InstructorJson(s.instructor)),
      ("overview", NullableString(s.overview)),
      ("remarks", NullableString(s.remarks)),
      ("auditor", NullableString(s.auditor)),
      ("conditionsForAuditors", NullableString(s.conditionsForAuditors)),
      ("affiliation", AffiliationJson(s.affiliation)),
      ("requisite", JArray(seq(|s.requisite|, i requires 0 <= i < |s.requisite| => RequisiteJson(s.requisite[i])))) ]
  }

  /** A typed subject's record has exactly the merged-subject keys, each once. */
  lemma SubjectRecordKeys(s: MergedSubject)
    ensures Keys(SubjectRecord(s)) == MergedSubjectKeys
  {
    var r := SubjectRecord(s);
    var k := Keys(r);
    assert |k| == |MergedSubjectKeys|;
    forall i | 0 <= i < |k| ensures k[i] == MergedSubjectKeys[i] {
      assert k[i] == r[i].0;
    }
  }

  /** A typed subject's `name` and `code` are its strings, so the title never falls back to a
      placeholder. */
  lemma SubjectRecordTitle(s: MergedSubject, typeLabel: string)
    ensures Lookup(SubjectRecord(s), "name") == Some(JString(s.name))
    ensures Lookup(SubjectRecord(s), "code") == Some(JString(s.code))
    ensures HasTitleFields(SubjectRecord(s))
    ensures EntryTitle(typeLabel, SubjectRecord(s)) == typeLabel + ": " + s.name + " (" + s.code + ")"
  {
    var r := SubjectRecord(s);
    assert r[0] == ("code", JString(s.code));
    assert r[1] == ("name", JString(s.name));
    assert Lookup(r, "code") == Some(JString(s.code));
    assert Lookup(r[1..], "name") == Some(JString(s.name));
  }
}
