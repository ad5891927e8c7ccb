/** The card renderer: one titled, coloured card with fields per prioritized entry, at most ten
    cards, with a count notice when there are more. */
module DiscordWebhook {
  import opened Wrappers
  import opened Strings
  import opened DiffModel
  import opened Labels
  import opened DiffUtils

  /** A card field; `inline` is either absent or `true`. */
  datatype EmbedField = EmbedField(name: string, value: string, inline: Option<bool>)

  /** A card. The renderer never sets a description, and always sets a colour and fields. */
  datatype Embed = Embed(title: string, color: int, fields: seq<EmbedField>)

  datatype DiscordMessage = DiscordMessage(content: Option<string>, embeds: Option<seq<Embed>>)

  /** The colour of each entry type. */
  function TypeColor(t: DiffType): (r: int)
    ensures t == Added ==> r == 0x2ecc71
    ensures t == Modified ==> r == 0xf1c40f
    ensures t == Removed ==> r == 0xe74c3c
  {
    match t
    case Added => 0x2ecc71
    case Modified => 0xf1c40f
    case Removed => 0xe74c3c
  }

  /** The three entry types have three different colours. */
  lemma TypeColorsDistinct(t1: DiffType, t2: DiffType)
    ensures TypeColor(t1) == TypeColor(t2) <==> t1 == t2
  {
  }

  /** The fields laid out side by side on a card of an added or removed entry. */
  const InlineFieldKeys: set<string> := {"code", "credits", "year", "affiliation"}

  /** The field of one change: its label and `from → to`, both sides formatted. */
  function ChangeField(labels: Registry, key: string, change: Change): EmbedField
  {
    EmbedField(labels.fieldLabel(key),
               labels.formatValue(key, change.from) + " → " + labels.formatValue(key, change.to),
               None)
  }

  /** The field of one record value, inline for the inline keys. */
  function RecordField(labels: Registry, key: string, value: Json): EmbedField
  {
    EmbedField(labels.fieldLabel(key), labels.formatValue(key, value),
               if key in InlineFieldKeys then Some(true) else None)
  }

  /** The fields of a modified entry: one per known key with a defined change, in key order. */
  function ModifiedFields(labels: Registry, diff: DiffMap): (r: seq<EmbedField>)
    ensures var cs := KnownChanges(labels.isDiffSubjectKey, diff);
      |r| == |cs| && forall i :: 0 <= i < |r| ==> r[i] == ChangeField(labels, cs[i].0, cs[i].1)
  {
    if diff == [] then []
    else
      var init := diff[..|diff| - 1];
      var last := diff[|diff| - 1];
      assert diff == init + [last];
      KnownChangesSnoc(labels.isDiffSubjectKey, init, last);
      ModifiedFields(labels, init)
        + (if labels.isDiffSubjectKey(last.0) && last.1.Some? then [ChangeField(labels, last.0, last.1.value)] else [])
  }

  /** The fields of an added or removed entry: one per known record key, in key order. */
  function AllFields(labels: Registry, subject: Record): (r: seq<EmbedField>)
    ensures var ks := KnownPairs(labels.isDiffSubjectKey, subject);
      |r| == |ks| && forall i :: 0 <= i < |r| ==> r[i] == RecordField(labels, ks[i].0, ks[i].1)
  {
    if subject == [] then []
    else
      var init := subject[..|subject| - 1];
      var last := subject[|subject| - 1];
      AllFields(labels, init) + (if labels.isDiffSubjectKey(last.0) then [RecordField(labels, last.0, last.1)] else [])
  }

  /** `buildModifiedFields`: walks the known keys and pushes a field for each defined change. */
  method BuildModifiedFields(labels: Registry, diff: DiffMap) returns (fields: seq<EmbedField>)
    ensures var cs := KnownChanges(labels.isDiffSubjectKey, diff);
      && |fields| == |cs|
      && (forall i :: 0 <= i < |fields| ==> fields[i].name == labels.fieldLabel(cs[i].0))
      && (forall i :: 0 <= i < |fields| ==>
            fields[i].value == labels.formatValue(cs[i].0, cs[i].1.from) + " → " + labels.formatValue(cs[i].0, cs[i].1.to))
      && (forall i :: 0 <= i < |fields| ==> fields[i].inline == None)
    ensures fields == ModifiedFields(labels, diff)
  {
    fields := CollectModifiedFields(labels, KnownPairs(labels.isDiffSubjectKey, diff));
    var expected := ModifiedFields(labels, diff);
    assert |fields| == |expected|;
    assert forall i :: 0 <= i < |fields| ==> fields[i] == expected[i];
  }

  /** The loop of `buildModifiedFields` over the known keys: a field for each defined change. */
  method CollectModifiedFields(labels: Registry, diffKeys: DiffMap) returns (fields: seq<EmbedField>)
    ensures var cs := DefinedChanges(diffKeys);
      |fields| == |cs| && forall j :: 0 <= j < |fields| ==> fields[j] == ChangeField(labels, cs[j].0, cs[j].1)
  {
    fields := [];
    for i := 0 to |diffKeys|
      invariant var cs := DefinedChanges(diffKeys[..i]);
        |fields| == |cs| && forall j :: 0 <= j < |fields| ==> fields[j] == ChangeField(labels, cs[j].0, cs[j].1)
    {
      assert diffKeys[..i + 1][..i] == diffKeys[..i];
      var (key, value) := diffKeys[i];
      if value.None? {
        continue;
      }
      fields := fields + [ChangeField(labels, key, value.value)];
    }
    assert diffKeys[..|diffKeys|] == diffKeys;
  }

  /** `buildAllFields`: walks the known record keys and pushes a field for each. */
  method BuildAllFields(labels: Registry, subject: Record) returns (fields: seq<EmbedField>)
    ensures var ks := KnownPairs(labels.isDiffSubjectKey, subject);
      && |fields| == |ks|
      && (forall i :: 0 <= i < |fields| ==>
            fields[i].name == labels.fieldLabel(ks[i].0) && fields[i].value == labels.formatValue(ks[i].0, ks[i].1))
      && (forall i :: 0 <= i < |fields| ==> (fields[i].inline == Some(true) <==> ks[i].0 in InlineFieldKeys))
      && (forall i :: 0 <= i < |fields| ==> (fields[i].inline == None <==> ks[i].0 !in InlineFieldKeys))
    ensures fields == AllFields(labels, subject)
  {
    fields := [];
    var subjectKeys := KnownPairs(labels.isDiffSubjectKey, subject);
    for i := 0 to |subjectKeys|
      invariant |fields| == i
      invariant forall j :: 0 <= j < i ==> fields[j] == RecordField(labels, subjectKeys[j].0, subjectKeys[j].1)
    {
      var (key, value) := subjectKeys[i];
      fields := fields + [RecordField(labels, key, value)];
    }
  }

  /** `diffEntryToEmbed`: the card of one entry. */
  function DiffEntryToEmbed(labels: Registry, entry: DiffEntry): (r: Embed)
    requires HasTitleFields(entry.value)
    ensures r.title == EntryTitle(labels.typeLabel(entry.Type()), entry.value)
    ensures r.color == TypeColor(entry.Type())
    ensures entry.ModifiedEntry? ==> |r.fields| == |KnownChanges(labels.isDiffSubjectKey, entry.diff)|
    ensures !entry.ModifiedEntry? ==> |r.fields| == |KnownPairs(labels.isDiffSubjectKey, entry.value)|
    ensures r.fields == if entry.ModifiedEntry? then ModifiedFields(labels, entry.diff) else AllFields(labels, entry.value)
  {
    var subject := entry.value;
    var fields := if entry.ModifiedEntry? then ModifiedFields(labels, entry.diff) else AllFields(labels, subject);
    Embed(EntryTitle(labels.typeLabel(entry.Type()), subject), TypeColor(entry.Type()), fields)
  }

  /** A diff map that changes only the instructor gives exactly one `from → to` field. */
  lemma InstructorOnlyChange(labels: Registry, value: Record, change: Change)
    requires labels.isDiffSubjectKey("instructor")
    requires HasTitleFields(value)
    ensures DiffEntryToEmbed(labels, ModifiedEntry(value, [("instructor", Some(change))])).fields
      == [EmbedField(labels.fieldLabel("instructor"),
                     labels.formatValue("instructor", change.from) + " → " + labels.formatValue("instructor", change.to),
                     None)]
  {
    var diff: DiffMap := [("instructor", Some(change))];
    assert diff[..0] == [];
    assert KnownPairs(labels.isDiffSubjectKey, diff) == [("instructor", Some(change))];
    assert KnownChanges(labels.isDiffSubjectKey, diff) == [("instructor", change)] by {
      var ks := KnownPairs(labels.isDiffSubjectKey, diff);
      assert ks[..0] == [];
    }
  }

  /** A rendered key whose change is null still counts for the priority, although the card
      shows no field for it: an update-date key with a null change ranks 1 and gives no field. */
  lemma NullChangeStillRanks(labels: Registry, value: Record)
    requires labels.isDiffSubjectKey("kdbDataUpdateDate")
    requires HasTitleFields(value)
    ensures EntryPriority(labels.isDiffSubjectKey, ModifiedEntry(value, [("kdbDataUpdateDate", None)])) == 1
    ensures DiffEntryToEmbed(labels, ModifiedEntry(value, [("kdbDataUpdateDate", None)])).fields == []
  {
    var diff: DiffMap := [("kdbDataUpdateDate", None)];
    assert diff[..0] == [];
    var ks := KnownPairs(labels.isDiffSubjectKey, diff);
    assert ks == diff;
    assert ks[..0] == [];
    assert ChangedKeys(labels.isDiffSubjectKey, ModifiedEntry(value, diff)) == ["kdbDataUpdateDate"];
    KeyRankValues("kdbDataUpdateDate");
    assert DefinedChanges(ks) == [];
  }

  /** Record keys the registry does not know, wherever they stand, do not change the fields. */
  lemma AllFieldsIgnoreUnknownKeys(labels: Registry, a: Record, p: (string, Json), b: Record)
    requires !labels.isDiffSubjectKey(p.0)
    ensures AllFields(labels, a + [p] + b) == AllFields(labels, a + b)
  {
    UnknownPairIgnored(labels.isDiffSubjectKey, a, p, b);
  }

  /** Diff keys the registry does not know, wherever they stand, do not change the fields. */
  lemma ModifiedFieldsIgnoreUnknownKeys(labels: Registry, a: DiffMap, p: (string, Option<Change>), b: DiffMap)
    requires !labels.isDiffSubjectKey(p.0)
    ensures ModifiedFields(labels, a + [p] + b) == ModifiedFields(labels, a + b)
  {
    UnknownPairIgnored(labels.isDiffSubjectKey, a, p, b);
  }

  const NoDiffText := "差分はありませんでした。"

  /** The largest number of cards one message carries. */
  const MaxEmbeds: nat := 10

  /** The notice sent with the first ten cards when there are more: it gives the total count and
      the address of the full diff, verbatim. */
  function OverflowText(count: nat, diffJsonUrl: string): (r: string)
    ensures ContainsAt(r, NatToString(count), 5)
    ensures ContainsAt(r, diffJsonUrl, 13 + |NatToString(count)|)
  {
    var head := "差分件数が";
    var middle := "件です。続きは ";
    var r := head + NatToString(count) + middle + diffJsonUrl + " をご覧ください。";
    assert |head| == 5 && |middle| == 8;
    assert r[5..5 + |NatToString(count)|] == NatToString(count);
    r
  }

  /** The cards of a list of entries, in order. */
  function Embeds(labels: Registry, entries: seq<DiffEntry>): (r: seq<Embed>)
    requires WellTyped(entries)
    ensures |r| == |entries| && forall i :: 0 <= i < |r| ==> r[i] == DiffEntryToEmbed(labels, entries[i])
  {
    seq(|entries|, i requires 0 <= i < |entries| => DiffEntryToEmbed(labels, entries[i]))
  }

  /** The prioritized entries of a diff document. */
  function Prioritized(labels: Registry, diff: DiffJson): (r: seq<DiffEntry>)
    ensures |r| == |diff|
    ensures WellTyped(Values(diff)) ==> WellTyped(r)
  {
    PrioritizeDiffEntries(labels.isDiffSubjectKey, Values(diff))
  }

  /** `diffToDiscordMessage`: the fixed notice for an empty diff; otherwise the cards of the
      prioritized entries, cut to the first ten with a count notice when there are more. */
  function DiffToDiscordMessage(labels: Registry, diffJsonUrl: string, diff: DiffJson): (r: DiscordMessage)
    requires WellTyped(Values(diff))
    ensures |diff| == 0 <==> r == DiscordMessage(Some(NoDiffText), None)
    ensures |diff| > 0 ==> r.embeds.Some?
    ensures |diff| > 0 ==> |r.embeds.value| == (if |diff| <= MaxEmbeds then |diff| else MaxEmbeds)
    ensures |diff| > 0 ==> forall i :: 0 <= i < |r.embeds.value| ==>
      r.embeds.value[i] == DiffEntryToEmbed(labels, Prioritized(labels, diff)[i])
    ensures 0 < |diff| <= MaxEmbeds ==> r.content == None
    ensures |diff| > MaxEmbeds ==> r.content == Some(OverflowText(|diff|, diffJsonUrl))
  {
    var entries := Prioritized(labels, diff);
    if |entries| == 0 then DiscordMessage(Some(NoDiffText), None)
    else
      var embeds := Embeds(labels, entries);
      if |embeds| > MaxEmbeds then DiscordMessage(Some(OverflowText(|embeds|, diffJsonUrl)), Some(embeds[..MaxEmbeds]))
      else DiscordMessage(None, Some(embeds))
  }
}
