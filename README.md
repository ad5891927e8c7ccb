# twins-kdb-fetch-notify, modelled in Dafny

twins-kdb-fetch-notify watches the University of Tsukuba course catalogue (KdB) and posts
its changes to chat. It gets a diff document that maps an id to an entry. An entry is a
subject that was added, removed or modified; a modified entry also carries a map from field
to `{from, to}`. Two renderers turn the document into chat messages:

- The Discord renderer makes one coloured card per entry. An added or removed entry's card has
  one field per rendered key of the subject; a modified entry's card has one field per rendered
  key of the diff with a defined change.
  It shows at most ten cards and adds a count notice when there are more.
- The Teams renderer makes one HTML paragraph. Every label and value in it is HTML-escaped.

Both renderers first sort the entries by priority, lowest first. The priority of a modified
entry looks at the keys of its diff that the registry renders, whether or not their value is
null; the renderers, in contrast, skip a null value. Added and removed entries rank 0, and so
does a modified entry with no such key or with any such key other than the update date and the
instructor. A modified entry whose such keys are only the update date, or the update date and
the instructor, ranks 1; one whose only such key is the instructor ranks 2. So these entries
come last, update-date changes before instructor changes, and entries of equal rank keep their
input order. The catalogue's shared types hold the
instructional-type table, the terms, days, periods and modules of a timetable, and the
merged-subject record.

The model has these modules:

- `Types` covers those shared types.
- `DiffModel` covers the diff document as JSON values, plus the key filters and the entry
  title both renderers use.
- `Labels` is the field-label registry: which keys are shown, their labels, the value
  formatter and the type labels. It is a parameter, so every property holds for any registry.
- `DiffUtils` covers the priority and the stable sort.
- `DiscordWebhook` and `TeamsWebhook` are the two renderers.
- `ChannelAgreement` proves that both renderers show the same entries and fields, and add a
  notice in the same cases.
- `Strings` and `Wrappers` are helpers.

The Discord field builders loop and push into an array in the source, so they are methods
with loop invariants here. Each is proved equal to the function that `DiffEntryToEmbed` uses.
Everything else in the source is expressions, and is modelled as functions and lemmas.

## Model

| member | source | states |
|---|---|---|
| Types.GetInstructionalType | src/types.ts:25-30 | succeeds exactly for the codes "0" to "8" and returns that code's table entry; any other code fails with `Unknown instructional type code: <code>` |
| Types.InstructionalTypeCodesAreTheKeys | src/types.ts:7-23 | the table's own keys are exactly the codes "0" to "8", so the own-key guard `IsInstructionalTypeCode` accepts exactly those; the `in` guard as written also accepts inherited names (see Findings) |
| Types.IsInstructionalTypeCode | src/types.ts:20-22 | no contract; the intended guard, membership among the table's own keys, stated by `InstructionalTypeCodesAreTheKeys` |
| Types.PassesInGuard | src/types.ts:21 | no contract; the guard as written, own keys or an inherited `Object.prototype` name, used by `GetInstructionalTypeAsWritten` |
| Types.GetInstructionalTypeAsWritten | src/types.ts:20-29 | the lookup as written succeeds exactly for the nine codes and the inherited `Object.prototype` names; a code gives its table entry; a failure carries `Unknown instructional type code: <code>` |
| Types.InheritedNamePassesGuard | src/types.ts:20-29 | "toString" is not a code, yet the lookup as written returns the inherited member, while the intended lookup fails with the unknown-code error |
| Types.AsWrittenAgreesOffPrototype | src/types.ts:20-29 | for every code that is not an inherited name, the lookup as written and the intended lookup give the same entry or the same error |
| Types.InstructionalTypeCodesDistinct | src/types.ts:7-17 | the nine codes are distinct |
| Types.ExclusiveFlags | src/types.ts:8-16 | the その他 flag holds only for "0" and the 卒業論文･卒業研究等 flag only for "8" |
| Types.CombinedFlags | src/types.ts:9-15 | "1", "2", "3" each set exactly one flag (講義, 演習, 実習･実験･実技); "4" sets exactly 講義 and 演習; "7" sets exactly 講義, 演習 and 実習･実験･実技 |
| Types.FlagsIdentifyCode | src/types.ts:8-16 | every entry sets at least one flag, and two codes with the same flags are the same code |
| Types.TermsTable | src/types.ts:34-38 | exactly two terms, 春学期 with code "A" and 秋学期 with code "B"; every term value has one of those codes |
| Types.DaysAndPeriods | src/types.ts:40-44 | eight distinct days of the week; the periods are exactly 1 to 8 in order |
| Types.ModuleKeysDistinct | src/types.ts:51 | the eight modules are distinct, and so are their record keys |
| Types.ModuleKeysAreComplete | src/types.ts:46-52 | the eight modules are every module there is, and a module timetable has a slot list for every one of them |
| Types.MergedSubjectKeysDistinct | src/types.ts:54-123 | a merged subject has fifteen distinct keys |
| DiffModel.Keys | src/discordWebhook.ts:34 | the key list of a record, position by position (`Object.keys`) |
| DiffModel.KnownPairs | src/discordWebhook.ts:34 | the key filter keeps exactly the pairs whose key the registry renders and is never longer than the record; with `KnownPairsAppend` it keeps their order |
| DiffModel.KnownPairsAppend | src/discordWebhook.ts:34 | filtering distributes over concatenation |
| DiffModel.UnknownPairIgnored | src/discordWebhook.ts:34 | a pair with an unrendered key, wherever it stands, does not change the filtered list |
| DiffModel.DefinedChanges | src/discordWebhook.ts:37-40 | keeps exactly the keys whose change is defined, with that change |
| DiffModel.KnownChanges | src/discordWebhook.ts:34-40 | the changes that are both rendered and defined |
| DiffModel.KnownChangesSnoc | src/discordWebhook.ts:34-40 | appending a pair adds one change exactly when its key is rendered and its change is defined |
| DiffModel.Lookup | src/discordWebhook.ts:72 | finds a value exactly when the key is among the record's keys, and the value found is paired with that key in the record |
| DiffModel.OrFallback | src/discordWebhook.ts:72 | `??`: the fallback for a missing or null value, the string itself otherwise |
| DiffModel.EntryTitle | src/discordWebhook.ts:72 | the title starts with the type label and `: `, and ends with `)` |
| DiffModel.MissingTitleFields | src/discordWebhook.ts:72 | a record with no name and no code, or null ones, is titled `<type>: 科目名不明 (科目番号不明)` |
| DiffModel.SubjectRecordKeys | src/types.ts:54-123 | the JSON form of a merged subject has its fifteen keys in declaration order |
| DiffModel.SubjectRecordTitle | src/types.ts:54-56 | a typed merged subject always meets the title precondition, and its title is `<type>: <name> (<code>)` with no fallback |
| DiffUtils.IndexOf | src/diffUtils.ts:13 | `indexOf`: -1 exactly when the key is absent, otherwise the first position holding it |
| DiffUtils.ChangedKeys | src/diffUtils.ts:11 | no contract; the rendered keys of a modified entry's diff, none for added or removed; its use is stated by `EntryPriority` and `PriorityIgnoresUnknownKeys` |
| DiffUtils.KeyRank | src/diffUtils.ts:13-14 | a key found at position i of the priority order ranks i+1; any other key ranks 0 |
| DiffUtils.KeyRankValues | src/diffUtils.ts:4 | `kdbDataUpdateDate` ranks 1, `instructor` ranks 2, every other key 0 |
| DiffUtils.Min | src/diffUtils.ts:17 | `Math.min` of a non-empty list: the result is an element of the list and no element is smaller |
| DiffUtils.MinRank | src/diffUtils.ts:17 | `Math.min` of the ranks: no rank is smaller, and some key attains it |
| DiffUtils.EntryPriority | src/diffUtils.ts:6-18 | 0 for added and removed entries; 0 for a modified entry with no rendered key; otherwise at most each rendered key's rank and equal to one of them; always within 0 to 2 |
| DiffUtils.PriorityIgnoresUnknownKeys | src/diffUtils.ts:11 | diff keys the registry does not render do not affect the priority |
| DiffUtils.Compare | src/diffUtils.ts:23 | no contract; the comparator: the priority difference, or the index difference when priorities tie, stated by `CompareMeansPrecedes` |
| DiffUtils.CompareMeansPrecedes | src/diffUtils.ts:23 | the comparator is negative exactly when the first entry has lower priority, or equal priority and lower index; it is antisymmetric |
| DiffUtils.RankEntries | src/diffUtils.ts:22 | one ranked entry per input entry; the i-th carries the i-th entry, index i and that entry's priority, so the indices are distinct |
| DiffUtils.SortRanked | src/diffUtils.ts:23 | the sorted list has the same elements, with the same multiplicities, as its input |
| DiffUtils.EntriesOf | src/diffUtils.ts:24 | the entries of the ranked list, position by position |
| DiffUtils.SortedRanks | src/diffUtils.ts:21-23 | the ranked entries strictly ordered by the comparator, as a permutation of the input, each carrying its true index and priority |
| DiffUtils.InsertSorted | src/diffUtils.ts:23 | insertion keeps the comparator order |
| DiffUtils.SortSorted | src/diffUtils.ts:23 | insertion sort yields the comparator order when indices are distinct |
| DiffUtils.SortEntries | src/diffUtils.ts:23-24 | sorting permutes the entries |
| DiffUtils.PrioritizeDiffEntries | src/diffUtils.ts:20-25 | a permutation of the input (same length, same multiset) whose priorities never decrease |
| DiffUtils.PrioritizeIsStable | src/diffUtils.ts:22-23 | each output position holds the input entry at its recorded index, each index is used once, and entries of equal priority keep their input order |
| DiffUtils.SortedPermutationUnique | src/diffUtils.ts:23 | two lists with the same elements that are both strictly ordered by the comparator are equal |
| DiffUtils.PrioritizeMatchesComparator | src/diffUtils.ts:20-25 | any arrangement of the ranked entries that the comparator accepts yields exactly our output, so the model does not depend on the sort algorithm |
| DiffUtils.PrioritizeIdempotent | src/diffUtils.ts:20-25 | prioritizing a prioritized list changes nothing |
| DiscordWebhook.TypeColor | src/discordWebhook.ts:24-28 | added 0x2ecc71, modified 0xf1c40f, removed 0xe74c3c |
| DiscordWebhook.TypeColorsDistinct | src/discordWebhook.ts:24-28 | two entry types share a colour exactly when they are the same type |
| DiscordWebhook.ChangeField | src/discordWebhook.ts:42-45 | no contract; a change's field with label, `fmt(from) → fmt(to)` and no inline flag, stated by `InstructorOnlyChange`, `ModifiedFields` and `ChannelAgreement.ChangeAgrees` |
| DiscordWebhook.RecordField | src/discordWebhook.ts:57-61 | no contract; a value's field, inline exactly for code, credits, year and affiliation, stated by `BuildAllFields` |
| DiscordWebhook.ModifiedFields | src/discordWebhook.ts:32-49 | one field per rendered key with a defined change, in key order, each being that change's field |
| DiscordWebhook.AllFields | src/discordWebhook.ts:51-65 | one field per rendered record key, in key order, each being that value's field |
| DiscordWebhook.BuildModifiedFields | src/discordWebhook.ts:32-49 | the loop with its `continue` skip pushes, for each rendered key with a defined change, the label, `fmt(from) → fmt(to)` and no inline flag; the result equals `ModifiedFields` |
| DiscordWebhook.CollectModifiedFields | src/discordWebhook.ts:36-46 | the loop over the known keys, with its `continue` on an undefined change, pushes exactly one field per defined change, in key order |
| DiscordWebhook.BuildAllFields | src/discordWebhook.ts:51-65 | the loop pushes, for each rendered record key, the label and formatted value; `inline` is true exactly for code, credits, year and affiliation and absent otherwise; the result equals `AllFields` |
| DiscordWebhook.DiffEntryToEmbed | src/discordWebhook.ts:67-76 | the card's title is the entry title, its colour is the type's colour, and its fields are exactly `ModifiedFields` of the diff for a modified entry and `AllFields` of the subject otherwise: one per known defined change, or one per known key |
| DiscordWebhook.InstructorOnlyChange | src/discordWebhook.ts:32-49 | a diff that changes only the instructor gives exactly one `from → to` field with no inline flag |
| DiscordWebhook.NullChangeStillRanks | src/diffUtils.ts:11-17 | a rendered update-date key with a null change still makes the entry rank 1, while its card gets no field for it (src/discordWebhook.ts:38-40) |
| DiscordWebhook.AllFieldsIgnoreUnknownKeys | src/discordWebhook.ts:54 | record keys the registry does not render do not change the fields |
| DiscordWebhook.ModifiedFieldsIgnoreUnknownKeys | src/discordWebhook.ts:34 | diff keys the registry does not render do not change the fields |
| DiscordWebhook.OverflowText | src/discordWebhook.ts:89 | the notice holds the decimal count at position 5 and the address of the full diff verbatim after it |
| DiscordWebhook.Prioritized | src/discordWebhook.ts:79 | as many prioritized entries as the document has, all with title fields of the expected types |
| DiscordWebhook.DiffToDiscordMessage | src/discordWebhook.ts:78-95 | an empty diff gives exactly the no-difference notice and no cards; otherwise the cards of the first ten prioritized entries in order; no notice up to ten entries; above ten, the count notice |
| Strings.NatToString | src/discordWebhook.ts:89 | the decimal text of a count: digits only, with no leading zero |
| Strings.NatToStringRoundTrip | src/discordWebhook.ts:89 | reading the decimal text back gives the count, so the notice names the count exactly |
| Strings.Join | src/teamsWebhook.ts:22 | no contract; `Array.prototype.join`, with `JoinStartsWithFirst` stating that a join starts with its first item |
| Strings.JoinStartsWithFirst | src/teamsWebhook.ts:49 | a non-empty join starts with its first item |
| Strings.ReplaceAll | src/teamsWebhook.ts:6-8 | no contract; `.replace(/c/g, rep)`, stated by `ReplaceAllFacts`, `ReplaceAllAppend` and `TeamsWebhook.EscapeHtmlIsPerCharacter` |
| Strings.ReplaceAllFacts | src/teamsWebhook.ts:6 | a global replacement leaves a string without the character unchanged, and removes the character when the replacement lacks it |
| Strings.ReplaceAllAppend | src/teamsWebhook.ts:6 | a global replacement distributes over concatenation |
| TeamsWebhook.EscapeHtml | src/teamsWebhook.ts:6 | no contract; the five chained replacements, stated by `EscapeHtmlIsPerCharacter`, `EscapeHtmlIsSafe` and `EscapeHtmlIdentity` |
| TeamsWebhook.EscapeHtmlAppend | src/teamsWebhook.ts:6 | escaping distributes over concatenation |
| TeamsWebhook.EscapeHtmlChar | src/teamsWebhook.ts:6 | escaping one character gives its entity, or the character itself |
| TeamsWebhook.EscapeHtmlIsPerCharacter | src/teamsWebhook.ts:6 | the five chained replacements are exactly per-character escaping, so no entity is encoded twice |
| TeamsWebhook.EscapeHtmlIsSafe | src/teamsWebhook.ts:6 | escaped text holds no raw `<`, `>`, `"` or `'` |
| TeamsWebhook.EscapeHtmlIdentity | src/teamsWebhook.ts:6 | a string without any of the five special characters is left unchanged |
| TeamsWebhook.FormatHtmlValue | src/teamsWebhook.ts:8 | no contract; escaping, then newlines to `<br />`, stated by `FormatHtmlValueIsPerCharacter` and `FormatHtmlValueMarkup` |
| TeamsWebhook.FormatHtmlValueIsPerCharacter | src/teamsWebhook.ts:8 | formatting is per character: newline becomes `<br />`, special characters their entities, the rest unchanged |
| TeamsWebhook.FormatHtmlValueAppend | src/teamsWebhook.ts:8 | formatting distributes over concatenation |
| TeamsWebhook.FormatHtmlValueMarkup | src/teamsWebhook.ts:8 | a formatted value has no newline, and every raw `<` or `>` in it belongs to an inserted `<br />` |
| TeamsWebhook.ChangeItem | src/teamsWebhook.ts:18-19 | no contract; a change's item, stated by `ChannelAgreement.ChangeAgrees` |
| TeamsWebhook.RecordItem | src/teamsWebhook.ts:27 | no contract; a value's item `<strong>label</strong>: fmt(value)`, stated by `ChannelAgreement.AllFieldsAgree` |
| TeamsWebhook.ModifiedItems | src/teamsWebhook.ts:12-20 | one item per key with a defined change, in key order, each `<strong>label</strong>: fmt(from) → fmt(to)` |
| TeamsWebhook.AllItems | src/teamsWebhook.ts:27 | one item per record key, in key order |
| TeamsWebhook.BuildModifiedFields | src/teamsWebhook.ts:10-23 | no known defined change gives the empty string |
| TeamsWebhook.BuildAllFields | src/teamsWebhook.ts:25-30 | no known record key gives the empty string |
| TeamsWebhook.DiffEntryToHtml | src/teamsWebhook.ts:32-38 | the entry's HTML starts with `<strong>` |
| TeamsWebhook.Paragraph | src/teamsWebhook.ts:51 | the paragraph is `<p>`, the content, then `</p>` |
| TeamsWebhook.ParagraphInjective | src/teamsWebhook.ts:43-51 | two paragraphs are equal exactly when their contents are |
| TeamsWebhook.OverflowNotice | src/teamsWebhook.ts:47 | non-empty exactly above ten entries; then it starts with 差分件数が, holds the decimal count at position 5 and the escaped address after it |
| TeamsWebhook.RenderedEntries | src/teamsWebhook.ts:46-49 | the HTML of the first ten prioritized entries (all of them when there are at most ten), in order |
| TeamsWebhook.MessageBody | src/teamsWebhook.ts:47-51 | no contract; the notice, then the rendered entries joined by `<br /><br />`, stated by `DiffToTeamsMessage` and `MessageBodyIsNotEmptyText` |
| TeamsWebhook.MessageBodyIsNotEmptyText | src/teamsWebhook.ts:42-51 | the content for a non-empty diff is never the no-difference text |
| TeamsWebhook.DiffToTeamsMessage | src/teamsWebhook.ts:40-52 | the no-difference paragraph exactly for an empty diff; always `<p>…</p>`; otherwise the notice, then the rendered entries joined by `<br /><br />` |
| ChannelAgreement.FormatAround | src/teamsWebhook.ts:18 | formatting `x + sep + y` formats each side and leaves a separator that needs no formatting as it is |
| ChannelAgreement.ArrowIsPlain | src/teamsWebhook.ts:18 | the ` → ` between the two sides of a change needs no escaping |
| ChannelAgreement.ChangeAgrees | src/teamsWebhook.ts:18-19 | a change's HTML item is its card field with the label escaped and the value formatted |
| ChannelAgreement.ModifiedFieldsAgree | src/teamsWebhook.ts:10-23 | a modified entry's HTML items are its card fields, escaped and formatted, in the same order |
| ChannelAgreement.AllFieldsAgree | src/teamsWebhook.ts:25-30 | an added or removed entry's HTML items are its card fields, escaped and formatted, in the same order |
| ChannelAgreement.EntryAgrees | src/teamsWebhook.ts:32-38 | an entry's HTML is its card: escaped title in bold, a line break, then the fields' items joined by `<br />` |
| ChannelAgreement.MessagesAgree | src/teamsWebhook.ts:40-52 | both renderers say "no difference" in the same words exactly for an empty diff, show the same entries in the same order with the same cut, and add a notice in the same cases |

## Left out

- Sending: `sendDiscordWebhook` and `sendTeamsWebhook` are HTTP posts of an encoded message. They are not modelled.
- Fetching: `fetchDiffJson` in src/kdbDiff.ts is a network fetch plus JSON decoding, and is not modelled. Only the shape of its `DiffEntry` type (src/kdbDiff.ts:51-60) is used.
- src/envs.ts reads the environment. The diff document's address is a parameter of each renderer.
- src/index.ts is asynchronous orchestration and logging. It is not modelled.
- Labels: `isDiffSubjectKey`, `fieldLabels`, `formatValue` and `typeLabels` come from src/labels.ts, which is not part of this model. They are parameters (the `Labels.Registry` datatype), never concrete strings.
- Title fields: a record whose `name` or `code` is present but not a string or `null` is outside the typed domain. `HasTitleFields` requires that every entry has string or null title fields.
- Unknown entry types and malformed JSON are outside the typed domain.
- JSON numbers are `real`. Floating point is not modelled.
- Key order: records and diff documents are lists in `Object.keys` order as given. JavaScript places integer-like keys first, in ascending order, whatever order they were written in; the model does not, and that order decides the tie-break of the sort (src/diffUtils.ts:22) and the order of fields.
- Duplicate keys: a record is a list of key/value pairs in `Object.keys` order, and duplicate keys are not excluded.
- Regular expressions: `.replace(/x/g, …)` is modelled as a recursive replacement of one character.
- Sorting: `Array.prototype.sort` is modelled as insertion sort. `PrioritizeMatchesComparator` shows that any order the comparator accepts gives the same result.
- Card description: `description` is declared on a card but never set, so the model's card has no such field.
- Defined changes: the Discord loop's `if (!value) continue` and the Teams `flatMap` skip are modelled as "the change is absent". A present change object is always truthy.
- `classroom` is always `null` in a merged subject, so the typed subject has no such field. Its JSON form writes `null` for it.
- `kdbDataUpdateDate` is named in the priority order but is not a declared key of the merged subject. The model ranks whatever keys a diff carries, so the rank exists but no typed subject produces that key.
- TeamsWebhook.BuildModifiedFields, TeamsWebhook.BuildAllFields: these carry only the empty-case contract. Their items are fully specified by `ModifiedItems`, `AllItems` and the `ChannelAgreement` lemmas.
- TeamsWebhook.DiffEntryToHtml: this states only the leading `<strong>`. Its full shape is stated by `ChannelAgreement.EntryAgrees`.
- Types.GetInstructionalType: follows the own-key guard, so an inherited name such as "toString" fails. The source's `in` guard lets it through and returns the inherited `Object.prototype` member; that behaviour is `GetInstructionalTypeAsWritten` (see Findings).
- Types.InstructionalTypeCodesAreTheKeys: is about the table's own keys. The `in` guard as written also accepts the inherited `Object.prototype` names (see Findings).

## Findings

| source | as written | input that shows it | evidently intended | confidence | as-written member | corrected member |
|---|---|---|---|---|---|---|
| src/types.ts:20-29 | the guard `code in instructionalTypeMap` also holds for names inherited from `Object.prototype`, so `getInstructionalType` returns an inherited function instead of throwing | `"toString"` | only the nine codes "0" to "8" pass; any other code throws `Unknown instructional type code: <code>` | not executed | Types.InheritedNamePassesGuard | Types.GetInstructionalType |
