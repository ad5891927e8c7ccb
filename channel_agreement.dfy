/** The two renderers show the same thing: the HTML message is the card message's content, field
    by field, with every label escaped and every value formatted for HTML. */
module ChannelAgreement {
  import opened Wrappers
  import opened Strings
  import opened DiffModel
  import opened Labels
  import D = DiscordWebhook
  import T = TeamsWebhook

  /** The HTML item that shows a card field: its name escaped and in bold, its value formatted. */
  function FieldHtml(f: D.EmbedField): string
  {
    "<strong>" + T.EscapeHtml(f.name) + "</strong>: " + T.FormatHtmlValue(f.value)
  }

  function FieldsHtml(fields: seq<D.EmbedField>): (r: seq<string>)
    ensures |r| == |fields| && forall i :: 0 <= i < |r| ==> r[i] == FieldHtml(fields[i])
  {
    seq(|fields|, i requires 0 <= i < |fields| => FieldHtml(fields[i]))
  }

  /** The HTML of a card: its title escaped and in bold, a line break, then its fields. */
  function CardHtml(e: D.Embed): string
  {
    "<strong>" + T.EscapeHtml(e.title) + "</strong><br />" + Join(FieldsHtml(e.fields), "<br />")
  }

  /** The arrow between the two sides of a change needs no escaping. */
  lemma ArrowIsPlain()
    ensures T.FormatHtmlValue(" → ") == " → "
  {
    T.EscapeHtmlIdentity(" → ");
    ReplaceAllFacts(" → ", '\n', "<br />");
  }

  /** Formatting a value around a separator that needs no formatting. */
  lemma FormatAround(x: string, sep: string, y: string)
    requires T.FormatHtmlValue(sep) == sep
    ensures T.FormatHtmlValue(x + sep + y) == T.FormatHtmlValue(x) + sep + T.FormatHtmlValue(y)
  {
    T.FormatHtmlValueAppend(x, sep);
    T.FormatHtmlValueAppend(x + sep, y);
  }

  /** One change shows the same label and the same `from → to` in both renderers. */
  lemma ChangeAgrees(labels: Registry, key: string, change: Change)
    ensures T.ChangeItem(labels, key, change) == FieldHtml(D.ChangeField(labels, key, change))
  {
    ArrowIsPlain();
    FormatAround(labels.formatValue(key, change.from), " → ", labels.formatValue(key, change.to));
  }

  /** A modified entry has the same items in both renderers, in the same order. */
  lemma {:induction false} ModifiedFieldsAgree(labels: Registry, diff: DiffMap)
    ensures T.ModifiedItems(labels, KnownPairs(labels.isDiffSubjectKey, diff))
      == FieldsHtml(D.ModifiedFields(labels, diff))
  {
    var cs := KnownChanges(labels.isDiffSubjectKey, diff);
    var items := T.ModifiedItems(labels, KnownPairs(labels.isDiffSubjectKey, diff));
    var html := FieldsHtml(D.ModifiedFields(labels, diff));
    assert |items| == |html|;
    forall i | 0 <= i < |items|
      ensures items[i] == html[i]
    {
      ChangeAgrees(labels, cs[i].0, cs[i].1);
    }
  }

  /** An added or removed entry has the same items in both renderers, in the same order. */
  lemma AllFieldsAgree(labels: Registry, subject: Record)
    ensures T.AllItems(labels, KnownPairs(labels.isDiffSubjectKey, subject))
      == FieldsHtml(D.AllFields(labels, subject))
  {
    var items := T.AllItems(labels, KnownPairs(labels.isDiffSubjectKey, subject));
    var html := FieldsHtml(D.AllFields(labels, subject));
    assert |items| == |html|;
  }

  /** The HTML of an entry is the HTML of its card. */
  lemma EntryAgrees(labels: Registry, entry: DiffEntry)
    requires HasTitleFields(entry.value)
    ensures T.DiffEntryToHtml(labels, entry) == CardHtml(D.DiffEntryToEmbed(labels, entry))
  {
    if entry.ModifiedEntry? {
      ModifiedFieldsAgree(labels, entry.diff);
    } else {
      AllFieldsAgree(labels, entry.value);
    }
  }

  /** Both renderers show the same entries of a diff, in the same order, and cut at the same
      count; they both add a notice exactly when entries were cut, and both say there is no
      difference, in the same words, exactly when the diff is empty. */
  lemma MessagesAgree(labels: Registry, diffJsonUrl: string, diff: DiffJson)
    requires WellTyped(Values(diff))
    ensures var card := D.DiffToDiscordMessage(labels, diffJsonUrl, diff);
      |diff| == 0 ==> card.content == Some(D.NoDiffText) && T.DiffToTeamsMessage(labels, diffJsonUrl, diff) == T.Paragraph(D.NoDiffText)
    ensures var card := D.DiffToDiscordMessage(labels, diffJsonUrl, diff);
      |diff| > 0 ==> card.embeds.Some? && |T.RenderedEntries(labels, diff)| == |card.embeds.value|
    ensures var card := D.DiffToDiscordMessage(labels, diffJsonUrl, diff);
      |diff| > 0 ==> forall i :: 0 <= i < |card.embeds.value| ==>
        T.RenderedEntries(labels, diff)[i] == CardHtml(card.embeds.value[i])
    ensures var card := D.DiffToDiscordMessage(labels, diffJsonUrl, diff);
      |diff| > 0 ==> (card.content.Some? <==> T.OverflowNotice(|diff|, diffJsonUrl) != "")
  {
    var card := D.DiffToDiscordMessage(labels, diffJsonUrl, diff);
    if |diff| > 0 {
      var entries := D.Prioritized(labels, diff);
      forall i | 0 <= i < |card.embeds.value|
        ensures T.RenderedEntries(labels, diff)[i] == CardHtml(card.embeds.value[i])
      {
        EntryAgrees(labels, entries[i]);
      }
    }
  }
}
