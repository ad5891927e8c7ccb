/** The HTML renderer: the same prioritized entries and fields as the card renderer, as one
    HTML paragraph with every piece of text escaped. */
module TeamsWebhook {
  import opened Strings
  import opened DiffModel
  import opened Labels
  import opened DiffUtils

  /** `escapeHtml` as written: five global replacements in a row, `&` first. */
  function EscapeHtml(raw: string): string
  {
    ReplaceAll(ReplaceAll(ReplaceAll(ReplaceAll(ReplaceAll(raw, '&', "&amp;"), '<', "&lt;"), '>', "&gt;"), '"', "&quot;"), '\'', "&#39;")
  }

  /** The entity of one character, or the character itself. */
  function EscapeChar(c: char): string
  {
    if c == '&' then "&amp;"
    else if c == '<' then "&lt;"
    else if c == '>' then "&gt;"
    else if c == '"' then "&quot;"
    else if c == '\'' then "&#39;"
    else [c]
  }

  /** Per-character escaping: each character replaced by its entity, independently of the others. */
  function EscapeEach(s: string): string
  {
    if s == [] then "" else EscapeChar(s[0]) + EscapeEach(s[1..])
  }

  lemma {:induction false} EscapeHtmlAppend(a: string, b: string)
    ensures EscapeHtml(a + b) == EscapeHtml(a) + EscapeHtml(b)
  {
    var a1, b1 := ReplaceAll(a, '&', "&amp;"), ReplaceAll(b, '&', "&amp;");
    ReplaceAllAppend(a, b, '&', "&amp;");
    var a2, b2 := ReplaceAll(a1, '<', "&lt;"), ReplaceAll(b1, '<', "&lt;");
    ReplaceAllAppend(a1, b1, '<', "&lt;");
    var a3, b3 := ReplaceAll(a2, '>', "&gt;"), ReplaceAll(b2, '>', "&gt;");
    ReplaceAllAppend(a2, b2, '>', "&gt;");
    var a4, b4 := ReplaceAll(a3, '"', "&quot;"), ReplaceAll(b3, '"', "&quot;");
    ReplaceAllAppend(a3, b3, '"', "&quot;");
    ReplaceAllAppend(a4, b4, '\'', "&#39;");
  }

  /** The four replacements after the first leave a string without their characters alone. */
  lemma LaterStepsIdentity(s: string)
    requires '<' !in s && '>' !in s && '"' !in s && '\'' !in s
    ensures ReplaceAll(ReplaceAll(ReplaceAll(ReplaceAll(s, '<', "&lt;"), '>', "&gt;"), '"', "&quot;"), '\'', "&#39;") == s
  {
    ReplaceAllFacts(s, '<', "&lt;");
    ReplaceAllFacts(s, '>', "&gt;");
    ReplaceAllFacts(s, '"', "&quot;");
    ReplaceAllFacts(s, '\'', "&#39;");
  }

  lemma EscapeHtmlChar(c: char)
    ensures EscapeHtml([c]) == EscapeChar(c)
  {
    ReplaceAllSingle(c, '&', "&amp;");
    if c == '&' {
      LaterStepsIdentity("&amp;");
    } else {
      EscapeHtmlCharAfterAmp(c);
    }
  }

  lemma EscapeHtmlCharAfterAmp(c: char)
    requires c != '&'
    ensures ReplaceAll(ReplaceAll(ReplaceAll(ReplaceAll([c], '<', "&lt;"), '>', "&gt;"), '"', "&quot;"), '\'', "&#39;") == EscapeChar(c)
  {
    ReplaceAllSingle(c, '<', "&lt;");
    if c == '<' {
      var s2 := "&lt;";
      ReplaceAllFacts(s2, '>', "&gt;");
      ReplaceAllFacts(s2, '"', "&quot;");
      ReplaceAllFacts(s2, '\'', "&#39;");
    } else {
      EscapeHtmlCharAfterLt(c);
    }
  }

  lemma EscapeHtmlCharAfterLt(c: char)
    requires c != '&' && c != '<'
    ensures ReplaceAll(ReplaceAll(ReplaceAll([c], '>', "&gt;"), '"', "&quot;"), '\'', "&#39;") == EscapeChar(c)
  {
    ReplaceAllSingle(c, '>', "&gt;");
    if c == '>' {
      var s3 := "&gt;";
      ReplaceAllFacts(s3, '"', "&quot;");
      ReplaceAllFacts(s3, '\'', "&#39;");
    } else {
      ReplaceAllSingle(c, '"', "&quot;");
      if c == '"' {
        ReplaceAllFacts("&quot;", '\'', "&#39;");
      } else {
        ReplaceAllSingle(c, '\'', "&#39;");
      }
    }
  }

  /** The chained replacements are exactly per-character escaping: because `&` is replaced first,
      no entity inserted by a later step is encoded again. */
  lemma {:induction false} EscapeHtmlIsPerCharacter(s: string)
    ensures EscapeHtml(s) == EscapeEach(s)
  {
    if s != [] {
      assert s == [s[0]] + s[1..];
      EscapeHtmlAppend([s[0]], s[1..]);
      EscapeHtmlChar(s[0]);
      EscapeHtmlIsPerCharacter(s[1..]);
    } else {
      assert ReplaceAll([], '&', "&amp;") == [];
    }
  }

  /** Escaped text has no raw `<`, `>`, `"` or `'`. */
  lemma {:induction false} EscapeHtmlIsSafe(s: string)
    ensures var r := EscapeHtml(s); '<' !in r && '>' !in r && '"' !in r && '\'' !in r
  {
    EscapeHtmlIsPerCharacter(s);
    EscapeEachIsSafe(s);
  }

  lemma {:induction false} EscapeEachIsSafe(s: string)
    ensures var r := EscapeEach(s); '<' !in r && '>' !in r && '"' !in r && '\'' !in r && ('\n' in r <==> '\n' in s)
  {
    if s != [] {
      EscapeEachIsSafe(s[1..]);
      assert s == [s[0]] + s[1..];
    }
  }

  /** A string without any of the five special characters is left as it is. */
  lemma EscapeHtmlIdentity(s: string)
    requires '&' !in s && '<' !in s && '>' !in s && '"' !in s && '\'' !in s
    ensures EscapeHtml(s) == s
  {
    ReplaceAllFacts(s, '&', "&amp;");
    ReplaceAllFacts(s, '<', "&lt;");
    ReplaceAllFacts(s, '>', "&gt;");
    ReplaceAllFacts(s, '"', "&quot;");
    ReplaceAllFacts(s, '\'', "&#39;");
  }

  /** `formatHtmlValue`: escape, then turn every newline into a line-break element. */
  function FormatHtmlValue(value: string): string
  {
    ReplaceAll(EscapeHtml(value), '\n', "<br />")
  }

  /** The HTML of one character of a formatted value. */
  function HtmlChar(c: char): string
  {
    if c == '\n' then "<br />" else EscapeChar(c)
  }

  function FormatEach(s: string): string
  {
    if s == [] then "" else HtmlChar(s[0]) + FormatEach(s[1..])
  }

  /** Formatting a value is per-character too: escaping comes first, so the inserted break
      elements are never escaped. */
  lemma {:induction false} FormatHtmlValueIsPerCharacter(s: string)
    ensures FormatHtmlValue(s) == FormatEach(s)
  {
    EscapeHtmlIsPerCharacter(s);
    EscapeEachThenBreaks(s);
  }

  lemma {:induction false} EscapeEachThenBreaks(s: string)
    ensures ReplaceAll(EscapeEach(s), '\n', "<br />") == FormatEach(s)
  {
    if s != [] {
      var head := EscapeChar(s[0]);
      assert EscapeEach(s) == head + EscapeEach(s[1..]);
      assert FormatEach(s) == HtmlChar(s[0]) + FormatEach(s[1..]);
      ReplaceAllAppend(head, EscapeEach(s[1..]), '\n', "<br />");
      EscapeEachThenBreaks(s[1..]);
      if s[0] == '\n' {
        ReplaceAllSingle('\n', '\n', "<br />");
      } else {
        assert '\n' !in head;
        ReplaceAllFacts(head, '\n', "<br />");
      }
    }
  }

  lemma {:induction false} FormatEachAppend(a: string, b: string)
    ensures FormatEach(a + b) == FormatEach(a) + FormatEach(b)
  {
    if a != [] {
      assert (a + b)[0] == a[0];
      assert (a + b)[1..] == a[1..] + b;
      FormatEachAppend(a[1..], b);
    } else {
      assert a + b == b;
    }
  }

  /** Formatting distributes over concatenation. */
  lemma FormatHtmlValueAppend(a: string, b: string)
    ensures FormatHtmlValue(a + b) == FormatHtmlValue(a) + FormatHtmlValue(b)
  {
    FormatHtmlValueIsPerCharacter(a + b);
    FormatHtmlValueIsPerCharacter(a);
    FormatHtmlValueIsPerCharacter(b);
    FormatEachAppend(a, b);
  }

  /** Every raw `<` or `>` of the string belongs to a `<br />` element. */
  predicate OnlyBreakMarkup(s: string)
    decreases |s|
  {
    if s == [] then true
    else if |s| >= 6 && s[..6] == "<br />" then OnlyBreakMarkup(s[6..])
    else s[0] != '<' && s[0] != '>' && OnlyBreakMarkup(s[1..])
  }

  lemma {:induction false} PlainPrefix(w: string, rest: string)
    requires '<' !in w && '>' !in w
    requires OnlyBreakMarkup(rest)
    ensures OnlyBreakMarkup(w + rest)
  {
    if w != [] {
      assert (w + rest)[0] == w[0];
      assert (w + rest)[1..] == w[1..] + rest;
      PlainPrefix(w[1..], rest);
    } else {
      assert w + rest == rest;
    }
  }

  lemma {:induction false} FormatEachMarkup(s: string)
    ensures OnlyBreakMarkup(FormatEach(s))
  {
    if s != [] {
      FormatEachMarkup(s[1..]);
      var rest := FormatEach(s[1..]);
      if s[0] == '\n' {
        var r := "<br />" + rest;
        assert r[..6] == "<br />" && r[6..] == rest;
      } else {
        PlainPrefix(EscapeChar(s[0]), rest);
      }
    }
  }

  /** A formatted value has no newline left, and every raw `<` or `>` in it comes from an
      inserted `<br />`. */
  lemma FormatHtmlValueMarkup(s: string)
    ensures '\n' !in FormatHtmlValue(s)
    ensures OnlyBreakMarkup(FormatHtmlValue(s))
  {
    ReplaceAllFacts(EscapeHtml(s), '\n', "<br />");
    FormatHtmlValueIsPerCharacter(s);
    FormatEachMarkup(s);
  }

  /** One `label: from → to` item of a modified entry. */
  function ChangeItem(labels: Registry, key: string, change: Change): string
  {
    "<strong>" + EscapeHtml(labels.fieldLabel(key)) + "</strong>: "
      + FormatHtmlValue(labels.formatValue(key, change.from)) + " → " + FormatHtmlValue(labels.formatValue(key, change.to))
  }

  /** One `label: value` item of an added or removed entry. */
  function RecordItem(labels: Registry, key: string, value: Json): string
  {
    "<strong>" + EscapeHtml(labels.fieldLabel(key)) + "</strong>: " + FormatHtmlValue(labels.formatValue(key, value))
  }

  /** The items of a modified entry over its known keys: the keys without a defined change give none. */
  function ModifiedItems(labels: Registry, diffKeys: DiffMap): (r: seq<string>)
    ensures var cs := DefinedChanges(diffKeys);
      |r| == |cs| && forall i :: 0 <= i < |r| ==> r[i] == ChangeItem(labels, cs[i].0, cs[i].1)
  {
    if diffKeys == [] then []
    else
      var init := diffKeys[..|diffKeys| - 1];
      var last := diffKeys[|diffKeys| - 1];
      ModifiedItems(labels, init) + (if last.1.Some? then [ChangeItem(labels, last.0, last.1.value)] else [])
  }

  /** The items of an added or removed entry over its known keys. */
  function AllItems(labels: Registry, subjectKeys: Record): (r: seq<string>)
    ensures |r| == |subjectKeys| && forall i :: 0 <= i < |r| ==> r[i] == RecordItem(labels, subjectKeys[i].0, subjectKeys[i].1)
  {
    if subjectKeys == [] then []
    else
      var init := subjectKeys[..|subjectKeys| - 1];
      var last := subjectKeys[|subjectKeys| - 1];
      assert subjectKeys == init + [last];
      AllItems(labels, init) + [RecordItem(labels, last.0, last.1)]
  }

  /** `buildModifiedFields`: the items of the known, defined changes joined with line breaks. */
  function BuildModifiedFields(labels: Registry, diff: DiffMap): (r: string)
    ensures KnownChanges(labels.isDiffSubjectKey, diff) == [] ==> r == ""
  {
    Join(ModifiedItems(labels, KnownPairs(labels.isDiffSubjectKey, diff)), "<br />")
  }

  /** `buildAllFields`: the items of the known record keys joined with line breaks. */
  function BuildAllFields(labels: Registry, subject: Record): (r: string)
    ensures KnownPairs(labels.isDiffSubjectKey, subject) == [] ==> r == ""
  {
    Join(AllItems(labels, KnownPairs(labels.isDiffSubjectKey, subject)), "<br />")
  }

  /** `diffEntryToHtml`: the escaped title in bold, a line break, then the entry's items. */
  function DiffEntryToHtml(labels: Registry, entry: DiffEntry): (r: string)
    requires HasTitleFields(entry.value)
    ensures |r| >= 8 && r[..8] == "<strong>"
  {
    var subject := entry.value;
    var fieldsHtml := if entry.ModifiedEntry? then BuildModifiedFields(labels, entry.diff) else BuildAllFields(labels, subject);
    var title := EntryTitle(labels.typeLabel(entry.Type()), subject);
    var r := "<strong>" + EscapeHtml(title) + "</strong><br />" + fieldsHtml;
    assert r[..8] == "<strong>";
    r
  }

  /** The text of the fragment sent for an empty diff. */
  const EmptyDiffText := "差分はありませんでした。"

  const EmptyDiffHtml := Paragraph(EmptyDiffText)

  /** One paragraph element around the given HTML. */
  function Paragraph(inner: string): (r: string)
    ensures |r| == |inner| + 7 && r[..3] == "<p>" && r[|r| - 4..] == "</p>" && r[3..|r| - 4] == inner
  {
    var r := "<p>" + inner + "</p>";
    ContainsAtMiddle("<p>", inner, "</p>");
    r
  }

  /** Two paragraphs are equal exactly when their contents are. */
  lemma ParagraphInjective(a: string, b: string)
    ensures Paragraph(a) == Paragraph(b) <==> a == b
  {
    if Paragraph(a) == Paragraph(b) {
      assert a == Paragraph(a)[3..|Paragraph(a)| - 4];
    }
  }

  const MaxEntries: nat := 10

  /** The notice put before the entries: empty unless there are more than ten entries, and then
      it gives the count and links the escaped address of the full diff. */
  function OverflowNotice(count: nat, diffJsonUrl: string): (r: string)
    ensures r != "" <==> count > MaxEntries
    ensures count > MaxEntries ==> ContainsAt(r, "差分件数が", 0) && ContainsAt(r, NatToString(count), 5)
    ensures count > MaxEntries ==> ContainsAt(r, EscapeHtml(diffJsonUrl), 22 + |NatToString(count)|)
  {
    if count > MaxEntries then
      var url := EscapeHtml(diffJsonUrl);
      var tail := "\">" + url + "</a> をご覧ください。<br />";
      NoticeLayout(NatToString(count), url, tail);
      "差分件数が" + NatToString(count) + "件です。続きは <a href=\"" + url + tail
    else ""
  }

  lemma NoticeLayout(d: string, url: string, tail: string)
    ensures var r := "差分件数が" + d + "件です。続きは <a href=\"" + url + tail;
      r != "" && ContainsAt(r, "差分件数が", 0) && ContainsAt(r, d, 5) && ContainsAt(r, url, 22 + |d|)
  {
    ContainsAtFive("差分件数が", d, "件です。続きは <a href=\"", url, tail);
  }

  /** The HTML of each of a list of entries, in order. */
  function EntriesHtml(labels: Registry, entries: seq<DiffEntry>): (r: seq<string>)
    requires WellTyped(entries)
    ensures |r| == |entries| && forall i :: 0 <= i < |r| ==> r[i] == DiffEntryToHtml(labels, entries[i])
  {
    seq(|entries|, i requires 0 <= i < |entries| => DiffEntryToHtml(labels, entries[i]))
  }

  /** The HTML of the entries shown: the first ten prioritized entries, in order. */
  function RenderedEntries(labels: Registry, diff: DiffJson): (r: seq<string>)
    requires WellTyped(Values(diff))
    ensures |r| == if |diff| <= MaxEntries then |diff| else MaxEntries
    ensures forall i :: 0 <= i < |r| ==>
      r[i] == DiffEntryToHtml(labels, PrioritizeDiffEntries(labels.isDiffSubjectKey, Values(diff))[i])
  {
    var entries := PrioritizeDiffEntries(labels.isDiffSubjectKey, Values(diff));
    assert WellTyped(entries);
    var displayEntries := if |entries| <= MaxEntries then entries else entries[..MaxEntries];
    assert WellTyped(displayEntries);
    EntriesHtml(labels, displayEntries)
  }

  /** The content of a non-empty message: the notice, then the entries shown separated by
      double line breaks. */
  function MessageBody(labels: Registry, diffJsonUrl: string, diff: DiffJson): string
    requires WellTyped(Values(diff))
  {
    OverflowNotice(|diff|, diffJsonUrl) + Join(RenderedEntries(labels, diff), "<br /><br />")
  }

  /** A non-empty diff never renders as the empty-diff text: an entry starts with `<`, and the
      notice differs from that text in its third character. */
  lemma MessageBodyIsNotEmptyText(labels: Registry, diffJsonUrl: string, diff: DiffJson)
    requires WellTyped(Values(diff))
    requires |diff| > 0
    ensures MessageBody(labels, diffJsonUrl, diff) != EmptyDiffText
  {
    var notice := OverflowNotice(|diff|, diffJsonUrl);
    var items := RenderedEntries(labels, diff);
    var body := Join(items, "<br /><br />");
    var r := notice + body;
    if notice == "" {
      JoinStartsWithFirst(items, "<br /><br />");
      assert items[0][..8] == "<strong>";
      assert r[0] == '<';
    } else {
      assert notice[..5] == "差分件数が";
      assert r[2] == notice[2];
    }
  }

  /** `diffToTeamsMessage`: the fixed fragment for an empty diff; otherwise one paragraph holding
      the notice and the entries shown. */
  function DiffToTeamsMessage(labels: Registry, diffJsonUrl: string, diff: DiffJson): (r: string)
    requires WellTyped(Values(diff))
    ensures r == EmptyDiffHtml <==> |diff| == 0
    ensures |r| >= 7 && r[..3] == "<p>" && r[|r| - 4..] == "</p>"
    ensures |diff| > 0 ==> r == Paragraph(MessageBody(labels, diffJsonUrl, diff))
  {
    if |diff| == 0 then EmptyDiffHtml
    else
      MessageBodyIsNotEmptyText(labels, diffJsonUrl, diff);
      ParagraphInjective(MessageBody(labels, diffJsonUrl, diff), EmptyDiffText);
      Paragraph(MessageBody(labels, diffJsonUrl, diff))
  }
}
