/**
 * The check-in timestamp engine and the post-edit separator of the note
 * service, as pure functions of the note's text.  `TimestampedContent` is
 * what `appendTimestampLink` writes and `SeparatedContent` what
 * `postProcessAfterEdit` writes (`None`: no write); the class in
 * note_service.dfy performs the reads and writes.
 */
module Timestamps {
  import opened Options
  import opened Strings
  import opened Dates
  import opened Markers
  import opened Config

  /** `getCurrentTimeString`: `HH:MM` of the injected clock. */
  function GetCurrentTimeString(now: TimeOfDay): (r: string)
    requires ValidTime(now)
    ensures |r| == 5 && r[2] == ':'
    ensures AllDigits(r[..2]) && DigitsValue(r[..2]) == now.hour
    ensures AllDigits(r[3..]) && DigitsValue(r[3..]) == now.minute
  {
    var r := PadStart2(now.hour) + ":" + PadStart2(now.minute);
    PadStart2TwoDigits(now.hour);
    PadStart2TwoDigits(now.minute);
    assert r[..2] == PadStart2(now.hour) && r[3..] == PadStart2(now.minute);
    TwoDigitsValue(PadStart2(now.hour));
    TwoDigitsValue(PadStart2(now.minute));
    r
  }

  /** The marker `[HH:MM]` a check-in writes. */
  function TimestampLink(now: TimeOfDay): string
    requires ValidTime(now)
  {
    "[" + GetCurrentTimeString(now) + "]"
  }

  /** The marker written at check-in is itself found by the marker pattern. */
  lemma TimestampLinkIsMarker(now: TimeOfDay)
    requires ValidTime(now)
    ensures |TimestampLink(now)| == MarkerLength && MarkerAt(TimestampLink(now), 0)
    ensures Matches(TimestampLink(now)) == [0]
  {
    var t := GetCurrentTimeString(now);
    assert IsDigit(t[..2][0]) && IsDigit(t[..2][1]);
    assert IsDigit(t[3..][0]) && IsDigit(t[3..][1]);
    var link := TimestampLink(now);
    assert MarkerAt(link, 0);
    assert MatchesFrom(link, MarkerLength) == [];
    assert Matches(link) == [0] + MatchesFrom(link, MarkerLength);
  }

  /** The text of the last match (`matches[matches.length - 1]`), if any. */
  function LastMatchText(s: string): (r: Option<string>)
    ensures r.Some? <==> |Matches(s)| > 0
    ensures r.Some? ==> |r.value| == MarkerLength && MarkerAt(r.value, 0)
  {
    var ms := Matches(s);
    MatchesFromExact(s, 0);
    if |ms| == 0 then None
    else
      var m := MarkerText(s, ms[|ms| - 1]);
      assert forall j :: 0 <= j < MarkerLength ==> m[j] == s[ms[|ms| - 1] + j];
      Some(m)
  }

  /** Where the last marker starts. */
  function LastMarkerPos(s: string): (p: nat)
    requires |Matches(s)| > 0
    ensures p + MarkerLength <= |s| && MarkerAt(s, p)
    ensures forall i :: p < i && MarkerAt(s, i) ==> false
  {
    MatchesFromExact(s, 0);
    var ms := Matches(s);
    var p := ms[|ms| - 1];
    assert forall i :: p < i && MarkerAt(s, i) ==> i in ms;
    p
  }

  /** `lastIndexOf` of the last match's text finds the last marker itself. */
  lemma LastMatchIndex(s: string)
    requires |Matches(s)| > 0
    ensures LastIndexOf(s, LastMatchText(s).value) == LastMarkerPos(s)
  {
    LastIndexOfLastMatch(s);
  }

  /** `hasContentAfterLastTimestamp`, step by step as written. */
  function HasContentAfterLastTimestamp(content: string): bool {
    match LastMatchText(content)
    case None => true
    case Some(last) =>
      var index := LastIndexOf(content, last);
      |Trim(SubstringFrom(content, index + |last|))| > 0
  }

  /** There is "content after" exactly when there is no marker, or something other than whitespace follows the last one. */
  lemma HasContentAfterIff(content: string)
    ensures HasContentAfterLastTimestamp(content) <==>
      |Matches(content)| == 0 || !AllWhitespace(content[LastMarkerPos(content) + MarkerLength..])
  {
    if |Matches(content)| > 0 {
      LastIndexOfLastMatch(content);
      TrimEmptyIff(content[LastMarkerPos(content) + MarkerLength..]);
    }
  }

  /** The content with a line break ensured at its end, then the marker on its own line. */
  function AppendMarkerLine(content: string, link: string): string {
    (if EndsWith(content, "\n") then content else content + "\n") + link + "\n"
  }

  /** The text `appendTimestampLink` writes, given the current text ("" when the file is missing). */
  function TimestampedContent(content: string, link: string): string
    requires |link| == MarkerLength
  {
    if content == "" then link + "\n"
    else if HasContentAfterLastTimestamp(content) then AppendMarkerLine(content, link)
    else
      var p := LastMarkerPos(content);
      content[..p] + link + content[p + MarkerLength..]
  }

  /** An empty or missing note gets exactly the marker and a newline. */
  lemma TimestampOnEmpty(link: string)
    requires |link| == MarkerLength
    ensures TimestampedContent("", link) == link + "\n"
  {
  }

  /** Markers of a text that ends in a line break, followed by a marker line. */
  lemma AppendMarkerLineMatches(content: string, link: string)
    requires |link| == MarkerLength && MarkerAt(link, 0) && content != ""
    ensures var r := AppendMarkerLine(content, link);
      && Matches(r) == Matches(content) + [|r| - MarkerLength - 1]
      && r[|r| - MarkerLength - 1..] == link + "\n"
  {
    var a := if EndsWith(content, "\n") then content else content + "\n";
    if !EndsWith(content, "\n") {
      MatchesNewlineAppended(content, 0);
    }
    assert a[|a| - 1] == '\n';
    MatchesAfterBreak(a, link + "\n", 0);
    MatchesNewlineAppended(link, 0);
    assert Matches(link) == [0] by {
      assert MatchesFrom(link, MarkerLength) == [];
    }
    assert MatchesFrom(a, |a|) == [];
    assert a + (link + "\n") == a + link + "\n";
  }

  /**
   * When the note is not empty and something follows the last marker (or there
   * is none), the marker goes on a new line at the end: the old text is kept,
   * one line break is added only if missing, and there is exactly one marker more.
   */
  lemma TimestampAppends(content: string, link: string)
    requires |link| == MarkerLength && MarkerAt(link, 0)
    requires content != "" && HasContentAfterLastTimestamp(content)
    ensures var r := TimestampedContent(content, link);
      && r == content + (if EndsWith(content, "\n") then "" else "\n") + link + "\n"
      && |Matches(r)| == |Matches(content)| + 1
      && LastMarkerPos(r) == |r| - MarkerLength - 1
  {
    AppendMarkerLineMatches(content, link);
    var r := TimestampedContent(content, link);
    MatchesFromExact(r, 0);
  }

  /**
   * When only whitespace follows the last marker, that marker is overwritten in
   * place: same length, same text before and after it, same marker positions.
   */
  lemma TimestampReplaces(content: string, link: string)
    requires |link| == MarkerLength && MarkerAt(link, 0)
    requires content != "" && !HasContentAfterLastTimestamp(content)
    ensures |Matches(content)| > 0
    ensures var p := LastMarkerPos(content); var r := TimestampedContent(content, link);
      && |r| == |content|
      && r[..p] == content[..p] && r[p..p + MarkerLength] == link
      && r[p + MarkerLength..] == content[p + MarkerLength..]
      && Matches(r) == Matches(content) && LastMarkerPos(r) == p
  {
    var p := LastMarkerPos(content);
    ReplaceMarkerKeepsMarkers(content, p, link);
    var r := TimestampedContent(content, link);
    MatchesFromExact(r, 0);
    MatchesFromExact(content, 0);
  }

  /** The replacement branch cannot meet a note without markers: the source's fallback there is dead code. */
  lemma ReplaceFallbackUnreachable(content: string)
    requires !HasContentAfterLastTimestamp(content)
    ensures LastMatchText(content).Some?
  {
  }

  /** After a check-in the last marker is the new one and nothing but whitespace follows it. */
  lemma TimestampEndsWithCheckIn(content: string, link: string)
    requires |link| == MarkerLength && MarkerAt(link, 0)
    ensures var r := TimestampedContent(content, link);
      && |Matches(r)| > 0 && r[LastMarkerPos(r)..LastMarkerPos(r) + MarkerLength] == link
      && !HasContentAfterLastTimestamp(r)
  {
    var r := TimestampedContent(content, link);
    if content == "" {
      assert r == link + "\n";
      MatchesNewlineAppended(link, 0);
      assert MatchesFrom(link, MarkerLength) == [];
      MatchesFromExact(r, 0);
      assert r[MarkerLength..] == "\n";
    } else if HasContentAfterLastTimestamp(content) {
      TimestampAppends(content, link);
      assert r[|r| - 1..] == "\n";
    } else {
      TimestampReplaces(content, link);
      HasContentAfterIff(content);
    }
    var p := LastMarkerPos(r);
    assert AllWhitespace(r[p + MarkerLength..]);
    HasContentAfterIff(r);
  }

  /** Overwriting the last marker with its own text changes nothing. */
  lemma ReplaceWithSameMarker(s: string, link: string)
    requires |link| == MarkerLength && s != "" && !HasContentAfterLastTimestamp(s)
    requires |Matches(s)| > 0 && s[LastMarkerPos(s)..LastMarkerPos(s) + MarkerLength] == link
    ensures TimestampedContent(s, link) == s
  {
    var p := LastMarkerPos(s);
    assert s == s[..p] + s[p..p + MarkerLength] + s[p + MarkerLength..];
  }

  /** Two check-ins in the same minute write the same text as one. */
  lemma TimestampIdempotent(content: string, link: string)
    requires |link| == MarkerLength && MarkerAt(link, 0)
    ensures TimestampedContent(TimestampedContent(content, link), link) == TimestampedContent(content, link)
  {
    var r := TimestampedContent(content, link);
    TimestampEndsWithCheckIn(content, link);
    assert r != "" by {
      assert |Matches(r)| > 0;
    }
    ReplaceWithSameMarker(r, link);
  }

  // ------------------------------------------------------ post-edit separator

  /** `hasContentAddedBelowLastTimestamp`, step by step as written. */
  function HasContentAddedBelowLastTimestamp(before: string, after: string): bool {
    var beforeMatches := Matches(before);
    var afterMatches := Matches(after);
    if |beforeMatches| == 0 || |afterMatches| == 0 || |beforeMatches| != |afterMatches| then false
    else
      var lastBefore := LastMatchText(before).value;
      var lastAfter := LastMatchText(after).value;
      if lastBefore != lastAfter then false
      else
        var index := LastIndexOf(after, lastAfter);
        var tailAfter := SubstringFrom(after, index + |lastAfter|);
        var tailBefore := SubstringFrom(before, index + |lastAfter|);
        |Trim(tailAfter)| > |Trim(tailBefore)|
  }

  /**
   * An addition is reported exactly when both texts have the same non-zero
   * number of markers, the same last marker text, and the trimmed text after
   * the last marker of `after` is longer than the trimmed text of `before`
   * cut at that same offset.
   */
  lemma AddedBelowIff(before: string, after: string)
    ensures HasContentAddedBelowLastTimestamp(before, after) <==>
      && |Matches(before)| > 0 && |Matches(before)| == |Matches(after)|
      && MarkerText(before, LastMarkerPos(before)) == MarkerText(after, LastMarkerPos(after))
      && var cut := LastMarkerPos(after) + MarkerLength;
         |Trim(after[cut..])| > |Trim(SubstringFrom(before, cut))|
  {
    if |Matches(before)| > 0 && |Matches(before)| == |Matches(after)| {
      LastIndexOfLastMatch(after);
      MatchesFromExact(before, 0);
      MatchesFromExact(after, 0);
    }
  }

  /** `${after}` with a line break ensured, then `\n---\n\n`. */
  function WithSeparator(after: string): string {
    (if EndsWith(after, "\n") then after else after + "\n") + "\n---\n\n"
  }

  /** What `postProcessAfterEdit` writes: `None` when it writes nothing. */
  function SeparatedContent(before: string, after: string): Option<string> {
    if HasContentAddedBelowLastTimestamp(before, after) && !Contains(after, "---") then
      Some(WithSeparator(after))
    else None
  }

  /** The separated text keeps `after` as its prefix and ends with a blank line, `---` and a blank line. */
  lemma WithSeparatorShape(after: string)
    ensures var r := WithSeparator(after);
      && r[..|after|] == after
      && EndsWith(r, "\n\n---\n\n")
      && |r| == |after| + (if EndsWith(after, "\n") then 6 else 7)
      && OccursAt(r, "---", |r| - 5)
  {
    var head := if EndsWith(after, "\n") then after else after + "\n";
    assert head[..|after|] == after;
    assert |head| > 0 && head[|head| - 1] == '\n';
    SeparatorTail(head);
  }

  lemma SeparatorTail(head: string)
    requires |head| > 0 && head[|head| - 1] == '\n'
    ensures var r := head + "\n---\n\n";
      && r[..|head|] == head
      && r[|r| - 7..] == "\n\n---\n\n"
      && r[|r| - 5..|r| - 2] == "---"
  {
  }

  /** The separator is written only after an addition and only into text without `---`; it keeps the text and ends it with a blank line, `---` and a blank line. */
  lemma SeparatorShape(before: string, after: string)
    ensures SeparatedContent(before, after).Some? <==>
      HasContentAddedBelowLastTimestamp(before, after) && !Contains(after, "---")
    ensures SeparatedContent(before, after).Some? ==>
      var r := SeparatedContent(before, after).value;
      && r[..|after|] == after
      && EndsWith(r, "\n\n---\n\n")
      && |r| == |after| + (if EndsWith(after, "\n") then 6 else 7)
  {
    WithSeparatorShape(after);
  }

  /** Once the separator is written the text contains `---`, so a second pass writes nothing. */
  lemma SeparatorOnce(before: string, after: string)
    requires SeparatedContent(before, after).Some?
    ensures Contains(SeparatedContent(before, after).value, "---")
    ensures SeparatedContent(before, SeparatedContent(before, after).value) == None
  {
    WithSeparatorShape(after);
  }

  /**
   * The command snapshots the note before the check-in.  When the check-in
   * appended a marker and the editing session kept the marker count, the
   * counts before and after differ and no separator is written.
   */
  lemma AppendedCheckInSuppressesSeparator(content: string, link: string, edited: string)
    requires |link| == MarkerLength && MarkerAt(link, 0)
    requires content != "" && HasContentAfterLastTimestamp(content)
    requires |Matches(edited)| == |Matches(TimestampedContent(content, link))|
    ensures SeparatedContent(content, edited) == None
  {
    TimestampAppends(content, link);
  }
}
