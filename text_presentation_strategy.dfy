/**
 * The older presentation strategy, an enumeration whose two constants each keep their own stored
 * text. It is the revision the unit tests exercise; its insertion rule differs from the newer
 * placeholder strategy's, while its deletion rule is the same.
 */
module TextPresentationStrategy {
  import opened Model
  import ShowPlaceholderStrategy

  /** The two constants of the enumeration. */
  datatype Mode = NoPlaceholder | ShowPlaceholder

  /** Whether an edit removes text only: `before > 0 && count == 0`. */
  predicate IsDeletion(before: int, count: int) {
    before > 0 && count == 0
  }

  /** What an edit may report in placeholder mode: an insertion's new characters lie inside the new text. */
  predicate ValidEdit(text: string, cursorPosition: int, before: int, count: int) {
    !IsDeletion(before, count) ==>
      count >= 0 && ShowPlaceholderStrategy.Max(cursorPosition - before, 0) + count <= |text|
  }

  /**
   * The stored text after an edit in placeholder mode. A deletion removes the same window as the
   * newer strategy. An insertion starts `before` characters left of the cursor, takes `count` new
   * characters there from the new text, and puts them in place of up to `count` stored characters,
   * or appends them when the start lies past the stored text.
   */
  function PreparedText(storedText: string, text: string, cursorPosition: int, before: int, count: int): (r: string)
    requires ValidEdit(text, cursorPosition, before, count)
    ensures !IsDeletion(before, count) ==>
      var start := ShowPlaceholderStrategy.Max(cursorPosition - before, 0);
      && (start < |storedText| ==>
            && |r| == |storedText| - (ShowPlaceholderStrategy.Min(|storedText|, start + count) - start) + count
            && r[..start] == storedText[..start]
            && r[start..start + count] == text[start..start + count]
            && r[start + count..] == storedText[ShowPlaceholderStrategy.Min(|storedText|, start + count)..])
      && (start >= |storedText| ==> r == storedText + text[start..start + count])
  {
    if IsDeletion(before, count) then
      var (start, end) := ShowPlaceholderStrategy.DeletionWindow(|storedText|, cursorPosition, before);
      ShowPlaceholderStrategy.RemoveRange(storedText, start, end)
    else
      var start := ShowPlaceholderStrategy.Max(cursorPosition - before, 0);
      var replacement := text[start..start + count];
      if start < |storedText| then
        var end := ShowPlaceholderStrategy.Min(|storedText|, start + count);
        ShowPlaceholderStrategy.ReplaceRange(storedText, start, end, replacement)
      else
        storedText + replacement
  }

  /** The stored text after `updateStoredText`: the new text as reported, or the placeholder rule. */
  function UpdatedText(mode: Mode, storedText: string, text: string, cursorPosition: int, before: int, count: int): string
    requires mode == ShowPlaceholder ==> ValidEdit(text, cursorPosition, before, count)
  {
    match mode
    case NoPlaceholder => text
    case ShowPlaceholder => PreparedText(storedText, text, cursorPosition, before, count)
  }

  /** `getCaretPosition` of the enumeration, a pure function of the mode and the edit. */
  function CaretPosition(mode: Mode, cursorPosition: int, before: int, count: int, caretPosition: int): int {
    var isDeletion := IsDeletion(before, count);
    match mode
    case NoPlaceholder => if isDeletion then cursorPosition else cursorPosition + count
    case ShowPlaceholder =>
      var correctPos := if cursorPosition > caretPosition then caretPosition else cursorPosition;
      if isDeletion then correctPos else correctPos + count
  }

  /** One constant of the enumeration with the state it carries. */
  class Strategy {
    const mode: Mode
    var storedText: string
    /** Declared by the enumeration and never written. */
    var cursorPosition: int

    constructor (mode: Mode)
      ensures this.mode == mode && storedText == [] && cursorPosition == 0
    {
      this.mode := mode;
      storedText := [];
      cursorPosition := 0;
    }

    /** `setText`. */
    method SetText(text: string)
      modifies this
      ensures storedText == text && cursorPosition == old(cursorPosition)
    {
      storedText := text;
    }

    /** `updateMaskedText`. */
    method UpdateMaskedText(text: string)
      modifies this
      ensures storedText == text && cursorPosition == old(cursorPosition)
    {
      storedText := text;
    }

    /** `getText`. */
    method GetText() returns (text: string)
      ensures text == storedText
    {
      text := storedText;
    }

    /** `updateStoredText`: store the new text, or rebuild it by the placeholder rule. */
    method UpdateStoredText(text: string, cursorPosition: int, before: int, count: int)
      requires mode == ShowPlaceholder ==> ValidEdit(text, cursorPosition, before, count)
      modifies this
      ensures storedText == UpdatedText(mode, old(storedText), text, cursorPosition, before, count)
      ensures this.cursorPosition == old(this.cursorPosition)
    {
      match mode
      case NoPlaceholder =>
        storedText := text;
      case ShowPlaceholder =>
        PrepareTextWithPlaceholder(text, cursorPosition, before, count);
    }

    /** `prepareTextWithPlaceholder`: the placeholder rule, computed step by step on the stored text. */
    method PrepareTextWithPlaceholder(text: string, cursorPosition: int, before: int, count: int)
      requires ValidEdit(text, cursorPosition, before, count)
      modifies this
      ensures storedText == PreparedText(old(storedText), text, cursorPosition, before, count)
      ensures this.cursorPosition == old(this.cursorPosition)
    {
      var isDeletion := before > 0 && count == 0;
      if isDeletion {
        var lastPos := |storedText| - 1;
        var start := cursorPosition;
        if cursorPosition > lastPos {
          start := lastPos - before;
        }
        var end := start + before;
        start := ShowPlaceholderStrategy.Max(0, start);
        end := ShowPlaceholderStrategy.Min(ShowPlaceholderStrategy.Max(0, end), |storedText|);
        assert (start, end) == ShowPlaceholderStrategy.DeletionWindow(|storedText|, cursorPosition, before);
        storedText := ShowPlaceholderStrategy.RemoveRange(storedText, start, end);
      } else {
        var curStart := ShowPlaceholderStrategy.Max(cursorPosition - before, 0);
        var replacement := text[curStart..curStart + count];
        var start := ShowPlaceholderStrategy.Max(cursorPosition - before, 0);
        if start < |storedText| {
          var end := ShowPlaceholderStrategy.Min(|storedText|, start + count);
          storedText := ShowPlaceholderStrategy.ReplaceRange(storedText, start, end, replacement);
        } else {
          storedText := storedText + replacement;
        }
      }
    }

    /** `getCaretPosition`. */
    method GetCaretPosition(cursorPosition: int, before: int, count: int, caretPosition: int) returns (caret: int)
      ensures caret == CaretPosition(mode, cursorPosition, before, count, caretPosition)
    {
      var isDeletion := before > 0 && count == 0;
      match mode
      case NoPlaceholder =>
        caret := if isDeletion then cursorPosition else cursorPosition + count;
      case ShowPlaceholder =>
        var correctPos := if cursorPosition > caretPosition then caretPosition else cursorPosition;
        caret := if isDeletion then correctPos else correctPos + count;
    }
  }

  // ---------------------------------------------------------------------------------------------
  // The two revisions side by side

  /** A deletion in placeholder mode removes exactly what the newer placeholder strategy removes. */
  lemma DeletionAgreesWithNewerStrategy(storedText: string, text: string, cursorPosition: int, before: int, caretPosition: int)
    requires IsDeletion(before, 0)
    ensures var cursorData := CursorData(cursorPosition, before, 0, caretPosition, false);
      PreparedText(storedText, text, cursorPosition, before, 0) ==
        ShowPlaceholderStrategy.PrepareText(true, storedText, text, cursorData)
  {
  }

  /**
   * The enumeration places the caret as the newer strategies do, the deletion flag computed the
   * same way.
   */
  lemma CaretAgreesWithNewerStrategies(mode: Mode, cursorData: CursorData)
    ensures var isDeletion := IsDeletion(cursorData.before, cursorData.count);
      var caret := CaretPosition(mode, cursorData.cursorPosition, cursorData.before, cursorData.count, cursorData.caretPosition);
      && (mode == ShowPlaceholder ==> caret == ShowPlaceholderStrategy.GetCaretPosition(isDeletion, cursorData))
      && (mode == NoPlaceholder ==> caret == (if isDeletion then cursorData.cursorPosition else cursorData.cursorPosition + cursorData.count))
  {
  }

  /**
   * The insertion rules of the two revisions differ: replacing the "b" of "ab" by "X" (cursor 1,
   * one character before, one after, new text "aX") leaves "ab" in the enumeration, which starts
   * one character early and takes the unchanged "a" as the new character, and gives "aX" in the
   * newer strategy.
   */
  lemma InsertionDiffersFromNewerStrategy()
    ensures PreparedText("ab", "aX", 1, 1, 1) == "ab"
    ensures ShowPlaceholderStrategy.PrepareText(false, "ab", "aX", CursorData(1, 1, 1, 1, false)) == "aX"
  {
    assert "aX"[0..1] == "a";
    assert "aX"[1..2] == "X";
    assert "ab"[..0] == [] && "ab"[1..] == "b";
    assert "ab"[..1] == "a" && "ab"[2..] == [];
  }

  // ---------------------------------------------------------------------------------------------
  // The unit-test vectors

  /** Typing "1" after "ЛСИ" with the placeholder shown appends it. */
  lemma InsertAfterPrefix()
    ensures UpdatedText(ShowPlaceholder, "ЛСИ", "ЛСИ10000000000;00.00", 3, 0, 1) == "ЛСИ1"
  {
    assert "ЛСИ10000000000;00.00"[3..4] == "1";
  }

  /** Deleting the last character. */
  lemma DeleteLastChar()
    ensures UpdatedText(ShowPlaceholder, "ЛСИ3456789012;45.78", "ЛСИ3456789012;45.7", 18, 1, 0) == "ЛСИ3456789012;45.7"
  {
    var s := "ЛСИ3456789012;45.78";
    assert ShowPlaceholderStrategy.DeletionWindow(|s|, 18, 1) == (18, 19);
    assert s[..18] == "ЛСИ3456789012;45.7" && s[19..] == [];
  }

  /** Deleting the character before the last one. */
  lemma DeleteBeforeLastChar()
    ensures UpdatedText(ShowPlaceholder, "ЛСИ3456789012;45.7", "ЛСИ3456789012;45.0", 17, 1, 0) == "ЛСИ3456789012;45."
  {
    var s := "ЛСИ3456789012;45.7";
    assert ShowPlaceholderStrategy.DeletionWindow(|s|, 17, 1) == (17, 18);
    assert s[..17] == "ЛСИ3456789012;45." && s[18..] == [];
  }

  /** Deleting two characters in the middle. */
  lemma DeleteTwoChars()
    ensures UpdatedText(ShowPlaceholder, "ЛСИ3456789012;45.78", "ЛСИ34567890;45.78", 11, 2, 0) == "ЛСИ34567890;45.78"
  {
    var s := "ЛСИ3456789012;45.78";
    assert ShowPlaceholderStrategy.DeletionWindow(|s|, 11, 2) == (11, 13);
    assert s[..11] == "ЛСИ34567890" && s[13..] == ";45.78";
  }

  /** Deleting the fourth character. */
  lemma DeleteFourthChar()
    ensures UpdatedText(ShowPlaceholder, "ЛСИ3456789012;45.78", "ЛСИ456789012;45.78", 3, 1, 0) == "ЛСИ456789012;45.78"
  {
    var s := "ЛСИ3456789012;45.78";
    assert ShowPlaceholderStrategy.DeletionWindow(|s|, 3, 1) == (3, 4);
    DeletionRemovesWindow(s, "ЛСИ456789012;45.78", 3, 1);
    var r := ShowPlaceholderStrategy.RemoveRange(s, 3, 4);
    assert r[..3] == s[..3] == "ЛСИ" && r[3..] == s[4..] == "456789012;45.78";
    assert r == r[..3] + r[3..];
  }

  /** A deletion removes exactly the deletion window from the stored text. */
  lemma DeletionRemovesWindow(storedText: string, text: string, cursorPosition: int, before: int)
    requires before > 0
    ensures var w := ShowPlaceholderStrategy.DeletionWindow(|storedText|, cursorPosition, before);
      PreparedText(storedText, text, cursorPosition, before, 0) == ShowPlaceholderStrategy.RemoveRange(storedText, w.0, w.1)
  {
  }

  /** The first unit test, run through the class: set "ЛСИ", then type "1". */
  method InsertThroughStrategy() returns (text: string)
    ensures text == "ЛСИ1"
  {
    var strategy := new Strategy(ShowPlaceholder);
    strategy.SetText("ЛСИ");
    strategy.UpdateStoredText("ЛСИ10000000000;00.00", 3, 0, 1);
    InsertAfterPrefix();
    text := strategy.GetText();
  }
}
