/**
 * The strategy that keeps the mask's placeholder visible. The text field then reports edits of
 * the shown text, placeholder included, so the strategy rebuilds the text the user actually typed
 * from the previously stored text and the edit.
 */
module ShowPlaceholderStrategy {
  import opened Model

  function Max(a: int, b: int): int {
    if a >= b then a else b
  }

  function Min(a: int, b: int): int {
    if a <= b then a else b
  }

  /**
   * The window `[start, end)` of the stored text a deletion removes: up to `before` characters
   * from the reported cursor, or, when the cursor lies past the stored text, up to `before`
   * characters ending one short of its last character; both ends clamped into the stored text.
   */
  function DeletionWindow(storedLength: nat, cursorPosition: int, before: int): (w: (int, int))
    requires before >= 0
    ensures 0 <= w.0 <= w.1 <= storedLength
    ensures w.1 - w.0 <= before
    ensures 0 <= cursorPosition < storedLength ==>
      w == (cursorPosition, Min(cursorPosition + before, storedLength))
    ensures storedLength >= 1 && cursorPosition >= storedLength ==>
      w == (Max(0, storedLength - 1 - before), storedLength - 1)
  {
    var lastPos := storedLength - 1;
    var start := if cursorPosition > lastPos then lastPos - before else cursorPosition;
    var end := start + before;
    (Max(0, start), Min(Max(0, end), storedLength))
  }

  /** `removeRange(start, end)`. */
  function RemoveRange(s: string, start: int, end: int): (r: string)
    requires 0 <= start <= end <= |s|
    ensures |r| == |s| - (end - start)
    ensures r[..start] == s[..start] && r[start..] == s[end..]
  {
    s[..start] + s[end..]
  }

  /** `replaceRange(start, end, replacement)`. */
  function ReplaceRange(s: string, start: int, end: int, replacement: string): (r: string)
    requires 0 <= start <= end <= |s|
    ensures |r| == |s| - (end - start) + |replacement|
    ensures r[..start] == s[..start]
    ensures r[start..start + |replacement|] == replacement
    ensures r[start + |replacement|..] == s[end..]
  {
    s[..start] + replacement + s[end..]
  }

  /** What an edit may report: counts are never negative, and an insertion's new characters lie inside the new text. */
  predicate ValidEdit(isDeletion: bool, input: string, cursorData: CursorData) {
    && cursorData.before >= 0
    && (!isDeletion ==> cursorData.count >= 0 && Max(cursorData.cursorPosition, 0) + cursorData.count <= |input|)
  }

  /**
   * `prepareText`: the stored text after an edit. A deletion removes the deletion window. An
   * insertion takes the `count` new characters at the cursor from the new text and puts them in
   * place of up to `before` stored characters at the cursor, or appends them when the cursor lies
   * past the stored text.
   */
  function PrepareText(isDeletion: bool, storedText: string, input: string, cursorData: CursorData): (r: string)
    requires ValidEdit(isDeletion, input, cursorData)
    ensures isDeletion ==>
      var (start, end) := DeletionWindow(|storedText|, cursorData.cursorPosition, cursorData.before);
      |r| == |storedText| - (end - start) && r[..start] == storedText[..start] && r[start..] == storedText[end..]
    ensures !isDeletion ==>
      var start := Max(cursorData.cursorPosition, 0);
      var replacement := input[start..start + cursorData.count];
      && (start < |storedText| ==>
            var end := Min(|storedText|, start + cursorData.before);
            && |r| == |storedText| - (end - start) + cursorData.count
            && r[..start] == storedText[..start]
            && r[start..start + cursorData.count] == replacement
            && r[start + cursorData.count..] == storedText[end..])
      && (start >= |storedText| ==> r == storedText + replacement)
  {
    if isDeletion then
      var (start, end) := DeletionWindow(|storedText|, cursorData.cursorPosition, cursorData.before);
      RemoveRange(storedText, start, end)
    else
      var start := Max(cursorData.cursorPosition, 0);
      var replacement := input[start..start + cursorData.count];
      if start < |storedText| then
        var end := Min(|storedText|, start + cursorData.before);
        ReplaceRange(storedText, start, end, replacement)
      else
        storedText + replacement
  }

  /**
   * `getCaretPosition`: the smaller of the reported cursor and the last caret, moved past the new
   * characters unless the edit is a deletion.
   */
  function GetCaretPosition(isDeletion: bool, cursorData: CursorData): (r: int)
    ensures var moved := if isDeletion then 0 else cursorData.count;
      && r <= cursorData.cursorPosition + moved
      && r <= cursorData.caretPosition + moved
      && (r == cursorData.cursorPosition + moved || r == cursorData.caretPosition + moved)
  {
    var correctPos := if cursorData.cursorPosition > cursorData.caretPosition then cursorData.caretPosition else cursorData.cursorPosition;
    if isDeletion then correctPos else correctPos + cursorData.count
  }

  /**
   * A deletion whose window lies inside the stored text removes exactly `before` characters at the
   * cursor, and an insertion never touches the stored text before the cursor.
   */
  lemma EditLocality(isDeletion: bool, storedText: string, input: string, cursorData: CursorData)
    requires ValidEdit(isDeletion, input, cursorData)
    ensures var r := PrepareText(isDeletion, storedText, input, cursorData);
      var p := cursorData.cursorPosition;
      && (isDeletion && 0 <= p < |storedText| && p + cursorData.before <= |storedText| ==>
            r == storedText[..p] + storedText[p + cursorData.before..])
      && (!isDeletion ==>
            var start := Min(Max(p, 0), |storedText|);
            |r| >= start && r[..start] == storedText[..start])
  {
    var r := PrepareText(isDeletion, storedText, input, cursorData);
    var p := cursorData.cursorPosition;
    if isDeletion && 0 <= p < |storedText| && p + cursorData.before <= |storedText| {
      assert r == r[..p] + r[p..];
    }
    if !isDeletion && Max(p, 0) >= |storedText| {
      assert r[..|storedText|] == storedText;
    }
  }
}
