/**
 * The strategy that shows no placeholder: the text field shows exactly the text the user typed,
 * so the stored text is the new text as reported and the caret follows the reported cursor.
 */
module NoPlaceholderStrategy {
  import opened Wrappers
  import opened Model
  import ShowPlaceholderStrategy

  /** `getTextToShow`: the text as it is, whatever the stored text, mask or completion. */
  function GetTextToShow(storedText: string, mask: Option<Mask>, text: string, autocomplete: bool): (r: string)
    ensures r == text
  {
    text
  }

  /** `prepareText`: the new text as reported, whatever the edit and the stored text. */
  function PrepareText(isDeletion: bool, storedText: string, text: string, cursorData: CursorData): (r: string)
    ensures r == text
  {
    text
  }

  /** `getCaretPosition`: the reported cursor, moved past the new characters unless the edit is a deletion. */
  function GetCaretPosition(isDeletion: bool, cursorData: CursorData): int {
    if isDeletion then cursorData.cursorPosition else cursorData.cursorPosition + cursorData.count
  }

  /**
   * The two strategies put the caret in the same place unless the reported cursor lies past the
   * last caret, where the placeholder strategy keeps the last caret instead.
   */
  lemma CaretAgreesWithPlaceholderStrategy(isDeletion: bool, cursorData: CursorData)
    ensures cursorData.cursorPosition <= cursorData.caretPosition ==>
      GetCaretPosition(isDeletion, cursorData) == ShowPlaceholderStrategy.GetCaretPosition(isDeletion, cursorData)
    ensures cursorData.cursorPosition > cursorData.caretPosition ==>
      GetCaretPosition(isDeletion, cursorData) > ShowPlaceholderStrategy.GetCaretPosition(isDeletion, cursorData)
  {
  }
}
