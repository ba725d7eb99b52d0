/**
 * The newer revision of edit reconciliation: a presenter that keeps the text the user typed and
 * the mask last picked, and delegates the index arithmetic to one of the two presentation
 * strategies. Picking a mask and applying it belong to the mask library; they are parameters here.
 */
module TextPresenter {
  import opened Wrappers
  import opened Model
  import ShowPlaceholderStrategy
  import NoPlaceholderStrategy

  /** The two implementations of the presentation-strategy interface. */
  datatype PresentationStrategy = ShowPlaceholder | NoPlaceholder

  /** `isDeletion`: the edit only removed characters. */
  predicate IsDeletion(before: int, count: int) {
    count == 0 && before > 0
  }

  /** What the strategy's `prepareText` needs of an edit to stay inside its strings. */
  predicate ValidEdit(strategy: PresentationStrategy, isDeletion: bool, text: string, cursorData: CursorData) {
    strategy == ShowPlaceholder ==> ShowPlaceholderStrategy.ValidEdit(isDeletion, text, cursorData)
  }

  /** The strategy's `prepareText`. */
  function PrepareText(strategy: PresentationStrategy, isDeletion: bool, storedText: string, text: string, cursorData: CursorData): string
    requires ValidEdit(strategy, isDeletion, text, cursorData)
  {
    match strategy
    case ShowPlaceholder => ShowPlaceholderStrategy.PrepareText(isDeletion, storedText, text, cursorData)
    case NoPlaceholder => NoPlaceholderStrategy.PrepareText(isDeletion, storedText, text, cursorData)
  }

  /** The strategy's `getCaretPosition`. */
  function CaretPosition(strategy: PresentationStrategy, isDeletion: bool, cursorData: CursorData): int {
    match strategy
    case ShowPlaceholder => ShowPlaceholderStrategy.GetCaretPosition(isDeletion, cursorData)
    case NoPlaceholder => NoPlaceholderStrategy.GetCaretPosition(isDeletion, cursorData)
  }

  /** What the presenter hands to `pickMask` and then to the picked mask: text, caret, autocompletion. */
  datatype MaskRequest = MaskRequest(text: string, caretPosition: int, autocomplete: bool)

  /** The request `getMaskResult` builds from the stored text and an edit. */
  function Request(strategy: PresentationStrategy, storedText: string, text: string, cursorData: CursorData): MaskRequest
    requires ValidEdit(strategy, IsDeletion(cursorData.before, cursorData.count), text, cursorData)
  {
    var isDeletion := IsDeletion(cursorData.before, cursorData.count);
    MaskRequest(
      PrepareText(strategy, isDeletion, storedText, text, cursorData),
      CaretPosition(strategy, isDeletion, cursorData),
      cursorData.autocomplete && !isDeletion)
  }

  /** The presenter of one text field. */
  class Presenter {
    const strategy: PresentationStrategy
    var storedText: string
    var mask: Option<Mask>

    constructor (strategy: PresentationStrategy)
      ensures this.strategy == strategy && storedText == [] && mask == None
    {
      this.strategy := strategy;
      storedText := [];
      mask := None;
    }

    /** `setText`. */
    method SetText(text: string)
      modifies this
      ensures storedText == text && mask == old(mask)
    {
      storedText := text;
    }

    /** `getText`. */
    method GetText() returns (text: string)
      ensures text == storedText
    {
      text := storedText;
    }

    /**
     * `getTextToShow`: the strategy's text for display. The placeholder strategy's rendering needs
     * the mask's placeholder and the field's colouring, which are not part of this model; the
     * caller supplies that rendering as `placeholderText`.
     */
    method GetTextToShow(text: string, autocomplete: bool, placeholderText: (string, Option<Mask>, string, bool) -> string)
      returns (shown: string)
      ensures strategy == NoPlaceholder ==> shown == text
      ensures strategy == ShowPlaceholder ==> shown == placeholderText(storedText, mask, text, autocomplete)
    {
      match strategy
      case NoPlaceholder =>
        shown := NoPlaceholderStrategy.GetTextToShow(storedText, mask, text, autocomplete);
      case ShowPlaceholder =>
        shown := placeholderText(storedText, mask, text, autocomplete);
    }

    /**
     * `getMaskResult`: reconcile the stored text with the edit, then pick a mask and apply it. The
     * stored text ends as the formatted text, and the picked mask is remembered.
     */
    method GetMaskResult(text: string, cursorData: CursorData,
                         pickMask: (string, int, bool) -> Mask,
                         apply: (Mask, CaretString, bool) -> MaskResult)
      returns (result: MaskResult)
      requires ValidEdit(strategy, IsDeletion(cursorData.before, cursorData.count), text, cursorData)
      modifies this
      ensures var request := Request(strategy, old(storedText), text, cursorData);
        var picked := pickMask(request.text, request.caretPosition, request.autocomplete);
        && mask == Some(picked)
        && result == apply(picked, CaretString(request.text, request.caretPosition), request.autocomplete)
        && storedText == result.formattedText.text
    {
      var isDeletion := IsDeletion(cursorData.before, cursorData.count);
      storedText := PrepareText(strategy, isDeletion, storedText, text, cursorData);
      result := PickMaskResult(cursorData, pickMask, apply);
    }

    /** `pickMaskResult`: pick a mask for the stored text, apply it, and store the formatted text. */
    method PickMaskResult(cursorData: CursorData,
                          pickMask: (string, int, bool) -> Mask,
                          apply: (Mask, CaretString, bool) -> MaskResult)
      returns (result: MaskResult)
      modifies this
      ensures var isDeletion := IsDeletion(cursorData.before, cursorData.count);
        var caret := CaretPosition(strategy, isDeletion, cursorData);
        var autocomplete := cursorData.autocomplete && !isDeletion;
        var picked := pickMask(old(storedText), caret, autocomplete);
        && mask == Some(picked)
        && result == apply(picked, CaretString(old(storedText), caret), autocomplete)
        && storedText == result.formattedText.text
    {
      var isDeletion := IsDeletion(cursorData.before, cursorData.count);
      var needAutocomplete := cursorData.autocomplete && !isDeletion;
      var adjustedCaretPosition := GetCaretPosition(cursorData);
      var picked := pickMask(storedText, adjustedCaretPosition, needAutocomplete);
      mask := Some(picked);
      result := apply(picked, CaretString(storedText, adjustedCaretPosition), needAutocomplete);
      storedText := result.formattedText.text;
    }

    /** `getCaretPosition`: the strategy's caret for the edit. */
    method GetCaretPosition(cursorData: CursorData) returns (caret: int)
      ensures caret == CaretPosition(strategy, IsDeletion(cursorData.before, cursorData.count), cursorData)
    {
      var isDeletion := IsDeletion(cursorData.before, cursorData.count);
      match strategy
      case ShowPlaceholder =>
        caret := ShowPlaceholderStrategy.GetCaretPosition(isDeletion, cursorData);
      case NoPlaceholder =>
        caret := NoPlaceholderStrategy.GetCaretPosition(isDeletion, cursorData);
    }
  }

  // ---------------------------------------------------------------------------------------------
  // Properties of the request

  /**
   * The mask is asked to autocomplete exactly when the field asks for it and the edit is not a
   * deletion; a deletion never autocompletes.
   */
  lemma AutocompleteUnlessDeletion(strategy: PresentationStrategy, storedText: string, text: string, cursorData: CursorData)
    requires ValidEdit(strategy, IsDeletion(cursorData.before, cursorData.count), text, cursorData)
    ensures Request(strategy, storedText, text, cursorData).autocomplete <==>
      cursorData.autocomplete && !(cursorData.count == 0 && cursorData.before > 0)
  {
  }

  /**
   * Without a placeholder the stored text plays no part: the request is the same whatever was
   * stored, its text is the field's text, and its caret follows the reported cursor.
   */
  lemma NoPlaceholderIgnoresStoredText(storedText: string, otherText: string, text: string, cursorData: CursorData)
    ensures Request(NoPlaceholder, storedText, text, cursorData) == Request(NoPlaceholder, otherText, text, cursorData)
    ensures Request(NoPlaceholder, storedText, text, cursorData).text == text
    ensures Request(NoPlaceholder, storedText, text, cursorData).caretPosition ==
      (if IsDeletion(cursorData.before, cursorData.count) then cursorData.cursorPosition
       else cursorData.cursorPosition + cursorData.count)
  {
  }

  /**
   * With the placeholder shown, deleting `before` characters at a cursor inside the stored text
   * removes exactly those characters, and the caret is the cursor unless the last caret lies
   * further left.
   */
  lemma ShowPlaceholderDeletion(storedText: string, text: string, cursorData: CursorData)
    requires IsDeletion(cursorData.before, cursorData.count)
    requires 0 <= cursorData.cursorPosition < |storedText|
    requires cursorData.cursorPosition + cursorData.before <= |storedText|
    ensures var p := cursorData.cursorPosition;
      var request := Request(ShowPlaceholder, storedText, text, cursorData);
      && request.text == storedText[..p] + storedText[p + cursorData.before..]
      && request.caretPosition == ShowPlaceholderStrategy.Min(p, cursorData.caretPosition)
      && !request.autocomplete
  {
    ShowPlaceholderStrategy.EditLocality(true, storedText, text, cursorData);
  }

  /** Setting a text and reading it back gives that text. */
  method SetThenGet(strategy: PresentationStrategy, t: string) returns (r: string)
    ensures r == t
  {
    var presenter := new Presenter(strategy);
    presenter.SetText(t);
    r := presenter.GetText();
  }
}
