/**
 * Types of the collaborators the core is written against. The automaton node (`State`), the
 * transition record (`Next`), `Notation`, `CaretString` and the `Mask` and its `Result` are
 * declared elsewhere in the library; only the shape the core builds and reads is modelled here.
 */
module Model {
  import opened Wrappers

  /**
   * Unicode character classification used by the value states. The classification tables are not
   * modelled: a caller supplies them. Letter-or-digit is, as in Unicode, letter or digit.
   */
  datatype CharClasses = CharClasses(isDigit: char -> bool, isLetter: char -> bool, isCyrillic: char -> bool)
  {
    predicate IsLetterOrDigit(c: char) {
      isLetter(c) || isDigit(c)
    }
  }

  /** A custom grammar symbol: its trigger character, the characters it accepts, and whether it is optional. */
  datatype Notation = Notation(character: char, characterSet: string, isOptional: bool)

  /** The character class of a mandatory value slot. `Ellipsis` repeats the class it inherits. */
  datatype ValueStateType =
    | VNumeric
    | VLiteral
    | VAlphaNumeric
    | VCyrillic
    | VCustom(character: char, characterSet: string)
    | VEllipsis(inheritedType: ValueStateType)

  /** The character class of an optional value slot; there is no ellipsis among them. */
  datatype OptionalStateType =
    | ONumeric
    | OLiteral
    | OAlphaNumeric
    | OCyrillic
    | OCustom(character: char, characterSet: string)

  datatype Kind =
    | Free(freeCharacter: char)
    | Fixed(ownCharacter: char)
    | Value(valueType: ValueStateType)
    | OptionalValue(optionalType: OptionalStateType)
    | EOL

  /** An automaton node and the rest of the chain after it. */
  datatype State = State(kind: Kind, child: Option<State>)

  /**
   * The outcome of offering one character to a node: the node to continue from, the character to
   * put into the formatted text (if any), whether the input character was consumed, and the
   * character to put into the extracted value (if any).
   */
  datatype Next = Next(state: State, insert: Option<char>, pass: bool, value: Option<char>)

  /** The default successor of a node: its child. */
  function ChildState(s: State): (r: State)
    requires s.child.Some?
    ensures r < s
  {
    s.child.value
  }

  /** The one error of the grammar front-end: the format string is malformed. */
  datatype FormatError = FormatError

  /** A text with a caret index into it. */
  datatype CaretString = CaretString(text: string, caretPosition: int)

  /** A compiled mask, identified (as by the mask cache) by its format and its custom notations. */
  datatype Mask = Mask(format: string, customNotations: seq<Notation>)

  /** What applying a mask yields: formatted text with caret, the extracted value, completeness. */
  datatype MaskResult = MaskResult(formattedText: CaretString, extractedValue: string, complete: bool)

  /**
   * One edit as the text field reports it: `before` characters at `cursorPosition` were replaced
   * by `count` new ones; `caretPosition` is the caret the listener computed after the last edit.
   */
  datatype CursorData = CursorData(cursorPosition: int, before: int, count: int, caretPosition: int, autocomplete: bool)
}
