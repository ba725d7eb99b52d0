# Input mask core, modelled in Dafny

This project models the core of an Android input-mask library. A mask format such as
`+7 ([000]) [000]-[00]-[00]` or `[0000]{-}[00]…` describes what a text field accepts. The core
has three parts:

- **Format preparation.** `FormatSanitizer` checks a format for nested groups, cuts it into
  blocks, splits value groups that mix character classes, and sorts each value group so that
  built-in mandatory markers come first. `Compiler` then turns the sanitized format into a
  singly linked chain of states, ending in an end-of-line node or an ellipsis.
- **The states.** A `ValueState` is a mandatory slot: `[0]`, `[A]`, `[_]`, a custom symbol, or
  the ellipsis `[…]`, which loops on itself. An `OptionalValueState` is an optional slot: `[9]`,
  `[a]`, `[-]` or a custom symbol. A `FixedState` is a character of a `{...}` group. Each state
  answers `accept(c)` with the next state, the character to insert, whether `c` was consumed,
  and the character to add to the extracted value.
- **Edit reconciliation.** When the placeholder is shown, the text the user sees differs from the
  text typed. There are two revisions:
  - the older `TextPresentationStrategy`, an enumeration that keeps its own stored text;
  - the newer `TextPresenter`, which delegates to `ShowPlaceholderTextPresentStrategy` or
    `NoPlaceholderTextPresentStrategy`.

  Both rebuild the stored text from an edit event (the cursor, `before` characters removed,
  `count` characters added) and compute where the caret goes. `MaskedTextChangedListener.pickMask`
  chooses between the primary mask and its alternatives by affinity.

Each core source file becomes one Dafny module, named after the file; the two newer strategies'
modules are `ShowPlaceholderStrategy` and `NoPlaceholderStrategy`. Three further modules mirror
no source file: `Wrappers` (the result type), `Model` (the state and edit types shared by the
files) and `Strings` (sequence helpers).


- Pure code is written as functions and lemmas: the states, the compiler, the strategies'
  arithmetic and the sanitizer's helpers.
- Loops are written as methods with invariants and proved equal to a specification function. These
  are the sanitizer's loops (`checkOpenBraces`, `getFormatBlocks`, `divideBlocksWithMixedCharacters`,
  `sortFormatBlocks`, `sanitize`) and the build-and-scan loops of `pickMask`.
- Objects whose fields are updated in place are classes: the enumeration's stored text
  (`TextPresentationStrategy.Strategy`) and the presenter's stored text and mask
  (`TextPresenter.Presenter`).

A state is a value `State(kind, child)`, and `Compiler.Chain` lists the kinds from a state to
the end of the chain.

Three places where revisions or files of the source disagree:

- `MaskedTextChangedListener.kt:175`, `:206` and `:209` call `getTextToShow`, `getMaskResult` and
  `isDeletion` on the presentation-strategy enumeration. In this revision of the source those
  members belong to `TextPresenter`, so the model gives them to `TextPresenter`, and the
  enumeration keeps the members it declares.
- The compiler knows a Cyrillic class, `[Б]` and `[б]` (`Compiler.kt:169`, `:174`, `:231`), which
  the state classes' `StateType` does not declare. The model adds `VCyrillic` and `OCyrillic`. An
  ellipsis that inherits the Cyrillic class accepts nothing, as `ValueState.accepts` falls to
  `else -> false` for every class other than numeric, literal and alphanumeric.
- The sanitizer counts backslashes to decide whether a bracket is escaped. The compiler looks
  only at the previous character. After an escaped backslash `\\`, a `[` therefore opens a value
  group for the sanitizer but is free text for the compiler.
  `Compiler.EscapedBackslashThenBracket` states both halves. The model keeps each file's own rule.

## Model

| member | source | states |
|---|---|---|
| CharConst.ConstantsDistinct | inputmask/src/main/kotlin/com/redmadrobot/inputmask/model/CharConst.kt:3-7 | the escape and the four bracket characters are five distinct characters |
| CharConst.WrapWithMaskBraces | inputmask/src/main/kotlin/com/redmadrobot/inputmask/model/CharConst.kt:9-10 | the result is `s` between `[` and `]`, two characters longer |
| CharConst.AddFixedBraces | inputmask/src/main/kotlin/com/redmadrobot/inputmask/model/CharConst.kt:12-13 | the result is `s` between `{` and `}`, two characters longer |
| CharConst.WrapInjective | inputmask/src/main/kotlin/com/redmadrobot/inputmask/model/CharConst.kt:9-13 | both wrappers are injective, and a value group never equals a fixed group |
| ValueState.Elliptical | inputmask/src/main/kotlin/com/redmadrobot/inputmask/model/state/ValueState.kt:44-46 | the elliptical constructor gives an ellipsis node of the inherited class with no child |
| ValueState.WithChild | inputmask/src/main/kotlin/com/redmadrobot/inputmask/model/state/ValueState.kt:48-50 | a node of the given class with the given child, elliptical exactly when the class is the ellipsis |
| ValueState.NextState | inputmask/src/main/kotlin/com/redmadrobot/inputmask/model/state/ValueState.kt:76-83 | the next state is the node itself exactly when the node is elliptical, otherwise its child |
| ValueState.Accept | inputmask/src/main/kotlin/com/redmadrobot/inputmask/model/state/ValueState.kt:65-74 | a transition exists exactly when the class accepts `c`; it then consumes `c`, inserts it, extracts it, and loops on an ellipsis or moves to the child otherwise |
| ValueState.AcceptsByClass | inputmask/src/main/kotlin/com/redmadrobot/inputmask/model/state/ValueState.kt:52-63 | numeric accepts digits, literal accepts letters, alphanumeric accepts both, Cyrillic accepts Cyrillic letters, and a custom class accepts the members of its character set |
| ValueState.EllipsisAccepts | inputmask/src/main/kotlin/com/redmadrobot/inputmask/model/state/ValueState.kt:56-61 | an ellipsis accepts what its inherited built-in class accepts, and nothing when it inherits any other class |
| ValueState.EllipsisConsumesRun | inputmask/src/main/kotlin/com/redmadrobot/inputmask/model/state/ValueState.kt:65-83 | an ellipsis consumes any run of characters it accepts and stays where it is |
| OptionalValueState.WithChild | inputmask/src/main/kotlin/com/redmadrobot/inputmask/model/state/OptionalValueState.kt:20 | an optional node of the given class with the given child |
| OptionalValueState.Accept | inputmask/src/main/kotlin/com/redmadrobot/inputmask/model/state/OptionalValueState.kt:38-54 | the result always moves to the child; it consumes, inserts and extracts `c` exactly when the class accepts `c`, and otherwise inserts and extracts nothing |
| OptionalValueState.AcceptsByClass | inputmask/src/main/kotlin/com/redmadrobot/inputmask/model/state/OptionalValueState.kt:29-36 | each optional class accepts the same characters as its mandatory counterpart |
| FixedState.WithChild | inputmask/src/main/kotlin/com/redmadrobot/inputmask/model/state/FixedState.kt:19 | a fixed node for its own character with the given child |
| FixedState.Accept | inputmask/src/main/kotlin/com/redmadrobot/inputmask/model/state/FixedState.kt:21-36 | the result always moves to the child, inserts and extracts the node's own character, and consumes `c` exactly when `c` is that character |
| FixedState.Autocomplete | inputmask/src/main/kotlin/com/redmadrobot/inputmask/model/state/FixedState.kt:38-43 | autocompletion moves to the child and inserts and extracts the node's own character without consuming anything |
| FixedState.AcceptVersusAutocomplete | inputmask/src/main/kotlin/com/redmadrobot/inputmask/model/state/FixedState.kt:21-43 | accepting any character other than the node's own is the same as autocompleting; accepting the node's own character differs from it only in consuming the character |
| FormatSanitizer.BraceScanMeaning | inputmask/src/main/kotlin/com/redmadrobot/inputmask/helper/FormatSanitizer.kt:197-230 | while no clash has occurred, the scan's escape flag is set exactly after an odd run of backslashes, and each group flag is set exactly when a group of that kind is open |
| FormatSanitizer.NoClashIffNoNestedGroup | inputmask/src/main/kotlin/com/redmadrobot/inputmask/helper/FormatSanitizer.kt:197-230 | the scan meets no clash exactly when no group opens inside an open group of the same kind |
| FormatSanitizer.CheckOpenBraces | inputmask/src/main/kotlin/com/redmadrobot/inputmask/helper/FormatSanitizer.kt:197-230 | the loop accepts a format exactly when it has no nested group (both directions) |
| FormatSanitizer.FirstClashIsNested | inputmask/src/main/kotlin/com/redmadrobot/inputmask/helper/FormatSanitizer.kt:207-224 | the first clash the loop meets (where it throws) is a nested group |
| FormatSanitizer.FormatBlocksPartition | inputmask/src/main/kotlin/com/redmadrobot/inputmask/helper/FormatSanitizer.kt:67-103 | the blocks are non-empty and concatenate back to the format; a boundary lies before each unescaped opening bracket and after each unescaped closing bracket, and nowhere else |
| FormatSanitizer.GetFormatBlocks | inputmask/src/main/kotlin/com/redmadrobot/inputmask/helper/FormatSanitizer.kt:67-103 | the character loop produces exactly the blocks `FormatBlocks` specifies |
| FormatSanitizer.RemoveAllMaskBraces | inputmask/src/main/kotlin/com/redmadrobot/inputmask/helper/FormatSanitizer.kt:191-192 | the result contains no `[` and no `]` |
| FormatSanitizer.DivideBlockSingleClass | inputmask/src/main/kotlin/com/redmadrobot/inputmask/helper/FormatSanitizer.kt:105-159 | each group cut from a `[` block is bracketed and holds symbols of one class only |
| FormatSanitizer.DivideBlockContent | inputmask/src/main/kotlin/com/redmadrobot/inputmask/helper/FormatSanitizer.kt:105-159 | dividing a well-formed value group loses and adds no symbol: the groups without brackets spell the group's symbols in order |
| FormatSanitizer.DivideExample | inputmask/src/main/kotlin/com/redmadrobot/inputmask/helper/FormatSanitizer.kt:15-18 | `[0000Aa]` is divided into `[0000]` and `[Aa]` |
| FormatSanitizer.UnclosedGroupDropped | inputmask/src/main/kotlin/com/redmadrobot/inputmask/helper/FormatSanitizer.kt:108-151 | a value group that is never closed emits nothing |
| FormatSanitizer.DivideBlocksWithMixedCharacters | inputmask/src/main/kotlin/com/redmadrobot/inputmask/helper/FormatSanitizer.kt:105-159 | the loop over blocks produces exactly `DivideBlocks`: other blocks pass through, and `[` blocks are divided |
| FormatSanitizer.DivideMaskBlock | inputmask/src/main/kotlin/com/redmadrobot/inputmask/helper/FormatSanitizer.kt:108-151 | the inner character loop produces exactly the groups of the character-by-character divider |
| FormatSanitizer.DivideBlocksSingleClass | inputmask/src/main/kotlin/com/redmadrobot/inputmask/helper/FormatSanitizer.kt:105-159 | every `[` group in the divided block list is single-class |
| FormatSanitizer.InsertChar | inputmask/src/main/kotlin/com/redmadrobot/inputmask/helper/FormatSanitizer.kt:194-195 | inserting into a sorted string keeps it sorted and adds exactly that character |
| FormatSanitizer.SortChars | inputmask/src/main/kotlin/com/redmadrobot/inputmask/helper/FormatSanitizer.kt:194-195 | the result is sorted by character code and is a permutation of the input |
| FormatSanitizer.SortedUnique | inputmask/src/main/kotlin/com/redmadrobot/inputmask/helper/FormatSanitizer.kt:194-195 | two sorted strings with the same characters are equal |
| FormatSanitizer.SortedPermutation | inputmask/src/main/kotlin/com/redmadrobot/inputmask/helper/FormatSanitizer.kt:194-195 | sorting gives the unique sorted permutation of the input |
| FormatSanitizer.SortFormatBlocks | inputmask/src/main/kotlin/com/redmadrobot/inputmask/helper/FormatSanitizer.kt:161-187 | the loop replaces every block by its sorted form, in place |
| FormatSanitizer.SwapRoundTrip | inputmask/src/main/kotlin/com/redmadrobot/inputmask/helper/FormatSanitizer.kt:174-177 | swapping `_`/`-` to `A`/`a` and back is the identity on a group without letter markers |
| FormatSanitizer.SwapBackRoundTrip | inputmask/src/main/kotlin/com/redmadrobot/inputmask/helper/FormatSanitizer.kt:174-177 | swapping back and then forward again is the identity on a group without optional alphanumeric markers |
| FormatSanitizer.SortBlockGroup | inputmask/src/main/kotlin/com/redmadrobot/inputmask/helper/FormatSanitizer.kt:161-187 | a sorted `[` block is a bracketed group whose contents are a permutation of the block's symbols, sorted by code, or by code with `_` and `-` counted as `A` and `a` when it holds no `0` and no letter marker |
| FormatSanitizer.SortBlockMandatoryFirst | inputmask/src/main/kotlin/com/redmadrobot/inputmask/helper/FormatSanitizer.kt:161-187 | in a sorted single-class group, every built-in mandatory marker (`0`, `A`, `_`) precedes its optional counterpart (`9`, `a`, `-`) and the ellipsis follows every built-in marker |
| FormatSanitizer.SortPlainGroup | inputmask/src/main/kotlin/com/redmadrobot/inputmask/helper/FormatSanitizer.kt:166-173 | a group holding `0` or a letter marker sorts to its symbols in code order |
| FormatSanitizer.SortSwappedGroup | inputmask/src/main/kotlin/com/redmadrobot/inputmask/helper/FormatSanitizer.kt:174-177 | a group with neither `0` nor a letter marker is sorted with `_` and `-` counted as `A` and `a` |
| FormatSanitizer.SortBlockExample | inputmask/src/main/kotlin/com/redmadrobot/inputmask/helper/FormatSanitizer.kt:33-41 | `[0909]` is sorted to `[0099]` |
| FormatSanitizer.SortBlockSwappedExample | inputmask/src/main/kotlin/com/redmadrobot/inputmask/helper/FormatSanitizer.kt:174-177 | `[-_]` is sorted to `[_-]` |
| FormatSanitizer.SortBlocksShape | inputmask/src/main/kotlin/com/redmadrobot/inputmask/helper/FormatSanitizer.kt:161-187 | sorting keeps the number and order of the blocks and sorts each on its own |
| FormatSanitizer.Sanitize | inputmask/src/main/kotlin/com/redmadrobot/inputmask/helper/FormatSanitizer.kt:61-65 | `sanitize` fails exactly on a nested group, and otherwise joins the divided and sorted blocks |
| FormatSanitizer.SanitizedGroupsOrdered | inputmask/src/main/kotlin/com/redmadrobot/inputmask/helper/FormatSanitizer.kt:61-65 | in every value group of a sanitized format, each built-in mandatory marker precedes its optional counterpart and the ellipsis follows every built-in marker |
| FormatSanitizer.CustomMarkersByCode | inputmask/src/main/kotlin/com/redmadrobot/inputmask/helper/FormatSanitizer.kt:172-177 | custom markers are sorted by character code alone: `[X#]` becomes `[#X]` |
| FormatSanitizer.EscapedCloseLost | inputmask/src/main/kotlin/com/redmadrobot/inputmask/helper/FormatSanitizer.kt:191-192 | `[\]]`, a value group holding an escaped `]`, sanitizes to `[\]`, because removing the brackets also removes the escaped one |
| FormatSanitizer.EscapedCloseUnclosed | inputmask/src/main/kotlin/com/redmadrobot/inputmask/helper/FormatSanitizer.kt:108-151 | `[\]`, whose closing bracket is escaped, is a group never closed, so it sanitizes to the empty format |
| FormatSanitizer.SanitizeNotIdempotent | inputmask/src/main/kotlin/com/redmadrobot/inputmask/helper/FormatSanitizer.kt:61-65 | sanitizing a sanitized format can change it again: `sanitize(sanitize("[\]]"))` differs from `sanitize("[\]]")` |
| Compiler.Chain | inputmask/src/main/kotlin/com/redmadrobot/inputmask/helper/Compiler.kt:101-201 | the kinds along a chain start with the node's own kind |
| Compiler.FirstNotation | inputmask/src/main/kotlin/com/redmadrobot/inputmask/helper/Compiler.kt:238-256 | the index of the first custom notation triggered by `c`, or none exactly when no notation has `c` as its trigger |
| Compiler.DetermineTypeWithCustomNotations | inputmask/src/main/kotlin/com/redmadrobot/inputmask/helper/Compiler.kt:251-256 | succeeds exactly when the previous character triggers a notation, and then gives the custom class of the first such notation |
| Compiler.CompileFrom | inputmask/src/main/kotlin/com/redmadrobot/inputmask/helper/Compiler.kt:101-201 | a successful compilation is a well-formed chain, ending in an end-of-line node or an ellipsis, no longer than the format plus one |
| Compiler.GetValueState | inputmask/src/main/kotlin/com/redmadrobot/inputmask/helper/Compiler.kt:203-212 | a mandatory slot followed by the rest of the group compiles to a well-formed chain |
| Compiler.GetOptionalValueState | inputmask/src/main/kotlin/com/redmadrobot/inputmask/helper/Compiler.kt:214-223 | an optional slot followed by the rest of the group compiles to a well-formed chain |
| Compiler.CompileWithCustomNotations | inputmask/src/main/kotlin/com/redmadrobot/inputmask/helper/Compiler.kt:238-249 | a character that triggers no notation is a format error; otherwise the chain is well formed |
| Compiler.Compile | inputmask/src/main/kotlin/com/redmadrobot/inputmask/helper/Compiler.kt:89-99 | a nested group is a format error, and a compiled format is a well-formed chain |
| Compiler.CompileFreeText | inputmask/src/main/kotlin/com/redmadrobot/inputmask/helper/Compiler.kt:192-200 | text without syntax characters compiles to one free node per character, in order, and an end-of-line node |
| Compiler.CompileFixedGroup | inputmask/src/main/kotlin/com/redmadrobot/inputmask/helper/Compiler.kt:120-151 | `{t}` compiles to one fixed node per character of `t`, followed by the compiled rest of the format |
| Compiler.CompileFixedRun | inputmask/src/main/kotlin/com/redmadrobot/inputmask/helper/Compiler.kt:180-190 | inside a fixed group, each character becomes a fixed node until the closing `}` |
| Compiler.CompileFixedChar | inputmask/src/main/kotlin/com/redmadrobot/inputmask/helper/Compiler.kt:180-190 | in a fixed group, a non-syntax character becomes a fixed node whose child is the compiled rest of the group |
| Compiler.CompileValueGroup | inputmask/src/main/kotlin/com/redmadrobot/inputmask/helper/Compiler.kt:109-140 | `[t]` of built-in symbols compiles to one slot per symbol, each of its symbol's class, followed by the compiled rest |
| Compiler.CompileValueRun | inputmask/src/main/kotlin/com/redmadrobot/inputmask/helper/Compiler.kt:165-177 | inside a value group, each built-in symbol becomes a slot until the closing `]` |
| Compiler.CompileSymbol | inputmask/src/main/kotlin/com/redmadrobot/inputmask/helper/Compiler.kt:165-177 | a built-in symbol becomes a slot of its class whose child is the compiled rest of the group |
| Compiler.CompileEllipsis | inputmask/src/main/kotlin/com/redmadrobot/inputmask/helper/Compiler.kt:171 | an ellipsis succeeds exactly when its class can be inherited, becomes a childless elliptical slot, and ignores the rest of the format |
| Compiler.InheritedTypeOfSymbol | inputmask/src/main/kotlin/com/redmadrobot/inputmask/helper/Compiler.kt:226-236 | `DetermineInheritedType`: an ellipsis inherits the mandatory class of a built-in symbol before it, the alphanumeric class after `…` or `[`, and the custom class of a custom symbol before it, and fails after an unknown character |
| Compiler.CompileOpenEllipsis | inputmask/src/main/kotlin/com/redmadrobot/inputmask/helper/Compiler.kt:232-233 | the format `[…` compiles to a childless alphanumeric ellipsis, whatever follows it |
| Compiler.MandatoryOf | inputmask/src/main/kotlin/com/redmadrobot/inputmask/helper/Compiler.kt:226-236 | an optional class maps to a mandatory class that is never the ellipsis |
| Compiler.CompileCustomSymbol | inputmask/src/main/kotlin/com/redmadrobot/inputmask/helper/Compiler.kt:238-249 | a custom symbol with no notation is an error; with one, it becomes an optional or mandatory custom slot as the notation says |
| Compiler.CompileEscaped | inputmask/src/main/kotlin/com/redmadrobot/inputmask/helper/Compiler.kt:153-162 | an escaped syntax character outside a group becomes a free node holding it |
| Compiler.CompileEscapedFixed | inputmask/src/main/kotlin/com/redmadrobot/inputmask/helper/Compiler.kt:153-190 | inside a fixed group, an escaped syntax character becomes a fixed node holding it, and the group goes on |
| Compiler.CompileEscapedValue | inputmask/src/main/kotlin/com/redmadrobot/inputmask/helper/Compiler.kt:153-177 | inside a value group, an escaped syntax character is looked up among the custom notations: an error without a notation for it, otherwise the notation's optional or mandatory custom slot over the rest of the group |
| Compiler.EscapedBackslashThenBracket | inputmask/src/main/kotlin/com/redmadrobot/inputmask/helper/Compiler.kt:109-162 | in `\\[`, the sanitizer sees the bracket as unescaped, while the compiler makes it a free node |
| ShowPlaceholderStrategy.DeletionWindow | inputmask/src/main/kotlin/com/redmadrobot/inputmask/helper/ShowPlaceholderTextPresentStrategy.kt:28-42 | the window lies inside the stored text and is at most `before` wide; for a cursor inside the text it is `[cursor, min(cursor + before, storedLength))`; for a cursor past the text it is up to `before` characters ending one short of the last one, so the last character survives |
| ShowPlaceholderStrategy.RemoveRange | inputmask/src/main/kotlin/com/redmadrobot/inputmask/helper/ShowPlaceholderTextPresentStrategy.kt:41 | keeps the text before `start` and after `end` and nothing else |
| ShowPlaceholderStrategy.ReplaceRange | inputmask/src/main/kotlin/com/redmadrobot/inputmask/helper/ShowPlaceholderTextPresentStrategy.kt:52 | the text before `start`, then the replacement, then the text from `end` |
| ShowPlaceholderStrategy.PrepareText | inputmask/src/main/kotlin/com/redmadrobot/inputmask/helper/ShowPlaceholderTextPresentStrategy.kt:22-58 | a deletion removes the deletion window; an insertion puts the `count` new characters at the cursor in place of up to `before` stored characters, or appends them past the end |
| ShowPlaceholderStrategy.GetCaretPosition | inputmask/src/main/kotlin/com/redmadrobot/inputmask/helper/ShowPlaceholderTextPresentStrategy.kt:60-63 | the caret is the smaller of cursor and last caret, moved past the new characters unless the edit is a deletion |
| ShowPlaceholderStrategy.EditLocality | inputmask/src/main/kotlin/com/redmadrobot/inputmask/helper/ShowPlaceholderTextPresentStrategy.kt:26-58 | a deletion inside the text removes exactly `before` characters at the cursor; an insertion leaves the text before the cursor untouched |
| NoPlaceholderStrategy.GetTextToShow | inputmask/src/main/kotlin/com/redmadrobot/inputmask/helper/NoPlaceholderTextPresentStrategy.kt:5-7 | the text shown is the text, whatever the stored text, mask or autocompletion |
| NoPlaceholderStrategy.PrepareText | inputmask/src/main/kotlin/com/redmadrobot/inputmask/helper/NoPlaceholderTextPresentStrategy.kt:9-11 | the stored text becomes the new text, whatever the edit |
| NoPlaceholderStrategy.CaretAgreesWithPlaceholderStrategy | inputmask/src/main/kotlin/com/redmadrobot/inputmask/helper/NoPlaceholderTextPresentStrategy.kt:13-15 | `NoPlaceholderStrategy.GetCaretPosition` (the cursor, moved past the new characters unless the edit is a deletion) equals the placeholder strategy's when the cursor is not past the last caret, and lies beyond it otherwise |
| TextPresentationStrategy.PreparedText | inputmask/src/main/kotlin/com/redmadrobot/inputmask/helper/TextPresentationStrategy.kt:47-78 | an insertion puts the `count` characters found `before` positions left of the cursor in place of up to `count` stored characters there, or appends them past the end |
| TextPresentationStrategy.Strategy.constructor | inputmask/src/main/kotlin/com/redmadrobot/inputmask/helper/TextPresentationStrategy.kt:11-13 | a constant starts with empty stored text |
| TextPresentationStrategy.Strategy.SetText | inputmask/src/main/kotlin/com/redmadrobot/inputmask/helper/TextPresentationStrategy.kt:15-17 | the stored text becomes the given text |
| TextPresentationStrategy.Strategy.UpdateMaskedText | inputmask/src/main/kotlin/com/redmadrobot/inputmask/helper/TextPresentationStrategy.kt:19-22 | the stored text becomes the formatted text |
| TextPresentationStrategy.Strategy.GetText | inputmask/src/main/kotlin/com/redmadrobot/inputmask/helper/TextPresentationStrategy.kt:24-26 | returns the stored text |
| TextPresentationStrategy.Strategy.UpdateStoredText | inputmask/src/main/kotlin/com/redmadrobot/inputmask/helper/TextPresentationStrategy.kt:28-33 | without placeholder the stored text becomes the new text; with placeholder it becomes `PreparedText` of the old stored text |
| TextPresentationStrategy.Strategy.PrepareTextWithPlaceholder | inputmask/src/main/kotlin/com/redmadrobot/inputmask/helper/TextPresentationStrategy.kt:47-78 | the step-by-step update leaves exactly `PreparedText` of the old stored text |
| TextPresentationStrategy.Strategy.GetCaretPosition | inputmask/src/main/kotlin/com/redmadrobot/inputmask/helper/TextPresentationStrategy.kt:35-45 | the caret follows the mode's rule |
| TextPresentationStrategy.DeletionAgreesWithNewerStrategy | inputmask/src/main/kotlin/com/redmadrobot/inputmask/helper/TextPresentationStrategy.kt:51-65 | a deletion removes exactly what the newer placeholder strategy removes |
| TextPresentationStrategy.CaretAgreesWithNewerStrategies | inputmask/src/main/kotlin/com/redmadrobot/inputmask/helper/TextPresentationStrategy.kt:35-45 | the enumeration's `CaretPosition` places the caret, in each mode, as the corresponding newer strategy does |
| TextPresentationStrategy.InsertionDiffersFromNewerStrategy | inputmask/src/main/kotlin/com/redmadrobot/inputmask/helper/TextPresentationStrategy.kt:66-77 | replacing `b` of `ab` by `X` leaves `ab` in this revision and gives `aX` in the newer one |
| TextPresentationStrategy.InsertAfterPrefix | inputmask/src/test/kotlin/com/redmadrobot/inputmask/helper/TextPresenterTest.kt:8-15 | typing `1` after `ЛСИ` gives `ЛСИ1` |
| TextPresentationStrategy.DeleteLastChar | inputmask/src/test/kotlin/com/redmadrobot/inputmask/helper/TextPresenterTest.kt:17-24 | deleting the last character gives the expected text |
| TextPresentationStrategy.DeleteBeforeLastChar | inputmask/src/test/kotlin/com/redmadrobot/inputmask/helper/TextPresenterTest.kt:26-33 | deleting the character before the last gives the expected text |
| TextPresentationStrategy.DeleteTwoChars | inputmask/src/test/kotlin/com/redmadrobot/inputmask/helper/TextPresenterTest.kt:35-42 | deleting two characters in the middle gives the expected text |
| TextPresentationStrategy.DeleteFourthChar | inputmask/src/test/kotlin/com/redmadrobot/inputmask/helper/TextPresenterTest.kt:44-51 | deleting the fourth character gives the expected text |
| TextPresentationStrategy.InsertThroughStrategy | inputmask/src/test/kotlin/com/redmadrobot/inputmask/helper/TextPresenterTest.kt:8-15 | setting `ЛСИ` on the class and typing `1` leaves `ЛСИ1` stored |
| TextPresenter.Presenter.constructor | inputmask/src/main/kotlin/com/redmadrobot/inputmask/helper/TextPresenter.kt:14-15 | a presenter starts with empty stored text and no mask |
| TextPresenter.Presenter.SetText | inputmask/src/main/kotlin/com/redmadrobot/inputmask/helper/TextPresenter.kt:17-19 | the stored text becomes the given text and the mask is unchanged |
| TextPresenter.Presenter.GetText | inputmask/src/main/kotlin/com/redmadrobot/inputmask/helper/TextPresenter.kt:21-23 | returns the stored text |
| TextPresenter.Presenter.GetTextToShow | inputmask/src/main/kotlin/com/redmadrobot/inputmask/helper/TextPresenter.kt:25-26 | without placeholder the text itself; with placeholder the placeholder rendering of the stored text and mask |
| TextPresenter.Presenter.GetMaskResult | inputmask/src/main/kotlin/com/redmadrobot/inputmask/helper/TextPresenter.kt:28-32 | the stored text is reconciled, the mask picked for it is remembered, the result is that mask applied to the reconciled text and caret, and the stored text becomes the formatted text |
| TextPresenter.Presenter.PickMaskResult | inputmask/src/main/kotlin/com/redmadrobot/inputmask/helper/TextPresenter.kt:37-48 | picks and remembers a mask for the stored text, applies it with autocompletion unless the edit is a deletion, and stores the formatted text |
| TextPresenter.Presenter.GetCaretPosition | inputmask/src/main/kotlin/com/redmadrobot/inputmask/helper/TextPresenter.kt:50-53 | the caret is the strategy's caret for the edit |
| TextPresenter.AutocompleteUnlessDeletion | inputmask/src/main/kotlin/com/redmadrobot/inputmask/helper/TextPresenter.kt:34-40 | with `IsDeletion` (no characters added and at least one removed), the mask autocompletes exactly when the field asks for it and the edit is not a deletion |
| TextPresenter.NoPlaceholderIgnoresStoredText | inputmask/src/main/kotlin/com/redmadrobot/inputmask/helper/TextPresenter.kt:28-53 | without placeholder, the request is the same whatever was stored: the text as typed, and the caret after the new characters |
| TextPresenter.ShowPlaceholderDeletion | inputmask/src/main/kotlin/com/redmadrobot/inputmask/helper/TextPresenter.kt:28-53 | with placeholder, a deletion inside the text removes exactly `before` characters at the cursor, puts the caret at the smaller of cursor and last caret, and never autocompletes |
| TextPresenter.SetThenGet | inputmask/src/main/kotlin/com/redmadrobot/inputmask/helper/TextPresenter.kt:17-23 | reading the text back after setting it gives that text |
| MaskedTextChangedListener.InsertAt | inputmask/src/main/kotlin/com/redmadrobot/inputmask/MaskedTextChangedListener.kt:263-267 | `add(i, x)` puts `x` at `i`, keeps the entries before `i` and shifts the tail by one |
| MaskedTextChangedListener.InsertAtAddsEntry | inputmask/src/main/kotlin/com/redmadrobot/inputmask/MaskedTextChangedListener.kt:263-267 | inserting adds exactly `x` to the entries |
| MaskedTextChangedListener.InsertAtKeepsOrder | inputmask/src/main/kotlin/com/redmadrobot/inputmask/MaskedTextChangedListener.kt:254-267 | inserting between higher and lower affinities keeps the list sorted |
| MaskedTextChangedListener.FirstBelow | inputmask/src/main/kotlin/com/redmadrobot/inputmask/MaskedTextChangedListener.kt:252 | the first position with lower affinity: everything before it is at least as high |
| MaskedTextChangedListener.InsertBehindEqual | inputmask/src/main/kotlin/com/redmadrobot/inputmask/MaskedTextChangedListener.kt:252 | inserting into a sorted list keeps it sorted and one entry longer |
| MaskedTextChangedListener.SortByDescendingAffinity | inputmask/src/main/kotlin/com/redmadrobot/inputmask/MaskedTextChangedListener.kt:252 | the result is sorted by descending affinity and as long as the input |
| MaskedTextChangedListener.SortIsPermutation | inputmask/src/main/kotlin/com/redmadrobot/inputmask/MaskedTextChangedListener.kt:252 | the sorted list is a permutation of the input |
| MaskedTextChangedListener.SortIsStable | inputmask/src/main/kotlin/com/redmadrobot/inputmask/MaskedTextChangedListener.kt:252 | the sort is stable: the entries of each affinity keep their order |
| MaskedTextChangedListener.InsertBehindEqualSame | inputmask/src/main/kotlin/com/redmadrobot/inputmask/MaskedTextChangedListener.kt:252 | an inserted entry comes last among the entries of its affinity |
| MaskedTextChangedListener.InsertBehindEqualOther | inputmask/src/main/kotlin/com/redmadrobot/inputmask/MaskedTextChangedListener.kt:252 | insertion leaves the entries of every other affinity as they were |
| MaskedTextChangedListener.FirstAtMostIs | inputmask/src/main/kotlin/com/redmadrobot/inputmask/MaskedTextChangedListener.kt:254-261 | the scan's stopping point is the only position with only higher affinities before it and one at most the primary's at it |
| MaskedTextChangedListener.FirstAtMost | inputmask/src/main/kotlin/com/redmadrobot/inputmask/MaskedTextChangedListener.kt:254-261 | the insertion index: every entry before it has a strictly higher affinity, and the entry at it has one at most the primary's |
| MaskedTextChangedListener.Alternatives | inputmask/src/main/kotlin/com/redmadrobot/inputmask/MaskedTextChangedListener.kt:245-250 | one entry per alternative format, in order, with the mask's affinity |
| MaskedTextChangedListener.SortKeepsEntries | inputmask/src/main/kotlin/com/redmadrobot/inputmask/MaskedTextChangedListener.kt:252 | an entry is in the sorted list exactly when it is in the input |
| MaskedTextChangedListener.RankingEntries | inputmask/src/main/kotlin/com/redmadrobot/inputmask/MaskedTextChangedListener.kt:252-267 | the ranking holds each candidate once: the alternatives and the primary |
| MaskedTextChangedListener.RankingMember | inputmask/src/main/kotlin/com/redmadrobot/inputmask/MaskedTextChangedListener.kt:252-267 | an entry is in the ranking exactly when it is the primary or an alternative |
| MaskedTextChangedListener.RankingShape | inputmask/src/main/kotlin/com/redmadrobot/inputmask/MaskedTextChangedListener.kt:252-267 | the ranking is sorted, with the primary behind exactly the alternatives of strictly higher affinity |
| MaskedTextChangedListener.PrimaryLastIffBeaten | inputmask/src/main/kotlin/com/redmadrobot/inputmask/MaskedTextChangedListener.kt:254-267 | the primary goes last exactly when every alternative has a higher affinity |
| MaskedTextChangedListener.RankingHeadIsBest | inputmask/src/main/kotlin/com/redmadrobot/inputmask/MaskedTextChangedListener.kt:252-269 | the head of the ranking is a candidate of the highest affinity |
| MaskedTextChangedListener.PrimaryWinsTies | inputmask/src/main/kotlin/com/redmadrobot/inputmask/MaskedTextChangedListener.kt:254-269 | the primary heads the ranking exactly when no alternative beats it, so it wins ties |
| MaskedTextChangedListener.PickedMaskIsBest | inputmask/src/main/kotlin/com/redmadrobot/inputmask/MaskedTextChangedListener.kt:234-270 | the picked mask is the primary without alternatives or when none beats it, is always one of the candidates, and has the highest affinity |
| MaskedTextChangedListener.PickMask | inputmask/src/main/kotlin/com/redmadrobot/inputmask/MaskedTextChangedListener.kt:234-270 | the build, sort, scan and insert steps return exactly `PickedMask` |

## Left out

- Applying a mask (`Mask.apply`) and its cache of compiled masks are not part of this model. A
  mask is the pair of its format and custom notations. `pickMask` and `apply` reach the presenter
  as function parameters, and the affinity computation reaches `pickMask` as one.
- TextPresenter.Presenter.GetTextToShow: the placeholder strategy's rendering needs the mask's
  placeholder and the field's colours, which are not modelled. It is a parameter, so the contract
  only says which rendering is chosen.
- The listener's Android plumbing is left out: `TextWatcher` callbacks, focus handling, the
  `EditText` reference, listeners and logging. So are the `toString` renderings of states.
- Character classes (`isDigit`, `isLetter`, `isLetterOrDigit` and the Cyrillic test) are
  parameters in `CharClasses`. Unicode tables are not modelled.
- FormatSanitizer.Sanitize: idempotence is not promised, because the source does not keep it.
  `removeAllMaskBraces` also removes an escaped `]`, and the backslash left behind then escapes
  the group's closing bracket on a second pass. So `[\]]` sanitizes to `[\]`, and `[\]` sanitizes
  to the empty format. `FormatSanitizer.SanitizeNotIdempotent` states this.
- FormatSanitizer.SanitizedGroupsOrdered and FormatSanitizer.SortBlockMandatoryFirst promise the
  mandatory-first order for the built-in markers only. The sanitizer never sees the custom
  notations, so custom markers are ordered by character code, not by whether their notation is
  optional: `[X#]` becomes `[#X]` whichever of the two is the optional one
  (`FormatSanitizer.CustomMarkersByCode`).
- Kotlin `Int` overflow of cursor arithmetic is not modelled: positions are unbounded integers.
- Kotlin strings and `Char` are UTF-16 code units, while a Dafny `char` is a Unicode scalar value.
  So for text holding a character outside the Basic Multilingual Plane,
  `ShowPlaceholderStrategy.PrepareText`, `ShowPlaceholderStrategy.DeletionWindow`,
  `TextPresentationStrategy.PreparedText` and `FormatSanitizer.SortChars` count lengths and
  positions, and order characters, by scalar value rather than by code unit as the source does.
  The field's cursor, `before` and `count` are taken to be in the same units as the model's strings.
- The two presentation-strategy interfaces are datatypes whose constants dispatch with `match`.
- `substring` and `replaceRange` throw on an out-of-range index. The model uses preconditions
  (`ValidEdit`) that exclude those indices instead of modelling the exception. An Android edit
  event always satisfies them.
- The stable library sort behind `sortByDescending` is written as an insertion sort on sequences.
  `SortIsStable` states stability.
- TextPresentationStrategy.Strategy: in the source each enumeration constant is one
  process-wide object, so its stored text is a single field shared by every listener and test
  that uses the constant. The model gives each use its own instance, created with empty stored
  text, so interference between two fields that use the same constant is not modelled.
- The enumeration's `cursorPosition` field is declared in the source but never written. The model
  keeps it and proves it unchanged.
- The base `State` class's `autocomplete` returning null for value nodes, and the end-of-line
  node's `accept`, are left out. Only the three named node kinds are modelled.

## Findings

| source | as written | input that shows it | evidently intended | confidence | as-written member | corrected member |
|---|---|---|---|---|---|---|
| inputmask/src/main/kotlin/com/redmadrobot/inputmask/helper/TextPresentationStrategy.kt:66-77 | an insertion reads the new characters `before` positions left of the cursor and replaces `count` stored characters | stored `ab`, new text `aX`, cursor 1, before 1, count 1: the result is `ab`, and the typed `X` is lost | the `count` new characters at the cursor replace the `before` old ones, as the newer strategy does | medium, not executed | TextPresentationStrategy.InsertionDiffersFromNewerStrategy | ShowPlaceholderStrategy.PrepareText |
