/**
 * The compiler turns a mask format into a chain of automaton nodes. It reads the sanitized format
 * one character at a time, carrying two mode flags (inside a `[...]` value group, inside a `{...}`
 * fixed group) and the previous character, which decides whether the current one is escaped.
 */
module Compiler {
  import opened Wrappers
  import opened Model
  import opened CharConst
  import FormatSanitizer
  import ValueState
  import OptionalValueState
  import FixedState

  // ---------------------------------------------------------------------------------------------
  // Reading a chain back

  /** The kinds of the nodes of a chain, from `s` to its last node. */
  function Chain(s: State): (r: seq<Kind>)
    ensures |r| >= 1 && r[0] == s.kind
    decreases s
  {
    match s.child
    case None => [s.kind]
    case Some(c) => [s.kind] + Chain(c)
  }

  /**
   * A chain as the compiler builds it: it ends in an end-of-line node or in an ellipsis, both with
   * no child, and every other node has a child.
   */
  predicate WellFormed(s: State)
    decreases s
  {
    if s.kind.EOL? || ValueState.IsElliptical(s) then s.child.None?
    else s.child.Some? && WellFormed(s.child.value)
  }

  // ---------------------------------------------------------------------------------------------
  // Custom notations

  /** The index of the first notation whose trigger is `c`, as the compiler's search loops find it. */
  function FirstNotation(notations: seq<Notation>, c: char): (r: Option<nat>)
    ensures r.Some? ==> r.value < |notations| && notations[r.value].character == c
    ensures r.Some? ==> forall j :: 0 <= j < r.value ==> notations[j].character != c
    ensures r.None? <==> forall j :: 0 <= j < |notations| ==> notations[j].character != c
    decreases |notations|
  {
    if notations == [] then None
    else if notations[0].character == c then Some(0)
    else
      match FirstNotation(notations[1..], c)
      case None => None
      case Some(k) => Some(k + 1)
  }

  /**
   * `determineTypeWithCustomNotations`: the class an ellipsis inherits from a custom symbol, or an
   * error when the previous character is no custom trigger (or there is none).
   */
  function DetermineTypeWithCustomNotations(lastCharacter: Option<char>, notations: seq<Notation>)
    : (r: Result<ValueStateType, FormatError>)
    ensures r.Success? <==> lastCharacter.Some? && FirstNotation(notations, lastCharacter.value).Some?
    ensures r.Success? ==>
      var n := notations[FirstNotation(notations, lastCharacter.value).value];
      r.value == VCustom(lastCharacter.value, n.characterSet)
  {
    if lastCharacter.None? then Failure(FormatError)
    else
      match FirstNotation(notations, lastCharacter.value)
      case None => Failure(FormatError)
      case Some(k) => Success(VCustom(lastCharacter.value, notations[k].characterSet))
  }

  /** `determineInheritedType`: the class of the ellipsis, taken from the character before it. */
  function DetermineInheritedType(lastCharacter: Option<char>, notations: seq<Notation>)
    : Result<ValueStateType, FormatError>
  {
    match lastCharacter
    case Some('0') => Success(VNumeric)
    case Some('9') => Success(VNumeric)
    case Some('A') => Success(VLiteral)
    case Some('a') => Success(VLiteral)
    case Some('_') => Success(VAlphaNumeric)
    case Some('-') => Success(VAlphaNumeric)
    case Some('Б') => Success(VCyrillic)
    case Some('б') => Success(VCyrillic)
    case Some('…') => Success(VAlphaNumeric)
    case Some('[') => Success(VAlphaNumeric)
    case _ => DetermineTypeWithCustomNotations(lastCharacter, notations)
  }

  // ---------------------------------------------------------------------------------------------
  // The compiler

  /** Whether `c` is one of the characters the compiler reads as syntax when it is not escaped. */
  predicate IsSyntax(c: char) {
    c == MaskCharsOpen || c == MaskCharsClose || c == FixedCharsOpen || c == FixedCharsClose || c == EscapeChar
  }

  /**
   * The private `compile`: the chain for `s`, given the two modes and the character before `s`.
   * An unescaped bracket or backslash produces no node and sets the modes; in a value group each
   * symbol becomes a value slot; in a fixed group each character a fixed node; elsewhere a free
   * node.
   */
  function CompileFrom(s: string, valuable: bool, fixed: bool, lastCharacter: Option<char>, notations: seq<Notation>)
    : (r: Result<State, FormatError>)
    ensures r.Success? ==> WellFormed(r.value) && |Chain(r.value)| <= |s| + 1
    decreases |s|, 2
  {
    if s == [] then Success(State(EOL, None))
    else
      var c := s[0];
      if IsSyntax(c) && lastCharacter != Some(EscapeChar) then
        if c == MaskCharsOpen then CompileFrom(s[1..], true, false, Some(c), notations)
        else if c == FixedCharsOpen then CompileFrom(s[1..], false, true, Some(c), notations)
        else if c == EscapeChar then CompileFrom(s[1..], valuable, fixed, Some(c), notations)
        else CompileFrom(s[1..], false, false, Some(c), notations)
      else if valuable then
        match c
        case '0' => GetValueState(s, c, VNumeric, notations)
        case 'A' => GetValueState(s, c, VLiteral, notations)
        case 'Б' => GetValueState(s, c, VCyrillic, notations)
        case '_' => GetValueState(s, c, VAlphaNumeric, notations)
        case '…' =>
          var inherited :- DetermineInheritedType(lastCharacter, notations);
          Success(ValueState.Elliptical(inherited))
        case '9' => GetOptionalValueState(s, c, ONumeric, notations)
        case 'a' => GetOptionalValueState(s, c, OLiteral, notations)
        case 'б' => GetOptionalValueState(s, c, OCyrillic, notations)
        case '-' => GetOptionalValueState(s, c, OAlphaNumeric, notations)
        case _ => CompileWithCustomNotations(c, s, notations)
      else if fixed then
        var child :- CompileFrom(s[1..], false, true, Some(c), notations);
        Success(FixedState.WithChild(child, c))
      else
        var child :- CompileFrom(s[1..], false, false, Some(c), notations);
        Success(State(Free(c), Some(child)))
  }

  /** `getValueState`: a mandatory slot of the given class, followed by the rest of the value group. */
  function GetValueState(s: string, c: char, stateType: ValueStateType, notations: seq<Notation>)
    : (r: Result<State, FormatError>)
    requires s != [] && !stateType.VEllipsis?
    ensures r.Success? ==> WellFormed(r.value) && |Chain(r.value)| <= |s| + 1
    decreases |s|, 0
  {
    var child :- CompileFrom(s[1..], true, false, Some(c), notations);
    Success(ValueState.WithChild(child, stateType))
  }

  /** `getOptionalValueState`: an optional slot of the given class, followed by the rest of the value group. */
  function GetOptionalValueState(s: string, c: char, stateType: OptionalStateType, notations: seq<Notation>)
    : (r: Result<State, FormatError>)
    requires s != []
    ensures r.Success? ==> WellFormed(r.value) && |Chain(r.value)| <= |s| + 1
    decreases |s|, 0
  {
    var child :- CompileFrom(s[1..], true, false, Some(c), notations);
    Success(OptionalValueState.WithChild(child, stateType))
  }

  /**
   * `compileWithCustomNotations`: the slot of the first custom notation triggered by `c`, optional
   * or mandatory as the notation says; an error when no notation is triggered by `c`.
   */
  function CompileWithCustomNotations(c: char, s: string, notations: seq<Notation>): (r: Result<State, FormatError>)
    requires s != []
    ensures r.Success? ==> WellFormed(r.value) && |Chain(r.value)| <= |s| + 1
    ensures FirstNotation(notations, c).None? ==> r.Failure?
    decreases |s|, 1
  {
    match FirstNotation(notations, c)
    case None => Failure(FormatError)
    case Some(k) =>
      if notations[k].isOptional then GetOptionalValueState(s, c, OCustom(c, notations[k].characterSet), notations)
      else GetValueState(s, c, VCustom(c, notations[k].characterSet), notations)
  }

  /** The public `compile`: sanitize the format, then compile it outside any group with no previous character. */
  function Compile(format: string, notations: seq<Notation>): (r: Result<State, FormatError>)
    ensures r.Success? ==> WellFormed(r.value)
    ensures !FormatSanitizer.NoNestedGroup(format) ==> r.Failure?
  {
    var sanitized :- FormatSanitizer.Sanitized(format);
    CompileFrom(sanitized, false, false, None, notations)
  }

  // ---------------------------------------------------------------------------------------------
  // What the compiler builds

  /** A string with no syntax character: free text, or the contents of a fixed group. */
  predicate Plain(t: string) {
    forall i :: 0 <= i < |t| ==> !IsSyntax(t[i])
  }

  /**
   * `r` succeeds exactly when `r'` does, and then its chain is the node kinds `kinds` followed by
   * the chain of `r'`.
   */
  predicate ChainsOnto(r: Result<State, FormatError>, kinds: seq<Kind>, r': Result<State, FormatError>) {
    && r.Success? == r'.Success?
    && (r.Success? ==> Chain(r.value) == kinds + Chain(r'.value))
  }

  /** A node of kind `k` in front of a result that chains onto `r'` chains onto it with `k` in front. */
  lemma ChainsOntoCons(r: Result<State, FormatError>, k: Kind, r1: Result<State, FormatError>,
                       kinds: seq<Kind>, r': Result<State, FormatError>)
    requires r.Success? == r1.Success? && (r.Success? ==> r.value == State(k, Some(r1.value)))
    requires ChainsOnto(r1, kinds, r')
    ensures ChainsOnto(r, [k] + kinds, r')
  {
    if r.Success? {
      assert Chain(r.value) == [k] + Chain(r1.value);
    }
  }

  /** One free node kind per character of `t`. */
  function FreeKinds(t: string): (r: seq<Kind>)
    ensures |r| == |t| && forall i :: 0 <= i < |t| ==> r[i] == Free(t[i])
  {
    if t == [] then [] else [Free(t[0])] + FreeKinds(t[1..])
  }

  /** One fixed node kind per character of `t`. */
  function FixedKinds(t: string): (r: seq<Kind>)
    ensures |r| == |t| && forall i :: 0 <= i < |t| ==> r[i] == Fixed(t[i])
  {
    if t == [] then [] else [Fixed(t[0])] + FixedKinds(t[1..])
  }

  /** One slot kind per built-in symbol of `t`, each of its symbol's class. */
  function SymbolKinds(t: string): (r: seq<Kind>)
    requires Symbols(t)
    ensures |r| == |t| && forall i :: 0 <= i < |t| ==> r[i] == SymbolKind(t[i]).value
  {
    if t == [] then [] else [SymbolKind(t[0]).value] + SymbolKinds(t[1..])
  }

  /** Free text compiles to one free node per character, in order, and an end-of-line node. */
  lemma {:induction false} CompileFreeText(t: string, lastCharacter: Option<char>, notations: seq<Notation>)
    requires Plain(t)
    ensures var r := CompileFrom(t, false, false, lastCharacter, notations);
      r.Success? && Chain(r.value) == FreeKinds(t) + [EOL]
    decreases |t|
  {
    if t != [] {
      CompileFreeText(t[1..], Some(t[0]), notations);
    }
  }

  /**
   * A fixed group `{t}` compiles to one fixed node per character of `t`, in order, followed by
   * what the rest of the format compiles to outside any group.
   */
  lemma CompileFixedGroup(t: string, rest: string, lastCharacter: Option<char>, notations: seq<Notation>)
    requires Plain(t) && lastCharacter != Some(EscapeChar)
    ensures var r := CompileFrom(AddFixedBraces(t) + rest, false, false, lastCharacter, notations);
      var r' := CompileFrom(rest, false, false, Some(FixedCharsClose), notations);
      ChainsOnto(r, FixedKinds(t), r')
  {
    var s := AddFixedBraces(t) + rest;
    assert s == [FixedCharsOpen] + (t + [FixedCharsClose] + rest);
    assert s[1..] == t + [FixedCharsClose] + rest;
    CompileFixedRun(t, rest, Some(FixedCharsOpen), notations);
  }

  lemma {:induction false} CompileFixedRun(t: string, rest: string, lastCharacter: Option<char>, notations: seq<Notation>)
    requires Plain(t) && lastCharacter != Some(EscapeChar)
    ensures var r := CompileFrom(t + [FixedCharsClose] + rest, false, true, lastCharacter, notations);
      var r' := CompileFrom(rest, false, false, Some(FixedCharsClose), notations);
      ChainsOnto(r, FixedKinds(t), r')
    decreases |t|
  {
    var s := t + [FixedCharsClose] + rest;
    if t == [] {
      assert s == [FixedCharsClose] + rest;
      assert s[1..] == rest;
    } else {
      assert s[0] == t[0] && s[1..] == t[1..] + [FixedCharsClose] + rest;
      CompileFixedRun(t[1..], rest, Some(t[0]), notations);
      CompileFixedChar(s, lastCharacter, notations);
      ChainsOntoCons(CompileFrom(s, false, true, lastCharacter, notations), Fixed(t[0]),
        CompileFrom(s[1..], false, true, Some(t[0]), notations), FixedKinds(t[1..]),
        CompileFrom(rest, false, false, Some(FixedCharsClose), notations));
    }
  }

  /** In a fixed group, a character other than syntax becomes a fixed node followed by the rest of the group. */
  lemma CompileFixedChar(s: string, lastCharacter: Option<char>, notations: seq<Notation>)
    requires s != [] && !IsSyntax(s[0])
    ensures var r := CompileFrom(s, false, true, lastCharacter, notations);
      var r' := CompileFrom(s[1..], false, true, Some(s[0]), notations);
      && r.Success? == r'.Success?
      && (r.Success? ==> r.value == State(Fixed(s[0]), Some(r'.value)))
  {
  }

  /** The class of the slot a built-in symbol compiles to inside a value group. */
  function SymbolKind(c: char): Option<Kind> {
    match c
    case '0' => Some(Value(VNumeric))
    case 'A' => Some(Value(VLiteral))
    case 'Б' => Some(Value(VCyrillic))
    case '_' => Some(Value(VAlphaNumeric))
    case '9' => Some(OptionalValue(ONumeric))
    case 'a' => Some(OptionalValue(OLiteral))
    case 'б' => Some(OptionalValue(OCyrillic))
    case '-' => Some(OptionalValue(OAlphaNumeric))
    case _ => None
  }

  /** A string of built-in symbols other than the ellipsis. */
  predicate Symbols(t: string) {
    forall i :: 0 <= i < |t| ==> SymbolKind(t[i]).Some?
  }

  /**
   * A value group `[t]` of built-in symbols compiles to one slot per symbol, in order, each of the
   * symbol's class, followed by what the rest of the format compiles to outside any group.
   */
  lemma CompileValueGroup(t: string, rest: string, lastCharacter: Option<char>, notations: seq<Notation>)
    requires Symbols(t) && lastCharacter != Some(EscapeChar)
    ensures var r := CompileFrom(WrapWithMaskBraces(t) + rest, false, false, lastCharacter, notations);
      var r' := CompileFrom(rest, false, false, Some(MaskCharsClose), notations);
      ChainsOnto(r, SymbolKinds(t), r')
  {
    var s := WrapWithMaskBraces(t) + rest;
    assert s == [MaskCharsOpen] + (t + [MaskCharsClose] + rest);
    assert s[1..] == t + [MaskCharsClose] + rest;
    CompileValueRun(t, rest, Some(MaskCharsOpen), notations);
  }

  lemma {:induction false} CompileValueRun(t: string, rest: string, lastCharacter: Option<char>, notations: seq<Notation>)
    requires Symbols(t) && lastCharacter != Some(EscapeChar)
    ensures var r := CompileFrom(t + [MaskCharsClose] + rest, true, false, lastCharacter, notations);
      var r' := CompileFrom(rest, false, false, Some(MaskCharsClose), notations);
      ChainsOnto(r, SymbolKinds(t), r')
    decreases |t|
  {
    var s := t + [MaskCharsClose] + rest;
    if t == [] {
      assert s == [MaskCharsClose] + rest;
      assert s[1..] == rest;
    } else {
      assert s[0] == t[0] && s[1..] == t[1..] + [MaskCharsClose] + rest;
      CompileValueRun(t[1..], rest, Some(t[0]), notations);
      CompileSymbol(s, lastCharacter, notations);
      ChainsOntoCons(CompileFrom(s, true, false, lastCharacter, notations), SymbolKind(t[0]).value,
        CompileFrom(s[1..], true, false, Some(t[0]), notations), SymbolKinds(t[1..]),
        CompileFrom(rest, false, false, Some(MaskCharsClose), notations));
    }
  }

  /** In a value group, a built-in symbol becomes a slot of its class followed by the rest of the group. */
  lemma CompileSymbol(s: string, lastCharacter: Option<char>, notations: seq<Notation>)
    requires s != [] && SymbolKind(s[0]).Some?
    ensures var r := CompileFrom(s, true, false, lastCharacter, notations);
      var r' := CompileFrom(s[1..], true, false, Some(s[0]), notations);
      && r.Success? == r'.Success?
      && (r.Success? ==> r.value == State(SymbolKind(s[0]).value, Some(r'.value)))
  {
    assert !IsSyntax(s[0]);
    match s[0]
    case '0' =>
    case 'A' =>
    case 'Б' =>
    case '_' =>
    case '9' =>
    case 'a' =>
    case 'б' =>
    case '-' =>
  }

  /**
   * In a value group, an ellipsis ends the chain: it becomes an elliptical slot with no child, of
   * the class inherited from the character before it, and the rest of the format is never read.
   */
  lemma CompileEllipsis(rest: string, lastCharacter: Option<char>, notations: seq<Notation>)
    ensures var r := CompileFrom(['…'] + rest, true, false, lastCharacter, notations);
      && (r.Success? <==> DetermineInheritedType(lastCharacter, notations).Success?)
      && (r.Success? ==> r.value == ValueState.Elliptical(DetermineInheritedType(lastCharacter, notations).value))
      && r == CompileFrom(['…'], true, false, lastCharacter, notations)
  {
    assert (['…'] + rest)[0] == '…';
  }

  /**
   * The ellipsis repeats the class of the slot before it: after a built-in symbol, the class of
   * that symbol's slot; after a custom symbol, the custom class of its first notation.
   */
  lemma InheritedTypeOfSymbol(c: char, notations: seq<Notation>)
    ensures SymbolKind(c).Some? ==>
      DetermineInheritedType(Some(c), notations) ==
        Success(match SymbolKind(c).value
                case Value(t) => t
                case OptionalValue(t) => MandatoryOf(t)
                case _ => VNumeric)
    ensures SymbolKind(c).None? && c !in "…[" && FirstNotation(notations, c).Some? ==>
      DetermineInheritedType(Some(c), notations) == Success(VCustom(c, notations[FirstNotation(notations, c).value].characterSet))
    ensures SymbolKind(c).None? && c !in "…[" && FirstNotation(notations, c).None? ==>
      DetermineInheritedType(Some(c), notations).Failure?
    ensures c in "…[" ==> DetermineInheritedType(Some(c), notations) == Success(VAlphaNumeric)
  {
  }

  /**
   * The everyday format `[…]`: an ellipsis at the start of a value group inherits the
   * alphanumeric class from the opening bracket, and what follows it is never compiled.
   */
  lemma CompileOpenEllipsis(rest: string, notations: seq<Notation>)
    ensures CompileFrom([MaskCharsOpen, '…'] + rest, false, false, None, notations) ==
      Success(ValueState.Elliptical(VAlphaNumeric))
  {
    var s := [MaskCharsOpen, '…'] + rest;
    assert s[0] == MaskCharsOpen && s[1..] == ['…'] + rest;
    CompileEllipsis(rest, Some(MaskCharsOpen), notations);
    InheritedTypeOfSymbol(MaskCharsOpen, notations);
  }

  /** The mandatory class an optional class corresponds to. */
  function MandatoryOf(t: OptionalStateType): (r: ValueStateType)
    ensures !r.VEllipsis?
  {
    match t
    case ONumeric => VNumeric
    case OLiteral => VLiteral
    case OAlphaNumeric => VAlphaNumeric
    case OCyrillic => VCyrillic
    case OCustom(c, characterSet) => VCustom(c, characterSet)
  }

  /**
   * In a value group, a character that is neither syntax nor a built-in symbol is looked up among
   * the custom notations: no match is an error; a match gives a slot of the custom class, optional
   * or mandatory as the notation says.
   */
  lemma CompileCustomSymbol(c: char, rest: string, lastCharacter: Option<char>, notations: seq<Notation>)
    requires !IsSyntax(c) && SymbolKind(c).None? && c != '…'
    ensures var r := CompileFrom([c] + rest, true, false, lastCharacter, notations);
      var child := CompileFrom(rest, true, false, Some(c), notations);
      && (FirstNotation(notations, c).None? ==> r.Failure?)
      && (FirstNotation(notations, c).Some? ==>
            var n := notations[FirstNotation(notations, c).value];
            && r.Success? == child.Success?
            && (r.Success? && n.isOptional ==> r.value == State(OptionalValue(OCustom(c, n.characterSet)), Some(child.value)))
            && (r.Success? && !n.isOptional ==> r.value == State(Value(VCustom(c, n.characterSet)), Some(child.value))))
  {
    var s := [c] + rest;
    assert s[0] == c && s[1..] == rest;
    assert c !in "0AБ_9aб-";
    var r := CompileFrom(s, true, false, lastCharacter, notations);
    assert r == CompileWithCustomNotations(c, s, notations);
    match FirstNotation(notations, c)
    case None =>
    case Some(k) =>
      var n := notations[k];
      if n.isOptional {
        assert r == GetOptionalValueState(s, c, OCustom(c, n.characterSet), notations);
      } else {
        assert r == GetValueState(s, c, VCustom(c, n.characterSet), notations);
      }
  }

  /**
   * An escaped bracket or backslash is an ordinary character: outside any group, `\` followed by
   * one of them compiles to a free node holding it.
   */
  lemma CompileEscaped(c: char, rest: string, lastCharacter: Option<char>, notations: seq<Notation>)
    requires IsSyntax(c) && lastCharacter != Some(EscapeChar)
    ensures var r := CompileFrom([EscapeChar, c] + rest, false, false, lastCharacter, notations);
      var r' := CompileFrom(rest, false, false, Some(c), notations);
      && r.Success? == r'.Success?
      && (r.Success? ==> r.value == State(Free(c), Some(r'.value)))
  {
    var s := [EscapeChar, c] + rest;
    assert s[0] == EscapeChar && s[1..] == [c] + rest;
    assert s[1..][0] == c && s[1..][1..] == rest;
  }

  /**
   * Inside a fixed group an escaped bracket or backslash is an ordinary character of the group:
   * `\` followed by one of them compiles to a fixed node holding it, and the group goes on.
   */
  lemma CompileEscapedFixed(c: char, rest: string, lastCharacter: Option<char>, notations: seq<Notation>)
    requires IsSyntax(c) && lastCharacter != Some(EscapeChar)
    ensures var r := CompileFrom([EscapeChar, c] + rest, false, true, lastCharacter, notations);
      var r' := CompileFrom(rest, false, true, Some(c), notations);
      && r.Success? == r'.Success?
      && (r.Success? ==> r.value == State(Fixed(c), Some(r'.value)))
  {
    var s := [EscapeChar, c] + rest;
    assert s[0] == EscapeChar && s[1..] == [c] + rest;
    assert s[1..][0] == c && s[1..][1..] == rest;
  }

  /**
   * Inside a value group an escaped bracket or backslash is read as a symbol like any other: it is
   * looked up among the custom notations, so it is an error unless some notation is triggered by it.
   */
  lemma CompileEscapedValue(c: char, rest: string, lastCharacter: Option<char>, notations: seq<Notation>)
    requires IsSyntax(c) && lastCharacter != Some(EscapeChar)
    ensures var r := CompileFrom([EscapeChar, c] + rest, true, false, lastCharacter, notations);
      var child := CompileFrom(rest, true, false, Some(c), notations);
      && (FirstNotation(notations, c).None? ==> r.Failure?)
      && (FirstNotation(notations, c).Some? ==>
            var n := notations[FirstNotation(notations, c).value];
            && r.Success? == child.Success?
            && (r.Success? && n.isOptional ==> r.value == State(OptionalValue(OCustom(c, n.characterSet)), Some(child.value)))
            && (r.Success? && !n.isOptional ==> r.value == State(Value(VCustom(c, n.characterSet)), Some(child.value))))
  {
    var s := [EscapeChar, c] + rest;
    assert s[0] == EscapeChar && s[1..] == [c] + rest;
    var s' := s[1..];
    assert s'[0] == c && s'[1..] == rest;
    assert c !in "0AБ_9aб-…";
    var r := CompileFrom(s, true, false, lastCharacter, notations);
    assert r == CompileFrom(s', true, false, Some(EscapeChar), notations);
    assert r == CompileWithCustomNotations(c, s', notations);
    match FirstNotation(notations, c)
    case None =>
    case Some(k) =>
      var n := notations[k];
      if n.isOptional {
        assert r == GetOptionalValueState(s', c, OCustom(c, n.characterSet), notations);
      } else {
        assert r == GetValueState(s', c, VCustom(c, n.characterSet), notations);
      }
  }

  /**
   * The compiler decides escapes by the previous character alone, so after an escaped backslash
   * `\\` a `[` still counts as escaped and becomes free text, while the sanitizer, which counts
   * backslashes, sees it as opening a value group.
   */
  lemma EscapedBackslashThenBracket(rest: string, notations: seq<Notation>)
    ensures !FormatSanitizer.EscapedAt([EscapeChar, EscapeChar, MaskCharsOpen] + rest, 2)
    ensures var r := CompileFrom([EscapeChar, EscapeChar, MaskCharsOpen] + rest, false, false, None, notations);
      r.Success? ==>
        (r.value.kind == Free(EscapeChar) && r.value.child.Some? && r.value.child.value.kind == Free(MaskCharsOpen))
  {
    var s := [EscapeChar, EscapeChar, MaskCharsOpen] + rest;
    assert s[..2] == [EscapeChar, EscapeChar];
    assert s[..2][..1] == [EscapeChar] && s[..2][..1][..0] == [];
    assert s[1..] == [EscapeChar, MaskCharsOpen] + rest;
    assert s[1..][1..] == [MaskCharsOpen] + rest;
    assert s[1..][1..][1..] == rest;
    var r := CompileFrom(s, false, false, None, notations);
    var r1 := CompileFrom(s[1..], false, false, Some(EscapeChar), notations);
    var r2 := CompileFrom(s[1..][1..], false, false, Some(EscapeChar), notations);
    assert r == r1;
    if r.Success? {
      assert r1.value.kind == Free(EscapeChar) && r1.value.child == Some(r2.value);
      assert r2.value.kind == Free(MaskCharsOpen);
    }
  }
}
