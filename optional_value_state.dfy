/** Optional value slots: `[9]`, `[a]`, `[-]` and custom optional symbols. */
module OptionalValueState {
  import opened Wrappers
  import opened Model

  /** An optional slot of the given class followed by `child`. */
  function WithChild(child: State, stateType: OptionalStateType): (s: State)
    ensures s.kind == OptionalValue(stateType) && s.child == Some(child)
  {
    State(OptionalValue(stateType), Some(child))
  }

  /** Whether a slot of this class takes character `c`. */
  predicate Accepts(cls: CharClasses, stateType: OptionalStateType, c: char) {
    match stateType
    case ONumeric => cls.isDigit(c)
    case OLiteral => cls.isLetter(c)
    case OAlphaNumeric => cls.IsLetterOrDigit(c)
    case OCyrillic => cls.isCyrillic(c)
    case OCustom(_, characterSet) => c in characterSet
  }

  predicate CanAdvance(s: State) {
    s.kind.OptionalValue? && s.child.Some?
  }

  /**
   * Offers `c` to an optional slot. A character of the slot's class is consumed and becomes both
   * the formatted and the extracted character; any other character is left for the next node:
   * nothing is inserted, consumed or extracted. Either way the scan moves on to the child, so an
   * optional slot never stops it.
   */
  function Accept(cls: CharClasses, s: State, c: char): (r: Option<Next>)
    requires CanAdvance(s)
    ensures r.Some? && Some(r.value.state) == s.child
    ensures r.value.pass <==> Accepts(cls, s.kind.optionalType, c)
    ensures r.value.pass ==> r.value.insert == Some(c) && r.value.value == Some(c)
    ensures !r.value.pass ==> r.value.insert == None && r.value.value == None
  {
    if Accepts(cls, s.kind.optionalType, c) then
      Some(Next(ChildState(s), Some(c), true, Some(c)))
    else
      Some(Next(ChildState(s), None, false, None))
  }

  /** What each class accepts: digits, letters, letters or digits, Cyrillic letters, or the set's members. */
  lemma AcceptsByClass(cls: CharClasses, c: char, ch: char, characterSet: string)
    ensures Accepts(cls, ONumeric, c) == cls.isDigit(c)
    ensures Accepts(cls, OLiteral, c) == cls.isLetter(c)
    ensures Accepts(cls, OAlphaNumeric, c) == (cls.isLetter(c) || cls.isDigit(c))
    ensures Accepts(cls, OCyrillic, c) == cls.isCyrillic(c)
    ensures Accepts(cls, OCustom(ch, characterSet), c) == (c in characterSet)
  {
  }
}
