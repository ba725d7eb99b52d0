/** Mandatory value slots: `[0]`, `[A]`, `[_]`, custom mandatory symbols and the ellipsis `[…]`. */
module ValueState {
  import opened Wrappers
  import opened Model

  /** The elliptical constructor: an ellipsis of the inherited class, with no child. */
  function Elliptical(inheritedType: ValueStateType): (s: State)
    ensures IsElliptical(s) && s.child == None
    ensures s.kind.valueType.inheritedType == inheritedType
  {
    State(Value(VEllipsis(inheritedType)), None)
  }

  /** The ordinary constructor: a slot of the given class followed by `child`. */
  function WithChild(child: State, stateType: ValueStateType): (s: State)
    ensures s.kind == Value(stateType) && s.child == Some(child)
    ensures IsElliptical(s) <==> stateType.VEllipsis?
  {
    State(Value(stateType), Some(child))
  }

  /** Whether a slot of this class takes character `c`. */
  predicate Accepts(cls: CharClasses, stateType: ValueStateType, c: char) {
    match stateType
    case VNumeric => cls.isDigit(c)
    case VLiteral => cls.isLetter(c)
    case VAlphaNumeric => cls.IsLetterOrDigit(c)
    case VCyrillic => cls.isCyrillic(c)
    case VEllipsis(inherited) =>
      (match inherited
       case VNumeric => cls.isDigit(c)
       case VLiteral => cls.isLetter(c)
       case VAlphaNumeric => cls.IsLetterOrDigit(c)
       case _ => false)
    case VCustom(_, characterSet) => c in characterSet
  }

  predicate IsElliptical(s: State) {
    s.kind.Value? && s.kind.valueType.VEllipsis?
  }

  /** A value node can move on: it is elliptical or it has a child. */
  predicate CanAdvance(s: State) {
    s.kind.Value? && (IsElliptical(s) || s.child.Some?)
  }

  /** The node after this one: the ellipsis loops on itself, any other slot goes to its child. */
  function NextState(s: State): (r: State)
    requires CanAdvance(s)
    ensures r == s <==> IsElliptical(s)
    ensures !IsElliptical(s) ==> Some(r) == s.child
  {
    if IsElliptical(s) then s else ChildState(s)
  }

  /**
   * Offers `c` to a mandatory slot: a character of the slot's class is consumed and becomes both
   * the formatted and the extracted character; any other character stops the scan (`None`).
   */
  function Accept(cls: CharClasses, s: State, c: char): (r: Option<Next>)
    requires CanAdvance(s)
    ensures r.Some? <==> Accepts(cls, s.kind.valueType, c)
    ensures r.Some? ==> r.value.pass && r.value.insert == Some(c) && r.value.value == Some(c)
    ensures r.Some? ==> (r.value.state == s <==> IsElliptical(s))
    ensures r.Some? && !IsElliptical(s) ==> Some(r.value.state) == s.child
  {
    if Accepts(cls, s.kind.valueType, c) then
      Some(Next(NextState(s), Some(c), true, Some(c)))
    else
      None
  }

  /** What each class accepts: digits, letters, letters or digits, Cyrillic letters, or the set's members. */
  lemma AcceptsByClass(cls: CharClasses, c: char, ch: char, characterSet: string)
    ensures Accepts(cls, VNumeric, c) == cls.isDigit(c)
    ensures Accepts(cls, VLiteral, c) == cls.isLetter(c)
    ensures Accepts(cls, VAlphaNumeric, c) == (cls.isLetter(c) || cls.isDigit(c))
    ensures Accepts(cls, VCyrillic, c) == cls.isCyrillic(c)
    ensures Accepts(cls, VCustom(ch, characterSet), c) == (c in characterSet)
  {
  }

  /**
   * An ellipsis accepts what its inherited numeric, literal or alphanumeric class accepts; an
   * ellipsis inheriting any other class accepts nothing.
   */
  lemma EllipsisAccepts(cls: CharClasses, inherited: ValueStateType, c: char)
    ensures inherited.VNumeric? || inherited.VLiteral? || inherited.VAlphaNumeric? ==>
      Accepts(cls, VEllipsis(inherited), c) == Accepts(cls, inherited, c)
    ensures inherited.VCustom? || inherited.VEllipsis? || inherited.VCyrillic? ==>
      !Accepts(cls, VEllipsis(inherited), c)
  {
  }

  /**
   * Offers the characters of `input` one after another, following each transition; `None` as soon
   * as a node refuses one. Gives the node reached and the extracted characters. Used only to state
   * the looping of the ellipsis below.
   */
  ghost function AcceptRun(cls: CharClasses, s: State, input: string): (r: Option<(State, string)>)
    requires CanAdvance(s)
    decreases |input|
  {
    if input == [] then Some((s, []))
    else
      match Accept(cls, s, input[0])
      case None => None
      case Some(next) =>
        if CanAdvance(next.state) then
          match AcceptRun(cls, next.state, input[1..])
          case None => None
          case Some(rest) => Some((rest.0, [next.value.value] + rest.1))
        else None
  }

  /**
   * An ellipsis keeps consuming: after any run of characters of its class it is still the node
   * to continue from, and the run reappears verbatim as extracted value.
   */
  lemma {:induction false} EllipsisConsumesRun(cls: CharClasses, s: State, input: string)
    requires IsElliptical(s)
    requires forall i :: 0 <= i < |input| ==> Accepts(cls, s.kind.valueType, input[i])
    ensures AcceptRun(cls, s, input) == Some((s, input))
    decreases |input|
  {
    if input != [] {
      EllipsisConsumesRun(cls, s, input[1..]);
      assert [input[0]] + input[1..] == input;
    }
  }
}
