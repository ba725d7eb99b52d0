/** Fixed slots: the characters of a `{...}` group, inserted into the text but kept out of the value. */
module FixedState {
  import opened Wrappers
  import opened Model

  /** A fixed node for `ownCharacter` followed by `child`. */
  function WithChild(child: State, ownCharacter: char): (s: State)
    ensures s.kind == Fixed(ownCharacter) && s.child == Some(child)
  {
    State(Fixed(ownCharacter), Some(child))
  }

  predicate CanAdvance(s: State) {
    s.kind.Fixed? && s.child.Some?
  }

  /**
   * Offers `c` to a fixed node. The node always puts its own character into the text and moves on
   * to its child; the input character is consumed only when it is that very character, otherwise
   * it is kept for the next node.
   */
  function Accept(s: State, c: char): (r: Option<Next>)
    requires CanAdvance(s)
    ensures r.Some? && Some(r.value.state) == s.child
    ensures r.value.insert == Some(s.kind.ownCharacter) && r.value.value == Some(s.kind.ownCharacter)
    ensures r.value.pass <==> c == s.kind.ownCharacter
  {
    if s.kind.ownCharacter == c then
      Some(Next(ChildState(s), Some(c), true, Some(c)))
    else
      Some(Next(ChildState(s), Some(s.kind.ownCharacter), false, Some(s.kind.ownCharacter)))
  }

  /** When the input has run out, a fixed node still inserts its own character, without consuming. */
  function Autocomplete(s: State): (r: Option<Next>)
    requires CanAdvance(s)
    ensures r.Some? && Some(r.value.state) == s.child && !r.value.pass
    ensures r.value.insert == Some(s.kind.ownCharacter) && r.value.value == Some(s.kind.ownCharacter)
  {
    Some(Next(ChildState(s), Some(s.kind.ownCharacter), false, Some(s.kind.ownCharacter)))
  }

  /**
   * Offering a character other than the node's own is the same as autocompleting it; offering the
   * own character differs from autocompletion only in that the character is consumed.
   */
  lemma AcceptVersusAutocomplete(s: State, c: char)
    requires CanAdvance(s)
    ensures c != s.kind.ownCharacter <==> Accept(s, c) == Autocomplete(s)
    ensures c == s.kind.ownCharacter ==>
      Accept(s, c).value == Autocomplete(s).value.(pass := true)
  {
  }
}
