/** The bracket and escape characters of the mask grammar and the two wrappers built on them. */
module CharConst {

  const EscapeChar: char := '\\'
  const MaskCharsOpen: char := '['
  const MaskCharsClose: char := ']'
  const FixedCharsOpen: char := '{'
  const FixedCharsClose: char := '}'

  /** The five grammar characters are pairwise distinct, so a character plays at most one role. */
  lemma ConstantsDistinct()
    ensures |{EscapeChar, MaskCharsOpen, MaskCharsClose, FixedCharsOpen, FixedCharsClose}| == 5
  {
  }

  /** `s` as a value group: `[` + s + `]`. */
  function WrapWithMaskBraces(s: string): (r: string)
    ensures |r| == |s| + 2
    ensures r[0] == MaskCharsOpen && r[|r| - 1] == MaskCharsClose
    ensures r[1..|r| - 1] == s
  {
    [MaskCharsOpen] + s + [MaskCharsClose]
  }

  /** `s` as a fixed group: `{` + s + `}`. */
  function AddFixedBraces(s: string): (r: string)
    ensures |r| == |s| + 2
    ensures r[0] == FixedCharsOpen && r[|r| - 1] == FixedCharsClose
    ensures r[1..|r| - 1] == s
  {
    [FixedCharsOpen] + s + [FixedCharsClose]
  }

  /** Stripping the braces of a wrapped string gives the string back, and no two strings wrap alike. */
  lemma WrapInjective(s: string, t: string)
    ensures WrapWithMaskBraces(s) == WrapWithMaskBraces(t) ==> s == t
    ensures AddFixedBraces(s) == AddFixedBraces(t) ==> s == t
    ensures WrapWithMaskBraces(s) != AddFixedBraces(t)
  {
    var ws, wt := WrapWithMaskBraces(s), WrapWithMaskBraces(t);
    if ws == wt {
      assert s == ws[1..|ws| - 1];
    }
    var fs, ft := AddFixedBraces(s), AddFixedBraces(t);
    if fs == ft {
      assert s == fs[1..|fs| - 1];
    }
    assert WrapWithMaskBraces(s)[0] != AddFixedBraces(t)[0];
  }
}
