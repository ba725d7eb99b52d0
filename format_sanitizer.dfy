/**
 * The sanitizer prepares a mask format for the compiler: it rejects nested bracket groups, splits
 * the format into free text, `[...]` and `{...}` blocks, splits value groups that mix character
 * classes, and orders each value group so that built-in mandatory symbols come before their optional
 * counterparts.
 */
module FormatSanitizer {
  import opened Wrappers
  import opened Strings
  import opened Model
  import opened CharConst

  // ---------------------------------------------------------------------------------------------
  // Escapes and groups, stated on the whole string

  /**
   * Whether position `i` of `s` is escaped: an odd number of backslashes stands right before it.
   * A backslash escapes the next character, and a backslash that is itself escaped escapes nothing.
   */
  predicate EscapedAt(s: string, i: nat)
    requires i <= |s|
  {
    TrailingCount(s[..i], EscapeChar) % 2 == 1
  }

  /** Whether the last unescaped `open` or `close` in `p` is an `open`: a group is still open after `p`. */
  predicate GroupOpenIn(p: string, open: char, close: char)
    decreases |p|
  {
    if p == [] then false
    else if p[|p| - 1] == open && !EscapedAt(p, |p| - 1) then true
    else if p[|p| - 1] == close && !EscapedAt(p, |p| - 1) then false
    else GroupOpenIn(p[..|p| - 1], open, close)
  }

  /** Position `i` holds a `[` inside an open `[...]` group, or a `{` inside an open `{...}` group. */
  predicate NestedAt(s: string, i: nat)
    requires i < |s|
  {
    (s[i] == MaskCharsOpen && GroupOpenIn(s[..i], MaskCharsOpen, MaskCharsClose)) ||
    (s[i] == FixedCharsOpen && GroupOpenIn(s[..i], FixedCharsOpen, FixedCharsClose))
  }

  /** No group is opened inside an open group of the same kind. */
  predicate NoNestedGroup(s: string) {
    forall i :: 0 <= i < |s| ==> !NestedAt(s, i)
  }

  /** Appending `c` to `q`: the new last position is escaped as `q`'s end was. */
  lemma EscapedStep(q: string, c: char)
    ensures EscapedAt(q + [c], |q|) == EscapedAt(q, |q|)
    ensures EscapedAt(q + [c], |q| + 1) == (c == EscapeChar && !EscapedAt(q, |q|))
  {
    var p := q + [c];
    assert p[..|q|] == q[..|q|] == q;
    assert p[..|q| + 1] == p;
    assert p[..|p| - 1] == q;
  }

  /** Appending `c` to `q`: an unescaped `open` opens the group, an unescaped `close` closes it. */
  lemma GroupOpenStep(q: string, c: char, open: char, close: char)
    ensures GroupOpenIn(q + [c], open, close) ==
      if c == open && !EscapedAt(q, |q|) then true
      else if c == close && !EscapedAt(q, |q|) then false
      else GroupOpenIn(q, open, close)
  {
    var p := q + [c];
    assert p[..|p| - 1] == q;
    EscapedStep(q, c);
  }

  // ---------------------------------------------------------------------------------------------
  // checkOpenBraces

  /** The three flags `checkOpenBraces` keeps while it scans. */
  datatype BraceScan = BraceScan(escape: bool, squareBraceOpen: bool, curlyBraceOpen: bool)

  /** Character `c` opens a group of a kind that is already open. */
  predicate Clash(st: BraceScan, c: char) {
    (c == MaskCharsOpen && st.squareBraceOpen) || (c == FixedCharsOpen && st.curlyBraceOpen)
  }

  /** The scan of `s` clashes at position `j`. */
  predicate ClashAt(s: string, j: nat)
    requires j < |s|
  {
    Clash(BraceScanOf(s[..j]), s[j])
  }

  /** A clash in a prefix is a clash in the whole string. */
  lemma ClashAtPrefix(s: string, n: nat, j: nat)
    requires j < n <= |s|
    ensures ClashAt(s[..n], j) == ClashAt(s, j)
  {
    assert s[..n][..j] == s[..j];
  }

  /** The flags after one character: a backslash toggles the escape, any other character clears it. */
  function BraceStep(st: BraceScan, c: char): BraceScan {
    var st' :=
      if c == EscapeChar then st.(escape := !st.escape)
      else if c == MaskCharsOpen then st.(squareBraceOpen := !st.escape)
      else if c == MaskCharsClose then (if !st.escape then st.(squareBraceOpen := false) else st)
      else if c == FixedCharsOpen then st.(curlyBraceOpen := !st.escape)
      else if c == FixedCharsClose then (if !st.escape then st.(curlyBraceOpen := false) else st)
      else st;
    if c != EscapeChar then st'.(escape := false) else st'
  }

  /** The flags after scanning `p` from the start. */
  function BraceScanOf(p: string): BraceScan
    decreases |p|
  {
    if p == [] then BraceScan(false, false, false)
    else BraceStep(BraceScanOf(p[..|p| - 1]), p[|p| - 1])
  }

  /**
   * As long as no clash has occurred, the scan's flags mean what they say: the escape flag is set
   * exactly after an odd run of backslashes, and a group flag is set exactly when a group of that
   * kind is open.
   */
  lemma {:induction false} BraceScanMeaning(p: string)
    requires forall j :: 0 <= j < |p| ==> !ClashAt(p, j)
    ensures BraceScanOf(p).escape == EscapedAt(p, |p|)
    ensures BraceScanOf(p).squareBraceOpen == GroupOpenIn(p, MaskCharsOpen, MaskCharsClose)
    ensures BraceScanOf(p).curlyBraceOpen == GroupOpenIn(p, FixedCharsOpen, FixedCharsClose)
    decreases |p|
  {
    if p == [] {
      assert p[..0] == [];
    } else {
      var q, c := p[..|p| - 1], p[|p| - 1];
      assert p == q + [c];
      forall j | 0 <= j < |q| ensures !ClashAt(q, j) {
        ClashAtPrefix(p, |q|, j);
      }
      BraceScanMeaning(q);
      assert !ClashAt(p, |q|);
      assert p[..|q|] == q;
      EscapedStep(q, c);
      GroupOpenStep(q, c, MaskCharsOpen, MaskCharsClose);
      GroupOpenStep(q, c, FixedCharsOpen, FixedCharsClose);
    }
  }

  /** The scan meets no clash exactly when the string has no nested group. */
  lemma NoClashIffNoNestedGroup(s: string)
    ensures (forall j :: 0 <= j < |s| ==> !ClashAt(s, j)) <==> NoNestedGroup(s)
  {
    NoClashUpTo(s, |s|);
  }

  lemma {:induction false} NoClashUpTo(s: string, n: nat)
    requires n <= |s|
    ensures (forall j :: 0 <= j < n ==> !ClashAt(s, j)) <==>
      (forall j :: 0 <= j < n ==> !NestedAt(s, j))
    decreases n
  {
    if n > 0 {
      var i := n - 1;
      NoClashUpTo(s, i);
      assert (forall j :: 0 <= j < n ==> !ClashAt(s, j)) <==>
        (forall j :: 0 <= j < i ==> !ClashAt(s, j)) && !ClashAt(s, i);
      assert (forall j :: 0 <= j < n ==> !NestedAt(s, j)) <==>
        (forall j :: 0 <= j < i ==> !NestedAt(s, j)) && !NestedAt(s, i);
      if forall j :: 0 <= j < i ==> !ClashAt(s, j) {
        ClashIsNested(s, i);
      }
    }
  }

  /** At the first clash, the clash is exactly a nested group. */
  lemma ClashIsNested(s: string, i: nat)
    requires i < |s|
    requires forall j :: 0 <= j < i ==> !ClashAt(s, j)
    ensures ClashAt(s, i) <==> NestedAt(s, i)
  {
    var p := s[..i];
    forall j | 0 <= j < |p| ensures !ClashAt(p, j) {
      ClashAtPrefix(s, i, j);
    }
    BraceScanMeaning(p);
  }

  /**
   * Rejects a format that opens a `[` group inside an open `[` group or a `{` group inside an
   * open `{` group (the source throws `FormatError`; here the result is `false`). An escaped
   * bracket neither opens nor closes a group; a group left open at the end is not reported.
   */
  method CheckOpenBraces(s: string) returns (ok: bool)
    ensures ok <==> NoNestedGroup(s)
  {
    var escape, squareBraceOpen, curlyBraceOpen := false, false, false;
    for i := 0 to |s|
      invariant BraceScan(escape, squareBraceOpen, curlyBraceOpen) == BraceScanOf(s[..i])
      invariant forall j :: 0 <= j < i ==> !ClashAt(s, j)
    {
      var c := s[i];
      ghost var before := BraceScan(escape, squareBraceOpen, curlyBraceOpen);
      if c == EscapeChar {
        escape := !escape;
      } else if c == MaskCharsOpen {
        if squareBraceOpen {
          FirstClashIsNested(s, i);
          return false;
        }
        squareBraceOpen := !escape;
      } else if c == MaskCharsClose {
        if !escape {
          squareBraceOpen := false;
        }
      } else if c == FixedCharsOpen {
        if curlyBraceOpen {
          FirstClashIsNested(s, i);
          return false;
        }
        curlyBraceOpen := !escape;
      } else if c == FixedCharsClose {
        if !escape {
          curlyBraceOpen := false;
        }
      }
      if c != EscapeChar {
        escape := false;
      }
      assert BraceScan(escape, squareBraceOpen, curlyBraceOpen) == BraceStep(before, c);
      BraceScanSnoc(s, i);
    }
    assert s[..|s|] == s;
    NoClashIffNoNestedGroup(s);
    return true;
  }

  /** Scanning one more character of `s` is one more step of the scan. */
  lemma BraceScanSnoc(s: string, i: nat)
    requires i < |s|
    ensures BraceScanOf(s[..i + 1]) == BraceStep(BraceScanOf(s[..i]), s[i])
  {
    assert s[..i + 1][..i] == s[..i];
  }

  lemma FirstClashIsNested(s: string, i: nat)
    requires i < |s|
    requires forall j :: 0 <= j < i ==> !ClashAt(s, j)
    requires ClashAt(s, i)
    ensures !NoNestedGroup(s)
  {
    ClashIsNested(s, i);
    assert NestedAt(s, i);
  }

  // ---------------------------------------------------------------------------------------------
  // getFormatBlocks

  /** Position `i` holds an unescaped `[` or `{`. */
  predicate OpensAt(s: string, i: nat)
    requires i < |s|
  {
    (s[i] == MaskCharsOpen || s[i] == FixedCharsOpen) && !EscapedAt(s, i)
  }

  /** Position `i` holds an unescaped `]` or `}`. */
  predicate ClosesAt(s: string, i: nat)
    requires i < |s|
  {
    (s[i] == MaskCharsClose || s[i] == FixedCharsClose) && !EscapedAt(s, i)
  }

  /** A block boundary lies right before position `i`: a group opens at `i` or closed at `i - 1`. */
  predicate CutBefore(s: string, i: nat)
    requires 0 < i <= |s|
  {
    (i < |s| && OpensAt(s, i)) || ClosesAt(s, i - 1)
  }

  /** The offsets at which the blocks end in their concatenation. */
  function Ends(blocks: seq<string>): (r: seq<nat>)
    ensures |r| == |blocks|
  {
    if blocks == [] then [] else Ends(blocks[..|blocks| - 1]) + [|Concat(blocks)|]
  }

  lemma EndsAppend(blocks: seq<string>, b: string)
    ensures Ends(blocks + [b]) == Ends(blocks) + [|Concat(blocks)| + |b|]
  {
    var bb := blocks + [b];
    assert bb[..|bb| - 1] == blocks;
    assert Ends(bb) == Ends(blocks) + [|Concat(bb)|];
    ConcatAppend(blocks, b);
  }

  /** The state of `getFormatBlocks`: the finished blocks, the block being read, the escape flag. */
  datatype Lexer = Lexer(blocks: seq<string>, currentBlock: string, escape: bool)

  /**
   * One character: an unescaped backslash is kept and escapes the next character; an unescaped
   * opening bracket ends the current block and starts a new one; an unescaped closing bracket
   * ends the current block after itself.
   */
  function LexStep(st: Lexer, c: char): Lexer {
    if c == EscapeChar && !st.escape then
      st.(currentBlock := st.currentBlock + [c], escape := true)
    else
      var opening := (c == MaskCharsOpen || c == FixedCharsOpen) && !st.escape;
      var closing := (c == MaskCharsClose || c == FixedCharsClose) && !st.escape;
      var blocks := if opening && st.currentBlock != [] then st.blocks + [st.currentBlock] else st.blocks;
      var current := (if opening then [] else st.currentBlock) + [c];
      if closing then Lexer(blocks + [current], [], false) else Lexer(blocks, current, false)
  }

  function LexOf(p: string): Lexer
    decreases |p|
  {
    if p == [] then Lexer([], [], false) else LexStep(LexOf(p[..|p| - 1]), p[|p| - 1])
  }

  /** The blocks of a format: the lexer's blocks, and the last block if it is not empty. */
  function FormatBlocks(s: string): seq<string> {
    var st := LexOf(s);
    if st.currentBlock != [] then st.blocks + [st.currentBlock] else st.blocks
  }

  /** What holds of the lexer after reading the prefix `p`. */
  predicate LexInv(p: string, st: Lexer) {
    && Concat(st.blocks) + st.currentBlock == p
    && (forall k :: 0 <= k < |st.blocks| ==> st.blocks[k] != [])
    && st.escape == EscapedAt(p, |p|)
    && (st.currentBlock == [] <==> (p == [] || ClosesAt(p, |p| - 1)))
    && (forall e :: e in Ends(st.blocks) ==> 0 < e <= |Concat(st.blocks)|)
    && (forall i :: 0 < i <= |p| ==> (i in Ends(st.blocks) <==> CutBefore(p, i)))
  }

  /** Appending a character does not change what earlier positions mean. */
  lemma PrefixStable(p: string, c: char)
    ensures forall i :: 0 <= i < |p| ==> OpensAt(p + [c], i) == OpensAt(p, i)
    ensures forall i :: 0 <= i < |p| ==> ClosesAt(p + [c], i) == ClosesAt(p, i)
    ensures forall i :: 0 < i < |p| ==> CutBefore(p + [c], i) == CutBefore(p, i)
  {
    var q := p + [c];
    forall i | 0 <= i <= |p| ensures EscapedAt(q, i) == EscapedAt(p, i) {
      assert q[..i] == p[..i];
    }
  }

  lemma LexStepKeepsInv(p: string, st: Lexer, c: char)
    requires LexInv(p, st)
    ensures LexInv(p + [c], LexStep(st, c))
  {
    if c == EscapeChar && !st.escape {
      LexStepEscape(p, st, c);
    } else {
      var opening := (c == MaskCharsOpen || c == FixedCharsOpen) && !st.escape;
      var blocks := if opening && st.currentBlock != [] then st.blocks + [st.currentBlock] else st.blocks;
      var current := (if opening then [] else st.currentBlock) + [c];
      LexStepOpen(p, st, c, blocks, current);
      assert ClosesAt(p + [c], |p|) == ((c == MaskCharsClose || c == FixedCharsClose) && !st.escape) by {
        EscapedStep(p, c);
      }
      if (c == MaskCharsClose || c == FixedCharsClose) && !st.escape {
        LexStepClose(p, c, blocks, current);
      } else {
        LexStepNoClose(p, c, blocks, current);
      }
    }
  }

  /** A backslash that starts an escape only grows the current block. */
  lemma LexStepEscape(p: string, st: Lexer, c: char)
    requires LexInv(p, st)
    requires c == EscapeChar && !st.escape
    ensures LexInv(p + [c], LexStep(st, c))
  {
    var q, n := p + [c], |p|;
    var st' := LexStep(st, c);
    PrefixStable(p, c);
    EscapedStep(p, c);
    assert q[..n] == p;
    assert !ClosesAt(q, n);
    assert Concat(st'.blocks) + st'.currentBlock == q;
    forall i | 0 < i <= |q| ensures (i in Ends(st'.blocks) <==> CutBefore(q, i)) {
      if i == n {
        assert !OpensAt(q, n);
      }
    }
  }

  /** The blocks and current block after the opening part of a step, before any closing. */
  predicate LexMid(q: string, blocks: seq<string>, current: string) {
    && |q| > 0
    && Concat(blocks) + current == q
    && current != []
    && (forall k :: 0 <= k < |blocks| ==> blocks[k] != [])
    && (forall e :: e in Ends(blocks) ==> 0 < e <= |Concat(blocks)|)
    && (forall i :: 0 < i < |q| ==> (i in Ends(blocks) <==> CutBefore(q, i)))
  }

  lemma LexStepOpen(p: string, st: Lexer, c: char, blocks: seq<string>, current: string)
    requires LexInv(p, st)
    requires !(c == EscapeChar && !st.escape)
    requires blocks == if (c == MaskCharsOpen || c == FixedCharsOpen) && !st.escape && st.currentBlock != []
      then st.blocks + [st.currentBlock] else st.blocks
    requires current == (if (c == MaskCharsOpen || c == FixedCharsOpen) && !st.escape then [] else st.currentBlock) + [c]
    ensures LexMid(p + [c], blocks, current)
    ensures EscapedAt(p + [c], |p| + 1) == false
  {
    var q, n := p + [c], |p|;
    PrefixStable(p, c);
    EscapedStep(p, c);
    assert q[..n] == p;
    ConcatAppend(st.blocks, st.currentBlock);
    EndsAppend(st.blocks, st.currentBlock);
    assert Concat(blocks) + current == q;
    forall i | 0 < i < |q| ensures (i in Ends(blocks) <==> CutBefore(q, i)) {
      if i == n {
        assert OpensAt(q, n) == ((c == MaskCharsOpen || c == FixedCharsOpen) && !st.escape);
      }
    }
  }

  lemma LexStepClose(p: string, c: char, blocks: seq<string>, current: string)
    requires LexMid(p + [c], blocks, current)
    requires EscapedAt(p + [c], |p| + 1) == false
    requires ClosesAt(p + [c], |p|)
    ensures LexInv(p + [c], Lexer(blocks + [current], [], false))
  {
    var q := p + [c];
    ConcatAppend(blocks, current);
    CloseKeepsBlocks(blocks, current);
    CloseKeepsCuts(q, blocks, current);
  }

  /** Closing the current block keeps the blocks non-empty and their ends inside the text. */
  lemma CloseKeepsBlocks(blocks: seq<string>, current: string)
    requires current != []
    requires forall k :: 0 <= k < |blocks| ==> blocks[k] != []
    requires forall e :: e in Ends(blocks) ==> 0 < e <= |Concat(blocks)|
    ensures forall k :: 0 <= k < |blocks + [current]| ==> (blocks + [current])[k] != []
    ensures forall e :: e in Ends(blocks + [current]) ==> 0 < e <= |Concat(blocks + [current])|
  {
    var nb := blocks + [current];
    ConcatAppend(blocks, current);
    EndsAppend(blocks, current);
    forall k | 0 <= k < |nb| ensures nb[k] != [] {
      if k < |blocks| {
        assert nb[k] == blocks[k];
      }
    }
  }

  /** Closing the current block at the last position adds exactly the boundary after it. */
  lemma CloseKeepsCuts(q: string, blocks: seq<string>, current: string)
    requires LexMid(q, blocks, current) && ClosesAt(q, |q| - 1)
    ensures forall i :: 0 < i <= |q| ==> (i in Ends(blocks + [current]) <==> CutBefore(q, i))
  {
    var nb := blocks + [current];
    ConcatAppend(blocks, current);
    EndsAppend(blocks, current);
    assert Ends(nb) == Ends(blocks) + [|q|];
    forall i | 0 < i <= |q| ensures (i in Ends(nb) <==> CutBefore(q, i)) {
      if i < |q| {
        assert i in Ends(nb) <==> i in Ends(blocks);
      }
    }
  }

  lemma LexStepNoClose(p: string, c: char, blocks: seq<string>, current: string)
    requires LexMid(p + [c], blocks, current)
    requires EscapedAt(p + [c], |p| + 1) == false
    requires !ClosesAt(p + [c], |p|)
    ensures LexInv(p + [c], Lexer(blocks, current, false))
  {
    var q, n := p + [c], |p|;
    assert n + 1 !in Ends(blocks);
  }

  lemma {:induction false} LexOfInv(p: string)
    ensures LexInv(p, LexOf(p))
    decreases |p|
  {
    if p == [] {
      assert p[..0] == [];
    } else {
      var q, c := p[..|p| - 1], p[|p| - 1];
      assert p == q + [c];
      LexOfInv(q);
      LexStepKeepsInv(q, LexOf(q), c);
    }
  }

  /**
   * The blocks partition the format: they are non-empty and concatenate back to it. A boundary
   * lies before each unescaped `[` or `{` and after each unescaped `]` or `}`, and nowhere else.
   */
  lemma FormatBlocksPartition(s: string)
    ensures Concat(FormatBlocks(s)) == s
    ensures forall k :: 0 <= k < |FormatBlocks(s)| ==> FormatBlocks(s)[k] != []
    ensures s != [] ==> Ends(FormatBlocks(s))[|FormatBlocks(s)| - 1] == |s|
    ensures forall i :: 0 < i < |s| ==> (i in Ends(FormatBlocks(s)) <==> CutBefore(s, i))
  {
    var st := LexOf(s);
    LexOfInv(s);
    if st.currentBlock != [] {
      ConcatAppend(st.blocks, st.currentBlock);
      EndsAppend(st.blocks, st.currentBlock);
    } else if s != [] {
      assert CutBefore(s, |s|);
      assert |s| in Ends(st.blocks);
      assert |st.blocks| > 0;
    }
  }

  /** The blocks of a format, built as `getFormatBlocks` builds them, character by character. */
  method GetFormatBlocks(s: string) returns (blocks: seq<string>)
    ensures blocks == FormatBlocks(s)
  {
    blocks := [];
    var currentBlock := "";
    var escape := false;
    for i := 0 to |s|
      invariant Lexer(blocks, currentBlock, escape) == LexOf(s[..i])
    {
      var c := s[i];
      assert s[..i + 1][..i] == s[..i];
      if c == EscapeChar {
        if !escape {
          escape := true;
          currentBlock := currentBlock + [c];
          continue;
        }
      }
      if (c == MaskCharsOpen || c == FixedCharsOpen) && !escape {
        if currentBlock != [] {
          blocks := blocks + [currentBlock];
        }
        currentBlock := "";
      }
      currentBlock := currentBlock + [c];
      if (c == MaskCharsClose || c == FixedCharsClose) && !escape {
        blocks := blocks + [currentBlock];
        currentBlock := "";
      }
      escape := false;
    }
    assert s[..|s|] == s;
    if currentBlock != [] {
      blocks := blocks + [currentBlock];
    }
  }

  // ---------------------------------------------------------------------------------------------
  // divideBlocksWithMixedCharacters

  /** The three classes of value symbols: numeric `0`/`9`, literal `A`/`a`, alphanumeric `_`/`-`. */
  datatype SymbolClass = NumericSymbol | LiteralSymbol | AlphaNumericSymbol

  function ClassOf(c: char): Option<SymbolClass> {
    if c == '0' || c == '9' then Some(NumericSymbol)
    else if c == 'A' || c == 'a' then Some(LiteralSymbol)
    else if c == '-' || c == '_' then Some(AlphaNumericSymbol)
    else None
  }

  /** All the class symbols in `s` belong to one class. */
  predicate SingleClass(s: string) {
    forall i, j :: 0 <= i < |s| && 0 <= j < |s| && ClassOf(s[i]).Some? && ClassOf(s[j]).Some? ==>
      ClassOf(s[i]) == ClassOf(s[j])
  }

  /** `c` is a symbol of one class and `buffer` already holds a symbol of another. */
  predicate StartsNewGroup(buffer: string, c: char) {
    || ((c == '0' || c == '9') && ContainsAny(buffer, "Aa-_"))
    || ((c == 'A' || c == 'a') && ContainsAny(buffer, "09-_"))
    || ((c == '-' || c == '_') && ContainsAny(buffer, "09Aa"))
  }

  /** `s` without its `[` and `]` characters, as `removeAllMaskBraces` gives it. */
  function RemoveAllMaskBraces(s: string): (r: string)
    ensures MaskCharsOpen !in r && MaskCharsClose !in r
  {
    RemoveMembers(s, MaskCharsOpen);
    RemoveMembers(Remove(s, MaskCharsOpen), MaskCharsClose);
    Remove(Remove(s, MaskCharsOpen), MaskCharsClose)
  }

  /** Removing the brackets keeps exactly the other characters. */
  lemma RemoveAllMaskBracesMembers(s: string)
    ensures forall x :: x in RemoveAllMaskBraces(s) <==> x in s && x != MaskCharsOpen && x != MaskCharsClose
  {
    RemoveMembers(s, MaskCharsOpen);
    RemoveMembers(Remove(s, MaskCharsOpen), MaskCharsClose);
  }

  lemma RemoveAllMaskBracesAppend(a: string, b: string)
    ensures RemoveAllMaskBraces(a + b) == RemoveAllMaskBraces(a) + RemoveAllMaskBraces(b)
  {
    RemoveAppend(a, b, MaskCharsOpen);
    RemoveAppend(Remove(a, MaskCharsOpen), Remove(b, MaskCharsOpen), MaskCharsClose);
  }

  /** The state of the inner loop: groups emitted so far, the group being built, and whether the loop broke off. */
  datatype Divider = Divider(out: seq<string>, blockBuffer: string, done: bool)

  /**
   * One character of a `[` block: a `[` is kept; an unescaped `]` closes the group and ends the
   * loop; a symbol whose class differs from one already in the group closes the group and opens a
   * new one with it; anything else is kept.
   */
  function DivideStep(st: Divider, c: char): Divider {
    if st.done then st
    else if c == MaskCharsOpen then st.(blockBuffer := st.blockBuffer + [c])
    else if c == MaskCharsClose && !(st.blockBuffer != [] && st.blockBuffer[|st.blockBuffer| - 1] == EscapeChar) then
      Divider(st.out + [st.blockBuffer + [c]], st.blockBuffer + [c], true)
    else if StartsNewGroup(st.blockBuffer, c) then
      Divider(st.out + [st.blockBuffer + [MaskCharsClose]], [MaskCharsOpen, c], false)
    else st.(blockBuffer := st.blockBuffer + [c])
  }

  function DivideOf(p: string): Divider
    decreases |p|
  {
    if p == [] then Divider([], [], false) else DivideStep(DivideOf(p[..|p| - 1]), p[|p| - 1])
  }

  predicate StartsWithMaskOpen(block: string) {
    block != [] && block[0] == MaskCharsOpen
  }

  /** The groups one block turns into: a `[` block is divided, any other block stays as it is. */
  function DivideBlock(block: string): seq<string> {
    if StartsWithMaskOpen(block) then DivideOf(block).out else [block]
  }

  function DivideBlocks(blocks: seq<string>): seq<string>
    decreases |blocks|
  {
    if blocks == [] then [] else DivideBlocks(blocks[..|blocks| - 1]) + DivideBlock(blocks[|blocks| - 1])
  }

  /** Every group is bracketed and single-class. */
  predicate GroupsOk(out: seq<string>) {
    && (forall k :: 0 <= k < |out| ==> SingleClass(out[k]))
    && (forall k :: 0 <= k < |out| ==>
          |out[k]| >= 2 && out[k][0] == MaskCharsOpen && out[k][|out[k]| - 1] == MaskCharsClose)
  }

  /** What holds of the divider after the prefix `p` of a `[` block. */
  predicate DivideInv(p: string, st: Divider) {
    && GroupsOk(st.out)
    && (p != [] ==> st.blockBuffer != [] && st.blockBuffer[0] == MaskCharsOpen)
    && (p == [] ==> st.blockBuffer == [] && st.out == [] && !st.done)
    && SingleClass(st.blockBuffer)
    && (!st.done ==> RemoveAllMaskBraces(Concat(st.out) + st.blockBuffer) == RemoveAllMaskBraces(p))
    && (!st.done && p != [] ==> st.blockBuffer[|st.blockBuffer| - 1] == p[|p| - 1])
  }

  /** A symbol that does not start a new group keeps the group single-class. */
  lemma ExtendSingleClass(buffer: string, c: char)
    requires SingleClass(buffer)
    requires !StartsNewGroup(buffer, c)
    ensures SingleClass(buffer + [c])
  {
    var b := buffer + [c];
    if ClassOf(c).Some? {
      forall i | 0 <= i < |buffer| && ClassOf(buffer[i]).Some? ensures ClassOf(buffer[i]) == ClassOf(c) {
        if c in "09" {
          assert !ContainsAny(buffer, "Aa-_");
          assert buffer[i] !in "Aa-_";
        } else if c in "Aa" {
          assert !ContainsAny(buffer, "09-_");
          assert buffer[i] !in "09-_";
        } else {
          assert !ContainsAny(buffer, "09Aa");
          assert buffer[i] !in "09Aa";
        }
      }
    }
    assert forall i :: 0 <= i < |buffer| ==> b[i] == buffer[i];
  }

  lemma DivideStepKeepsInv(p: string, st: Divider, c: char)
    requires p != [] ==> p[0] == MaskCharsOpen
    requires p == [] ==> c == MaskCharsOpen
    requires DivideInv(p, st)
    ensures DivideInv(p + [c], DivideStep(st, c))
  {
    if st.done {
      assert DivideStep(st, c) == st;
    } else if c == MaskCharsOpen {
      DivideAppendKeepsInv(p, st, c);
    } else if c == MaskCharsClose && !(st.blockBuffer != [] && st.blockBuffer[|st.blockBuffer| - 1] == EscapeChar) {
      DivideCloseKeepsInv(p, st);
    } else if StartsNewGroup(st.blockBuffer, c) {
      DivideSplitKeepsInv(p, st, c);
    } else {
      DivideAppendKeepsInv(p, st, c);
    }
  }

  /** The closing `]` ends the loop with the current group emitted. */
  lemma DivideCloseKeepsInv(p: string, st: Divider)
    requires p != [] && p[0] == MaskCharsOpen
    requires DivideInv(p, st) && !st.done
    ensures DivideInv(p + [MaskCharsClose],
      Divider(st.out + [st.blockBuffer + [MaskCharsClose]], st.blockBuffer + [MaskCharsClose], true))
  {
    CloseGroup(st.out, st.blockBuffer);
    ExtendSingleClass(st.blockBuffer, MaskCharsClose);
  }

  /** Keeping `c` in the current group keeps the invariant. */
  lemma DivideAppendKeepsInv(p: string, st: Divider, c: char)
    requires p != [] ==> p[0] == MaskCharsOpen
    requires p == [] ==> c == MaskCharsOpen
    requires DivideInv(p, st) && !st.done
    requires c == MaskCharsOpen || !StartsNewGroup(st.blockBuffer, c)
    ensures DivideInv(p + [c], st.(blockBuffer := st.blockBuffer + [c]))
  {
    var buffer := st.blockBuffer + [c];
    ExtendSingleClass(st.blockBuffer, c);
    assert buffer[0] == MaskCharsOpen;
    AppendContent(Concat(st.out) + st.blockBuffer, p, c);
    assert Concat(st.out) + buffer == (Concat(st.out) + st.blockBuffer) + [c];
  }

  /** Appending the same character to two strings with the same symbols keeps their symbols equal. */
  lemma AppendContent(a: string, b: string, c: char)
    requires RemoveAllMaskBraces(a) == RemoveAllMaskBraces(b)
    ensures RemoveAllMaskBraces(a + [c]) == RemoveAllMaskBraces(b + [c])
  {
    RemoveAllMaskBracesAppend(a, [c]);
    RemoveAllMaskBracesAppend(b, [c]);
  }

  /** Closing the current group and opening a new one with `c` keeps the invariant. */
  lemma DivideSplitKeepsInv(p: string, st: Divider, c: char)
    requires p != []
    requires DivideInv(p, st) && !st.done
    ensures DivideInv(p + [c], Divider(st.out + [st.blockBuffer + [MaskCharsClose]], [MaskCharsOpen, c], false))
  {
    CloseGroup(st.out, st.blockBuffer);
    OpenedGroupSingleClass(c);
    SplitKeepsContent(p, st.out, st.blockBuffer, c);
  }

  /** Closing a bracketed single-class group and emitting it keeps every emitted group bracketed and single-class. */
  lemma CloseGroup(out: seq<string>, buffer: string)
    requires GroupsOk(out)
    requires SingleClass(buffer) && buffer != [] && buffer[0] == MaskCharsOpen
    ensures GroupsOk(out + [buffer + [MaskCharsClose]])
  {
    ExtendSingleClass(buffer, MaskCharsClose);
    EmitGroup(out, buffer + [MaskCharsClose]);
  }

  /** A group holding only its opening bracket and one character is single-class. */
  lemma OpenedGroupSingleClass(c: char)
    ensures SingleClass([MaskCharsOpen, c])
  {
    var g := [MaskCharsOpen, c];
    assert ClassOf(g[0]).None?;
    forall i, j | 0 <= i < |g| && 0 <= j < |g| && ClassOf(g[i]).Some? && ClassOf(g[j]).Some?
      ensures ClassOf(g[i]) == ClassOf(g[j])
    {
      assert i == 1 && j == 1;
    }
  }

  /** The symbols seen so far are still those of the prefix after a split. */
  lemma SplitKeepsContent(p: string, out: seq<string>, buffer: string, c: char)
    requires RemoveAllMaskBraces(Concat(out) + buffer) == RemoveAllMaskBraces(p)
    ensures RemoveAllMaskBraces(Concat(out + [buffer + [MaskCharsClose]]) + [MaskCharsOpen, c]) ==
      RemoveAllMaskBraces(p + [c])
  {
    var closed := buffer + [MaskCharsClose];
    ConcatAppend(out, closed);
    var before := Concat(out) + buffer;
    assert Concat(out + [closed]) + [MaskCharsOpen, c] == before + [MaskCharsClose, MaskCharsOpen, c];
    SplitContent(before, c);
    RemoveAllMaskBracesAppend(p, [c]);
  }

  /** Emitting a bracketed single-class group keeps every emitted group bracketed and single-class. */
  lemma EmitGroup(out: seq<string>, g: string)
    requires GroupsOk(out)
    requires SingleClass(g) && |g| >= 2 && g[0] == MaskCharsOpen && g[|g| - 1] == MaskCharsClose
    ensures GroupsOk(out + [g])
  {
    forall k | 0 <= k < |out + [g]|
      ensures SingleClass((out + [g])[k])
      ensures var h := (out + [g])[k]; |h| >= 2 && h[0] == MaskCharsOpen && h[|h| - 1] == MaskCharsClose
    {
      if k < |out| {
        assert (out + [g])[k] == out[k];
      } else {
        assert (out + [g])[k] == g;
      }
    }
  }

  /** The brackets a split adds do not change the symbols. */
  lemma SplitContent(before: string, c: char)
    ensures RemoveAllMaskBraces(before + [MaskCharsClose, MaskCharsOpen, c]) ==
      RemoveAllMaskBraces(before) + RemoveAllMaskBraces([c])
  {
    var pair := [MaskCharsClose, MaskCharsOpen];
    assert before + [MaskCharsClose, MaskCharsOpen, c] == (before + pair) + [c];
    RemoveAllMaskBracesAppend(before + pair, [c]);
    RemoveAllMaskBracesAppend(before, pair);
    BracketPairRemoved();
  }

  lemma BracketPairRemoved()
    ensures RemoveAllMaskBraces([MaskCharsClose, MaskCharsOpen]) == []
  {
    var pair := [MaskCharsClose, MaskCharsOpen];
    assert pair[1..][1..] == [];
    assert Remove(pair, MaskCharsOpen) == [MaskCharsClose];
    assert [MaskCharsClose][1..] == [];
  }

  lemma {:induction false} DivideOfInv(block: string, n: nat)
    requires StartsWithMaskOpen(block) && n <= |block|
    ensures DivideInv(block[..n], DivideOf(block[..n]))
    decreases n
  {
    if n > 0 {
      var p := block[..n - 1];
      assert block[..n] == p + [block[n - 1]];
      assert block[..n][..n - 1] == p;
      DivideOfInv(block, n - 1);
      DivideStepKeepsInv(p, DivideOf(p), block[n - 1]);
    } else {
      assert block[..0] == [];
    }
  }

  /**
   * Dividing a `[` block yields groups that are each bracketed and single-class: numeric,
   * literal and alphanumeric symbols never share a group.
   */
  lemma DivideBlockSingleClass(block: string)
    requires StartsWithMaskOpen(block)
    ensures forall k :: 0 <= k < |DivideBlock(block)| ==> SingleClass(DivideBlock(block)[k])
    ensures forall k :: 0 <= k < |DivideBlock(block)| ==>
      var g := DivideBlock(block)[k]; |g| >= 2 && g[0] == MaskCharsOpen && g[|g| - 1] == MaskCharsClose
  {
    DivideOfInv(block, |block|);
    assert block[..|block|] == block;
  }

  /** Once the loop has broken off, the rest of the block is ignored. */
  lemma {:induction false} DoneAbsorbs(block: string, n: nat, m: nat)
    requires n <= m <= |block|
    requires DivideOf(block[..n]).done
    ensures DivideOf(block[..m]) == DivideOf(block[..n])
    decreases m
  {
    if m > n {
      DoneAbsorbs(block, n, m - 1);
      assert block[..m][..m - 1] == block[..m - 1];
    }
  }

  /** The divider never breaks off before it meets a `]`. */
  lemma {:induction false} NotDoneWithoutClose(p: string)
    requires MaskCharsClose !in p
    ensures !DivideOf(p).done
    decreases |p|
  {
    if p != [] {
      NotDoneWithoutClose(p[..|p| - 1]);
    }
  }

  /**
   * Dividing a well-formed value group `[inner]` (no `]` inside, not ending in an escape) loses no
   * symbol: the groups, with their brackets removed, spell the group's symbols in order.
   */
  lemma DivideBlockContent(inner: string)
    requires MaskCharsClose !in inner
    requires inner != [] ==> inner[|inner| - 1] != EscapeChar
    ensures RemoveAllMaskBraces(Concat(DivideBlock([MaskCharsOpen] + inner + [MaskCharsClose]))) ==
      RemoveAllMaskBraces(inner)
  {
    var block := [MaskCharsOpen] + inner + [MaskCharsClose];
    var p := [MaskCharsOpen] + inner;
    assert block == p + [MaskCharsClose];
    assert block[..|block| - 1] == p;
    DivideOfInv(block, |block| - 1);
    NotDoneWithoutClose(p);
    DivideOfSnoc(p, MaskCharsClose);
    assert StartsWithMaskOpen(block);
    CloseKeepsContent(p, DivideOf(p));
    RemoveAllMaskBracesAppend([MaskCharsOpen], inner);
    BracesRemoved(MaskCharsOpen);
  }

  lemma BracesRemoved(c: char)
    requires c == MaskCharsOpen || c == MaskCharsClose
    ensures RemoveAllMaskBraces([c]) == []
  {
    assert Remove([], MaskCharsOpen) == [];
    assert Remove([], MaskCharsClose) == [];
    assert [c][1..] == [];
    assert Remove([c], c) == [];
    if c == MaskCharsClose {
      assert Remove([c], MaskCharsOpen) == [c];
    }
  }

  /** An unescaped `]` emits the current group without losing a symbol. */
  lemma CloseKeepsContent(p: string, st: Divider)
    requires p != [] && p[|p| - 1] != EscapeChar
    requires DivideInv(p, st) && !st.done
    ensures RemoveAllMaskBraces(Concat(DivideStep(st, MaskCharsClose).out)) == RemoveAllMaskBraces(p)
  {
    var closed := st.blockBuffer + [MaskCharsClose];
    assert DivideStep(st, MaskCharsClose).out == st.out + [closed];
    ConcatAppend(st.out, closed);
    assert Concat(st.out) + closed == (Concat(st.out) + st.blockBuffer) + [MaskCharsClose];
    RemoveAllMaskBracesAppend(Concat(st.out) + st.blockBuffer, [MaskCharsClose]);
    BracesRemoved(MaskCharsClose);
  }

  lemma DivideOfSnoc(p: string, c: char)
    ensures DivideOf(p + [c]) == DivideStep(DivideOf(p), c)
  {
    assert (p + [c])[..|p|] == p;
  }

  /** The doc-comment example: `[0000Aa]` is divided into `[0000]` and `[Aa]`. */
  lemma DivideExample()
    ensures DivideBlock("[0000Aa]") == ["[0000]", "[Aa]"]
  {
    LetterAfterDigitsSplits();
    DivideOfSnoc("[0000A", 'a');
    assert !ContainsAny("[A", "09-_");
    assert "[0000A" + "a" == "[0000Aa";
    assert DivideOf("[0000Aa") == Divider(["[0000]"], "[Aa", false);
    DivideOfSnoc("[0000Aa", ']');
    assert "[0000Aa" + "]" == "[0000Aa]";
    assert "[Aa"[2] != EscapeChar;
    assert "[Aa" + [MaskCharsClose] == "[Aa]";
    assert DivideOf("[0000Aa]") == Divider(["[0000]", "[Aa]"], "[Aa]", true);
  }

  /** A letter after a run of digits closes the digits' group and opens a new one. */
  lemma LetterAfterDigitsSplits()
    ensures DivideOf("[0000A") == Divider(["[0000]"], "[A", false)
  {
    DigitRunUndivided();
    DivideOfSnoc("[0000", 'A');
    assert "[0000"[1] in "09-_";
    assert StartsNewGroup("[0000", 'A');
    assert "[0000" + "A" == "[0000A";
    assert "[0000" + [MaskCharsClose] == "[0000]";
    assert [MaskCharsOpen, 'A'] == "[A";
  }

  /** A run of digits stays in one group. */
  lemma DigitRunUndivided()
    ensures DivideOf("[0000") == Divider([], "[0000", false)
  {
    DivideOfSnoc([], '[');
    assert [] + ['['] == "[";
    DigitAfter("[");
    assert "[" + ['0'] == "[0";
    DigitAfter("[0");
    assert "[0" + ['0'] == "[00";
    DigitAfter("[00");
    assert "[00" + ['0'] == "[000";
    DigitAfter("[000");
    assert "[000" + ['0'] == "[0000";
  }

  /** Reading one more `0` after a bracket and digits only grows the buffer. */
  lemma DigitAfter(p: string)
    requires DivideOf(p) == Divider([], p, false)
    requires forall i :: 0 <= i < |p| ==> p[i] == MaskCharsOpen || p[i] == '0'
    ensures DivideOf(p + ['0']) == Divider([], p + ['0'], false)
  {
    DivideOfSnoc(p, '0');
    DigitStep(p);
  }

  lemma DigitStep(p: string)
    requires forall i :: 0 <= i < |p| ==> p[i] == MaskCharsOpen || p[i] == '0'
    ensures DivideStep(Divider([], p, false), '0') == Divider([], p + ['0'], false)
  {
    DigitsOnly(p);
  }

  /** A value group that is never closed is dropped, as the loop never emits it. */
  lemma UnclosedGroupDropped()
    ensures DivideBlock("[00") == []
  {
    DivideOfSnoc([], '[');
    assert [] + ['['] == "[";
    DigitAfter("[");
    assert "[" + ['0'] == "[0";
    DigitAfter("[0");
    assert "[0" + ['0'] == "[00";
  }

  lemma DigitsOnly(p: string)
    requires forall i :: 0 <= i < |p| ==> p[i] == MaskCharsOpen || p[i] == '0'
    ensures !ContainsAny(p, "Aa-_")
  {
    forall i | 0 <= i < |p| ensures p[i] !in "Aa-_" {
      MarkerPairs(p[i]);
    }
    NoneOf(p, "Aa-_");
  }

  /**
   * `divideBlocksWithMixedCharacters`: blocks that do not start with `[` are passed on; a `[`
   * block is read character by character until its closing `]`.
   */
  method DivideBlocksWithMixedCharacters(blocks: seq<string>) returns (resultingBlocks: seq<string>)
    ensures resultingBlocks == DivideBlocks(blocks)
  {
    resultingBlocks := [];
    for k := 0 to |blocks|
      invariant resultingBlocks == DivideBlocks(blocks[..k])
    {
      var block := blocks[k];
      assert blocks[..k + 1][..k] == blocks[..k];
      if StartsWithMaskOpen(block) {
        var groups := DivideMaskBlock(block);
        resultingBlocks := resultingBlocks + groups;
      } else {
        resultingBlocks := resultingBlocks + [block];
      }
    }
    assert blocks[..|blocks|] == blocks;
  }

  /** Membership in the marker pairs the loop tests. */
  lemma MarkerPairs(c: char)
    ensures c in "09" <==> c == '0' || c == '9'
    ensures c in "Aa-_" <==> c == 'A' || c == 'a' || c == '-' || c == '_'
    ensures c in "Aa" <==> c == 'A' || c == 'a'
    ensures c in "-_" <==> c == '-' || c == '_'
  {
  }

  /** The inner loop of `divideBlocksWithMixedCharacters`, over one `[` block. */
  method DivideMaskBlock(block: string) returns (groups: seq<string>)
    ensures groups == DivideOf(block).out
  {
    groups := [];
    var blockBuffer := "";
    assert block[..|block|] == block;
    for j := 0 to |block|
      invariant !DivideOf(block[..j]).done
      invariant groups == DivideOf(block[..j]).out
      invariant blockBuffer == DivideOf(block[..j]).blockBuffer
    {
      var blockCharacter := block[j];
      assert block[..j + 1] == block[..j] + [blockCharacter];
      DivideOfSnoc(block[..j], blockCharacter);
      MarkerPairs(blockCharacter);
      if blockCharacter == MaskCharsOpen {
        blockBuffer := blockBuffer + [blockCharacter];
        continue;
      }
      if blockCharacter == MaskCharsClose && !(blockBuffer != [] && blockBuffer[|blockBuffer| - 1] == EscapeChar) {
        blockBuffer := blockBuffer + [blockCharacter];
        groups := groups + [blockBuffer];
        DoneAbsorbs(block, j + 1, |block|);
        return;
      }
      if blockCharacter in "09" {
        if ContainsAny(blockBuffer, "Aa-_") {
          blockBuffer := blockBuffer + [MaskCharsClose];
          groups := groups + [blockBuffer];
          blockBuffer := [MaskCharsOpen, blockCharacter];
          continue;
        }
      }
      if blockCharacter in "Aa" {
        if ContainsAny(blockBuffer, "09-_") {
          blockBuffer := blockBuffer + [MaskCharsClose];
          groups := groups + [blockBuffer];
          blockBuffer := [MaskCharsOpen, blockCharacter];
          continue;
        }
      }
      if blockCharacter in "-_" {
        if ContainsAny(blockBuffer, "09Aa") {
          blockBuffer := blockBuffer + [MaskCharsClose];
          groups := groups + [blockBuffer];
          blockBuffer := [MaskCharsOpen, blockCharacter];
          continue;
        }
      }
      blockBuffer := blockBuffer + [blockCharacter];
    }
  }

  // ---------------------------------------------------------------------------------------------
  // Sorting value groups

  /** `s` with `c` put in its place by character code. */
  function InsertChar(c: char, s: string): (r: string)
    requires Sorted(s)
    ensures Sorted(r) && multiset(r) == multiset(s) + multiset{c}
    decreases |s|
  {
    if s == [] || c <= s[0] then
      SortedCons(c, s);
      [c] + s
    else
      assert s == [s[0]] + s[1..];
      SortedTail(s);
      var rest := InsertChar(c, s[1..]);
      assert forall x :: x in multiset(rest) ==> s[0] <= x by {
        forall x | x in multiset(rest) ensures s[0] <= x {
          if x != c {
            SortedHeadLeast(s, x);
          }
        }
      }
      SortedCons(s[0], rest);
      [s[0]] + rest
  }

  /** A character no greater than any of a sorted string's characters may go in front of it. */
  lemma SortedCons(c: char, s: string)
    requires Sorted(s) && forall x :: x in multiset(s) ==> c <= x
    ensures Sorted([c] + s)
  {
    var r := [c] + s;
    forall i, j | 0 <= i < j < |r|
      ensures r[i] <= r[j]
    {
      assert r[j] == s[j - 1] && s[j - 1] in multiset(s);
      if i > 0 {
        assert r[i] == s[i - 1];
      }
    }
  }

  /** `sortChars`: the characters of `s` in ascending code order. */
  function SortChars(s: string): (r: string)
    ensures Sorted(r) && multiset(r) == multiset(s)
    decreases |s|
  {
    if s == [] then []
    else
      assert s == [s[0]] + s[1..];
      InsertChar(s[0], SortChars(s[1..]))
  }

  /** The first character of a sorted string is its least. */
  lemma SortedHeadLeast(s: string, x: char)
    requires Sorted(s) && x in multiset(s)
    ensures s[0] <= x
  {
    var k :| 0 <= k < |s| && s[k] == x;
  }

  lemma SortedTail(s: string)
    requires Sorted(s) && s != []
    ensures Sorted(s[1..])
  {
    forall i, j | 0 <= i < j < |s| - 1
      ensures s[1..][i] <= s[1..][j]
    {
      assert s[1..][i] == s[i + 1] && s[1..][j] == s[j + 1];
    }
  }

  lemma TailCharacters(s: string)
    requires s != []
    ensures multiset(s[1..]) == multiset(s) - multiset{s[0]}
  {
    assert s == [s[0]] + s[1..];
  }

  /** A string is determined by its characters once it is sorted: there is one sorted order. */
  lemma {:induction false} SortedUnique(a: string, b: string)
    requires Sorted(a) && Sorted(b) && multiset(a) == multiset(b)
    ensures a == b
    decreases |a|
  {
    assert |a| == |multiset(a)| == |multiset(b)| == |b|;
    if a != [] {
      SortedHeadLeast(a, b[0]);
      SortedHeadLeast(b, a[0]);
      assert a[0] == b[0];
      TailCharacters(a);
      TailCharacters(b);
      SortedTail(a);
      SortedTail(b);
      SortedUnique(a[1..], b[1..]);
      assert a == [a[0]] + a[1..];
      assert b == [b[0]] + b[1..];
    }
  }

  /** `sortChars` gives the one sorted arrangement of a string's characters. */
  lemma SortedPermutation(a: string, b: string)
    requires Sorted(b) && multiset(a) == multiset(b)
    ensures SortChars(a) == b
  {
    SortedUnique(SortChars(a), b);
  }

  /** `replace("_", "A").replace("-", "a")` on one character: the optional markers sort as letters. */
  function SwapOptional(c: char): char {
    if c == '_' then 'A' else if c == '-' then 'a' else c
  }

  /** `replace("A", "_").replace("a", "-")` on one character: the letters go back to markers. */
  function SwapBack(c: char): char {
    if c == 'A' then '_' else if c == 'a' then '-' else c
  }

  /**
   * The sorted form of one block. A `[` block loses its brackets, has its characters sorted by code
   * and is wrapped again; when it holds neither `0` nor a letter marker, `_` and `-` are sorted as
   * `A` and `a` and put back afterwards. Any other block stays as it is.
   */
  function SortBlock(block: string): string {
    if !StartsWithMaskOpen(block) then block
    else if '0' in block || 'a' in block || 'A' in block then
      WrapWithMaskBraces(SortChars(RemoveAllMaskBraces(block)))
    else
      MapChars(SwapBack, WrapWithMaskBraces(SortChars(MapChars(SwapOptional, RemoveAllMaskBraces(block)))))
  }

  function SortBlocks(blocks: seq<string>): seq<string>
    decreases |blocks|
  {
    if blocks == [] then [] else SortBlocks(blocks[..|blocks| - 1]) + [SortBlock(blocks[|blocks| - 1])]
  }

  /** `sortFormatBlocks`: every block replaced by its sorted form. */
  method SortFormatBlocks(blocks: seq<string>) returns (sortedBlocks: seq<string>)
    ensures sortedBlocks == SortBlocks(blocks)
  {
    sortedBlocks := [];
    for k := 0 to |blocks|
      invariant sortedBlocks == SortBlocks(blocks[..k])
    {
      var block := blocks[k];
      assert blocks[..k + 1][..k] == blocks[..k];
      var sortedBlock: string;
      if StartsWithMaskOpen(block) {
        if '0' in block {
          sortedBlock := WrapWithMaskBraces(SortChars(RemoveAllMaskBraces(block)));
        } else if 'a' in block || 'A' in block {
          sortedBlock := WrapWithMaskBraces(SortChars(RemoveAllMaskBraces(block)));
        } else {
          sortedBlock := WrapWithMaskBraces(SortChars(MapChars(SwapOptional, RemoveAllMaskBraces(block))));
          sortedBlock := MapChars(SwapBack, sortedBlock);
        }
      } else {
        sortedBlock := block;
      }
      sortedBlocks := sortedBlocks + [sortedBlock];
    }
    assert blocks[..|blocks|] == blocks;
  }

  /** Wrapping a bracket-free string and removing the brackets again gives it back. */
  lemma RemoveBracesOfWrap(x: string)
    requires MaskCharsOpen !in x && MaskCharsClose !in x
    ensures RemoveAllMaskBraces(WrapWithMaskBraces(x)) == x
  {
    assert WrapWithMaskBraces(x) == [MaskCharsOpen] + x + [MaskCharsClose];
    RemoveAllMaskBracesAppend([MaskCharsOpen] + x, [MaskCharsClose]);
    RemoveAllMaskBracesAppend([MaskCharsOpen], x);
    BracesRemoved(MaskCharsOpen);
    BracesRemoved(MaskCharsClose);
    RemoveAbsent(x, MaskCharsOpen);
    RemoveAbsent(x, MaskCharsClose);
  }

  /** Swapping the optional markers to letters and back is the identity on a string with no letter markers. */
  lemma SwapRoundTrip(x: string)
    requires 'A' !in x && 'a' !in x
    ensures MapChars(SwapBack, MapChars(SwapOptional, x)) == x
  {
  }

  /** Swapping back and then forward again is the identity on a string with no optional markers. */
  lemma SwapBackRoundTrip(y: string)
    requires '_' !in y && '-' !in y
    ensures MapChars(SwapOptional, MapChars(SwapBack, y)) == y
  {
  }

  /**
   * A `[` block sorts to a group `[inner]` whose inner characters are exactly the block's symbols,
   * reordered: by code, or, in a group with neither `0` nor a letter marker, by code with `_` and
   * `-` counted as `A` and `a`.
   */
  lemma SortBlockGroup(block: string)
    requires StartsWithMaskOpen(block)
    ensures var g := SortBlock(block);
      && |g| >= 2 && g[0] == MaskCharsOpen && g[|g| - 1] == MaskCharsClose
      && multiset(g[1..|g| - 1]) == multiset(RemoveAllMaskBraces(block))
      && ('0' in block || 'a' in block || 'A' in block ==> Sorted(g[1..|g| - 1]))
      && ('0' !in block && 'a' !in block && 'A' !in block ==> Sorted(MapChars(SwapOptional, g[1..|g| - 1])))
  {
    var x := RemoveAllMaskBraces(block);
    RemoveAllMaskBracesMembers(block);
    if !('0' in block || 'a' in block || 'A' in block) {
      assert 'A' !in x && 'a' !in x;
      SwappedSort(x);
    }
  }

  /** Sorting with `_` and `-` counted as `A` and `a` keeps the symbols and orders them by the swapped code. */
  lemma SwappedSort(x: string)
    requires 'A' !in x && 'a' !in x
    ensures var y := SortChars(MapChars(SwapOptional, x));
      && MapChars(SwapBack, WrapWithMaskBraces(y)) == WrapWithMaskBraces(MapChars(SwapBack, y))
      && multiset(MapChars(SwapBack, y)) == multiset(x)
      && Sorted(MapChars(SwapOptional, MapChars(SwapBack, y)))
  {
    var y := SortChars(MapChars(SwapOptional, x));
    SwapBackWrap(y);
    SwappedSortPermutation(x);
    SwappedSortOrder(x);
  }

  lemma SwapBackWrap(y: string)
    ensures MapChars(SwapBack, WrapWithMaskBraces(y)) == WrapWithMaskBraces(MapChars(SwapBack, y))
  {
    MapCharsWrap(SwapBack, y);
  }

  lemma SwappedSortPermutation(x: string)
    requires 'A' !in x && 'a' !in x
    ensures multiset(MapChars(SwapBack, SortChars(MapChars(SwapOptional, x)))) == multiset(x)
  {
    var z := MapChars(SwapOptional, x);
    MapCharsPermutation(SwapBack, SortChars(z), z);
    SwapRoundTrip(x);
  }

  lemma SwappedSortOrder(x: string)
    ensures Sorted(MapChars(SwapOptional, MapChars(SwapBack, SortChars(MapChars(SwapOptional, x)))))
  {
    var z := MapChars(SwapOptional, x);
    var y := SortChars(z);
    assert '_' !in z && '-' !in z;
    assert '_' !in multiset(y) && '-' !in multiset(y);
    SwapBackRoundTrip(y);
  }

  lemma MapCharsWrap(f: char -> char, y: string)
    requires f(MaskCharsOpen) == MaskCharsOpen && f(MaskCharsClose) == MaskCharsClose
    ensures MapChars(f, WrapWithMaskBraces(y)) == WrapWithMaskBraces(MapChars(f, y))
  {
    var w := WrapWithMaskBraces(y);
    assert w == [MaskCharsOpen] + y + [MaskCharsClose];
    MapCharsAppend(f, [MaskCharsOpen] + y, [MaskCharsClose]);
    MapCharsAppend(f, [MaskCharsOpen], y);
  }

  /** `x` must not come before `y` in a value group: an optional marker before its mandatory one, or the ellipsis before a marker. */
  predicate OutOfOrder(x: char, y: char) {
    || (x == '9' && y == '0')
    || (x == 'a' && y == 'A')
    || (x == '-' && y == '_')
    || (x == '\U{2026}' && y in "09Aa_-")
  }

  /** In `g`, each built-in mandatory marker comes before its optional counterpart and the ellipsis after every built-in marker. */
  predicate MandatoryFirst(g: string) {
    forall i, j :: 0 <= i < j < |g| ==> !OutOfOrder(g[i], g[j])
  }

  /** A group of one class sorts with its built-in mandatory markers first and its ellipsis last. */
  lemma SortBlockMandatoryFirst(block: string)
    requires StartsWithMaskOpen(block) && SingleClass(block)
    ensures MandatoryFirst(SortBlock(block))
  {
    var x := RemoveAllMaskBraces(block);
    RemoveAllMaskBracesMembers(block);
    if '0' in block || 'a' in block || 'A' in block {
      NoAlphaNumericMarkers(block);
      assert '_' !in x && '-' !in x;
      var inner := SortChars(x);
      assert '_' !in multiset(inner) && '-' !in multiset(inner);
      SortedMandatoryFirst(inner);
      WrapMandatoryFirst(inner);
    } else {
      assert 'A' !in x && 'a' !in x;
      SwappedSort(x);
      var inner := MapChars(SwapBack, SortChars(MapChars(SwapOptional, x)));
      SwappedMandatoryFirst(inner);
      WrapMandatoryFirst(inner);
    }
  }

  /** A single-class group holding `0` or a letter marker holds no `_` or `-`. */
  lemma NoAlphaNumericMarkers(block: string)
    requires SingleClass(block) && ('0' in block || 'a' in block || 'A' in block)
    ensures '_' !in block && '-' !in block
  {
    var v :| 0 <= v < |block| && block[v] in "0aA";
    assert ClassOf(block[v]).Some? && ClassOf(block[v]) != Some(AlphaNumericSymbol);
    forall u | 0 <= u < |block|
      ensures block[u] != '_' && block[u] != '-'
    {
      assert ClassOf(block[u]).None? || ClassOf(block[u]) == ClassOf(block[v]);
    }
  }

  lemma SortedMandatoryFirst(inner: string)
    requires Sorted(inner) && !('_' in inner && '-' in inner)
    ensures MandatoryFirst(inner)
  {
  }

  lemma SwappedMandatoryFirst(inner: string)
    requires Sorted(MapChars(SwapOptional, inner))
    ensures MandatoryFirst(inner)
  {
    forall i, j | 0 <= i < j < |inner|
      ensures !OutOfOrder(inner[i], inner[j])
    {
      assert SwapOptional(inner[i]) <= SwapOptional(inner[j]) by {
        assert MapChars(SwapOptional, inner)[i] == SwapOptional(inner[i]);
        assert MapChars(SwapOptional, inner)[j] == SwapOptional(inner[j]);
      }
    }
  }

  lemma WrapMandatoryFirst(inner: string)
    requires MandatoryFirst(inner)
    ensures MandatoryFirst(WrapWithMaskBraces(inner))
  {
    var g := WrapWithMaskBraces(inner);
    forall i, j | 0 <= i < j < |g|
      ensures !OutOfOrder(g[i], g[j])
    {
      if 0 < i && j < |g| - 1 {
        assert g[i] == inner[i - 1] && g[j] == inner[j - 1];
      }
    }
  }

  /** A group holding `0` or a letter marker sorts to its symbols in code order. */
  lemma SortPlainGroup(x: string)
    requires MaskCharsOpen !in x && MaskCharsClose !in x
    requires '0' in x || 'a' in x || 'A' in x
    ensures SortBlock(WrapWithMaskBraces(x)) == WrapWithMaskBraces(SortChars(x))
  {
    var w := WrapWithMaskBraces(x);
    RemoveBracesOfWrap(x);
    assert w == [MaskCharsOpen] + x + [MaskCharsClose];
    assert StartsWithMaskOpen(w);
    assert '0' in w || 'a' in w || 'A' in w;
  }

  /** A group holding neither `0` nor a letter marker sorts with `_` and `-` counted as `A` and `a`. */
  lemma SortSwappedGroup(x: string)
    requires MaskCharsOpen !in x && MaskCharsClose !in x
    requires '0' !in x && 'a' !in x && 'A' !in x
    ensures SortBlock(WrapWithMaskBraces(x)) ==
      WrapWithMaskBraces(MapChars(SwapBack, SortChars(MapChars(SwapOptional, x))))
  {
    var w := WrapWithMaskBraces(x);
    RemoveBracesOfWrap(x);
    assert w == [MaskCharsOpen] + x + [MaskCharsClose];
    assert StartsWithMaskOpen(w);
    assert !('0' in w || 'a' in w || 'A' in w);
    MapCharsWrap(SwapBack, SortChars(MapChars(SwapOptional, x)));
  }

  lemma DigitsSorted()
    ensures SortChars("0909") == "0099"
  {
    SameCharacters("0909", "0099");
    SortedPair('0', '9');
    SortedPermutation("0909", "0099");
  }

  /** Two four-character strings holding two `a`s and two `b`s each have the same characters. */
  lemma SameCharacters(x: string, y: string)
    requires x == "0909" && y == "0099"
    ensures multiset(x) == multiset(y)
  {
    assert x == ['0', '9'] + ['0', '9'] && y == ['0', '0'] + ['9', '9'];
  }

  /** `aabb` is sorted when `a <= b`. */
  lemma SortedPair(a: char, b: char)
    requires a <= b
    ensures Sorted([a, a, b, b])
  {
  }

  /** The example of the doc comment: `[0909]` is sorted to `[0099]`. */
  lemma SortBlockExample()
    ensures SortBlock(WrapWithMaskBraces("0909")) == WrapWithMaskBraces("0099")
  {
    SortPlainGroup("0909");
    DigitsSorted();
  }

  lemma SwappedMarkersSorted()
    ensures MapChars(SwapBack, SortChars(MapChars(SwapOptional, "-_"))) == "_-"
  {
    SwapOptionalPair();
    SwappedPairSorted();
    SwapBackPair();
  }

  lemma SwapOptionalPair()
    ensures MapChars(SwapOptional, "-_") == "aA"
  {
    var r := MapChars(SwapOptional, "-_");
    assert r[0] == 'a' && r[1] == 'A';
  }

  lemma SwapBackPair()
    ensures MapChars(SwapBack, "Aa") == "_-"
  {
    var r := MapChars(SwapBack, "Aa");
    assert r[0] == '_' && r[1] == '-';
  }

  lemma SwappedPairSorted()
    ensures SortChars("aA") == "Aa"
  {
    SwappedPair("aA", "Aa");
    SortedPermutation("aA", "Aa");
  }

  /** `aA` and `Aa` have the same characters, and `Aa` is in order. */
  lemma SwappedPair(x: string, y: string)
    requires x == "aA" && y == "Aa"
    ensures multiset(x) == multiset(y) && Sorted(y)
  {
    assert x == ['a'] + ['A'] && y == ['A'] + ['a'];
  }

  /** Without `0` or a letter marker, `_` goes before `-`: `[-_]` is sorted to `[_-]`. */
  lemma SortBlockSwappedExample()
    ensures SortBlock(WrapWithMaskBraces("-_")) == WrapWithMaskBraces("_-")
  {
    SortSwappedGroup("-_");
    SwappedMarkersSorted();
  }

  /** Every `[` group the divider emits holds symbols of one class. */
  lemma {:induction false} DivideBlocksSingleClass(blocks: seq<string>)
    ensures forall k :: 0 <= k < |DivideBlocks(blocks)| && StartsWithMaskOpen(DivideBlocks(blocks)[k]) ==>
      SingleClass(DivideBlocks(blocks)[k])
    decreases |blocks|
  {
    if blocks != [] {
      var last := blocks[|blocks| - 1];
      DivideBlocksSingleClass(blocks[..|blocks| - 1]);
      if StartsWithMaskOpen(last) {
        DivideBlockSingleClass(last);
      }
    }
  }

  /** Sorting keeps the blocks in place and sorts each on its own. */
  lemma {:induction false} SortBlocksShape(blocks: seq<string>)
    ensures |SortBlocks(blocks)| == |blocks|
    ensures forall k :: 0 <= k < |blocks| ==> SortBlocks(blocks)[k] == SortBlock(blocks[k])
    decreases |blocks|
  {
    if blocks != [] {
      var init := blocks[..|blocks| - 1];
      SortBlocksShape(init);
      forall k | 0 <= k < |blocks|
        ensures SortBlocks(blocks)[k] == SortBlock(blocks[k])
      {
        SortBlocksLast(blocks, SortBlocks(init), k);
      }
    }
  }

  /** One step of `SortBlocks`: position `k` holds the sorted block of `blocks`, given the shorter list. */
  lemma SortBlocksLast(blocks: seq<string>, sortedInit: seq<string>, k: nat)
    requires blocks != [] && k < |blocks|
    requires sortedInit == SortBlocks(blocks[..|blocks| - 1])
    requires |sortedInit| == |blocks| - 1
    requires forall j :: 0 <= j < |sortedInit| ==> sortedInit[j] == SortBlock(blocks[..|blocks| - 1][j])
    ensures |SortBlocks(blocks)| == |blocks|
    ensures SortBlocks(blocks)[k] == SortBlock(blocks[k])
  {
    assert SortBlocks(blocks) == sortedInit + [SortBlock(blocks[|blocks| - 1])];
    if k < |sortedInit| {
      assert blocks[..|blocks| - 1][k] == blocks[k];
    }
  }

  /** `sanitize`: a format with a nested group is an error; otherwise its blocks, divided and sorted, joined. */
  function Sanitized(s: string): Result<string, FormatError> {
    if !NoNestedGroup(s) then Failure(FormatError)
    else Success(Concat(SortBlocks(DivideBlocks(FormatBlocks(s)))))
  }

  /** `sanitize`, step by step as the source calls its helpers. */
  method Sanitize(s: string) returns (r: Result<string, FormatError>)
    ensures r == Sanitized(s)
  {
    var ok := CheckOpenBraces(s);
    if !ok {
      return Failure(FormatError);
    }
    var blocks := GetFormatBlocks(s);
    blocks := DivideBlocksWithMixedCharacters(blocks);
    var sortedBlocks := SortFormatBlocks(blocks);
    return Success(Concat(sortedBlocks));
  }

  /**
   * Custom markers are sorted by character code alone: `[X#]` becomes `[#X]`, whichever of the two
   * is the optional one, since the sanitizer never sees the notations.
   */
  lemma CustomMarkersByCode()
    ensures SortBlock("[X#]") == "[#X]"
  {
    CustomMarkersBracesRemoved();
    CustomMarkersUnswapped();
    CustomMarkersSorted();
    CustomMarkersWrapped();
  }

  lemma CustomMarkersWrapped()
    ensures WrapWithMaskBraces("#X") == "[#X]"
  {
    var w := WrapWithMaskBraces("#X");
    assert w[1..3] == "#X";
    assert w[0] == '[' && w[1] == '#' && w[2] == 'X' && w[3] == ']';
  }

  lemma CustomMarkersUnswapped()
    ensures '0' !in "[X#]" && 'a' !in "[X#]" && 'A' !in "[X#]"
    ensures MapChars(SwapOptional, "X#") == "X#"
    ensures MapChars(SwapBack, "[#X]") == "[#X]"
  {
    var s := "[X#]";
    forall i | 0 <= i < |s| ensures s[i] != '0' && s[i] != 'a' && s[i] != 'A' {
    }
    var v := MapChars(SwapOptional, "X#");
    assert v[0] == 'X' && v[1] == '#';
    var w := MapChars(SwapBack, "[#X]");
    assert w[0] == '[' && w[1] == '#' && w[2] == 'X' && w[3] == ']';
  }

  lemma CustomMarkersBracesRemoved()
    ensures RemoveAllMaskBraces("[X#]") == "X#"
  {
    var s := "[X#]";
    var t := "X#]";
    assert s[1..] == t && t[1..] == "#]" && "#]"[1..] == "]" && "]"[1..] == [];
    assert Remove("]", MaskCharsOpen) == "]" && Remove("]", MaskCharsClose) == [];
    assert Remove("#]", MaskCharsOpen) == "#]" && Remove("#]", MaskCharsClose) == "#";
    assert Remove(t, MaskCharsOpen) == t && Remove(t, MaskCharsClose) == "X#";
    assert Remove(s, MaskCharsOpen) == t;
  }

  lemma CustomMarkersSorted()
    ensures SortChars("X#") == "#X"
  {
    assert "X#"[1..] == "#" && "#"[1..] == [];
    assert SortChars("#") == "#";
    assert InsertChar('X', "#") == "#X";
  }

  /** A string whose only opening bracket, of either kind, is its first character has no nested group. */
  lemma LeadingOpenOnly(s: string)
    requires forall i :: 0 < i < |s| ==> s[i] != MaskCharsOpen && s[i] != FixedCharsOpen
    ensures NoNestedGroup(s)
  {
    forall i | 0 <= i < |s| ensures !NestedAt(s, i) {
      if i == 0 {
        assert s[..0] == [];
      }
    }
  }

  /** The lexer keeps `[\]]` as one block, with its escaped `]` inside it. */
  lemma EscapedCloseBlock()
    ensures FormatBlocks("[\\]]") == ["[\\]]"]
  {
    var s := "[\\]]";
    assert s[..3] == "[\\]" && s[..3][..2] == "[\\" && s[..3][..2][..1] == "[" && "["[..0] == [];
    assert LexOf("[") == Lexer([], "[", false);
    assert LexOf("[\\") == Lexer([], "[\\", true);
    assert LexOf("[\\]") == Lexer([], "[\\]", false);
    assert "[\\]" + [MaskCharsClose] == s;
    assert LexOf(s) == Lexer([s], [], false);
  }

  /** The divider reads the escaped `]` as a symbol and closes the group at the last `]`. */
  lemma EscapedCloseDivided()
    ensures DivideBlock("[\\]]") == ["[\\]]"]
  {
    var s := "[\\]]";
    EscapedBracketKept();
    DivideOfSnoc("[\\]", MaskCharsClose);
    assert "[\\]" + [MaskCharsClose] == s;
    assert "[\\]"[2] != EscapeChar;
  }

  /** In `[\]`, the `]` after the backslash is kept in the group, which stays open. */
  lemma EscapedBracketKept()
    ensures DivideOf("[\\]") == Divider([], "[\\]", false)
  {
    DivideOfSnoc([], MaskCharsOpen);
    assert [] + [MaskCharsOpen] == "[";
    DivideOfSnoc("[", EscapeChar);
    assert "[" + [EscapeChar] == "[\\";
    assert !StartsNewGroup("[", EscapeChar);
    DivideOfSnoc("[\\", MaskCharsClose);
    assert "[\\" + [MaskCharsClose] == "[\\]";
    assert !StartsNewGroup("[\\", MaskCharsClose);
  }

  /** Removing the brackets from `[\]]` leaves the backslash alone: the escaped `]` goes too. */
  lemma EscapedCloseBracesRemoved()
    ensures RemoveAllMaskBraces("[\\]]") == "\\"
  {
    var s := "[\\]]";
    var t := "\\]]";
    assert s[1..] == t && t[1..] == "]]" && "]]"[1..] == "]" && "]"[1..] == [];
    assert Remove("]", MaskCharsOpen) == "]" && Remove("]", MaskCharsClose) == [];
    assert Remove("]]", MaskCharsOpen) == "]]" && Remove("]]", MaskCharsClose) == [];
    assert Remove(t, MaskCharsOpen) == t && Remove(t, MaskCharsClose) == "\\";
    assert Remove(s, MaskCharsOpen) == t;
  }

  /** Sorting `[\]]` removes every `]`, the escaped one included. */
  lemma EscapedCloseSorted()
    ensures SortBlock("[\\]]") == "[\\]"
  {
    EscapedCloseBracesRemoved();
    EscapedCloseUnswapped();
    assert "\\"[1..] == [] && SortChars("\\") == InsertChar(EscapeChar, []) == "\\";
    EscapedCloseWrapped();
  }

  lemma EscapedCloseUnswapped()
    ensures '0' !in "[\\]]" && 'a' !in "[\\]]" && 'A' !in "[\\]]"
    ensures MapChars(SwapOptional, "\\") == "\\"
    ensures MapChars(SwapBack, "[\\]") == "[\\]"
  {
    var s := "[\\]]";
    forall i | 0 <= i < |s| ensures s[i] != '0' && s[i] != 'a' && s[i] != 'A' {
    }
    var v := MapChars(SwapOptional, "\\");
    assert v[0] == EscapeChar;
    var w := MapChars(SwapBack, "[\\]");
    assert w[0] == '[' && w[1] == EscapeChar && w[2] == ']';
  }

  lemma EscapedCloseWrapped()
    ensures WrapWithMaskBraces("\\") == "[\\]"
  {
    var w := WrapWithMaskBraces("\\");
    assert w[1..2] == "\\";
    assert w[0] == '[' && w[1] == EscapeChar && w[2] == ']';
  }

  /**
   * `[\]]`, a value group holding an escaped `]`, sanitizes to `[\]`: the lexer and the divider
   * keep the escaped bracket, but `removeAllMaskBraces` drops it with the group's own brackets.
   */
  lemma EscapedCloseLost()
    ensures Sanitized("[\\]]") == Success("[\\]")
  {
    var s := "[\\]]";
    LeadingOpenOnly(s);
    EscapedCloseBlock();
    EscapedCloseDivided();
    EscapedCloseSorted();
    assert DivideBlocks([s]) == [s];
    assert SortBlocks([s]) == ["[\\]"];
    assert Concat(["[\\]"]) == "[\\]";
  }

  /** `[\]`, a value group whose closing bracket is escaped, is never closed, so it sanitizes to nothing. */
  lemma EscapedCloseUnclosed()
    ensures Sanitized("[\\]") == Success("")
  {
    var s := "[\\]";
    LeadingOpenOnly(s);
    assert s[..2] == "[\\" && s[..2][..1] == "[" && "["[..0] == [];
    assert LexOf("[") == Lexer([], "[", false);
    assert LexOf("[\\") == Lexer([], "[\\", true);
    assert LexOf(s) == Lexer([], s, false);
    assert FormatBlocks(s) == [s];
    EscapedBracketKept();
    assert DivideBlocks([s]) == [];
  }

  /**
   * Sanitizing is not idempotent: `[\]]` sanitizes to `[\]`, which sanitizes to the empty
   * format, because the escaped `]` is removed with the brackets and the backslash left behind
   * then escapes the group's closing bracket.
   */
  lemma SanitizeNotIdempotent()
    ensures var once := Sanitized("[\\]]");
      once.Success? && Sanitized(once.value) != once
  {
    EscapedCloseLost();
    EscapedCloseUnclosed();
  }

  /**
   * In every value group of a sanitized format, built-in mandatory markers come before their
   * optional counterparts and the ellipsis after every built-in marker.
   */
  lemma SanitizedGroupsOrdered(s: string)
    ensures var groups := SortBlocks(DivideBlocks(FormatBlocks(s)));
      forall k :: 0 <= k < |groups| && StartsWithMaskOpen(groups[k]) ==> MandatoryFirst(groups[k])
  {
    var divided := DivideBlocks(FormatBlocks(s));
    DivideBlocksSingleClass(FormatBlocks(s));
    SortBlocksShape(divided);
    forall k | 0 <= k < |divided| && StartsWithMaskOpen(SortBlocks(divided)[k])
      ensures MandatoryFirst(SortBlocks(divided)[k])
    {
      if StartsWithMaskOpen(divided[k]) {
        SortBlockMandatoryFirst(divided[k]);
      }
    }
  }
}
