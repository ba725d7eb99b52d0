/**
 * Mask selection of the text-change listener: among the primary mask and the alternative
 * ("affine") masks, pick the one whose affinity for the current text is highest, preferring the
 * primary mask on a tie and otherwise the earlier alternative. The affinity of a mask for a text is
 * computed by a strategy of the mask library; it is a parameter here.
 */
module MaskedTextChangedListener {
  import opened Model

  /** A candidate mask with its affinity for the current text. */
  datatype MaskAffinity = MaskAffinity(mask: Mask, affinity: int)

  /** Non-increasing affinities. */
  predicate SortedDesc(s: seq<MaskAffinity>) {
    forall i, j :: 0 <= i < j < |s| ==> s[i].affinity >= s[j].affinity
  }

  /** `s` with `x` put in front of position `i`, as a mutable list's `add(i, x)` leaves it. */
  function InsertAt(s: seq<MaskAffinity>, i: nat, x: MaskAffinity): (r: seq<MaskAffinity>)
    requires i <= |s|
    ensures |r| == |s| + 1 && r[i] == x
    ensures r[..i] == s[..i] && r[i + 1..] == s[i..]
  {
    s[..i] + [x] + s[i..]
  }

  /** Inserting keeps the entries before `i` in place and moves the others up by one. */
  lemma InsertAtIndex(s: seq<MaskAffinity>, i: nat, x: MaskAffinity)
    requires i <= |s|
    ensures var r := InsertAt(s, i, x);
      && (forall k :: 0 <= k < i ==> r[k] == s[k])
      && (forall k :: i < k < |r| ==> r[k] == s[k - 1])
  {
    var r := InsertAt(s, i, x);
    forall k | 0 <= k < i ensures r[k] == s[k] {
      assert r[k] == r[..i][k];
    }
    forall k | i < k < |r| ensures r[k] == s[k - 1] {
      assert r[k] == r[i + 1..][k - i - 1];
    }
  }

  /** After inserting `x`, an entry is in the list exactly when it is `x` or was in it before. */
  lemma InsertAtMember(s: seq<MaskAffinity>, i: nat, x: MaskAffinity, e: MaskAffinity)
    requires i <= |s|
    ensures e in InsertAt(s, i, x) <==> e == x || e in s
  {
    assert s == s[..i] + s[i..];
  }

  /** Inserting adds exactly `x` to the entries. */
  lemma InsertAtAddsEntry(s: seq<MaskAffinity>, i: nat, x: MaskAffinity)
    requires i <= |s|
    ensures multiset(InsertAt(s, i, x)) == multiset(s) + multiset{x}
  {
    assert s == s[..i] + s[i..];
  }

  /** Putting `x` between the entries with affinity at least its own and those with at most its own keeps the order. */
  lemma InsertAtKeepsOrder(s: seq<MaskAffinity>, i: nat, x: MaskAffinity)
    requires i <= |s| && SortedDesc(s)
    requires forall k :: 0 <= k < i ==> s[k].affinity >= x.affinity
    requires forall k :: i <= k < |s| ==> s[k].affinity <= x.affinity
    ensures SortedDesc(InsertAt(s, i, x))
  {
    InsertAtIndex(s, i, x);
  }

  // ---------------------------------------------------------------------------------------------
  // Stable sort by descending affinity

  /** The first position whose affinity is below `a`, or the end. */
  function FirstBelow(s: seq<MaskAffinity>, a: int): (i: nat)
    ensures i <= |s|
    ensures forall k :: 0 <= k < i ==> s[k].affinity >= a
    ensures i < |s| ==> s[i].affinity < a
  {
    if s == [] || s[0].affinity < a then 0 else 1 + FirstBelow(s[1..], a)
  }

  /** Insertion into a sorted list behind every entry of the same or higher affinity. */
  function InsertBehindEqual(s: seq<MaskAffinity>, x: MaskAffinity): (r: seq<MaskAffinity>)
    requires SortedDesc(s)
    ensures SortedDesc(r) && |r| == |s| + 1
  {
    var i := FirstBelow(s, x.affinity);
    InsertAtKeepsOrder(s, i, x);
    InsertAt(s, i, x)
  }

  /**
   * `sortByDescending { it.affinity }`: the entries ordered by non-increasing affinity, entries of
   * equal affinity in their original order. Built by inserting each entry, left to right, behind
   * the entries already placed with the same or higher affinity.
   */
  function SortByDescendingAffinity(s: seq<MaskAffinity>): (r: seq<MaskAffinity>)
    ensures SortedDesc(r) && |r| == |s|
  {
    if s == [] then []
    else InsertBehindEqual(SortByDescendingAffinity(s[..|s| - 1]), s[|s| - 1])
  }

  /** The sort is a permutation: it keeps every entry, as many times as it occurs. */
  lemma {:induction false} SortIsPermutation(s: seq<MaskAffinity>)
    ensures multiset(SortByDescendingAffinity(s)) == multiset(s)
    decreases |s|
  {
    if s != [] {
      var init, last := s[..|s| - 1], s[|s| - 1];
      SortIsPermutation(init);
      var sorted := SortByDescendingAffinity(init);
      InsertAtAddsEntry(sorted, FirstBelow(sorted, last.affinity), last);
      MultisetSnoc(s);
    }
  }

  lemma MultisetSnoc(s: seq<MaskAffinity>)
    requires s != []
    ensures multiset(s) == multiset(s[..|s| - 1]) + multiset{s[|s| - 1]}
  {
    assert s == s[..|s| - 1] + [s[|s| - 1]];
  }

  /** The entries of affinity `a`, in order. */
  function WithAffinity(s: seq<MaskAffinity>, a: int): seq<MaskAffinity> {
    if s == [] then []
    else WithAffinity(s[..|s| - 1], a) + (if s[|s| - 1].affinity == a then [s[|s| - 1]] else [])
  }

  lemma {:induction false} WithAffinityAppend(s: seq<MaskAffinity>, t: seq<MaskAffinity>, a: int)
    ensures WithAffinity(s + t, a) == WithAffinity(s, a) + WithAffinity(t, a)
    decreases |t|
  {
    if t == [] {
      assert s + t == s;
    } else {
      var t' := t[..|t| - 1];
      assert (s + t)[..|s + t| - 1] == s + t';
      WithAffinityAppend(s, t', a);
    }
  }

  lemma {:induction false} WithAffinityNone(s: seq<MaskAffinity>, a: int)
    requires forall k :: 0 <= k < |s| ==> s[k].affinity != a
    ensures WithAffinity(s, a) == []
    decreases |s|
  {
    if s != [] {
      WithAffinityNone(s[..|s| - 1], a);
    }
  }

  lemma WithAffinitySingle(x: MaskAffinity, a: int)
    ensures WithAffinity([x], a) == (if x.affinity == a then [x] else [])
  {
    assert [x][..0] == [];
  }

  lemma WithAffinityAround(front: seq<MaskAffinity>, x: MaskAffinity, back: seq<MaskAffinity>, a: int)
    ensures WithAffinity(front + [x] + back, a) ==
      WithAffinity(front, a) + (if x.affinity == a then [x] else []) + WithAffinity(back, a)
  {
    WithAffinitySingle(x, a);
    WithAffinityAppend(front, [x], a);
    WithAffinityAppend(front + [x], back, a);
  }

  /** An entry inserted behind its equals and ahead of lower entries comes last among its equals. */
  lemma InsertedLastOfItsAffinity(front: seq<MaskAffinity>, x: MaskAffinity, back: seq<MaskAffinity>)
    requires forall k :: 0 <= k < |back| ==> back[k].affinity < x.affinity
    ensures WithAffinity(front + [x] + back, x.affinity) == WithAffinity(front + back, x.affinity) + [x]
  {
    var a := x.affinity;
    WithAffinityAround(front, x, back, a);
    WithAffinityNone(back, a);
    WithAffinityAppend(front, back, a);
    var wf := WithAffinity(front, a);
    assert WithAffinity(front + [x] + back, a) == wf + [x] + [];
    assert WithAffinity(front + back, a) == wf + [];
  }

  /** An inserted entry leaves the entries of every other affinity as they were. */
  lemma InsertedOtherAffinity(front: seq<MaskAffinity>, x: MaskAffinity, back: seq<MaskAffinity>, a: int)
    requires x.affinity != a
    ensures WithAffinity(front + [x] + back, a) == WithAffinity(front + back, a)
  {
    WithAffinityAround(front, x, back, a);
    WithAffinityAppend(front, back, a);
    var wf, wb := WithAffinity(front, a), WithAffinity(back, a);
    assert WithAffinity(front + [x] + back, a) == wf + [] + wb;
  }

  lemma InsertBehindEqualSame(s: seq<MaskAffinity>, x: MaskAffinity)
    requires SortedDesc(s)
    ensures WithAffinity(InsertAt(s, FirstBelow(s, x.affinity), x), x.affinity) == WithAffinity(s, x.affinity) + [x]
  {
    var i := FirstBelow(s, x.affinity);
    var front, back := s[..i], s[i..];
    assert InsertAt(s, i, x) == front + [x] + back;
    assert s == front + back;
    forall k | 0 <= k < |back|
      ensures back[k].affinity < x.affinity
    {
      assert back[k] == s[i + k];
      assert s[i].affinity >= s[i + k].affinity;
    }
    InsertedLastOfItsAffinity(front, x, back);
  }

  lemma InsertBehindEqualOther(s: seq<MaskAffinity>, x: MaskAffinity, a: int)
    requires SortedDesc(s) && x.affinity != a
    ensures WithAffinity(InsertAt(s, FirstBelow(s, x.affinity), x), a) == WithAffinity(s, a)
  {
    var i := FirstBelow(s, x.affinity);
    var front, back := s[..i], s[i..];
    assert InsertAt(s, i, x) == front + [x] + back;
    InsertedOtherAffinity(front, x, back, a);
    assert s == front + back;
  }

  /** The sort is stable: the entries of each affinity keep their relative order. */
  lemma {:induction false} SortIsStable(s: seq<MaskAffinity>, a: int)
    ensures WithAffinity(SortByDescendingAffinity(s), a) == WithAffinity(s, a)
    decreases |s|
  {
    if s != [] {
      var init := s[..|s| - 1];
      SortIsStable(init, a);
      var sorted, last := SortByDescendingAffinity(init), s[|s| - 1];
      assert SortByDescendingAffinity(s) == InsertAt(sorted, FirstBelow(sorted, last.affinity), last);
      if last.affinity == a {
        InsertBehindEqualSame(sorted, last);
      } else {
        InsertBehindEqualOther(sorted, last, a);
      }
    }
  }

  // ---------------------------------------------------------------------------------------------
  // Inserting the primary mask and picking

  /** The first position whose affinity is at most `a`, or the end: where the primary mask goes. */
  function FirstAtMost(s: seq<MaskAffinity>, a: int): (i: nat)
    ensures i <= |s|
    ensures forall k :: 0 <= k < i ==> s[k].affinity > a
    ensures i < |s| ==> s[i].affinity <= a
  {
    if s == [] || a >= s[0].affinity then 0 else 1 + FirstAtMost(s[1..], a)
  }

  /**
   * The first position whose affinity is at most `a` is the one position with only higher
   * affinities before it and, unless it is the end, an affinity at most `a` at it.
   */
  lemma {:induction false} FirstAtMostIs(s: seq<MaskAffinity>, a: int, i: nat)
    requires i <= |s|
    requires forall k :: 0 <= k < i ==> s[k].affinity > a
    requires i < |s| ==> s[i].affinity <= a
    ensures FirstAtMost(s, a) == i
    decreases |s|
  {
    if s != [] && a < s[0].affinity {
      FirstAtMostIs(s[1..], a, i - 1);
    }
  }

  /** Inserting at the end appends. */
  lemma InsertAtEnd(s: seq<MaskAffinity>, x: MaskAffinity)
    ensures InsertAt(s, |s|, x) == s + [x]
  {
    assert s[|s|..] == [];
  }

  /** The alternatives with their affinities, in the order of the formats. */
  function Alternatives(affineFormats: seq<string>, customNotations: seq<Notation>, affinityOf: Mask -> int): (r: seq<MaskAffinity>)
    ensures |r| == |affineFormats|
    ensures forall i :: 0 <= i < |r| ==> r[i] == MaskAffinity(Mask(affineFormats[i], customNotations), affinityOf(Mask(affineFormats[i], customNotations)))
  {
    seq(|affineFormats|, i requires 0 <= i < |affineFormats| =>
      MaskAffinity(Mask(affineFormats[i], customNotations), affinityOf(Mask(affineFormats[i], customNotations))))
  }

  /** One more format adds its entry at the end. */
  lemma AlternativesSnoc(affineFormats: seq<string>, n: nat, customNotations: seq<Notation>, affinityOf: Mask -> int)
    requires n < |affineFormats|
    ensures var mask := Mask(affineFormats[n], customNotations);
      Alternatives(affineFormats[..n + 1], customNotations, affinityOf) ==
        Alternatives(affineFormats[..n], customNotations, affinityOf) + [MaskAffinity(mask, affinityOf(mask))]
  {
  }

  /** The ranked list: the sorted alternatives with the primary entry inserted ahead of its equals. */
  function Ranking(primary: MaskAffinity, alternatives: seq<MaskAffinity>): seq<MaskAffinity> {
    var sorted := SortByDescendingAffinity(alternatives);
    InsertAt(sorted, FirstAtMost(sorted, primary.affinity), primary)
  }

  /** `pickMask`: the primary mask without alternatives, otherwise the head of the ranking. */
  function PickedMask(primaryFormat: string, affineFormats: seq<string>, customNotations: seq<Notation>, affinityOf: Mask -> int): Mask {
    var primary := Mask(primaryFormat, customNotations);
    if affineFormats == [] then primary
    else Ranking(MaskAffinity(primary, affinityOf(primary)), Alternatives(affineFormats, customNotations, affinityOf))[0].mask
  }

  /** Sorting keeps the entries: an entry is in the sorted list exactly when it is in the input. */
  lemma SortKeepsEntries(s: seq<MaskAffinity>, e: MaskAffinity)
    ensures e in SortByDescendingAffinity(s) <==> e in s
  {
    SortIsPermutation(s);
    assert e in SortByDescendingAffinity(s) <==> e in multiset(SortByDescendingAffinity(s));
    assert e in s <==> e in multiset(s);
  }

  /** The ranking holds every candidate once: the alternatives and the primary entry. */
  lemma RankingEntries(primary: MaskAffinity, alternatives: seq<MaskAffinity>)
    ensures var r := Ranking(primary, alternatives);
      |r| == |alternatives| + 1 && multiset(r) == multiset(alternatives) + multiset{primary}
  {
    var sorted := SortByDescendingAffinity(alternatives);
    SortIsPermutation(alternatives);
    InsertAtAddsEntry(sorted, FirstAtMost(sorted, primary.affinity), primary);
  }

  /**
   * The ranking is in non-increasing affinity, with the primary entry behind exactly the
   * alternatives of strictly higher affinity.
   */
  lemma RankingShape(primary: MaskAffinity, alternatives: seq<MaskAffinity>)
    ensures var r := Ranking(primary, alternatives);
      var i := FirstAtMost(SortByDescendingAffinity(alternatives), primary.affinity);
      && |r| == |alternatives| + 1
      && SortedDesc(r)
      && r[i] == primary
      && (forall k :: 0 <= k < i ==> r[k].affinity > primary.affinity)
      && (forall k :: i < k < |r| ==> r[k].affinity <= primary.affinity)
  {
    var sorted := SortByDescendingAffinity(alternatives);
    var i := FirstAtMost(sorted, primary.affinity);
    forall k | i <= k < |sorted|
      ensures sorted[k].affinity <= primary.affinity
    {
      assert sorted[i].affinity >= sorted[k].affinity;
    }
    InsertAtKeepsOrder(sorted, i, primary);
    InsertAtIndex(sorted, i, primary);
  }

  /** The primary entry goes last exactly when every alternative has a higher affinity. */
  lemma PrimaryLastIffBeaten(primary: MaskAffinity, alternatives: seq<MaskAffinity>)
    ensures FirstAtMost(SortByDescendingAffinity(alternatives), primary.affinity) == |alternatives| <==>
      forall k :: 0 <= k < |alternatives| ==> alternatives[k].affinity > primary.affinity
  {
    var sorted := SortByDescendingAffinity(alternatives);
    var i := FirstAtMost(sorted, primary.affinity);
    if i < |sorted| {
      SortKeepsEntries(alternatives, sorted[i]);
      var k :| 0 <= k < |alternatives| && alternatives[k] == sorted[i];
      assert alternatives[k].affinity <= primary.affinity;
    } else {
      forall k | 0 <= k < |alternatives|
        ensures alternatives[k].affinity > primary.affinity
      {
        SortKeepsEntries(alternatives, alternatives[k]);
        var j :| 0 <= j < |sorted| && sorted[j] == alternatives[k];
      }
    }
  }

  /** The head of the ranking has the highest affinity of all candidates, and is one of them. */
  lemma RankingHeadIsBest(primary: MaskAffinity, alternatives: seq<MaskAffinity>)
    ensures var r := Ranking(primary, alternatives);
      && (r[0] == primary || r[0] in alternatives)
      && r[0].affinity >= primary.affinity
      && forall k :: 0 <= k < |alternatives| ==> r[0].affinity >= alternatives[k].affinity
  {
    RankingShape(primary, alternatives);
    var r := Ranking(primary, alternatives);
    RankingMember(primary, alternatives, r[0]);
    forall k | 0 <= k < |alternatives|
      ensures r[0].affinity >= alternatives[k].affinity
    {
      RankingMember(primary, alternatives, alternatives[k]);
      var j :| 0 <= j < |r| && r[j] == alternatives[k];
    }
    var i := FirstAtMost(SortByDescendingAffinity(alternatives), primary.affinity);
    assert r[0].affinity >= r[i].affinity;
  }

  /** An entry is in the ranking exactly when it is the primary entry or an alternative. */
  lemma RankingMember(primary: MaskAffinity, alternatives: seq<MaskAffinity>, e: MaskAffinity)
    ensures e in Ranking(primary, alternatives) <==> e == primary || e in alternatives
  {
    var sorted := SortByDescendingAffinity(alternatives);
    var i := FirstAtMost(sorted, primary.affinity);
    SortKeepsEntries(alternatives, e);
    InsertAtMember(sorted, i, primary, e);
  }

  /** The primary entry heads the ranking exactly when no alternative has a higher affinity. */
  lemma PrimaryWinsTies(primary: MaskAffinity, alternatives: seq<MaskAffinity>)
    ensures FirstAtMost(SortByDescendingAffinity(alternatives), primary.affinity) == 0 <==>
      forall k :: 0 <= k < |alternatives| ==> primary.affinity >= alternatives[k].affinity
    ensures (forall k :: 0 <= k < |alternatives| ==> primary.affinity >= alternatives[k].affinity) ==>
      Ranking(primary, alternatives)[0] == primary
  {
    var sorted := SortByDescendingAffinity(alternatives);
    var i := FirstAtMost(sorted, primary.affinity);
    if i == 0 {
      forall k | 0 <= k < |alternatives|
        ensures primary.affinity >= alternatives[k].affinity
      {
        SortKeepsEntries(alternatives, alternatives[k]);
        var j :| 0 <= j < |sorted| && sorted[j] == alternatives[k];
        assert sorted[0].affinity >= sorted[j].affinity;
      }
    } else {
      assert sorted[0].affinity > primary.affinity;
      SortKeepsEntries(alternatives, sorted[0]);
      var k :| 0 <= k < |alternatives| && alternatives[k] == sorted[0];
      assert primary.affinity < alternatives[k].affinity;
    }
  }

  /**
   * The picked mask: the primary mask when no alternative beats it (in particular when there are
   * none), and always a mask of highest affinity among the primary and the alternatives.
   */
  lemma PickedMaskIsBest(primaryFormat: string, affineFormats: seq<string>, customNotations: seq<Notation>, affinityOf: Mask -> int)
    ensures var primary := Mask(primaryFormat, customNotations);
      var picked := PickedMask(primaryFormat, affineFormats, customNotations, affinityOf);
      && (affineFormats == [] ==> picked == primary)
      && ((forall i :: 0 <= i < |affineFormats| ==> affinityOf(primary) >= affinityOf(Mask(affineFormats[i], customNotations))) ==>
            picked == primary)
      && (picked == primary || exists i :: 0 <= i < |affineFormats| && picked == Mask(affineFormats[i], customNotations))
      && affinityOf(picked) >= affinityOf(primary)
      && forall i :: 0 <= i < |affineFormats| ==> affinityOf(picked) >= affinityOf(Mask(affineFormats[i], customNotations))
  {
    var primary := Mask(primaryFormat, customNotations);
    if affineFormats != [] {
      var entry := MaskAffinity(primary, affinityOf(primary));
      var alternatives := Alternatives(affineFormats, customNotations, affinityOf);
      RankingHeadIsBest(entry, alternatives);
      PrimaryWinsTies(entry, alternatives);
      var head := Ranking(entry, alternatives)[0];
      assert head.affinity == affinityOf(head.mask) by {
        if head != entry {
          var k :| 0 <= k < |alternatives| && alternatives[k] == head;
        }
      }
      forall i | 0 <= i < |affineFormats|
        ensures affinityOf(head.mask) >= affinityOf(Mask(affineFormats[i], customNotations))
      {
        assert alternatives[i].affinity == affinityOf(Mask(affineFormats[i], customNotations));
      }
      if head != entry {
        var k :| 0 <= k < |alternatives| && alternatives[k] == head;
        assert head.mask == Mask(affineFormats[k], customNotations);
      }
    }
  }

  /**
   * `pickMask`: compute the affinity of every alternative mask for the text, sort them by
   * descending affinity, insert the primary mask ahead of the first alternative it is not below,
   * and return the mask at the head.
   */
  method PickMask(primaryFormat: string, affineFormats: seq<string>, customNotations: seq<Notation>,
                  calculateAffinity: (Mask, CaretString, bool) -> int,
                  text: string, caretPosition: int, autocomplete: bool)
    returns (m: Mask)
    ensures m == PickedMask(primaryFormat, affineFormats, customNotations,
                            mask => calculateAffinity(mask, CaretString(text, caretPosition), autocomplete))
  {
    var affinityOf := mask => calculateAffinity(mask, CaretString(text, caretPosition), autocomplete);
    var primaryMask := Mask(primaryFormat, customNotations);
    if affineFormats == [] {
      return primaryMask;
    }

    var primaryAffinity := calculateAffinity(primaryMask, CaretString(text, caretPosition), autocomplete);

    var masksAndAffinities: seq<MaskAffinity> := [];
    var n := 0;
    while n < |affineFormats|
      invariant 0 <= n <= |affineFormats|
      invariant masksAndAffinities == Alternatives(affineFormats[..n], customNotations, affinityOf)
    {
      var mask := Mask(affineFormats[n], customNotations);
      var affinity := calculateAffinity(mask, CaretString(text, caretPosition), autocomplete);
      AlternativesSnoc(affineFormats, n, customNotations, affinityOf);
      masksAndAffinities := masksAndAffinities + [MaskAffinity(mask, affinity)];
      n := n + 1;
    }
    assert affineFormats[..n] == affineFormats;

    masksAndAffinities := SortByDescendingAffinity(masksAndAffinities);

    var insertIndex := -1;
    var index := 0;
    while index < |masksAndAffinities|
      invariant 0 <= index <= |masksAndAffinities| && insertIndex == -1
      invariant forall k :: 0 <= k < index ==> masksAndAffinities[k].affinity > primaryAffinity
    {
      if primaryAffinity >= masksAndAffinities[index].affinity {
        insertIndex := index;
        break;
      }
      index := index + 1;
    }

    var primaryEntry := MaskAffinity(primaryMask, primaryAffinity);
    if insertIndex >= 0 {
      FirstAtMostIs(masksAndAffinities, primaryAffinity, insertIndex);
      masksAndAffinities := InsertAt(masksAndAffinities, insertIndex, primaryEntry);
    } else {
      FirstAtMostIs(masksAndAffinities, primaryAffinity, |masksAndAffinities|);
      InsertAtEnd(masksAndAffinities, primaryEntry);
      masksAndAffinities := masksAndAffinities + [primaryEntry];
    }

    m := masksAndAffinities[0].mask;
  }
}
