/** How `find_iter` goes through a text, for any regex: match by match, from left to right. */
module PatternSearch {
  import opened Bytes
  import opened Utf8
  import opened Scrubber

  /** Such a function gives the end of the match that begins at an offset of a text; 0 if none does. */
  ghost predicate MovesOn(ends: (seq<byte>, nat) -> nat) {
    forall text, i: nat | i <= |text| :: ends(text, i) == 0 || i < ends(text, i) <= |text|
  }

  type Ends = ends: (seq<byte>, nat) -> nat | MovesOn(ends) ghost witness (text: seq<byte>, i: nat) => 0

  /** The leftmost matches, none overlapping an earlier one. */
  function Search(ends: Ends, text: seq<byte>, i: nat): (rs: seq<Range>)
    requires i <= |text|
    decreases |text| - i
  {
    assert MovesOn(ends);
    if i == |text| then []
    else if ends(text, i) > 0 then [Range(i, ends(text, i))] + Search(ends, text, ends(text, i))
    else Search(ends, text, i + 1)
  }

  lemma {:induction false} SearchOnChars(ends: Ends, text: seq<byte>, i: nat)
    requires i <= |text| && forall k | 0 <= k < |text| && ends(text, k) > 0 ::
               IsCharBoundary(text, k) && IsCharBoundary(text, ends(text, k))
    ensures Ordered(Search(ends, text, i), i, |text|)
    ensures forall r | r in Search(ends, text, i) :: IsCharBoundary(text, r.start) && IsCharBoundary(text, r.end)
    decreases |text| - i
  {
    assert MovesOn(ends);
    if i < |text| {
      SearchOnChars(ends, text, if ends(text, i) > 0 then ends(text, i) else i + 1);
    }
  }

  lemma {:induction false} NothingFrom(ends: Ends, text: seq<byte>, i: nat)
    requires i <= |text| && forall k | i <= k < |text| :: ends(text, k) == 0
    ensures Search(ends, text, i) == []
    decreases |text| - i
  {
    if i < |text| {
      NothingFrom(ends, text, i + 1);
    }
  }

  /** Up to the first match. */
  lemma {:induction false} FirstFrom(ends: Ends, text: seq<byte>, i: nat, at: nat, e: nat)
    requires i <= at < e <= |text| && ends(text, at) == e && forall k | i <= k < at :: ends(text, k) == 0
    ensures Search(ends, text, i) == [Range(at, e)] + Search(ends, text, e)
    decreases at - i
  {
    if i < at {
      FirstFrom(ends, text, i + 1, at, e);
    }
  }
}
