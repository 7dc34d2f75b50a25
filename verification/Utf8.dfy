/** UTF-8 as the runner's standard library sees it: section 4 of RFC 3629, with the
    ill-formed parts cut the way `str::from_utf8` and `String::from_utf8_lossy` cut them. */
module Utf8 {
  import opened Bytes

  predicate IsContinuation(b: byte) {
    0x80 <= b < 0xC0
  }

  /** `str::is_char_boundary` */
  predicate IsCharBoundary(text: seq<byte>, i: int) {
    i == 0 || i == |text| || (0 < i < |text| && !IsContinuation(text[i]))
  }

  /** What every `str` satisfies at its left end; enough for cutting and joining strings. */
  predicate StartsChar(text: seq<byte>) {
    text == [] || !IsContinuation(text[0])
  }

  lemma BoundaryBehind(a: seq<byte>, b: seq<byte>, i: nat)
    requires StartsChar(b) && i <= |b|
    ensures IsCharBoundary(a + b, |a| + i) <==> IsCharBoundary(b, i)
  {
    assert i < |b| ==> (a + b)[|a| + i] == b[i];
  }

  /** The first unit of a byte string: a character, an ill-formed sequence, or a
      sequence that ends too early and may still become a character. */
  datatype Unit = Char(len: nat) | IllFormed(len: nat) | Incomplete

  /** Bounds of the second byte after lead byte `lead`. */
  function SecondLow(lead: byte): byte {
    if lead == 0xE0 then 0xA0 else if lead == 0xF0 then 0x90 else 0x80
  }

  function SecondHigh(lead: byte): byte {
    if lead == 0xED then 0x9F else if lead == 0xF4 then 0x8F else 0xBF
  }

  /** Length of the character a lead byte announces; 0 for a byte that starts none. */
  function Announced(lead: byte): (n: nat)
    ensures n <= 4
  {
    if lead < 0x80 then 1
    else if 0xC2 <= lead <= 0xDF then 2
    else if 0xE0 <= lead <= 0xEF then 3
    else if 0xF0 <= lead <= 0xF4 then 4
    else 0
  }

  /** Whether byte `i` of `b` continues the character its lead byte announces. */
  predicate Continues(b: seq<byte>, i: nat)
    requires 1 <= i < |b|
  {
    if i == 1 then SecondLow(b[0]) <= b[1] <= SecondHigh(b[0]) else IsContinuation(b[i])
  }

  /** How far `b` follows its announced length `n`, from byte `i` on. */
  function Follows(b: seq<byte>, n: nat, i: nat): (m: nat)
    requires 1 <= i <= n && i <= |b|
    ensures i <= m <= n && m <= |b|
    ensures forall k | i <= k < m :: Continues(b, k)
    ensures m < n && m < |b| ==> !Continues(b, m)
    decreases n - i
  {
    if i < n && i < |b| && Continues(b, i) then Follows(b, n, i + 1) else i
  }

  function FirstUnit(b: seq<byte>): (u: Unit)
    requires b != []
    ensures !u.Incomplete? ==> 1 <= u.len <= |b| && u.len <= 4
    ensures u.Incomplete? ==> |b| <= 3 && |b| < Announced(b[0])
  {
    var n := Announced(b[0]);
    if n == 0 then IllFormed(1)
    else
      var m := Follows(b, n, 1);
      if m == n then Char(n) else if m == |b| then Incomplete else IllFormed(m)
  }

  /** Length of the first unit, an unfinished one running to the end. */
  function UnitLength(b: seq<byte>): (n: nat)
    requires b != []
    ensures 1 <= n <= |b|
  {
    var u := FirstUnit(b);
    if u.Incomplete? then |b| else u.len
  }

  /** Well-formed UTF-8. */
  predicate Valid(b: seq<byte>) {
    b == [] || (var u := FirstUnit(b); u.Char? && Valid(b[u.len..]))
  }

  /** Outcome of `str::from_utf8`: how much is valid, and what stops it. */
  datatype Checked = Checked(validUpTo: nat, stop: Stop)
  datatype Stop = AtEnd | AtIncomplete | AtIllFormed

  function FromUtf8(b: seq<byte>): (c: Checked)
    ensures c.validUpTo <= |b|
    ensures Valid(b[..c.validUpTo])
    ensures c.stop.AtEnd? <==> c.validUpTo == |b|
    ensures c.stop.AtIncomplete? ==> FirstUnit(b[c.validUpTo..]).Incomplete?
    ensures c.stop.AtIllFormed? ==> FirstUnit(b[c.validUpTo..]).IllFormed?
  {
    if b == [] then Checked(0, AtEnd)
    else
      match FirstUnit(b)
      case Char(n) =>
        var c := FromUtf8(b[n..]);
        ValidAfterChar(b, n, c.validUpTo);
        assert b[n..][c.validUpTo..] == b[n + c.validUpTo..];
        Checked(n + c.validUpTo, c.stop)
      case IllFormed(_) => assert b[0..] == b; Checked(0, AtIllFormed)
      case Incomplete => assert b[0..] == b; Checked(0, AtIncomplete)
  }

  const REPLACEMENT: seq<byte> := [0xEF, 0xBF, 0xBD]

  /** A character, or an ill-formed or unfinished part. */
  datatype Piece = Good(bytes: seq<byte>) | Bad(bytes: seq<byte>)

  function FirstPiece(b: seq<byte>): (p: Piece)
    requires b != []
    ensures p.bytes == b[..UnitLength(b)]
  {
    if FirstUnit(b).Char? then Good(b[..UnitLength(b)]) else Bad(b[..UnitLength(b)])
  }

  function Pieces(b: seq<byte>): (ps: seq<Piece>) {
    if b == [] then [] else [FirstPiece(b)] + Pieces(b[UnitLength(b)..])
  }

  function PieceText(p: Piece): seq<byte> {
    if p.Good? then p.bytes else REPLACEMENT
  }

  function Text(ps: seq<Piece>): (text: seq<byte>) {
    if ps == [] then [] else PieceText(ps[0]) + Text(ps[1..])
  }

  /** `String::from_utf8_lossy`: every ill-formed part becomes U+FFFD. */
  function Lossy(b: seq<byte>): (text: seq<byte>) {
    Text(Pieces(b))
  }

  lemma {:induction false} FollowsPrefix(b: seq<byte>, k: nat, n: nat, i: nat)
    requires 1 <= i <= n && i <= k <= |b|
    ensures Follows(b[..k], n, i) == Min(Follows(b, n, i), k)
    decreases n - i
  {
    if i < n && i < k && Continues(b, i) {
      FollowsPrefix(b, k, n, i + 1);
    }
  }

  /** The first unit of a prefix: the same, or one that ends too early. */
  lemma FirstUnitOfPrefix(b: seq<byte>, k: nat)
    requires 1 <= k <= |b|
    ensures FirstUnit(b).Char? && FirstUnit(b).len <= k ==> FirstUnit(b[..k]) == FirstUnit(b)
    ensures FirstUnit(b).IllFormed? && FirstUnit(b).len < k ==> FirstUnit(b[..k]) == FirstUnit(b)
    ensures k < UnitLength(b) ==> FirstUnit(b[..k]).Incomplete?
    ensures FirstUnit(b).Incomplete? ==> FirstUnit(b[..k]).Incomplete?
    ensures FirstUnit(b) == IllFormed(k) ==> FirstUnit(b[..k]) in {IllFormed(k), Incomplete}
  {
    if Announced(b[0]) != 0 {
      FollowsPrefix(b, k, Announced(b[0]), 1);
    }
  }

  /** A unit that is complete within a prefix is the same unit in the whole. */
  lemma FirstUnitStable(b: seq<byte>, more: seq<byte>)
    requires b != [] && !FirstUnit(b).Incomplete?
    ensures FirstUnit(b + more) == FirstUnit(b)
  {
    assert (b + more)[..|b|] == b;
    if Announced(b[0]) != 0 {
      FollowsPrefix(b + more, |b|, Announced(b[0]), 1);
    }
  }

  /** Cutting right after a unit's first character keeps that character. */
  lemma FirstCharAlone(b: seq<byte>, k: nat)
    requires b != [] && FirstUnit(b).Char? && FirstUnit(b).len <= k <= |b|
    ensures FirstUnit(b[..k]) == FirstUnit(b)
  {
    FirstUnitOfPrefix(b, k);
  }

  lemma ValidAfterChar(b: seq<byte>, n: nat, k: nat)
    requires b != [] && FirstUnit(b) == Char(n)
    requires k <= |b| - n && Valid(b[n..][..k])
    ensures Valid(b[..n + k])
  {
    FirstCharAlone(b, n + k);
    assert b[..n + k][n..] == b[n..][..k];
  }

  lemma InsideChar(b: seq<byte>)
    requires b != [] && FirstUnit(b).Char?
    ensures forall i | 0 < i < FirstUnit(b).len :: IsContinuation(b[i])
  {
    forall i | 0 < i < FirstUnit(b).len ensures IsContinuation(b[i]) {
      assert Continues(b, i);
    }
  }

  /** A valid text cut at a character boundary stays valid. */
  lemma {:induction false} ValidPrefix(b: seq<byte>, j: nat)
    requires Valid(b) && j <= |b| && IsCharBoundary(b, j)
    ensures Valid(b[..j])
    decreases |b|
  {
    if 0 < j {
      var n := FirstUnit(b).len;
      InsideChar(b);
      assert j < |b| && n < j ==> b[n..][j - n] == b[j];
      ValidPrefix(b[n..], j - n);
      ValidAfterChar(b, n, j - n);
    }
  }

  /** Behind an ASCII byte of a valid text a character begins. */
  lemma {:induction false} BoundaryAfterAscii(b: seq<byte>, i: nat)
    requires Valid(b) && i < |b| && b[i] < 0x80
    ensures IsCharBoundary(b, i + 1)
    decreases |b|
  {
    var n := FirstUnit(b).len;
    InsideChar(b);
    if i >= n {
      BoundaryAfterAscii(b[n..], i - n);
    } else {
      ValidStartsChar(b[n..]);
    }
  }

  lemma ValidStartsChar(b: seq<byte>)
    requires Valid(b)
    ensures StartsChar(b)
  {
  }

  /** The first character of `a` is taken off `a + b` as it is taken off `a`. */
  lemma PeelChar(a: seq<byte>, b: seq<byte>)
    requires a != [] && FirstUnit(a).Char?
    ensures FirstUnit(a + b) == FirstUnit(a)
    ensures (a + b)[..FirstUnit(a).len] == a[..FirstUnit(a).len]
    ensures (a + b)[FirstUnit(a).len..] == a[FirstUnit(a).len..] + b
  {
    FirstUnitStable(a, b);
  }

  lemma {:induction false} ValidConcat(a: seq<byte>, b: seq<byte>)
    requires Valid(a)
    ensures Valid(a + b) <==> Valid(b)
    decreases |a|
  {
    if a == [] {
      assert a + b == b;
    } else {
      PeelChar(a, b);
      ValidConcat(a[FirstUnit(a).len..], b);
    }
  }

  lemma SuffixOfValid(head: seq<byte>, tail: seq<byte>)
    requires Valid(head) && Valid(head + tail)
    ensures Valid(tail)
  {
    ValidConcat(head, tail);
  }

  lemma ValidSuffix(b: seq<byte>, j: nat)
    requires Valid(b) && j <= |b| && IsCharBoundary(b, j)
    ensures Valid(b[j..])
  {
    var head, tail := b[..j], b[j..];
    ValidPrefix(b, j);
    TakeAndDrop(b, j);
    SuffixOfValid(head, tail);
  }

  lemma {:induction false} TextConcat(a: seq<Piece>, b: seq<Piece>)
    ensures Text(a + b) == Text(a) + Text(b)
  {
    if a == [] {
      assert a + b == b;
    } else {
      assert (a + b)[1..] == a[1..] + b;
      TextConcat(a[1..], b);
      Reassociate(PieceText(a[0]), Text(a[1..]), Text(b));
    }
  }

  /** A unit that is complete in `a` is taken off `a + b` as it is taken off `a`. */
  lemma PeelUnit(a: seq<byte>, b: seq<byte>)
    requires a != [] && !FirstUnit(a).Incomplete?
    ensures Pieces(a + b) == [FirstPiece(a)] + Pieces(a[UnitLength(a)..] + b)
    ensures Pieces(a) == [FirstPiece(a)] + Pieces(a[UnitLength(a)..])
  {
    FirstUnitStable(a, b);
    var n := UnitLength(a);
    assert (a + b)[n..] == a[n..] + b;
    assert (a + b)[..n] == a[..n];
  }

  /** Characters in front are pieces of their own. */
  lemma {:induction false} ValidPieces(a: seq<byte>, b: seq<byte>)
    requires Valid(a)
    ensures Pieces(a + b) == Pieces(a) + Pieces(b)
    decreases |a|
  {
    if a == [] {
      assert a + b == b;
    } else {
      var rest := a[UnitLength(a)..];
      PeelUnit(a, b);
      ValidPieces(rest, b);
      Reassociate([FirstPiece(a)], Pieces(rest), Pieces(b));
    }
  }

  lemma TextCons(p: Piece, ps: seq<Piece>)
    ensures Text([p] + ps) == PieceText(p) + Text(ps)
  {
    assert ([p] + ps)[1..] == ps;
  }

  lemma LossyStep(b: seq<byte>)
    requires b != []
    ensures Lossy(b) == PieceText(FirstPiece(b)) + Lossy(b[UnitLength(b)..])
  {
    TextCons(FirstPiece(b), Pieces(b[UnitLength(b)..]));
  }

  lemma {:induction false} LossyOfValid(b: seq<byte>)
    requires Valid(b)
    ensures Lossy(b) == b
    decreases |b|
  {
    if b != [] {
      LossyOfValid(b[UnitLength(b)..]);
      LossyStep(b);
      TakeAndDrop(b, UnitLength(b));
    }
  }
}
