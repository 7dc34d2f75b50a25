/** UTF-8 as the encoding of code points (section 3 of RFC 3629): what the byte tables of `Utf8`
    accept, wait for and give up on. */
module Utf8Points {
  import opened Bytes
  import opened Utf8

  /** A Unicode scalar value: no surrogate. */
  predicate IsScalar(c: int) {
    0 <= c < 0xD800 || 0xE000 <= c < 0x11_0000
  }

  /** The last byte of a character of several: it holds six bits. */
  function LastByte(c: nat): (b: byte) {
    0x80 + c % 64
  }

  /** The bytes of a code point. */
  function EncodePoint(c: int): (s: seq<byte>)
    requires IsScalar(c)
    ensures 1 <= |s| <= 4
  {
    if c < 0x80 then [c]
    else if c < 0x800 then [0xC0 + c / 64, LastByte(c)]
    else if c < 0x1_0000 then [0xE0 + c / 64 / 64, LastByte(c / 64), LastByte(c)]
    else [0xF0 + c / 64 / 64 / 64, LastByte(c / 64 / 64), LastByte(c / 64), LastByte(c)]
  }

  type Points = cs: seq<int> | forall c | c in cs :: IsScalar(c) witness []

  function EncodePoints(cs: Points): seq<byte> {
    if cs == [] then [] else EncodePoint(cs[0]) + EncodePoints(cs[1..])
  }

  /** More bytes may make it a character. */
  ghost predicate BeginsCharacter(s: seq<byte>) {
    exists c: int :: IsScalar(c) && |s| < |EncodePoint(c)| && EncodePoint(c)[..|s|] == s
  }

  // ---- Characters ----

  lemma {:induction false} FollowsAll(b: seq<byte>, n: nat, i: nat)
    requires 1 <= i <= n <= |b| && forall k | i <= k < n :: Continues(b, k)
    ensures Follows(b, n, i) == n
    decreases n - i
  {
    if i < n {
      FollowsAll(b, n, i + 1);
    }
  }

  lemma AllFollow(s: seq<byte>)
    requires s != [] && Announced(s[0]) == |s| && forall k | 1 <= k < |s| :: Continues(s, k)
    ensures FirstUnit(s) == Char(|s|)
  {
    FollowsAll(s, |s|, 1);
  }

  lemma TwoBytes(c: int)
    requires 0x80 <= c < 0x800
    ensures FirstUnit(EncodePoint(c)) == Char(2)
  {
    AllFollow(EncodePoint(c));
  }

  lemma ThreeBytes(c: int)
    requires IsScalar(c) && 0x800 <= c < 0x1_0000
    ensures FirstUnit(EncodePoint(c)) == Char(3)
  {
    var h, m := c / 64 / 64, c / 64 % 64;
    assert c / 64 == 64 * h + m && c == 64 * (64 * h + m) + c % 64;
    AllFollow(EncodePoint(c));
  }

  lemma FourBytes(c: int)
    requires 0x1_0000 <= c < 0x11_0000
    ensures FirstUnit(EncodePoint(c)) == Char(4)
  {
    var h, m := c / 64 / 64 / 64, c / 64 / 64 % 64;
    assert c / 64 / 64 == 64 * h + m && c / 64 == 64 * (64 * h + m) + c / 64 % 64;
    AllFollow(EncodePoint(c));
  }

  lemma CharacterIsUnit(c: int)
    requires IsScalar(c)
    ensures FirstUnit(EncodePoint(c)) == Char(|EncodePoint(c)|)
  {
    if c >= 0x1_0000 {
      FourBytes(c);
    } else if c >= 0x800 {
      ThreeBytes(c);
    } else if c >= 0x80 {
      TwoBytes(c);
    }
  }

  /** Six bits more. */
  function Append(c: int, b: int): int {
    64 * c + (b - 0x80)
  }

  lemma Appended(c: nat, b: byte)
    requires IsContinuation(b)
    ensures Append(c, b) / 64 == c && LastByte(Append(c, b)) == b
  {
  }

  lemma TwoByteUnit(b: seq<byte>) returns (c: int)
    requires b != [] && FirstUnit(b) == Char(2)
    ensures 0x80 <= c < 0x800 && EncodePoint(c) == b[..2]
  {
    assert Continues(b, 1);
    Appended(b[0] - 0xC0, b[1]);
    c := Append(b[0] - 0xC0, b[1]);
  }

  lemma ThreeByteUnit(b: seq<byte>) returns (c: int)
    requires b != [] && FirstUnit(b) == Char(3)
    ensures 0x800 <= c < 0x1_0000 && IsScalar(c) && EncodePoint(c) == b[..3]
  {
    assert Continues(b, 1) && Continues(b, 2);
    var d := Append(b[0] - 0xE0, b[1]);
    Appended(b[0] - 0xE0, b[1]);
    Appended(d, b[2]);
    c := Append(d, b[2]);
  }

  lemma FourByteUnit(b: seq<byte>) returns (c: int)
    requires b != [] && FirstUnit(b) == Char(4)
    ensures 0x1_0000 <= c < 0x11_0000 && EncodePoint(c) == b[..4]
  {
    assert Continues(b, 1) && Continues(b, 2) && Continues(b, 3);
    var d := Append(b[0] - 0xF0, b[1]);
    var e := Append(d, b[2]);
    Appended(b[0] - 0xF0, b[1]);
    Appended(d, b[2]);
    Appended(e, b[3]);
    c := Append(e, b[3]);
  }

  ghost predicate IsCharacter(s: seq<byte>) {
    exists c: int :: IsScalar(c) && EncodePoint(c) == s
  }

  lemma UnitIsCharacter(b: seq<byte>) returns (c: int)
    requires b != [] && FirstUnit(b).Char?
    ensures IsScalar(c) && EncodePoint(c) == b[..FirstUnit(b).len]
  {
    match FirstUnit(b).len
    case 1 => c := b[0];
    case 2 => c := TwoByteUnit(b);
    case 3 => c := ThreeByteUnit(b);
    case _ => c := FourByteUnit(b);
  }

  lemma UnitsOfPoints(c: int, rest: seq<byte>)
    requires IsScalar(c)
    ensures FirstUnit(EncodePoint(c) + rest) == Char(|EncodePoint(c)|)
    ensures (EncodePoint(c) + rest)[|EncodePoint(c)|..] == rest
  {
    CharacterIsUnit(c);
    FirstUnitStable(EncodePoint(c), rest);
  }

  lemma {:induction false} PointsAreValid(cs: Points)
    ensures Valid(EncodePoints(cs))
  {
    if cs != [] {
      PointsAreValid(cs[1..]);
      UnitsOfPoints(cs[0], EncodePoints(cs[1..]));
    }
  }

  lemma {:induction false} PointsOf(b: seq<byte>) returns (cs: Points)
    requires Valid(b)
    ensures EncodePoints(cs) == b
  {
    cs := [];
    if b != [] {
      var c := UnitIsCharacter(b);
      var more := PointsOf(b[FirstUnit(b).len..]);
      TakeAndDrop(b, FirstUnit(b).len);
      cs := PointInFront(c, more);
    }
  }

  lemma PointInFront(c: int, more: Points) returns (cs: Points)
    requires IsScalar(c)
    ensures EncodePoints(cs) == EncodePoint(c) + EncodePoints(more)
  {
    cs := [c] + more;
    assert cs[1..] == more;
  }

  /** A text is well-formed exactly if it is the encoding of some sequence of scalar values. */
  lemma {:induction false} ValidExactly(b: seq<byte>)
    ensures Valid(b) <==> exists cs: Points :: EncodePoints(cs) == b
  {
    if Valid(b) {
      var cs := PointsOf(b);
    }
    forall cs: Points | EncodePoints(cs) == b ensures Valid(b) {
      PointsAreValid(cs);
    }
  }

  /** The replacement character is U+FFFD. */
  lemma {:induction false} ReplacementIsPoint()
    ensures EncodePoint(0xFFFD) == REPLACEMENT
  {
    var c := 0xFFFD;
    assert c / 64 == 0x3FF && c / 64 / 64 == 0xF;
  }

  // ---- What is not a character ----

  /** Bytes that end too early can go on. */
  lemma GoOn(b: seq<byte>) returns (s: seq<byte>)
    requires b != [] && FirstUnit(b).Incomplete?
    ensures |b| < |s| && s[..|b|] == b && FirstUnit(s) == Char(|s|)
  {
    var n := Announced(b[0]);
    assert forall k | 1 <= k < |b| :: Continues(b, k);
    s := b + if |b| == 1 then [SecondLow(b[0])] else [0x80];
    if |s| < n {
      s := s + [0x80];
    }
    if |s| < n {
      s := s + [0x80];
    }
    forall k | 1 <= k < |s| ensures Continues(s, k) {
      assert k < |b| ==> Continues(b, k);
    }
    AllFollow(s);
  }

  lemma {:induction false} IncompleteExactly(b: seq<byte>)
    requires b != []
    ensures FirstUnit(b).Incomplete? <==> BeginsCharacter(b)
  {
    if FirstUnit(b).Incomplete? {
      var s := GoOn(b);
      var c := UnitIsCharacter(s);
      assert s[..|s|] == s;
    }
    forall c: int | IsScalar(c) && |b| < |EncodePoint(c)| && EncodePoint(c)[..|b|] == b
      ensures FirstUnit(b).Incomplete?
    {
      CharacterIsUnit(c);
      FirstUnitOfPrefix(EncodePoint(c), |b|);
    }
  }

  lemma {:induction false} CharExactly(b: seq<byte>, n: nat)
    requires 0 < n <= |b|
    ensures FirstUnit(b) == Char(n) <==> IsCharacter(b[..n])
  {
    if FirstUnit(b) == Char(n) {
      var c := UnitIsCharacter(b);
    }
    forall c: int | IsScalar(c) && EncodePoint(c) == b[..n] ensures FirstUnit(b) == Char(n) {
      assert b == EncodePoint(c) + b[n..];
      UnitsOfPoints(c, b[n..]);
    }
  }

  /** How far an ill-formed part goes: as far as the bytes begin a character, and one byte at least. */
  lemma {:induction false} IllFormedExactly(b: seq<byte>)
    requires b != []
    ensures FirstUnit(b).IllFormed? <==>
              !BeginsCharacter(b) && forall n | 0 < n <= |b| :: !IsCharacter(b[..n])
    ensures FirstUnit(b).IllFormed? ==>
              var m := FirstUnit(b).len;
              && (m > 1 ==> BeginsCharacter(b[..m]))
              && forall k | m < k <= |b| :: !BeginsCharacter(b[..k])
  {
    IncompleteExactly(b);
    forall n | 0 < n <= |b| ensures FirstUnit(b) == Char(n) <==> IsCharacter(b[..n]) {
      CharExactly(b, n);
    }
    if FirstUnit(b).IllFormed? {
      var m := FirstUnit(b).len;
      if m > 1 {
        FollowsPrefix(b, m, Announced(b[0]), 1);
        IncompleteExactly(b[..m]);
      }
      forall k | m < k <= |b| ensures !BeginsCharacter(b[..k]) {
        FirstUnitOfPrefix(b, k);
        IncompleteExactly(b[..k]);
      }
    }
    assert FirstUnit(b).Char? ==> IsCharacter(b[..FirstUnit(b).len]);
  }
}
