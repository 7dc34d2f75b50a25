/** Where the masker takes whitespace to be: at the characters Unicode calls white space. */
module SpacePoints {
  import opened Bytes
  import opened Utf8
  import opened Utf8Points
  import opened StreamScrubbing

  /** The code points with the property White_Space. */
  predicate IsSpace(c: int) {
    || 9 <= c <= 13 || c == 0x20 || c == 0x85 || c == 0xA0 || c == 0x1680 || 0x2000 <= c <= 0x200A
    || c in [0x2028, 0x2029, 0x202F, 0x205F, 0x3000]
  }

  lemma SpaceOfTwo(c: int, rest: seq<byte>)
    requires 0x80 <= c < 0x800
    ensures WhitespaceAt(EncodePoint(c) + rest, 0) == if IsSpace(c) then 2 else 0
  {
    var text := EncodePoint(c) + rest;
    assert text[0] == 0xC0 + c / 64 && text[1] == 0x80 + c % 64;
  }

  lemma SpaceOfThree(c: int, rest: seq<byte>)
    requires IsScalar(c) && 0x800 <= c < 0x1_0000
    ensures WhitespaceAt(EncodePoint(c) + rest, 0) == if IsSpace(c) then 3 else 0
  {
    var text := EncodePoint(c) + rest;
    var h, m, l := c / 64 / 64, c / 64 % 64, c % 64;
    assert text[0] == 0xE0 + h && text[1] == 0x80 + m && text[2] == 0x80 + l;
    assert c / 64 == 64 * h + m && c == 64 * (64 * h + m) + l;
  }

  /** A character is taken for whitespace exactly if it is. */
  lemma {:induction false} SpaceExactly(c: int, rest: seq<byte>)
    requires IsScalar(c)
    ensures WhitespaceAt(EncodePoint(c) + rest, 0) == if IsSpace(c) then |EncodePoint(c)| else 0
  {
    if c < 0x80 {
      assert (EncodePoint(c) + rest)[0] == c;
    } else if c < 0x800 {
      SpaceOfTwo(c, rest);
    } else if c < 0x1_0000 {
      SpaceOfThree(c, rest);
    } else {
      assert (EncodePoint(c) + rest)[0] == EncodePoint(c)[0] >= 0xF0;
    }
  }

  /** Nor is any of its bytes behind the first. */
  lemma NoSpaceInside(c: int, rest: seq<byte>, i: nat)
    requires IsScalar(c) && 0 < i < |EncodePoint(c)|
    ensures WhitespaceAt(EncodePoint(c) + rest, i) == 0
  {
    assert IsContinuation((EncodePoint(c) + rest)[i]);
  }

  lemma {:induction false} FindSkips(text: seq<byte>, i: nat, n: nat)
    requires i <= n <= |text| && forall k | i <= k < n :: WhitespaceAt(text, k) == 0
    ensures FindWhitespace(text, i) == FindWhitespace(text, n)
    decreases n - i
  {
    if i < n {
      FindSkips(text, i + 1, n);
    }
  }

  lemma SpaceBehind(head: seq<byte>, text: seq<byte>, i: nat)
    requires i < |text|
    ensures WhitespaceAt(head + text, |head| + i) == WhitespaceAt(text, i)
  {
    var all := head + text;
    assert all[|head| + i] == text[i];
    assert i + 1 < |text| ==> all[|head| + i + 1] == text[i + 1];
    assert i + 2 < |text| ==> all[|head| + i + 2] == text[i + 2];
  }

  lemma {:induction false} FindBehind(head: seq<byte>, text: seq<byte>, i: nat)
    requires i <= |text|
    ensures FindWhitespace(head + text, |head| + i) == |head| + FindWhitespace(text, i)
    decreases |text| - i
  {
    if i < |text| {
      SpaceBehind(head, text, i);
      FindBehind(head, text, i + 1);
    }
  }

  lemma FindPast(c: int, rest: seq<byte>)
    requires IsScalar(c) && !IsSpace(c)
    ensures FindWhitespace(EncodePoint(c) + rest, 0) == |EncodePoint(c)| + FindWhitespace(rest, 0)
  {
    var head := EncodePoint(c);
    SpaceExactly(c, rest);
    forall i | 0 <= i < |head| ensures WhitespaceAt(head + rest, i) == 0 {
      if i > 0 {
        NoSpaceInside(c, rest, i);
      }
    }
    FindSkips(head + rest, 0, |head|);
    FindBehind(head, rest, 0);
  }

  /** What is swallowed of a text: everything in front of its first whitespace character. */
  lemma {:induction false} FindExactly(cs: Points, k: nat)
    requires k <= |cs| && (forall i | 0 <= i < k :: !IsSpace(cs[i])) && (k < |cs| ==> IsSpace(cs[k]))
    ensures FindWhitespace(EncodePoints(cs), 0) == |EncodePoints(cs[..k])|
    decreases k
  {
    if k == 0 {
      if cs != [] {
        SpaceExactly(cs[0], EncodePoints(cs[1..]));
      }
    } else {
      FindPast(cs[0], EncodePoints(cs[1..]));
      FindExactly(cs[1..], k - 1);
      assert cs[..k][0] == cs[0] && cs[..k][1..] == cs[1..][..k - 1];
    }
  }
}
