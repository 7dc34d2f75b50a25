/** Percent-encoding (section 2.1 of RFC 3986) of S3 paths and cache keys, its decoder, and
    which cache keys share a file. */
module PercentEncoding {
  import opened Bytes
  import opened Utf8
  import opened Options
  import opened Decimal

  const PERCENT: byte := 0x25
  const PLUS: byte := 0x2B
  const SLASH: byte := 0x2F
  const DOT: byte := 0x2E

  predicate IsAlphanumeric(b: byte) {
    0x30 <= b <= 0x39 || 0x41 <= b <= 0x5A || 0x61 <= b <= 0x7A
  }

  /** What an encoder leaves as it is: `encode_path` for S3, `encode_key` for file names, and
      the unreserved characters for secrets in URLs. */
  datatype Alphabet = PathBytes | KeyBytes | UnreservedBytes

  predicate Keeps(a: Alphabet, b: byte) {
    || IsAlphanumeric(b) || b in [0x2D, 0x5F]
    || (!a.KeyBytes? && b in [DOT, 0x7E])
    || (a.PathBytes? && b == SLASH)
  }

  function HexDigit(n: nat): (b: byte)
    requires n < 16
    ensures IsAlphanumeric(b)
  {
    if n < 10 then 0x30 + n else 0x41 + (n - 10)
  }

  function HexValue(b: byte): Option<nat> {
    if 0x30 <= b <= 0x39 then Some(b - 0x30)
    else if 0x41 <= b <= 0x46 then Some(b - 0x41 + 10)
    else if 0x61 <= b <= 0x66 then Some(b - 0x61 + 10)
    else None
  }

  function EncodeByte(b: byte, a: Alphabet): (s: seq<byte>)
    ensures s != [] && forall i | 0 <= i < |s| :: Keeps(a, s[i]) || s[i] == PERCENT
  {
    if Keeps(a, b) then [b] else [PERCENT, HexDigit(b / 16), HexDigit(b % 16)]
  }

  function Encode(text: seq<byte>, a: Alphabet): (s: seq<byte>) {
    if text == [] then [] else EncodeByte(text[0], a) + Encode(text[1..], a)
  }

  /** `u8::from_str_radix(_, 16)` of two bytes; a plus sign is allowed in front. */
  function FromHex(x: byte, y: byte): Option<byte> {
    match (HexValue(x), HexValue(y))
    case (Some(h), Some(l)) => Some(16 * h + l)
    case (None, Some(l)) => if x == PLUS then Some(l) else None
    case _ => None
  }

  /** What stands at the front of the text to be decoded: an escape, or a plain byte. The two
      bytes of an escape must lie between character boundaries. */
  function Escape(s: seq<byte>): Option<byte>
    requires s != []
  {
    if s[0] == PERCENT && |s| >= 3 && IsCharBoundary(s, 1) && IsCharBoundary(s, 3) then FromHex(s[1], s[2]) else None
  }

  function DecodeBytes(s: seq<byte>): (out: seq<byte>) {
    if s == [] then []
    else
      match Escape(s)
      case Some(b) => [b] + DecodeBytes(s[3..])
      case None => [s[0]] + DecodeBytes(s[1..])
  }

  lemma EscapeInTail(text: seq<byte>, i: nat)
    requires i < |text|
    ensures Escape(text[i..]) ==
            if text[i] == PERCENT && i + 3 <= |text| && IsCharBoundary(text, i + 1) && IsCharBoundary(text, i + 3)
            then FromHex(text[i + 1], text[i + 2]) else None
  {
    assert i + 3 <= |text| ==> text[i..][1] == text[i + 1] && text[i..][2] == text[i + 2];
    assert i + 3 < |text| ==> text[i..][3] == text[i + 3];
  }

  /** `percent_decode` */
  method PercentDecode(text: seq<byte>) returns (decoded: seq<byte>)
    ensures decoded == Lossy(DecodeBytes(text))
  {
    var out: seq<byte>, i := [], 0;
    assert text[0..] == text;
    while i < |text|
      invariant i <= |text| && out + DecodeBytes(text[i..]) == DecodeBytes(text)
    {
      EscapeInTail(text, i);
      var escaped := None;
      if text[i] == PERCENT && i + 3 <= |text| && IsCharBoundary(text, i + 1) && IsCharBoundary(text, i + 3) {
        escaped := FromHex(text[i + 1], text[i + 2]);
      }
      ghost var rest := text[i..];
      match escaped
      case Some(b) =>
        assert rest[3..] == text[i + 3..];
        Reassociate(out, [b], DecodeBytes(text[i + 3..]));
        out, i := out + [b], i + 3;
      case None =>
        assert rest[1..] == text[i + 1..];
        Reassociate(out, [text[i]], DecodeBytes(text[i + 1..]));
        out, i := out + [text[i]], i + 1;
    }
    assert text[i..] == [] && out + [] == out;
    decoded := Lossy(out);
  }

  // ---- Round trips ----

  /** An encoded text is ASCII of its alphabet and percent signs. */
  lemma {:induction false} EncodedBytes(text: seq<byte>, a: Alphabet)
    ensures forall i | 0 <= i < |Encode(text, a)| :: Keeps(a, Encode(text, a)[i]) || Encode(text, a)[i] == PERCENT
  {
    if text != [] {
      EncodedBytes(text[1..], a);
    }
  }

  lemma HexRoundTrip(b: byte)
    ensures FromHex(HexDigit(b / 16), HexDigit(b % 16)) == Some(b)
  {
  }

  lemma EscapeIsRead(b: byte, rest: seq<byte>, a: Alphabet)
    requires rest == [] || rest[0] < 0x80
    ensures DecodeBytes(EncodeByte(b, a) + rest) == [b] + DecodeBytes(rest)
  {
    var s := EncodeByte(b, a) + rest;
    if Keeps(a, b) {
      assert s[1..] == rest;
    } else {
      HexRoundTrip(b);
      assert s[3..] == rest;
      assert IsCharBoundary(s, 1) && IsCharBoundary(s, 3);
    }
  }

  /** Decoding undoes either encoding. */
  lemma {:induction false} DecodeEncode(text: seq<byte>, a: Alphabet)
    ensures DecodeBytes(Encode(text, a)) == text
  {
    if text != [] {
      var rest := Encode(text[1..], a);
      EncodedBytes(text[1..], a);
      EscapeIsRead(text[0], rest, a);
      DecodeEncode(text[1..], a);
      assert text == [text[0]] + text[1..];
    }
  }

  /** Which digits are hexadecimal, and what they are worth. */
  lemma {:induction false} HexExactly(b: byte, v: nat)
    ensures HexValue(b) == Some(v) <==>
              v < 16 && (b as char == "0123456789abcdef"[v] || b as char == "0123456789ABCDEF"[v])
  {
  }

  /** A percent sign and two digits are one byte, a plus sign being read as a zero; any other percent sign
      stands for itself, as does any other byte. */
  lemma {:induction false} EscapesExactly(x: byte, y: byte, rest: seq<byte>)
    requires StartsChar(rest)
    ensures var digit := if x as char == '+' then Some(0) else HexValue(x);
            DecodeBytes([PERCENT, x, y] + rest) ==
            if digit.Some? && HexValue(y).Some? then [16 * digit.value + HexValue(y).value] + DecodeBytes(rest)
            else [PERCENT] + DecodeBytes([x, y] + rest)
    ensures x != PERCENT ==> DecodeBytes([x, y] + rest) == [x] + DecodeBytes([y] + rest)
  {
    var s := [PERCENT, x, y] + rest;
    assert s[3..] == rest && s[1..] == [x, y] + rest && ([x, y] + rest)[1..] == [y] + rest;
    assert |s| > 3 ==> s[3] == rest[0];
  }

  /** What stands as it is: letters, digits, hyphen and underscore; in a path also dot, tilde and slash,
      among the unreserved characters also dot and tilde. */
  predicate StandsAsItIs(a: Alphabet, b: byte) {
    var c := b as char;
    || 'a' <= c <= 'z' || 'A' <= c <= 'Z' || '0' <= c <= '9' || c == '-' || c == '_'
    || match a
       case PathBytes => c == '.' || c == '~' || c == '/'
       case UnreservedBytes => c == '.' || c == '~'
       case KeyBytes => false
  }

  /** An encoder changes a text exactly if some byte of it does not stand as it is. */
  lemma {:induction false} UnchangedExactly(text: seq<byte>, a: Alphabet)
    ensures |Encode(text, a)| >= |text|
    ensures Encode(text, a) == text <==> forall i | 0 <= i < |text| :: StandsAsItIs(a, text[i])
  {
    if text != [] {
      var rest := text[1..];
      UnchangedExactly(rest, a);
      assert text == [text[0]] + rest;
      assert StandsAsItIs(a, text[0]) <==> Keeps(a, text[0]);
      if Keeps(a, text[0]) {
        assert Encode(text, a)[1..] == Encode(rest, a);
      }
    }
  }

  /** Each byte is encoded by itself. */
  lemma {:induction false} EncodeConcat(x: seq<byte>, y: seq<byte>, a: Alphabet)
    ensures Encode(x + y, a) == Encode(x, a) + Encode(y, a)
  {
    if x == [] {
      assert x + y == y;
    } else {
      assert (x + y)[1..] == x[1..] + y;
      EncodeConcat(x[1..], y, a);
      Reassociate(EncodeByte(x[0], a), Encode(x[1..], a), Encode(y, a));
    }
  }

  /** An escape is a percent sign and two hexadecimal digits, with capital letters. */
  lemma {:induction false} EscapesAreCapital(b: byte, a: Alphabet)
    requires !StandsAsItIs(a, b)
    ensures var s := Encode([b], a);
            && |s| == 3 && s[0] as char == '%'
            && forall i | 1 <= i < 3 :: '0' <= s[i] as char <= '9' || 'A' <= s[i] as char <= 'F'
  {
    assert Encode([b], a) == EncodeByte(b, a);
  }

  /** For every string: `percent_decode(encode_path(s)) == s`. */
  lemma {:induction false} PathRoundTrip(text: seq<byte>)
    requires Valid(text)
    ensures Lossy(DecodeBytes(Encode(text, PathBytes))) == text
  {
    DecodeEncode(text, PathBytes);
    LossyOfValid(text);
  }

  lemma {:induction false} EncodeIsInjective(x: seq<byte>, y: seq<byte>, a: Alphabet)
    requires Encode(x, a) == Encode(y, a)
    ensures x == y
  {
    DecodeEncode(x, a);
    DecodeEncode(y, a);
  }

  // ---- Cache keys ----

  const KEY_LIMIT: nat := 200
  const HASHED: seq<byte> := [0x68, 0x2D] // h-

  /** The hexadecimal digest of a key, as text. */
  type Digest = seq<byte> -> seq<byte>

  ghost predicate IsDigest(hash: Digest) {
    forall key :: |hash(key)| == 64 && forall i | 0 <= i < 64 :: IsAlphanumeric(hash(key)[i])
  }

  predicate Short(key: seq<byte>) {
    |Encode(key, KeyBytes)| <= KEY_LIMIT
  }

  /** `encode_key` */
  function EncodeKey(key: seq<byte>, hash: Digest): seq<byte> {
    if Short(key) then Encode(key, KeyBytes) else HASHED + hash(key)
  }

  lemma {:induction false} PlainKey(key: seq<byte>)
    requires forall i | 0 <= i < |key| :: Keeps(KeyBytes, key[i])
    ensures Encode(key, KeyBytes) == key
  {
    if key != [] {
      PlainKey(key[1..]);
      assert key == [key[0]] + key[1..];
    }
  }

  lemma HashedName(key: seq<byte>, hash: Digest)
    requires IsDigest(hash)
    ensures var name := HASHED + hash(key); Short(name) && Encode(name, KeyBytes) == name
  {
    PlainKey(HASHED + hash(key));
  }

  /** Exactly which different keys share a name: two long ones with the same digest, or a long
      one and the short one that is spelled like its hashed name. */
  lemma {:induction false} KeysCollideExactly(x: seq<byte>, y: seq<byte>, hash: Digest)
    requires IsDigest(hash) && x != y
    ensures EncodeKey(x, hash) == EncodeKey(y, hash) <==>
              || (!Short(x) && !Short(y) && hash(x) == hash(y))
              || (!Short(x) && y == HASHED + hash(x))
              || (!Short(y) && x == HASHED + hash(y))
  {
    HashedName(x, hash);
    HashedName(y, hash);
    if Short(x) && Short(y) {
      if EncodeKey(x, hash) == EncodeKey(y, hash) {
        EncodeIsInjective(x, y, KeyBytes);
      }
    } else if !Short(x) && !Short(y) {
      assert (HASHED + hash(x))[2..] == hash(x) && (HASHED + hash(y))[2..] == hash(y);
    } else if Short(x) {
      if EncodeKey(x, hash) == EncodeKey(y, hash) {
        EncodeIsInjective(x, HASHED + hash(y), KeyBytes);
      }
    } else {
      if EncodeKey(x, hash) == EncodeKey(y, hash) {
        EncodeIsInjective(y, HASHED + hash(x), KeyBytes);
      }
    }
  }

  /** A name is one path component: no separator, no dot, so neither `.` nor `..`. It is the encoded key if
      that has up to 200 bytes, and `h-` and the digest otherwise. */
  lemma {:induction false} KeyIsOneComponent(key: seq<byte>, hash: Digest)
    requires IsDigest(hash)
    ensures var name := EncodeKey(key, hash);
            && SLASH !in name && DOT !in name && 0 !in name && |name| <= 200
            && if |Encode(key, KeyBytes)| <= 200 then name == Encode(key, KeyBytes)
               else |name| == 66 && name[0] as char == 'h' && name[1] as char == '-' && name[2..] == hash(key)
  {
    EncodedBytes(key, KeyBytes);
  }

  // ---- Cache files ----

  const ZIP: seq<byte> := [DOT, 0x7A, 0x69, 0x70] // .zip
  const ETAG: seq<byte> := [DOT, 0x65, 0x74, 0x61, 0x67] // .etag

  /** A file below the cache root: its directory and its name. */
  datatype CacheFile = CacheFile(project: seq<byte>, name: seq<byte>)

  /** `archive_path` */
  function ArchivePath(project: nat, key: seq<byte>, hash: Digest): CacheFile {
    CacheFile(Ascii("project-" + Print(project)), EncodeKey(key, hash) + ZIP)
  }

  /** `sidecar` */
  function SidecarPath(archive: CacheFile): CacheFile {
    archive.(name := archive.name + ETAG)
  }

  lemma AsciiIsInjective(s: string, t: string)
    requires Ascii(s) == Ascii(t)
    requires forall i | 0 <= i < |s| :: s[i] as int < 128
    requires forall i | 0 <= i < |t| :: t[i] as int < 128
    ensures s == t
  {
    assert forall i | 0 <= i < |s| :: Ascii(s)[i] == s[i] as int && Ascii(t)[i] == t[i] as int;
  }

  lemma ProjectsApart(m: nat, n: nat)
    requires Ascii("project-" + Print(m)) == Ascii("project-" + Print(n))
    ensures m == n
  {
    var s, t := "project-" + Print(m), "project-" + Print(n);
    AsciiIsInjective(s, t);
    assert s[8..] == Print(m) && t[8..] == Print(n);
    PrintIsInjective(m, n);
  }

  lemma SameTail<T>(a: seq<T>, b: seq<T>, tail: seq<T>)
    requires a + tail == b + tail
    ensures a == b
  {
    assert |a| == |b|;
    assert (a + tail)[..|a|] == a && (b + tail)[..|b|] == b;
  }

  /** Archives of different projects or keys are different files, as long as the encoded keys
      are short. */
  lemma {:induction false} ArchivesApart(m: nat, x: seq<byte>, n: nat, y: seq<byte>, hash: Digest)
    requires Short(x) && Short(y) && (m != n || x != y)
    ensures ArchivePath(m, x, hash) != ArchivePath(n, y, hash)
  {
    if ArchivePath(m, x, hash) == ArchivePath(n, y, hash) {
      ProjectsApart(m, n);
      SameTail(Encode(x, KeyBytes), Encode(y, KeyBytes), ZIP);
      EncodeIsInjective(x, y, KeyBytes);
    }
  }

  /** No sidecar is an archive, of any key. */
  lemma {:induction false} SidecarsApart(m: nat, x: seq<byte>, n: nat, y: seq<byte>, hash: Digest)
    ensures SidecarPath(ArchivePath(m, x, hash)) != ArchivePath(n, y, hash)
  {
    var s, a := SidecarPath(ArchivePath(m, x, hash)).name, ArchivePath(n, y, hash).name;
    assert s[|s| - 1] == 0x67 && a[|a| - 1] == 0x70;
  }
}
