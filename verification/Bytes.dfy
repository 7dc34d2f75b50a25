/** Bytes, chunked streams and substring occurrences: the vocabulary of the job-log pipeline. */
module Bytes {

  type byte = b: int | 0 <= b < 256

  /** The stream a list of chunks was cut from. */
  function Concat(chunks: seq<seq<byte>>): (whole: seq<byte>) {
    if chunks == [] then [] else chunks[0] + Concat(chunks[1..])
  }

  lemma {:induction false} ConcatAppend(a: seq<seq<byte>>, b: seq<seq<byte>>)
    ensures Concat(a + b) == Concat(a) + Concat(b)
  {
    if a == [] {
      assert a + b == b;
    } else {
      assert (a + b)[1..] == a[1..] + b;
      ConcatAppend(a[1..], b);
    }
  }

  lemma Reassociate<T>(a: seq<T>, b: seq<T>, c: seq<T>)
    ensures a + (b + c) == (a + b) + c
  {
  }

  lemma TakeAndDrop<T>(s: seq<T>, n: nat)
    requires n <= |s|
    ensures s[..n] + s[n..] == s
  {
  }

  predicate IsPrefix(s: seq<byte>, text: seq<byte>) {
    |s| <= |text| && text[..|s|] == s
  }

  predicate EndsWith(text: seq<byte>, tail: seq<byte>) {
    |tail| <= |text| && text[|text| - |tail|..] == tail
  }

  /** `s` stands in `text` at offset `i`. */
  predicate OccursAt(text: seq<byte>, s: seq<byte>, i: int) {
    0 <= i && i + |s| <= |text| && text[i..i + |s|] == s
  }

  ghost predicate Occurs(text: seq<byte>, s: seq<byte>) {
    exists i :: OccursAt(text, s, i)
  }

  function Min(a: int, b: int): int {
    if a < b then a else b
  }

  function Max(a: int, b: int): int {
    if a < b then b else a
  }

  lemma SliceOfSlice<T>(t: seq<T>, lo: nat, hi: nat, i: nat, j: nat)
    requires lo <= hi <= |t| && i <= j <= hi - lo
    ensures t[lo..hi][i..j] == t[lo + i..lo + j]
  {
    var a, b := t[lo..hi][i..j], t[lo + i..lo + j];
    forall k | 0 <= k < j - i
      ensures a[k] == b[k]
    {
      assert t[lo..hi][i + k] == t[lo + (i + k)];
    }
  }

  /** An occurrence seen through a window of the text. */
  lemma OccursInWindow(text: seq<byte>, s: seq<byte>, lo: nat, hi: nat, i: int)
    requires lo <= hi <= |text|
    ensures OccursAt(text[lo..hi], s, i) <==> (0 <= i && i + |s| <= hi - lo && OccursAt(text, s, lo + i))
  {
    if 0 <= i && i + |s| <= hi - lo {
      SliceOfSlice(text, lo, hi, i, i + |s|);
    }
  }

  lemma OccursInTail(text: seq<byte>, s: seq<byte>, n: nat, i: int)
    requires n <= |text| && 0 <= i
    ensures OccursAt(text[n..], s, i) <==> OccursAt(text, s, n + i)
  {
    if n + i + |s| <= |text| {
      assert text[n..][i..i + |s|] == text[n + i..n + i + |s|];
    }
  }

  lemma PrefixOccurs(text: seq<byte>, s: seq<byte>, k: nat)
    requires k <= |text|
    ensures IsPrefix(s, text[k..]) <==> OccursAt(text, s, k)
  {
    OccursInTail(text, s, k, 0);
    assert k + |s| <= |text| ==> text[k..][..|s|] == text[k..][0..|s|];
  }
}
