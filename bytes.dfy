/**
 * Bytes and unsigned little-endian integers, as Python's
 * `int.from_bytes(b, "little")` reads them, and opaque 32-bit payload words.
 */
module Bytes {

  newtype byte = x: int | 0 <= x < 256

  /** A 32-bit payload word. Its bits are kept as they are: nothing here reads it as a float. */
  newtype u32 = x: int | 0 <= x < 0x1_0000_0000

  /** 256 to the power n: the number of distinct values of n bytes. */
  function Pow256(n: nat): (p: nat)
    ensures p >= 1
  {
    if n == 0 then 1 else 256 * Pow256(n - 1)
  }

  /** The unsigned value of `s`, least significant byte first; 0 for no bytes at all. */
  function FromBytesLittle(s: seq<byte>): (v: nat)
    ensures v < Pow256(|s|)
  {
    if s == [] then 0 else s[0] as nat + 256 * FromBytesLittle(s[1..])
  }

  /** The `len` least significant bytes of `n`, least significant first. */
  function ToBytesLittle(n: nat, len: nat): (s: seq<byte>)
    ensures |s| == len
  {
    if len == 0 then [] else [(n % 256) as byte] + ToBytesLittle(n / 256, len - 1)
  }

  /** Encoding a value that fits in `len` bytes and decoding it gives the value back. */
  lemma {:induction false} FromToBytesLittle(n: nat, len: nat)
    requires n < Pow256(len)
    ensures FromBytesLittle(ToBytesLittle(n, len)) == n
  {
    if len > 0 {
      var s := ToBytesLittle(n, len);
      assert s[1..] == ToBytesLittle(n / 256, len - 1);
      FromToBytesLittle(n / 256, len - 1);
    }
  }

  /** Decoding bytes and encoding the value at the same length gives the bytes back. */
  lemma {:induction false} ToFromBytesLittle(s: seq<byte>)
    ensures ToBytesLittle(FromBytesLittle(s), |s|) == s
  {
    if s != [] {
      var v := FromBytesLittle(s);
      var tail := FromBytesLittle(s[1..]);
      assert v == s[0] as nat + 256 * tail;
      assert v % 256 == s[0] as nat && v / 256 == tail;
      ToFromBytesLittle(s[1..]);
    }
  }

  lemma Pow256Four()
    ensures Pow256(4) == 0x1_0000_0000
  {
  }

  /** The word whose little-endian encoding is the four bytes `b`. */
  function DecodeWord(b: seq<byte>): u32
    requires |b| == 4
  {
    Pow256Four();
    FromBytesLittle(b) as u32
  }

  /** The four little-endian bytes of a word. */
  function EncodeWord(x: u32): (b: seq<byte>)
    ensures |b| == 4
  {
    ToBytesLittle(x as nat, 4)
  }

  /** Encoding then decoding a word leaves it unchanged. */
  lemma DecodeEncodeWord(x: u32)
    ensures DecodeWord(EncodeWord(x)) == x
  {
    Pow256Four();
    FromToBytesLittle(x as nat, 4);
  }

  /** Decoding then encoding four bytes leaves them unchanged: no bit of a word is altered. */
  lemma EncodeDecodeWord(b: seq<byte>)
    requires |b| == 4
    ensures EncodeWord(DecodeWord(b)) == b
  {
    ToFromBytesLittle(b);
  }

  /** The words a buffer holds, four bytes each, in buffer order. */
  function Words(s: seq<byte>): (ws: seq<u32>)
    requires |s| % 4 == 0
    ensures 4 * |ws| == |s|
  {
    if s == [] then [] else [DecodeWord(s[..4])] + Words(s[4..])
  }

  /** The bytes of a sequence of words, four per word, in order. */
  function Unwords(ws: seq<u32>): (s: seq<byte>)
    ensures |s| == 4 * |ws|
  {
    if ws == [] then [] else EncodeWord(ws[0]) + Unwords(ws[1..])
  }

  /** Word j of a buffer is decoded from bytes 4j to 4j+3 and from nothing else. */
  lemma {:induction false} WordsAt(s: seq<byte>, j: nat)
    requires |s| % 4 == 0 && 4 * j + 4 <= |s|
    ensures j < |Words(s)| && Words(s)[j] == DecodeWord(s[4 * j..4 * j + 4])
  {
    if j > 0 {
      WordsAt(s[4..], j - 1);
      var t, i := s[4..], 4 * (j - 1);
      assert i + 4 == 4 * j;
      assert t[i..i + 4] == s[4 + i..4 + i + 4];
    }
  }

  /** Splitting a buffer into words and writing them back reproduces the buffer. */
  lemma {:induction false} UnwordsWords(s: seq<byte>)
    requires |s| % 4 == 0
    ensures Unwords(Words(s)) == s
  {
    if s != [] {
      EncodeDecodeWord(s[..4]);
      UnwordsWords(s[4..]);
      assert Words(s)[1..] == Words(s[4..]);
      assert s == s[..4] + s[4..];
    }
  }

  /** Writing words out and splitting the bytes again reproduces the words. */
  lemma {:induction false} WordsUnwords(ws: seq<u32>)
    ensures Words(Unwords(ws)) == ws
  {
    if ws != [] {
      var s := Unwords(ws);
      assert s[..4] == EncodeWord(ws[0]);
      assert s[4..] == Unwords(ws[1..]);
      DecodeEncodeWord(ws[0]);
      WordsUnwords(ws[1..]);
    }
  }
}
