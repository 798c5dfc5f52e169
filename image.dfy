/** The program-image loader of hello/core.py (line 101): the image file is
    read four bytes at a time, each group is taken as a little-endian
    integer, and reading stops at the first group whose value is zero. A
    read at end of file yields no bytes (value zero), and a short group
    before end of file yields the value of the bytes it has. */
module Image {
  import opened Bus

  function Pow256(n: nat): (p: nat)
    ensures p >= 1
  {
    if n == 0 then 1 else 256 * Pow256(n - 1)
  }

  /** The unsigned little-endian value of `bs` (`int.from_bytes(bs, "little")`). */
  function LeValue(bs: seq<Byte>): (v: nat)
    ensures v < Pow256(|bs|)
    ensures v == 0 <==> forall k :: 0 <= k < |bs| ==> bs[k] == 0
  {
    if bs == [] then 0
    else
      var rest := LeValue(bs[1..]);
      assert rest == 0 <==> forall k :: 1 <= k < |bs| ==> bs[k] == 0 by {
        forall k | 1 <= k < |bs| ensures bs[k] == bs[1..][k - 1] { }
      }
      bs[0] + 256 * rest
  }

  /** The `n`-byte little-endian encoding of `v`, keeping its low `n` bytes. */
  function EncodeLe(v: nat, n: nat): (bs: seq<Byte>)
    ensures |bs| == n
  {
    if n == 0 then [] else [v % 256] + EncodeLe(v / 256, n - 1)
  }

  /** Decoding an encoding gives back the value, when it fits in `n` bytes. */
  lemma {:induction false} DecodeEncode(v: nat, n: nat)
    requires v < Pow256(n)
    ensures LeValue(EncodeLe(v, n)) == v
  {
    if n > 0 {
      var bs := EncodeLe(v, n);
      DecodeEncode(v / 256, n - 1);
      assert bs[1..] == EncodeLe(v / 256, n - 1);
    }
  }

  /** Encoding a decoded byte string gives back the same bytes. */
  lemma {:induction false} EncodeDecode(bs: seq<Byte>)
    ensures EncodeLe(LeValue(bs), |bs|) == bs
  {
    if bs != [] {
      var v := LeValue(bs);
      assert v % 256 == bs[0] && v / 256 == LeValue(bs[1..]);
      EncodeDecode(bs[1..]);
    }
  }

  /** The four bytes a 32-bit word occupies in the image file. */
  function EncodeWord(w: Word): (bs: seq<Byte>)
    ensures |bs| == 4
    ensures LeValue(bs) == w
  {
    assert Pow256(4) == 0x1_0000_0000;
    DecodeEncode(w, 4);
    EncodeLe(w, 4)
  }

  /** At most four bytes always make a 32-bit word. */
  lemma ChunkFits(bs: seq<Byte>)
    requires |bs| <= 4
    ensures LeValue(bs) < 0x1_0000_0000
  {
    assert Pow256(0) == 1 && Pow256(1) == 256 && Pow256(2) == 0x1_0000;
    assert Pow256(3) == 0x100_0000 && Pow256(4) == 0x1_0000_0000;
  }

  /** The bytes the `k`-th four-byte read returns: four, or fewer at end of file. */
  function Chunk(bs: seq<Byte>, k: nat): (c: seq<Byte>)
    requires 4 * k <= |bs|
    ensures |c| <= 4
  {
    if |bs| - 4 * k < 4 then bs[4 * k..] else bs[4 * k..4 * k + 4]
  }

  /** Dropping the first group shifts the groups down by one. */
  lemma ChunkShift(bs: seq<Byte>, k: nat)
    requires 0 < k && 4 * k <= |bs|
    ensures Chunk(bs[4..], k - 1) == Chunk(bs, k)
  {
    var rest := bs[4..];
    assert |rest| - 4 * (k - 1) == |bs| - 4 * k;
    if |bs| - 4 * k < 4 {
      assert rest[4 * (k - 1)..] == bs[4 * k..];
    } else {
      assert rest[4 * (k - 1)..4 * (k - 1) + 4] == bs[4 * k..4 * k + 4];
    }
  }

  /** The word list loaded from the image bytes `bs`. */
  function LoadWords(bs: seq<Byte>): (ws: seq<Word>)
    ensures forall k :: 0 <= k < |ws| ==> ws[k] != 0
    ensures 4 * |ws| <= |bs| + 3
    decreases |bs|
  {
    var n := if |bs| < 4 then |bs| else 4;
    ChunkFits(bs[..n]);
    var w := LeValue(bs[..n]);
    if w == 0 then [] else [w] + LoadWords(bs[n..])
  }

  /** The `k`-th loaded word is the little-endian value of the `k`-th group
      of bytes. */
  lemma {:induction false} LoadWordsAt(bs: seq<Byte>, k: nat)
    requires k < |LoadWords(bs)|
    ensures 4 * k < |bs|
    ensures LoadWords(bs)[k] == LeValue(Chunk(bs, k))
    decreases k
  {
    var n := if |bs| < 4 then |bs| else 4;
    assert bs[..n] == Chunk(bs, 0);
    if k > 0 {
      assert LoadWords(bs) == [LeValue(bs[..n])] + LoadWords(bs[n..]);
      assert n == 4;
      LoadWordsAt(bs[4..], k - 1);
      ChunkShift(bs, k);
    }
  }

  /** Loading stops at end of file or at the first group whose value is zero:
      the group right after the last loaded word, if the file reaches it, is zero. */
  lemma {:induction false} LoadWordsStops(bs: seq<Byte>)
    ensures 4 * |LoadWords(bs)| < |bs| ==> LeValue(Chunk(bs, |LoadWords(bs)|)) == 0
    decreases |bs|
  {
    var n := if |bs| < 4 then |bs| else 4;
    var ws := LoadWords(bs);
    if LeValue(bs[..n]) == 0 {
      assert ws == [];
      assert bs[..n] == Chunk(bs, 0);
    } else {
      assert ws == [LeValue(bs[..n])] + LoadWords(bs[n..]);
      if n == 4 {
        LoadWordsStops(bs[4..]);
        if 4 * |ws| < |bs| {
          ChunkShift(bs, |ws|);
        }
      } else {
        assert bs[n..] == [];
      }
    }
  }

  /** The image file holding `ws`, four little-endian bytes per word. */
  function EncodeWords(ws: seq<Word>): (bs: seq<Byte>)
    ensures |bs| == 4 * |ws|
  {
    if ws == [] then [] else EncodeWord(ws[0]) + EncodeWords(ws[1..])
  }

  /** A full first group with a non-zero value is loaded as the first word. */
  lemma LoadFullGroup(bs: seq<Byte>)
    requires |bs| >= 4 && LeValue(bs[..4]) != 0
    ensures LoadWords(bs) == [LeValue(bs[..4])] + LoadWords(bs[4..])
  {
  }

  /** The first four bytes of an encoded image are its first word. */
  lemma SplitFirstWord(ws: seq<Word>, tail: seq<Byte>)
    requires ws != []
    ensures |EncodeWords(ws) + tail| >= 4
    ensures (EncodeWords(ws) + tail)[..4] == EncodeWord(ws[0])
    ensures (EncodeWords(ws) + tail)[4..] == EncodeWords(ws[1..]) + tail
  {
    EncodeWordsCons(ws);
    AssocSplit(EncodeWord(ws[0]), EncodeWords(ws[1..]), tail);
  }

  /** Splitting a concatenation after its four-byte head. */
  lemma AssocSplit(a: seq<Byte>, b: seq<Byte>, c: seq<Byte>)
    requires |a| == 4
    ensures ((a + b) + c)[..4] == a && ((a + b) + c)[4..] == b + c
  {
    assert (a + b) + c == a + (b + c);
  }

  /** An image starts with the encoding of its first word. */
  lemma EncodeWordsCons(ws: seq<Word>)
    requires ws != []
    ensures EncodeWords(ws) == EncodeWord(ws[0]) + EncodeWords(ws[1..])
  {
  }

  /** Loading the encoding of non-zero words, followed by anything that
      itself loads as nothing, gives back exactly those words. */
  lemma {:induction false} LoadEncodedWords(ws: seq<Word>, tail: seq<Byte>)
    requires forall k :: 0 <= k < |ws| ==> ws[k] != 0
    requires LoadWords(tail) == []
    ensures LoadWords(EncodeWords(ws) + tail) == ws
    decreases |ws|
  {
    if ws != [] {
      var bs := EncodeWords(ws) + tail;
      SplitFirstWord(ws, tail);
      LoadFullGroup(bs);
      LoadEncodedWords(ws[1..], tail);
      assert ws == [ws[0]] + ws[1..];
    }
  }

  /** Round trip: an image of non-zero words loads as those words. */
  lemma LoadEncodedImage(ws: seq<Word>)
    requires forall k :: 0 <= k < |ws| ==> ws[k] != 0
    ensures LoadWords(EncodeWords(ws)) == ws
  {
    assert LoadWords([]) == [];
    LoadEncodedWords(ws, []);
    assert EncodeWords(ws) + [] == EncodeWords(ws);
  }

  /** An all-zero word ends the image: nothing after it is loaded. */
  lemma ZeroWordEndsImage(ws: seq<Word>, rest: seq<Byte>)
    requires forall k :: 0 <= k < |ws| ==> ws[k] != 0
    ensures LoadWords(EncodeWords(ws) + [0, 0, 0, 0] + rest) == ws
  {
    var tail := [0, 0, 0, 0] + rest;
    assert tail[..4] == [0, 0, 0, 0];
    assert LeValue(tail[..4]) == 0;
    assert LoadWords(tail) == [];
    LoadEncodedWords(ws, tail);
    assert EncodeWords(ws) + [0, 0, 0, 0] + rest == EncodeWords(ws) + tail;
  }
}
