// The little-endian vector codec used at the storage boundary: a vector of
// 32-bit floats becomes 4 bytes per component, least significant byte first,
// with no header. A float is modelled by its raw IEEE 754 bit pattern, which
// is what a ByteBuffer writes and reads back, so no float arithmetic appears.
module LittleEndianCodec {

  /** Byte number `k` of a 32-bit pattern, counting from the least significant (k = 0). */
  function ByteOf(w: bv32, k: nat): bv8
    requires k < 4
  {
    if k == 0 then (w & 0xFF) as bv8
    else if k == 1 then ((w >> 8) & 0xFF) as bv8
    else if k == 2 then ((w >> 16) & 0xFF) as bv8
    else (w >> 24) as bv8
  }

  /** The 32-bit pattern whose bytes, least significant first, are b0, b1, b2, b3. */
  function WordOf(b0: bv8, b1: bv8, b2: bv8, b3: bv8): bv32
  {
    (b0 as bv32) | ((b1 as bv32) << 8) | ((b2 as bv32) << 16) | ((b3 as bv32) << 24)
  }

  /** The four bytes a little-endian ByteBuffer.putFloat writes for the pattern `w`. */
  function PutFloat(w: bv32): seq<bv8>
  {
    [ByteOf(w, 0), ByteOf(w, 1), ByteOf(w, 2), ByteOf(w, 3)]
  }

  /** The pattern a little-endian ByteBuffer.getFloat reads at position `pos`. */
  function GetFloat(bs: seq<bv8>, pos: nat): bv32
    requires pos + 4 <= |bs|
  {
    WordOf(bs[pos], bs[pos + 1], bs[pos + 2], bs[pos + 3])
  }

  /** Specification of floatArrayToBytes: the components' bytes, one after another. */
  function Encode(fs: seq<bv32>): seq<bv8>
  {
    if fs == [] then [] else PutFloat(fs[0]) + Encode(fs[1..])
  }

  /** Specification of bytesToFloatArray: one pattern per complete group of four bytes. */
  function Decode(bs: seq<bv8>): seq<bv32>
    decreases |bs|
  {
    if |bs| < 4 then [] else [GetFloat(bs, 0)] + Decode(bs[4..])
  }

  /** Reading back the four bytes written for a pattern gives the pattern. */
  lemma GetPutFloat(w: bv32)
    ensures GetFloat(PutFloat(w), 0) == w
  {
  }

  /** Writing the pattern read from four bytes gives those bytes. */
  lemma PutGetFloat(bs: seq<bv8>)
    requires |bs| == 4
    ensures PutFloat(GetFloat(bs, 0)) == bs
  {
  }

  /** The encoding holds exactly four bytes per component. */
  lemma {:induction false} EncodeLength(fs: seq<bv32>)
    ensures |Encode(fs)| == 4 * |fs|
  {
    if fs != [] {
      EncodeLength(fs[1..]);
    }
  }

  /** Component `i` occupies bytes 4i .. 4i+3, least significant byte first. */
  lemma {:induction false} EncodeAt(fs: seq<bv32>, i: nat, k: nat)
    requires i < |fs| && k < 4
    ensures 4 * i + k < |Encode(fs)|
    ensures Encode(fs)[4 * i + k] == ByteOf(fs[i], k)
  {
    EncodeLength(fs);
    if i > 0 {
      EncodeAt(fs[1..], i - 1, k);
      assert Encode(fs)[4 * i + k] == Encode(fs[1..])[4 * (i - 1) + k];
    }
  }

  /** Decoding yields |bs| / 4 components: one to three trailing bytes are not read. */
  lemma {:induction false} DecodeLength(bs: seq<bv8>)
    ensures |Decode(bs)| == |bs| / 4
    decreases |bs|
  {
    if |bs| >= 4 {
      DecodeLength(bs[4..]);
    }
  }

  /** Component `i` of the decoding is read little-endian from bytes 4i .. 4i+3. */
  lemma {:induction false} DecodeAt(bs: seq<bv8>, i: nat)
    requires i < |bs| / 4
    ensures 4 * i + 4 <= |bs|
    ensures i < |Decode(bs)| && Decode(bs)[i] == GetFloat(bs, 4 * i)
    decreases i
  {
    DecodeLength(bs);
    if i > 0 {
      DecodeAt(bs[4..], i - 1);
      assert GetFloat(bs[4..], 4 * (i - 1)) == GetFloat(bs, 4 * i);
    }
  }

  /** Round trip: decoding an encoding gives back every raw pattern. */
  lemma {:induction false} DecodeEncode(fs: seq<bv32>)
    ensures Decode(Encode(fs)) == fs
  {
    if fs != [] {
      var rest := Encode(fs[1..]);
      assert Encode(fs) == PutFloat(fs[0]) + rest;
      assert (PutFloat(fs[0]) + rest)[4..] == rest;
      assert GetFloat(Encode(fs), 0) == GetFloat(PutFloat(fs[0]), 0);
      GetPutFloat(fs[0]);
      DecodeEncode(fs[1..]);
    }
  }

  /** Round trip the other way: a byte string of whole components re-encodes to itself. */
  lemma {:induction false} EncodeDecode(bs: seq<bv8>)
    requires |bs| % 4 == 0
    ensures Encode(Decode(bs)) == bs
    decreases |bs|
  {
    if |bs| > 0 {
      var d := Decode(bs);
      assert d == [GetFloat(bs, 0)] + Decode(bs[4..]);
      assert d[0] == GetFloat(bs[..4], 0);
      assert d[1..] == Decode(bs[4..]);
      PutGetFloat(bs[..4]);
      EncodeDecode(bs[4..]);
      assert bs == bs[..4] + bs[4..];
    }
  }

  /** Trailing bytes beyond the last whole group of four do not affect the decoding. */
  lemma {:induction false} DecodeIgnoresTrailing(bs: seq<bv8>)
    ensures Decode(bs) == Decode(bs[..|bs| / 4 * 4])
    decreases |bs|
  {
    if |bs| >= 4 {
      var cut := bs[..|bs| / 4 * 4];
      DecodeIgnoresTrailing(bs[4..]);
      assert bs[4..][..|bs[4..]| / 4 * 4] == cut[4..];
      assert GetFloat(cut, 0) == GetFloat(bs, 0);
    }
  }

  /** The float 1.0f (bit pattern 0x3F800000) is stored as the bytes 00 00 80 3F. */
  lemma EncodeOne()
    ensures Encode([0x3F80_0000]) == [0x00, 0x00, 0x80, 0x3F]
  {
  }

  /** floatArrayToBytes: fills a buffer of 4 * floats.Length bytes, one component at a time. */
  method FloatArrayToBytes(floats: array<bv32>) returns (bytes: array<bv8>)
    ensures bytes.Length == 4 * floats.Length
    ensures bytes[..] == Encode(floats[..])
  {
    bytes := new bv8[floats.Length * 4];
    var pos := 0;  // the buffer's write position
    for i := 0 to floats.Length
      invariant pos == 4 * i
      invariant forall j, k :: 0 <= j < i && 0 <= k < 4 ==> bytes[4 * j + k] == ByteOf(floats[j], k)
    {
      var f := floats[i];
      bytes[pos] := ByteOf(f, 0);
      bytes[pos + 1] := ByteOf(f, 1);
      bytes[pos + 2] := ByteOf(f, 2);
      bytes[pos + 3] := ByteOf(f, 3);
      pos := pos + 4;
    }
    EncodeLength(floats[..]);
    forall t | 0 <= t < bytes.Length
      ensures bytes[t] == Encode(floats[..])[t]
    {
      EncodeAt(floats[..], t / 4, t % 4);
    }
  }

  /** bytesToFloatArray: reads bytes.Length / 4 components, advancing the buffer by four each time. */
  method BytesToFloatArray(bytes: array<bv8>) returns (floats: array<bv32>)
    ensures floats.Length == bytes.Length / 4
    ensures floats[..] == Decode(bytes[..])
  {
    floats := new bv32[bytes.Length / 4];
    var pos := 0;  // the buffer's read position
    for i := 0 to floats.Length
      invariant pos == 4 * i
      invariant forall j :: 0 <= j < i ==> floats[j] == GetFloat(bytes[..], 4 * j)
    {
      floats[i] := WordOf(bytes[pos], bytes[pos + 1], bytes[pos + 2], bytes[pos + 3]);
      pos := pos + 4;
    }
    DecodeLength(bytes[..]);
    forall j | 0 <= j < floats.Length
      ensures floats[j] == Decode(bytes[..])[j]
    {
      DecodeAt(bytes[..], j);
    }
  }
}
