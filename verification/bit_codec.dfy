/**
 * The text/bit conversion of lwe_implementation.py: `text_to_bits` emits
 * eight bits per character, most significant first; `bits_to_text` reads
 * the bits back eight at a time.  Both build their result step by step, so
 * both are methods with loops, each proved equal to a specification
 * function on which the round trips are proved.
 */
module BitCodec {
  import opened NumberTheory

  /** `2^k`, the factor that `<< k` multiplies by. */
  function Pow2(k: nat): (p: nat)
    ensures p >= 1
  {
    if k == 0 then 1 else 2 * Pow2(k - 1)
  }

  /** `(v >> i) & 1`: bit `i` of a non-negative integer. */
  function BitAt(v: nat, i: nat): (b: int)
    ensures b == 0 || b == 1
  {
    (v / Pow2(i)) % 2
  }

  /** Every element is 0 or 1. */
  predicate IsBits(bits: seq<int>) {
    forall k :: 0 <= k < |bits| ==> bits[k] == 0 || bits[k] == 1
  }

  /** The eight low bits of `v`, most significant first. */
  function ByteBits(v: nat): (bits: seq<int>)
    ensures |bits| == 8 && IsBits(bits)
  {
    seq(8, j requires 0 <= j < 8 => BitAt(v, 7 - j))
  }

  // ---------------------------------------------------------------------
  // text_to_bits
  // ---------------------------------------------------------------------

  /** Output position `k` holds bit `7 - k % 8` of character `k / 8`. */
  function TextBits(t: string): (bits: seq<int>)
    ensures |bits| == 8 * |t| && IsBits(bits)
  {
    seq(8 * |t|, k requires 0 <= k < 8 * |t| => BitAt(t[k / 8] as nat, 7 - k % 8))
  }

  /** `text_to_bits`: for each character, append `(ord(c) >> i) & 1` for `i` from 7 down to 0. */
  method TextToBits(text: string) returns (result: seq<int>)
    ensures |result| == 8 * |text| && IsBits(result)
    ensures result == TextBits(text)
  {
    result := [];
    for c := 0 to |text|
      invariant |result| == 8 * c
      invariant forall k :: 0 <= k < |result| ==> result[k] == BitAt(text[k / 8] as nat, 7 - k % 8)
    {
      var asciiVal := text[c] as nat;
      var i := 7;
      while i >= 0
        invariant -1 <= i <= 7
        invariant |result| == 8 * c + (7 - i)
        invariant forall k :: 0 <= k < |result| ==> result[k] == BitAt(text[k / 8] as nat, 7 - k % 8)
      {
        assert (8 * c + (7 - i)) / 8 == c && (8 * c + (7 - i)) % 8 == 7 - i;
        result := result + [BitAt(asciiVal, i)];
        i := i - 1;
      }
    }
  }

  /** The encoding of "A" (code 65) is 0,1,0,0,0,0,0,1. */
  lemma EncodeA()
    ensures TextBits("A") == [0, 1, 0, 0, 0, 0, 0, 1]
  {
    assert Pow2(1) == 2 && Pow2(2) == 4 && Pow2(3) == 8 && Pow2(4) == 16;
    assert Pow2(5) == 32 && Pow2(6) == 64 && Pow2(7) == 128;
  }

  // ---------------------------------------------------------------------
  // bits_to_text
  // ---------------------------------------------------------------------

  /** The end of the slice `bits[i:i+8]` of a sequence of length `len`. */
  function ChunkEnd(i: nat, len: nat): nat {
    if i + 8 <= len then i + 8 else len
  }

  /** `sum(b << (7 - j) for j, b in enumerate(chunk[start:]))`, indices counted in `chunk`. */
  function ChunkSum(chunk: seq<int>, start: nat): (v: int)
    requires start <= |chunk| <= 8
    ensures IsBits(chunk) ==> 0 <= v < Pow2(8 - start)
    decreases |chunk| - start
  {
    if start == |chunk| then 0 else chunk[start] * Pow2(7 - start) + ChunkSum(chunk, start + 1)
  }

  /** The character code `bits_to_text` builds from one chunk of at most eight bits. */
  function ChunkValue(chunk: seq<int>): (v: int)
    requires |chunk| <= 8
    ensures IsBits(chunk) ==> 0 <= v < 256
  {
    ChunkSum(chunk, 0)
  }

  /** The chunk `bits[8k:8k+8]` that character `k` is made from. */
  function Chunk(bits: seq<int>, k: nat): (c: seq<int>)
    requires 8 * k < |bits|
    ensures 1 <= |c| <= 8
  {
    bits[8 * k .. ChunkEnd(8 * k, |bits|)]
  }

  /** Character `k` is `chr` of chunk `k`'s value; a short last chunk still gives a character. */
  function BitsText(bits: seq<int>): (t: string)
    requires IsBits(bits)
    ensures |t| == (|bits| + 7) / 8
  {
    seq((|bits| + 7) / 8, k requires 0 <= k < (|bits| + 7) / 8 =>
      assert IsBits(Chunk(bits, k));
      ChunkValue(Chunk(bits, k)) as char)
  }

  /** `bits_to_text`: for `i` in `range(0, len(bits), 8)`, append the character of `bits[i:i+8]`. */
  method BitsToText(bits: seq<int>) returns (result: string)
    requires IsBits(bits)
    ensures |result| == (|bits| + 7) / 8
    ensures IsByteText(result)
    ensures result == BitsText(bits)
  {
    result := "";
    var i := 0;
    while i < |bits|
      invariant i == 8 * |result| && |result| <= (|bits| + 7) / 8
      invariant forall k :: 0 <= k < |result| ==> result[k] == BitsText(bits)[k]
    {
      var charBits := bits[i .. ChunkEnd(i, |bits|)];
      assert charBits == Chunk(bits, |result|);
      var asciiVal := ChunkValue(charBits);
      result := result + [asciiVal as char];
      i := i + 8;
    }
  }

  // ---------------------------------------------------------------------
  // Round trips
  // ---------------------------------------------------------------------

  /** Splitting off bit `k`: `v mod 2^(k+1) == bit_k(v)·2^k + v mod 2^k`. */
  lemma BitSplit(v: nat, k: nat)
    ensures v % Pow2(k + 1) == BitAt(v, k) * Pow2(k) + v % Pow2(k)
  {
    var P := Pow2(k);
    var Q, R := v / P, v % P;
    assert v == Q * P + R;
    assert Q == 2 * (Q / 2) + Q % 2;
    assert v == (Q / 2) * (2 * P) + ((Q % 2) * P + R) by {
      calc {
        v;
        Q * P + R;
        (2 * (Q / 2) + Q % 2) * P + R;
        (Q / 2) * (2 * P) + ((Q % 2) * P + R);
      }
    }
    ModUnique(v, Q / 2, (Q % 2) * P + R, 2 * P);
  }

  /** Reading back the eight bits of `v` from position `start` gives `v mod 2^(8 - start)`. */
  lemma {:induction false} ChunkSumOfByte(v: nat, start: nat)
    requires start <= 8
    ensures ChunkSum(ByteBits(v), start) == v % Pow2(8 - start)
    decreases 8 - start
  {
    if start < 8 {
      ChunkSumOfByte(v, start + 1);
      BitSplit(v, 7 - start);
    }
  }

  /** Two bit chunks with the same value agree from `start` on. */
  lemma {:induction false} ChunkSumInjective(c: seq<int>, d: seq<int>, start: nat)
    requires start <= |c| == |d| <= 8 && IsBits(c) && IsBits(d)
    requires ChunkSum(c, start) == ChunkSum(d, start)
    ensures c[start..] == d[start..]
    decreases |c| - start
  {
    if start < |c| {
      assert c[start] == d[start];
      ChunkSumInjective(c, d, start + 1);
      forall k | 0 <= k < |c| - start
        ensures c[start..][k] == d[start..][k]
      {
        if k > 0 {
          assert c[start..][k] == c[start + 1..][k - 1];
          assert d[start..][k] == d[start + 1..][k - 1];
        }
      }
    }
  }

  /** `bits_to_text(text_to_bits(t)) == t` when every character code is below 256. */
  lemma TextRoundTrip(t: string)
    requires IsByteText(t)
    ensures BitsText(TextBits(t)) == t
  {
    var bits := TextBits(t);
    forall k | 0 <= k < |t|
      ensures BitsText(bits)[k] == t[k]
    {
      ChunkOfTextBits(t, k);
      ChunkSumOfByte(t[k] as nat, 0);
      ModUnique(t[k] as nat, 0, t[k] as nat, 256);
    }
  }

  /** Chunk `k` of the encoding of `t` is the eight bits of character `k`. */
  lemma ChunkOfTextBits(t: string, k: nat)
    requires k < |t|
    ensures Chunk(TextBits(t), k) == ByteBits(t[k] as nat)
  {
    var c := Chunk(TextBits(t), k);
    forall j | 0 <= j < 8
      ensures c[j] == ByteBits(t[k] as nat)[j]
    {
      assert (8 * k + j) / 8 == k && (8 * k + j) % 8 == j;
    }
  }

  /** `text_to_bits(bits_to_text(bits)) == bits` for 0/1 sequences whose length is a multiple of 8. */
  lemma BitsRoundTrip(bits: seq<int>)
    requires IsBits(bits) && |bits| % 8 == 0
    ensures TextBits(BitsText(bits)) == bits
  {
    var t := BitsText(bits);
    forall p | 0 <= p < |bits|
      ensures TextBits(t)[p] == bits[p]
    {
      var k, j := p / 8, p % 8;
      var c := Chunk(bits, k);
      var v := ChunkValue(c);
      assert |c| == 8;
      ChunkSumOfByte(v, 0);
      ModUnique(v, 0, v, 256);
      ChunkSumInjective(ByteBits(v), c, 0);
      assert ByteBits(v)[j] == c[j];
    }
  }

  /**
   * A short trailing chunk is read as the high-order bits of its character:
   * its value is that of the chunk padded with zero bits up to eight.
   */
  lemma {:induction false} ShortChunkIsZeroPadded(c: seq<int>, start: nat)
    requires start <= |c| <= 8
    ensures ChunkSum(c, start) == ChunkSum(c + seq(8 - |c|, _ => 0), start)
    decreases 8 - start
  {
    var padded := c + seq(8 - |c|, _ => 0);
    if start < |c| {
      ShortChunkIsZeroPadded(c, start + 1);
    } else if start < 8 {
      ZeroChunk(padded, start);
    }
  }

  lemma {:induction false} ZeroChunk(c: seq<int>, start: nat)
    requires start <= |c| <= 8
    requires forall k :: start <= k < |c| ==> c[k] == 0
    ensures ChunkSum(c, start) == 0
    decreases |c| - start
  {
    if start < |c| {
      ZeroChunk(c, start + 1);
    }
  }
}
