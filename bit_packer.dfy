/**
 * Packing of the encoded bit string into bytes: pad with zero bits to a
 * multiple of 8, then read each group of 8 bits as a base-2 number.
 */
module BitPacker {
  import opened CodeAssigner

  newtype byte = x: int | 0 <= x < 256

  function Pow2(n: nat): nat
  {
    if n == 0 then 1 else 2 * Pow2(n - 1)
  }

  /**
   * The padded bit string: 8 - L % 8 zero bits are added to a string of
   * length L, so between 1 and 8, and a whole zero byte when L is already a
   * multiple of 8.
   */
  function Padded(bits: string): (r: string)
    ensures |r| % 8 == 0 && |bits| < |r| <= |bits| + 8
    ensures |bits| % 8 == 0 ==> |r| == |bits| + 8
    ensures r[..|bits|] == bits
    ensures forall i :: |bits| <= i < |r| ==> r[i] == '0'
  {
    bits + seq(8 - |bits| % 8, _ => '0')
  }

  /** The value of a bit string read in base 2, most significant bit first. */
  function BitsValue(b: string): (v: nat)
    ensures v < Pow2(|b|)
  {
    if b == [] then 0
    else 2 * BitsValue(b[..|b| - 1]) + (if b[|b| - 1] == '1' then 1 else 0)
  }

  /** The byte whose base-2 digits are the 8 bits of `chunk`. */
  function ToByte(chunk: string): (b: byte)
    requires |chunk| == 8
    ensures b as int == BitsValue(chunk)
  {
    assert Pow2(8) == 256;
    BitsValue(chunk) as byte
  }

  /** The `n` low bits of `v`, most significant first. */
  function BitsOf(v: nat, n: nat): (s: string)
    ensures |s| == n && IsBits(s)
  {
    if n == 0 then [] else BitsOf(v / 2, n - 1) + [if v % 2 == 1 then '1' else '0']
  }

  /** Reading a bit string as a number and writing that number back with as many bits gives the string. */
  lemma {:induction false} BitsOfValue(s: string)
    requires IsBits(s)
    ensures BitsOf(BitsValue(s), |s|) == s
  {
    if s != [] {
      var s', b := s[..|s| - 1], s[|s| - 1];
      BitsOfValue(s');
      var v := BitsValue(s);
      assert v / 2 == BitsValue(s');
      assert s == s' + [b];
    }
  }

  /** Writing a number below 2^n with n bits and reading the bits back gives the number. */
  lemma {:induction false} ValueOfBits(v: nat, n: nat)
    requires v < Pow2(n)
    ensures BitsValue(BitsOf(v, n)) == v
  {
    if n > 0 {
      ValueOfBits(v / 2, n - 1);
      var s := BitsOf(v, n);
      assert s[..|s| - 1] == BitsOf(v / 2, n - 1);
    }
  }

  /** The bits of the bytes, 8 per byte, in order: what a reader of the packed output sees. */
  function Unpack(bytes: seq<byte>): (s: string)
    ensures |s| == 8 * |bytes|
  {
    if bytes == [] then [] else Unpack(bytes[..|bytes| - 1]) + BitsOf(bytes[|bytes| - 1] as nat, 8)
  }

  /** Packing the next 8-bit chunk of a bit string extends the unpacked bits by that chunk. */
  lemma PackStep(bits: string, i: nat, bytes: seq<byte>, b: byte)
    requires IsBits(bits) && i + 8 <= |bits|
    requires Unpack(bytes) == bits[..i]
    requires b as int == BitsValue(bits[i..i + 8])
    ensures Unpack(bytes + [b]) == bits[..i + 8]
  {
    var chunk := bits[i..i + 8];
    assert IsBits(chunk) by {
      forall j | 0 <= j < 8 ensures chunk[j] == '0' || chunk[j] == '1' {
        assert chunk[j] == bits[i + j];
      }
    }
    BitsOfValue(chunk);
    assert (bytes + [b])[..|bytes + [b]| - 1] == bytes;
    assert bits[..i + 8] == bits[..i] + chunk;
  }

  /** Byte k of a packed sequence is bits 8k..8k+7 of its unpacking, read in base 2. */
  lemma {:induction false} UnpackedByte(bytes: seq<byte>, k: nat)
    requires k < |bytes|
    ensures bytes[k] as int == BitsValue(Unpack(bytes)[8 * k..8 * k + 8])
    decreases |bytes|
  {
    var init, last := bytes[..|bytes| - 1], bytes[|bytes| - 1];
    assert bytes == init + [last];
    assert Pow2(8) == 256;
    if k == |bytes| - 1 {
      assert Unpack(bytes)[8 * k..8 * k + 8] == BitsOf(last as nat, 8);
      ValueOfBits(last as nat, 8);
    } else {
      UnpackedByte(init, k);
      assert Unpack(bytes)[8 * k..8 * k + 8] == Unpack(init)[8 * k..8 * k + 8];
      assert init[k] == bytes[k];
    }
  }

  /**
   * The padding and packing loop of the source. Byte k holds padded bits
   * 8k..8k+7, so unpacking the bytes gives back the input followed by the
   * padding, and the output always has L / 8 + 1 bytes.
   */
  method PackBytes(encodedText: string) returns (bytes: seq<byte>)
    requires IsBits(encodedText)
    ensures |bytes| == |encodedText| / 8 + 1
    ensures Unpack(bytes) == Padded(encodedText)
  {
    var padding := 8 - |encodedText| % 8;
    var padded := encodedText + seq(padding, _ => '0');
    assert padded == Padded(encodedText);
    assert IsBits(padded);
    bytes := [];
    var i := 0;
    ghost var remaining: nat := |padded| / 8;
    while i < |padded|
      invariant 0 <= i && |padded| == i + 8 * remaining
      invariant i == 8 * |bytes|
      invariant Unpack(bytes) == padded[..i]
      decreases remaining
    {
      var b := ToByte(padded[i..i + 8]);
      PackStep(padded, i, bytes, b);
      bytes := bytes + [b];
      i := i + 8;
      remaining := remaining - 1;
    }
    assert padded[..i] == padded;
  }
}
