/** Shared vocabulary: bytes, an option type, and the few PHP value
    conversions the server relies on (truthiness of strings, integer to
    decimal string). */
module Base {

  import opened Arith

  /** One octet of a PHP binary string, as the value `ord()` gives it. */
  type Byte = x: int | 0 <= x < 256

  /** A PHP binary string, read or written byte by byte on a socket. */
  type Bytes = seq<Byte>

  datatype Option<T> = None | Some(value: T)

  /** PHP's `empty()` / falsiness of a string: only "" and "0" are falsy. */
  predicate PhpFalsyString(s: string)
  {
    s == "" || s == "0"
  }

  /** The number a run of bytes spells most significant byte first; the
      decoder accumulates `($length << 8) | ord($byte)` in exactly this way. */
  function BigEndian(s: Bytes): nat
  {
    if |s| == 0 then 0 else BigEndian(s[..|s| - 1]) * 256 + s[|s| - 1]
  }

  lemma {:induction false} BigEndianSnoc(s: Bytes, b: Byte)
    ensures BigEndian(s + [b]) == BigEndian(s) * 256 + b
  {
    assert (s + [b])[..|s|] == s;
  }

  /** A run of n bytes spells a number below 256^n. */
  lemma {:induction false} BigEndianBelow(s: Bytes)
    ensures BigEndian(s) < Pow256(|s|)
  {
    if |s| > 0 {
      var init := s[..|s| - 1];
      BigEndianBelow(init);
      assert BigEndian(init) + 1 <= Pow256(|init|);
      assert (BigEndian(init) + 1) * 256 <= Pow256(|init|) * 256;
    }
  }

  /** A run of bytes spells at least its first byte times 256 per byte that
      follows it. */
  lemma {:induction false} BigEndianAtLeastLead(s: Bytes)
    requires |s| > 0
    ensures BigEndian(s) >= s[0] * Pow256(|s| - 1)
  {
    var init := s[..|s| - 1];
    if |init| > 0 {
      BigEndianAtLeastLead(init);
      assert init[0] == s[0];
      assert BigEndian(init) * 256 >= s[0] * Pow256(|init| - 1) * 256;
    } else {
      assert BigEndian(init) == 0;
    }
  }

  /** `$b & 0b10000000` is set. */
  predicate HighBit(b: Byte)
  {
    b >= 0x80
  }

  /** `$b & 0b01111111`. */
  function Low7(b: Byte): (r: Byte)
    ensures r < 0x80
    ensures HighBit(b) ==> r == b - 0x80
    ensures !HighBit(b) ==> r == b
  {
    b % 0x80
  }

  /** `$b & 0b00001111`. */
  function Low4(b: Byte): (r: Byte)
    ensures r < 0x10 && (b - r) % 0x10 == 0
  {
    b % 0x10
  }

  /** `0b10000000 | $b`. */
  function SetHighBit(b: Byte): (r: Byte)
    ensures HighBit(r) && Low7(r) == Low7(b)
  {
    if HighBit(b) then b else b + 0x80
  }

  /** Bitwise exclusive or of two naturals, one bit at a time from the
      least significant end. */
  function XorBits(a: nat, b: nat): nat
    decreases a + b
  {
    if a == 0 then b
    else if b == 0 then a
    else 2 * XorBits(a / 2, b / 2) + (a + b) % 2
  }

  lemma {:induction false} XorBitsBound(a: nat, b: nat, m: nat)
    requires a < Pow2(m) && b < Pow2(m)
    ensures XorBits(a, b) < Pow2(m)
    decreases a + b
  {
    if a != 0 && b != 0 {
      assert m > 0;
      XorBitsBound(a / 2, b / 2, m - 1);
    }
  }

  lemma {:induction false} XorBitsSelf(a: nat)
    ensures XorBits(a, a) == 0
  {
    if a != 0 {
      XorBitsSelf(a / 2);
    }
  }

  lemma {:induction false} XorBitsInvolution(a: nat, k: nat)
    ensures XorBits(XorBits(a, k), k) == a
    decreases a + k
  {
    if a == 0 {
      XorBitsSelf(k);
    } else if k != 0 {
      var y := XorBits(a / 2, k / 2);
      var x := XorBits(a, k);
      assert x == 2 * y + (a + k) % 2;
      XorBitsInvolution(a / 2, k / 2);
      HalvingXor(a, k, y);
      if x == 0 {
        assert XorBits(y, k / 2) == k / 2;
      } else {
        assert XorBits(x, k) == 2 * XorBits(y, k / 2) + a % 2;
      }
    }
  }

  /** The arithmetic of one step of `XorBitsInvolution`, with `y` standing
      for the xor of the halves. */
  lemma HalvingXor(a: nat, k: nat, y: nat)
    ensures var x := 2 * y + (a + k) % 2;
      && x / 2 == y && (x + k) % 2 == a % 2
      && (x == 0 ==> y == 0 && a % 2 == k % 2)
      && 2 * (a / 2) + a % 2 == a && 2 * (k / 2) + k % 2 == k
  {
  }

  /** PHP's `^` on two one-byte strings. */
  function Xor(a: Byte, b: Byte): (r: Byte)
  {
    assert Pow2(8) == 256;
    XorBitsBound(a, b, 8);
    XorBits(a, b)
  }

  /** Xor with the same byte twice gives back the original byte. */
  lemma XorInvolution(a: Byte, k: Byte)
    ensures Xor(Xor(a, k), k) == a
  {
    XorBitsInvolution(a, k);
  }

  /** A digit value as its ASCII byte. */
  function DigitByte(d: nat): (b: Byte)
    requires d < 10
    ensures IsDigitByte(b) && b - 0x30 == d
  {
    0x30 + d
  }

  predicate IsDigitByte(b: Byte)
  {
    0x30 <= b <= 0x39
  }

  /** PHP's conversion of a non-negative integer to its decimal string,
      used when an integer close code is passed where a string is expected. */
  function DecimalBytes(n: nat): (r: Bytes)
    ensures 1 <= |r|
    ensures forall i :: 0 <= i < |r| ==> IsDigitByte(r[i])
    ensures n < 10 <==> |r| == 1
  {
    if n < 10 then [DigitByte(n)] else DecimalBytes(n / 10) + [DigitByte(n % 10)]
  }

  /** Reads a run of ASCII digits back as a number. */
  function DecimalValue(s: Bytes): nat
    requires forall i :: 0 <= i < |s| ==> IsDigitByte(s[i])
  {
    if |s| == 0 then 0
    else
      assert IsDigitByte(s[|s| - 1]);
      DecimalValue(s[..|s| - 1]) * 10 + (s[|s| - 1] - 0x30)
  }

  /** The decimal text of a number reads back as that number. */
  lemma {:induction false} DecimalRoundTrip(n: nat)
    ensures DecimalValue(DecimalBytes(n)) == n
  {
    if n >= 10 {
      var r := DecimalBytes(n);
      assert r[..|r| - 1] == DecimalBytes(n / 10);
      DecimalRoundTrip(n / 10);
    }
  }

  /** The close codes the server uses are four ASCII digits long. */
  lemma {:induction false} FourDigitCodes(n: nat)
    requires 1000 <= n < 10000
    ensures |DecimalBytes(n)| == 4
  {
    var a, b, c := n / 10, n / 10 / 10, n / 10 / 10 / 10;
    assert 100 <= a < 1000 && 10 <= b < 100 && 1 <= c < 10;
    assert |DecimalBytes(c)| == 1;
    assert |DecimalBytes(b)| == 2;
    assert |DecimalBytes(a)| == 3;
  }
}
