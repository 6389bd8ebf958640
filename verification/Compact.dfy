/** Compact targets: a 32-bit floating point form of a 256-bit number, and the adjustment of the difficulty. */
module Compact {
  import opened Integers

  function Pow256(k: nat): (r: int)
    ensures r > 0
  {
    if k == 0 then 1 else 256 * Pow256(k - 1)
  }

  /** The length of big.Int's Bytes. */
  function ByteLength(n: nat): nat {
    if n == 0 then 0 else 1 + ByteLength(n / 256)
  }

  // ----- the codec -----

  /** A sign bit, an exponent in the top byte and 23 bits of mantissa. */
  function CompactToBig(compact: nat): int {
    var mantissa := compact % 0x80_0000;
    var exponent := compact / 0x100_0000;
    var bn := if exponent <= 3 then mantissa / Pow256(3 - exponent) else mantissa * Pow256(exponent - 3);
    if (compact / 0x80_0000) % 2 == 1 then -bn else bn
  }

  /** The bitwise or of a shifted exponent byte and a mantissa of at most 25 bits. */
  function OrExponent(e: nat, mantissa: nat): nat {
    if mantissa < 0x100_0000 then e * 0x100_0000 + mantissa
    else (if e % 2 == 0 then e + 1 else e) * 0x100_0000 + (mantissa - 0x100_0000)
  }

  /** The leading three bytes; the shift of a negative number rounds down. */
  function Leading(n: int): nat {
    var length := ByteLength(Abs(n));
    if length <= 3 then Abs(n) * Pow256(3 - length) else Abs(n / Pow256(length - 3))
  }

  /** The exponent is cut to a byte. */
  function BigToCompact(n: int): nat {
    if n == 0 then 0
    else
      var length := ByteLength(Abs(n));
      var m0 := Leading(n);
      var large := (m0 / 0x80_0000) % 2 == 1;
      var mantissa := if large then m0 / 256 else m0;
      var exponent := if large then length + 1 else length;
      var compact := OrExponent(exponent % 256, mantissa);
      if n < 0 && (compact / 0x80_0000) % 2 == 0 then compact + 0x80_0000 else compact
  }

  // ----- the shape of an encoded number -----

  lemma {:induction false} ByteLengthBounds(n: nat)
    requires n > 0
    ensures ByteLength(n) > 0 && Pow256(ByteLength(n) - 1) <= n < Pow256(ByteLength(n))
  {
    if n >= 256 {
      ByteLengthBounds(n / 256);
      var k := ByteLength(n / 256);
      assert Pow256(k) == 256 * Pow256(k - 1) && Pow256(k + 1) == 256 * Pow256(k);
    } else {
      assert n / 256 == 0;
      assert ByteLength(n) == 1 && Pow256(1) == 256 * Pow256(0);
    }
  }

  lemma {:induction false} Pow256Monotone(j: nat, k: nat)
    requires j <= k
    ensures Pow256(j) <= Pow256(k)
    decreases k
  {
    if j < k {
      Pow256Monotone(j, k - 1);
    }
  }

  /** The bounds determine the length. */
  lemma LengthUnique(n: nat, k: nat)
    requires k > 0 && Pow256(k - 1) <= n < Pow256(k)
    ensures n > 0 && ByteLength(n) == k
  {
    ByteLengthBounds(n);
    if ByteLength(n) < k {
      Pow256Monotone(ByteLength(n), k - 1);
    } else if ByteLength(n) > k {
      Pow256Monotone(k, ByteLength(n) - 1);
    }
  }

  /** The bytes of n together with a sign bit. */
  function Size(n: nat): nat {
    ByteLength(2 * n)
  }

  function Mantissa(n: nat): int {
    if Size(n) < 3 then n * Pow256(3 - Size(n)) else n / Pow256(Size(n) - 3)
  }

  lemma DivAtLeast(n: nat, q: int, k: int)
    requires q > 0
    ensures n / q >= k <==> n >= k * q
  {
    EuclideanBounds(n, q);
    if n / q >= k {
      MonotoneProduct(k, n / q, q);
    } else {
      MonotoneProduct(n / q + 1, k, q);
    }
  }

  lemma DivDiv(n: nat, q: int)
    requires q > 0
    ensures (n / q) / 256 == n / (256 * q)
  {
    EuclideanBounds(n, q);
    var x := n / q;
    MonotoneProduct(256 * (x / 256), x, q);
    MonotoneProduct(x + 1, 256 * (x / 256) + 256, q);
    MulAssoc(256, q, x / 256);
    MulAssoc(q, 256, x / 256);
    QuotientUnique(n, 256 * q, x / 256);
  }

  lemma SizeBounds(n: nat)
    requires n > 0
    ensures Size(n) > 0 && Pow256(Size(n) - 1) <= 2 * n < Pow256(Size(n))
  {
    ByteLengthBounds(2 * n);
  }

  /** The size is the length, or one more when the sign bit needs another byte. */
  lemma SizeOfLength(n: nat)
    requires n > 0
    ensures var e := ByteLength(n); Size(n) == if 2 * n < Pow256(e) then e else e + 1
  {
    ByteLengthBounds(n);
    var e := ByteLength(n);
    assert Pow256(e + 1) == 256 * Pow256(e);
    LengthUnique(2 * n, if 2 * n < Pow256(e) then e else e + 1);
  }

  lemma SmallPowers()
    ensures Pow256(0) == 1 && Pow256(1) == 0x100 && Pow256(2) == 0x1_0000 && Pow256(3) == 0x100_0000
  {
    assert Pow256(1) == 256 * Pow256(0);
    assert Pow256(2) == 256 * Pow256(1);
    assert Pow256(3) == 256 * Pow256(2);
  }

  lemma ThreeUp(k: nat)
    ensures Pow256(k + 1) == 0x100 * Pow256(k) && Pow256(k + 2) == 0x1_0000 * Pow256(k) && Pow256(k + 3) == 0x100_0000 * Pow256(k)
  {
    assert Pow256(k + 1) == 256 * Pow256(k);
    assert Pow256(k + 2) == 256 * Pow256(k + 1);
    assert Pow256(k + 3) == 256 * Pow256(k + 2);
  }

  /** The mantissa always has between 16 and 23 bits. */
  lemma MantissaBounds(n: nat)
    requires n > 0
    ensures 0x8000 <= Mantissa(n) < 0x80_0000
  {
    hide Mantissa, Size;
    SizeBounds(n);
    SmallPowers();
    MantissaDef(n);
    if Size(n) >= 3 {
      var q := Pow256(Size(n) - 3);
      ThreeUp(Size(n) - 3);
      DivAtLeast(n, q, 0x8000);
      DivAtLeast(n, q, 0x80_0000);
    }
  }

  lemma MantissaDef(n: nat)
    ensures Mantissa(n) == if Size(n) < 3 then n * Pow256(3 - Size(n)) else n / Pow256(Size(n) - 3)
  {
  }

  /** How the leading bytes, the length and the sign bit fit together. */
  ghost predicate LeadingFits(m0: int, e: nat, size: nat, mantissa: int) {
    && 0 <= m0 < 0x100_0000
    && (if m0 < 0x80_0000 then size == e && mantissa == m0 else size == e + 1 && mantissa == m0 / 256)
  }

  lemma LeadingDef(n: nat)
    requires n > 0
    ensures Leading(n) == if ByteLength(n) <= 3 then n * Pow256(3 - ByteLength(n)) else n / Pow256(ByteLength(n) - 3)
  {
    hide ByteLength, Pow256;
    if ByteLength(n) > 3 {
      PowerPositive(ByteLength(n) - 3);
      DivAtLeast(n, Pow256(ByteLength(n) - 3), 0);
    }
  }

  lemma TimesPower(n: nat, k: nat)
    requires k <= 3
    ensures n * Pow256(k) == if k == 0 then n else if k == 1 then n * 0x100 else if k == 2 then n * 0x1_0000 else n * 0x100_0000
  {
    SmallPowers();
    hide Pow256;
    if k == 0 {
    } else if k == 1 {
    } else if k == 2 {
    } else {
    }
  }

  lemma OneByte(n: nat)
    requires 0 < n && ByteLength(n) == 1
    ensures LeadingFits(Leading(n), ByteLength(n), Size(n), Mantissa(n))
  {
    hide Size, ByteLength, Pow256, Mantissa, Leading;
    ByteLengthBounds(n);
    SizeOfLength(n);
    SmallPowers();
    MantissaDef(n);
    LeadingDef(n);
    TimesPower(n, 2);
    TimesPower(n, 1);
  }

  lemma TwoBytes(n: nat)
    requires 0 < n && ByteLength(n) == 2
    ensures LeadingFits(Leading(n), ByteLength(n), Size(n), Mantissa(n))
  {
    hide Size, ByteLength, Pow256, Mantissa, Leading;
    ByteLengthBounds(n);
    SizeOfLength(n);
    SmallPowers();
    MantissaDef(n);
    LeadingDef(n);
    TimesPower(n, 1);
    TimesPower(n, 0);
  }

  lemma ThreeBytes(n: nat)
    requires 0 < n && ByteLength(n) == 3
    ensures LeadingFits(Leading(n), ByteLength(n), Size(n), Mantissa(n))
  {
    hide Size, ByteLength, Pow256, Mantissa, Leading;
    ByteLengthBounds(n);
    SizeOfLength(n);
    SmallPowers();
    MantissaDef(n);
    LeadingDef(n);
    TimesPower(n, 0);
    TimesPower(n, 0);
  }

  lemma ShortLeading(n: nat)
    requires 0 < n && ByteLength(n) <= 3
    ensures LeadingFits(Leading(n), ByteLength(n), Size(n), Mantissa(n))
  {
    ByteLengthBounds(n);
    hide Size, ByteLength, Pow256, Mantissa, Leading, LeadingFits;
    if ByteLength(n) == 1 {
      OneByte(n);
    } else if ByteLength(n) == 2 {
      TwoBytes(n);
    } else {
      ThreeBytes(n);
    }
  }

  lemma LongLeading(n: nat)
    requires 0 < n && ByteLength(n) > 3
    ensures LeadingFits(Leading(n), ByteLength(n), Size(n), Mantissa(n))
  {
    hide Size, ByteLength, Pow256, Mantissa, Leading, LeadingFits;
    ByteLengthBounds(n);
    SizeOfLength(n);
    MantissaDef(n);
    LeadingDef(n);
    ThreeUp(ByteLength(n) - 3);
    PowerPositive(ByteLength(n) - 3);
    LongArithmetic(n, Pow256(ByteLength(n) - 3), ByteLength(n), Size(n), Mantissa(n), Pow256(ByteLength(n) - 2));
  }

  lemma LongArithmetic(n: nat, q: int, e: nat, size: nat, mantissa: int, q': int)
    requires q > 0 && q' == 0x100 * q && n < 0x100_0000 * q && e > 3
    requires size == if 2 * n < 0x100_0000 * q then e else e + 1
    requires mantissa == n / if size == e then q else q'
    ensures LeadingFits(n / q, e, size, mantissa)
  {
    DivAtLeast(n, q, 0);
    DivAtLeast(n, q, 0x80_0000);
    DivAtLeast(n, q, 0x100_0000);
    DivDiv(n, q);
  }

  lemma TopBit(m: nat)
    requires m < 0x100_0000
    ensures (m / 0x80_0000) % 2 == 1 <==> m >= 0x80_0000
  {
  }

  /** The code computes the size and the mantissa. */
  lemma EncodeShape(n: nat)
    requires n > 0
    ensures BigToCompact(n) == Size(n) % 256 * 0x100_0000 + Mantissa(n)
  {
    hide Mantissa, Size, Leading, ByteLength;
    if ByteLength(n) <= 3 {
      ShortLeading(n);
    } else {
      LongLeading(n);
    }
    TopBit(Leading(n));
    MantissaBounds(n);
  }

  /** Decoding takes a size and a mantissa apart again. */
  lemma DecodeShape(e: nat, m: nat)
    requires m < 0x80_0000
    ensures CompactToBig(e * 0x100_0000 + m) == if e <= 3 then m / Pow256(3 - e) else m * Pow256(e - 3)
  {
    hide Pow256;
    var c := e * 0x100_0000 + m;
    QuotientUnique(c, 0x100_0000, e);
    QuotientUnique(c, 0x80_0000, 2 * e);
    assert c % 0x80_0000 == m;
  }

  // ----- what is lost -----

  function Decoded(n: int): int {
    CompactToBig(BigToCompact(n))
  }

  /** The numbers whose size fits the exponent byte: those below 2^2039. */
  predicate Encodable(n: nat) {
    n < 0x80 * Pow256(254)
  }

  lemma EncodableSize(n: nat)
    requires n > 0
    ensures Encodable(n) <==> Size(n) <= 255
  {
    SizeBounds(n);
    assert Pow256(255) == 256 * Pow256(254);
    hide Pow256, Size;
    if Size(n) <= 255 {
      Pow256Monotone(Size(n), 255);
    } else {
      Pow256Monotone(255, Size(n) - 1);
    }
  }

  /** The decoded number is the original with all but the leading mantissa cleared. */
  lemma DecodedShape(n: nat)
    requires n > 0 && Size(n) <= 255
    ensures Decoded(n) == if Size(n) < 3 then n else n / Pow256(Size(n) - 3) * Pow256(Size(n) - 3)
  {
    hide BigToCompact, CompactToBig, Size, Mantissa, Pow256;
    EncodeShape(n);
    MantissaBounds(n);
    MantissaDef(n);
    DecodeShape(Size(n), Mantissa(n));
    SizeBounds(n);
    if Size(n) < 3 {
      PowerPositive(3 - Size(n));
      DivIntro(n * Pow256(3 - Size(n)), Pow256(3 - Size(n)), n);
    } else if Size(n) == 3 {
      SmallPowers();
    }
  }

  /** Not above, and nearer than one part in 2^15. */
  predicate Close(n: nat, d: int) {
    d <= n && (d == n || (n - d) * 0x8000 < n)
  }

  lemma CloseSelf(n: nat)
    ensures Close(n, n)
  {
  }

  lemma CloseArithmetic(n: nat, q: int)
    requires q > 0 && n >= 0x8000 * q
    ensures var d := n / q * q; Close(n, d) && d >= 0x8000 * q
  {
    EuclideanBounds(n, q);
    DivAtLeast(n, q, 0x8000);
    MonotoneProduct(0x8000, n / q, q);
  }

  lemma DecodedClose(n: nat)
    requires n > 0 && Size(n) <= 255
    ensures Close(n, Decoded(n)) && 2 * Decoded(n) >= Pow256(Size(n) - 1)
  {
    hide Decoded, Size, Pow256, Close;
    DecodedShape(n);
    SizeBounds(n);
    if Size(n) >= 3 {
      var q := Pow256(Size(n) - 3);
      ThreeUp(Size(n) - 3);
      CloseArithmetic(n, q);
    } else {
      CloseSelf(n);
    }
  }

  lemma PowerPositive(k: nat)
    ensures Pow256(k) > 0
  {
  }

  lemma CutSize(s: nat)
    requires s > 255
    ensures s % 256 + 2 <= s - 1 && 0 <= s % 256
  {
  }

  /** An exponent that does not fit the byte is cut, and what is decoded is far below. */
  lemma CutExponent(n: nat)
    requires n > 0 && Size(n) > 255
    ensures Decoded(n) < Pow256(Size(n) % 256) && n >= Pow256(Size(n) % 256 + 1)
  {
    hide BigToCompact, CompactToBig, Size, Mantissa, Pow256;
    EncodeShape(n);
    MantissaBounds(n);
    DecodeShape(Size(n) % 256, Mantissa(n));
    SizeBounds(n);
    CutSize(Size(n));
    var k := Size(n) % 256;
    Pow256Monotone(k + 2, Size(n) - 1);
    ThreeUp(k + 1);
    PowerPositive(k + 1);
    CutValue(k, Mantissa(n));
  }

  lemma CutValue(k: nat, m: nat)
    requires m < 0x80_0000
    ensures (if k <= 3 then m / Pow256(3 - k) else m * Pow256(k - 3)) < Pow256(k)
  {
    SmallPowers();
    if k > 3 {
      ThreeUp(k - 3);
      hide Pow256;
      MonotoneProduct(m, 0x80_0000, Pow256(k - 3));
    } else {
      hide Pow256;
      if k == 0 {
        assert m / Pow256(3) == 0;
      } else if k == 1 {
        assert m / Pow256(2) < 0x80;
      } else if k == 2 {
        assert m / Pow256(1) < 0x8000;
      }
    }
  }

  /** Encoding loses less than one part in 2^15, and never rounds up, exactly for the numbers below 2^2039. */
  lemma LossBound(n: nat)
    ensures Close(n, Decoded(n)) <==> Encodable(n)
  {
    if n == 0 {
      assert Decoded(0) == 0;
    } else {
      EncodableSize(n);
      if Size(n) <= 255 {
        DecodedClose(n);
      } else {
        CutExponent(n);
        var k := Size(n) % 256;
        assert Pow256(k + 1) == 256 * Pow256(k);
        hide Decoded, Size, Pow256, Encodable;
      }
    }
  }

  lemma SizeMonotone(a: nat, b: nat)
    requires a <= b
    ensures Size(a) <= Size(b)
  {
    if a > 0 {
      SizeBounds(a);
      SizeBounds(b);
      hide Size, Pow256;
      if Size(b) < Size(a) {
        Pow256Monotone(Size(b), Size(a) - 1);
      }
    }
  }

  lemma CloseBelow(n: nat, d: int)
    requires Close(n, d)
    ensures d <= n
  {
  }

  lemma SizeOfBounds(n: nat, k: nat)
    requires k > 0 && Pow256(k - 1) <= 2 * n < Pow256(k)
    ensures Size(n) == k
  {
    LengthUnique(2 * n, k);
  }

  /** Decoding keeps the mantissa. */
  lemma SameMantissa(n: nat, d: nat)
    requires n > 0 && Size(n) <= 255 && Size(d) == Size(n) && d == Decoded(n)
    ensures Mantissa(d) == Mantissa(n)
  {
    hide Decoded, Size, Mantissa, Pow256;
    DecodedShape(n);
    MantissaDef(n);
    MantissaDef(d);
    if Size(n) >= 3 {
      PowerPositive(Size(n) - 3);
      DivIntro(d, Pow256(Size(n) - 3), n / Pow256(Size(n) - 3));
    }
  }

  /** What has been decoded is encoded as it was. */
  lemma EncodingIdempotent(n: nat)
    requires Encodable(n)
    ensures Decoded(n) >= 0 && BigToCompact(Decoded(n)) == BigToCompact(n)
  {
    if n == 0 {
      assert Decoded(0) == 0;
    } else {
      hide Decoded, BigToCompact, Encodable, Size, Mantissa, Pow256, Close;
      EncodableSize(n);
      DecodedClose(n);
      SizeBounds(n);
      var d := Decoded(n);
      PowerPositive(Size(n) - 1);
      CloseBelow(n, d);
      SizeOfBounds(d, Size(n));
      EncodeShape(n);
      EncodeShape(d);
      SameMantissa(n, d);
    }
  }

  lemma DecodedPositive(n: nat)
    requires n > 0 && Size(n) <= 255
    ensures Decoded(n) > 0
  {
    hide Decoded, Size, Pow256, Close;
    SizeBounds(n);
    DecodedClose(n);
    PowerPositive(Size(n) - 1);
  }

  /** Encoding preserves the order, both of the encoded and of the decoded numbers. */
  lemma EncodingMonotone(a: nat, b: nat)
    requires a <= b && Encodable(b)
    ensures BigToCompact(a) <= BigToCompact(b) && 0 <= Decoded(a) <= Decoded(b)
  {
    if a == 0 {
      assert Decoded(0) == 0 && BigToCompact(0) == 0;
      if b > 0 {
        hide Decoded, BigToCompact, Size, Encodable, Pow256, Close;
        EncodableSize(b);
        DecodedPositive(b);
      }
    } else {
      hide Decoded, BigToCompact, Size, Encodable, Pow256, Close;
      EncodableSize(b);
      SizeMonotone(a, b);
      DecodedPositive(a);
      if Size(a) == Size(b) {
        SameSizeMonotone(a, b);
      } else {
        SmallerSize(a, b);
      }
    }
  }

  lemma DivMonotone(a: nat, b: nat, q: int)
    requires a <= b && q > 0
    ensures a / q <= b / q && a / q * q <= b / q * q
  {
    EuclideanBounds(a, q);
    DivAtLeast(b, q, a / q);
    MonotoneProduct(a / q, b / q, q);
  }

  lemma SameSizeMonotone(a: nat, b: nat)
    requires 0 < a <= b && Size(a) == Size(b) <= 255
    ensures BigToCompact(a) <= BigToCompact(b) && Decoded(a) <= Decoded(b)
  {
    hide Size, Mantissa, BigToCompact, Decoded, Pow256;
    EncodeShape(a);
    EncodeShape(b);
    MantissaDef(a);
    MantissaDef(b);
    DecodedShape(a);
    DecodedShape(b);
    var s := Size(a);
    if s < 3 {
      PowerPositive(3 - s);
      MonotoneProduct(a, b, Pow256(3 - s));
    } else {
      PowerPositive(s - 3);
      DivMonotone(a, b, Pow256(s - 3));
    }
  }

  lemma SmallerCode(s: nat, m: nat, s': nat, m': nat)
    requires s < s' <= 255 && m < 0x80_0000
    ensures s % 256 * 0x100_0000 + m <= s' % 256 * 0x100_0000 + m'
  {
  }

  lemma SmallerSize(a: nat, b: nat)
    requires 0 < a <= b && Size(a) < Size(b) <= 255
    ensures BigToCompact(a) <= BigToCompact(b) && Decoded(a) <= Decoded(b)
  {
    hide Size, Mantissa, BigToCompact, Decoded, Pow256, Close;
    EncodeShape(a);
    EncodeShape(b);
    MantissaBounds(a);
    MantissaBounds(b);
    DecodedClose(a);
    CloseBelow(a, Decoded(a));
    DecodedClose(b);
    SizeBounds(a);
    SizeBounds(b);
    Pow256Monotone(Size(a), Size(b) - 1);
    SmallerCode(Size(a), Mantissa(a), Size(b), Mantissa(b));
  }

  // ----- negative numbers -----

  /** The quotient of a negative number rounds down, so its absolute value rounds up. */
  lemma RoundedUp(n: int, q: int)
    requires n > 0 && q > 0
    ensures var c := Abs(-n / q); q * (c - 1) < n <= q * c && c > 0
  {
    var f := -n / q;
    assert -n == q * f + -n % q;
    if f >= 0 {
      MonotoneProduct(0, f, q);
    }
    assert q * -f == -(q * f);
    assert q * (-f - 1) == q * -f - q;
  }

  lemma LeadingOfNegative(n: int)
    requires n > 0 && ByteLength(n) > 3
    ensures var q, c := Pow256(ByteLength(n) - 3), Leading(-n);
            q * (c - 1) < n <= q * c && 0x1_0000 <= c <= 0x100_0000
            && (c > 0xFF_FFFF <==> n > 0xFF_FFFF * q) && (c > 0x7F_FFFF <==> n > 0x7F_FFFF * q)
  {
    ByteLengthBounds(n);
    hide ByteLength, Pow256;
    ThreeUp(ByteLength(n) - 3);
    PowerPositive(ByteLength(n) - 3);
    var q := Pow256(ByteLength(n) - 3);
    RoundedUp(n, q);
    LeadingIsQuotient(n);
    hide Leading;
    var c := Leading(-n);
    UpperQuotient(n, q, c, 0xFFFF);
    UpperQuotient(n, q, c, 0x7F_FFFF);
    UpperQuotient(n, q, c, 0xFF_FFFF);
    UpperQuotient(n, q, c, 0x100_0000);
  }

  lemma LeadingIsQuotient(n: int)
    requires n > 0 && ByteLength(n) > 3
    ensures Leading(-n) == Abs(-n / Pow256(ByteLength(n) - 3))
  {
    hide ByteLength, Pow256;
  }

  lemma UpperQuotient(n: int, q: int, c: int, k: int)
    requires q > 0 && q * (c - 1) < n <= q * c
    ensures c > k <==> n > k * q
  {
    if c > k {
      MonotoneProduct(k, c - 1, q);
    } else {
      MonotoneProduct(c, k, q);
    }
  }

  lemma NegativeCode(n: int)
    requires n > 0
    ensures var c, e := Leading(-n), ByteLength(n);
            var large := (c / 0x80_0000) % 2 == 1;
            var code := OrExponent((if large then e + 1 else e) % 256, if large then c / 256 else c);
            BigToCompact(-n) == if (code / 0x80_0000) % 2 == 0 then code + 0x80_0000 else code
  {
    hide ByteLength, Leading, OrExponent;
  }

  /** The code of a negative number, by its leading bytes. */
  lemma NegativeShape(n: int)
    requires n > 0 && ByteLength(n) <= 255 && 0 < Leading(-n) <= 0x100_0000
    ensures var c, e := Leading(-n), ByteLength(n);
            BigToCompact(-n) ==
              if c == 0x100_0000 then (if e % 2 == 0 then e + 1 else e) * 0x100_0000 + 0x80_0000
              else if c < 0x80_0000 then e * 0x100_0000 + 0x80_0000 + c
              else (e + 1) % 256 * 0x100_0000 + 0x80_0000 + c / 256
  {
    NegativeCode(n);
    hide ByteLength, Leading, BigToCompact, OrExponent;
    var c, e := Leading(-n), ByteLength(n);
    if c == 0x100_0000 {
      CarriedCode(e);
    } else if c < 0x80_0000 {
      TopBit(c);
      PlainCode(e, c);
    } else {
      TopBit(c);
      PlainCode((e + 1) % 256, c / 256);
    }
  }

  lemma PlainCode(e: nat, m: nat)
    requires e <= 255 && m < 0x80_0000
    ensures e % 256 == e && OrExponent(e, m) == e * 0x100_0000 + m && (OrExponent(e, m) / 0x80_0000) % 2 == 0
  {
    ClearBit(e, m);
  }

  lemma CarriedCode(e: nat)
    requires e <= 255
    ensures e % 256 == e && (0x100_0000 / 0x80_0000) % 2 == 0
    ensures OrExponent(e, 0x100_0000) == (if e % 2 == 0 then e + 1 else e) * 0x100_0000
    ensures (OrExponent(e, 0x100_0000) / 0x80_0000) % 2 == 0
  {
    ClearBit(if e % 2 == 0 then e + 1 else e, 0);
  }

  lemma ClearBit(e: nat, m: nat)
    ensures m < 0x80_0000 ==> ((e * 0x100_0000 + m) / 0x80_0000) % 2 == 0
  {
    if m < 0x80_0000 {
      QuotientUnique(e * 0x100_0000 + m, 0x80_0000, 2 * e);
    }
  }

  lemma DecodeNegative(e: nat, m: nat)
    requires m < 0x80_0000
    ensures CompactToBig(e * 0x100_0000 + 0x80_0000 + m) ==
              if e <= 3 then -(m / Pow256(3 - e)) else -(m * Pow256(e - 3))
  {
    hide Pow256;
    var c := e * 0x100_0000 + 0x80_0000 + m;
    QuotientUnique(c, 0x100_0000, e);
    QuotientUnique(c, 0x80_0000, 2 * e + 1);
    assert c % 0x80_0000 == m;
  }

  /** Where a negative number decodes to zero: rounding up carries into the exponent, or the exponent is cut. */
  predicate Vanishes(n: nat) {
    var e := ByteLength(n);
    e > 3 && n > (if e == 255 then 0x7F_FFFF else 0xFF_FFFF) * Pow256(e - 3)
  }

  predicate Near(n: nat, d: int) {
    Abs(d - n) * 0x8000 < n
  }

  /** Rounding up to three bytes. */
  lemma RoundedNear(n: nat, q: int, c: int)
    requires q > 0 && q * (c - 1) < n <= q * c && 0x1_0000 <= c
    ensures Near(n, c * q) && c * q > 0
  {
    MonotoneProduct(0xFFFF, c - 1, q);
    assert q * (c - 1) == q * c - q;
  }

  /** Rounding up, and then cutting the last of the three bytes. */
  lemma CutNear(n: nat, q: int, c: int)
    requires q > 0 && q * (c - 1) < n <= q * c && 0x80_0000 <= c
    ensures Near(n, c / 256 * (256 * q)) && c / 256 * (256 * q) > 0
  {
    var k, r := c / 256, c % 256;
    assert c == 256 * k + r;
    assert q * c == 256 * (q * k) + q * r && k * (256 * q) == 256 * (q * k);
    assert q * (c - 1) == q * c - q;
    MonotoneProduct(0, r, q);
    MonotoneProduct(r, 255, q);
    MonotoneProduct(0x7F_FFFF, c - 1, q);
    MonotoneProduct(1, k, q);
  }

  function NegatedValue(c: int, e: nat, q: int): int {
    if c == 0x100_0000 then 0
    else if c < 0x80_0000 then -(c * q)
    else if e < 255 then -(c / 256 * (256 * q))
    else 0
  }

  lemma DecodeShaped(c: nat, e: nat)
    requires 3 < e <= 255 && 0 < c <= 0x100_0000
    ensures CompactToBig(if c == 0x100_0000 then (if e % 2 == 0 then e + 1 else e) * 0x100_0000 + 0x80_0000
                         else if c < 0x80_0000 then e * 0x100_0000 + 0x80_0000 + c
                         else (e + 1) % 256 * 0x100_0000 + 0x80_0000 + c / 256) == NegatedValue(c, e, Pow256(e - 3))
  {
    hide CompactToBig, Pow256;
    ThreeUp(e - 3);
    if c == 0x100_0000 {
      DecodeNegative(if e % 2 == 0 then e + 1 else e, 0);
    } else if c < 0x80_0000 {
      DecodeNegative(e, c);
    } else if e < 255 {
      DecodeNegative(e + 1, c / 256);
    } else {
      DecodeNegative(0, c / 256);
      SmallPowers();
    }
  }

  lemma DecodedNegative(n: int)
    requires n > 0 && 3 < ByteLength(n) <= 255 && 0 < Leading(-n) <= 0x100_0000
    ensures Decoded(-n) == NegatedValue(Leading(-n), ByteLength(n), Pow256(ByteLength(n) - 3))
  {
    DecodedDef(-n);
    hide ByteLength, Leading, BigToCompact, CompactToBig, Pow256, Decoded, NegatedValue;
    NegativeShape(n);
    DecodeShaped(Leading(-n), ByteLength(n));
  }

  lemma DecodedDef(n: int)
    ensures Decoded(n) == CompactToBig(BigToCompact(n))
  {
  }

  lemma NegatedNear(n: int, q: int, c: int, e: nat)
    requires n > 0 && q > 0 && q * (c - 1) < n <= q * c && 0x1_0000 <= c <= 0x100_0000 && 3 < e <= 255
    ensures var v := NegatedValue(c, e, q);
            if c == 0x100_0000 || (e == 255 && c >= 0x80_0000) then v == 0 else v < 0 && Near(n, -v)
  {
    hide Near;
    if c < 0x80_0000 {
      RoundedNear(n, q, c);
    } else if c < 0x100_0000 {
      CutNear(n, q, c);
    }
  }

  lemma LongNegative(n: int)
    requires n > 0 && 3 < ByteLength(n) <= 255
    ensures Decoded(-n) == 0 <==> Vanishes(n)
    ensures !Vanishes(n) ==> Decoded(-n) < 0 && Near(n, -Decoded(-n))
  {
    hide ByteLength, Leading, Pow256, Decoded, Near, NegatedValue;
    LeadingOfNegative(n);
    DecodedNegative(n);
    PowerPositive(ByteLength(n) - 3);
    NegatedNear(n, Pow256(ByteLength(n) - 3), Leading(-n), ByteLength(n));
  }

  /** The codes of a short number and of its negation differ in the sign bit. */
  lemma ShortCodes(n: int)
    requires n > 0 && ByteLength(n) <= 3
    ensures Size(n) <= 255 && 0 <= Mantissa(n) < 0x80_0000
    ensures BigToCompact(n) == Size(n) * 0x100_0000 + Mantissa(n)
    ensures BigToCompact(-n) == Size(n) * 0x100_0000 + 0x80_0000 + Mantissa(n)
  {
    hide ByteLength, Leading, BigToCompact, Pow256, Size, Mantissa;
    SameLeading(n);
    ShortLeading(n);
    SizeOfLength(n);
    EncodeShape(n);
    MantissaBounds(n);
    NegativeShape(n);
  }

  /** Up to three bytes the sign makes no difference. */
  lemma ShortNegative(n: int)
    requires n > 0 && ByteLength(n) <= 3
    ensures Decoded(-n) == -Decoded(n) && Decoded(n) > 0
  {
    hide ByteLength, Leading, BigToCompact, CompactToBig, Pow256, Decoded, Size, Mantissa;
    ShortCodes(n);
    DecodedPositive(n);
    DecodeShape(Size(n), Mantissa(n));
    DecodeNegative(Size(n), Mantissa(n));
    DecodedDef(n);
    DecodedDef(-n);
  }

  lemma SameLeading(n: int)
    requires n > 0 && ByteLength(n) <= 3
    ensures Leading(-n) == Leading(n)
  {
    hide ByteLength, Pow256;
  }

  /** A negative number of encodable size decodes to zero exactly when it vanishes, and otherwise to a negative
      number nearer than one part in 2^15. */
  lemma NegativeLoss(n: int)
    requires n > 0 && Encodable(n)
    ensures Decoded(-n) == 0 <==> Vanishes(n)
    ensures !Vanishes(n) ==> Decoded(-n) < 0 && Near(n, -Decoded(-n))
  {
    hide Decoded, Size, Encodable, Near, Close, Pow256, ByteLength;
    EncodableSize(n);
    SizeOfLength(n);
    if ByteLength(n) > 3 {
      LongNegative(n);
    } else {
      ShortNegative(n);
      DecodedClose(n);
      CloseIsNear(n, Decoded(n));
    }
  }

  lemma NegatedBounds(c: int, e: nat, q: int)
    requires q > 0 && 0x1_0000 <= c < 0x100_0000 && (e == 255 ==> c < 0x80_0000)
    ensures e <= 255 ==> 0x1_0000 * q <= -NegatedValue(c, e, q) < 0x100_0000 * q
  {
    MonotoneProduct(0x1_0000, c, q);
    MonotoneProduct(c + 1, 0x100_0000, q);
    MonotoneProduct(0x100, c / 256, 256 * q);
    MonotoneProduct(c / 256 + 1, 0x1_0000, 256 * q);
  }

  lemma NegatedMonotone(c: int, c': int, e: nat, q: int)
    requires q > 0 && 0x1_0000 <= c' <= c < 0x100_0000 && (e == 255 ==> c < 0x80_0000) && e <= 255
    ensures NegatedValue(c, e, q) <= NegatedValue(c', e, q)
  {
    if c < 0x80_0000 {
      MonotoneProduct(c', c, q);
    } else if c' >= 0x80_0000 {
      MonotoneProduct(c' / 256, c / 256, 256 * q);
    } else {
      MonotoneProduct(0x8000, c / 256, 256 * q);
      MonotoneProduct(c', 0x80_0000, q);
    }
  }

  /** A long negative number that does not vanish keeps its leading bytes. */
  lemma LongMagnitude(n: int)
    requires n > 0 && 3 < ByteLength(n) <= 255 && !Vanishes(n)
    ensures var q, c, e := Pow256(ByteLength(n) - 3), Leading(-n), ByteLength(n);
            && q > 0 && 0x1_0000 <= c < 0x100_0000 && (e == 255 ==> c < 0x80_0000) && q * (c - 1) < n <= q * c
            && Decoded(-n) == NegatedValue(c, e, q) && 0x1_0000 * q <= -Decoded(-n) < 0x100_0000 * q
  {
    hide ByteLength, Leading, Pow256, Decoded, NegatedValue;
    LeadingOfNegative(n);
    DecodedNegative(n);
    PowerPositive(ByteLength(n) - 3);
    NegatedBounds(Leading(-n), ByteLength(n), Pow256(ByteLength(n) - 3));
  }

  lemma LeadingMonotone(a: int, b: int, q: int, c: int, c': int)
    requires q > 0 && a >= b && a <= q * c && q * (c' - 1) < b
    ensures c' <= c
  {
    if c <= c' - 1 {
      MonotoneProduct(c, c' - 1, q);
      assert false;
    }
  }

  lemma LongOrder(a: int, b: int)
    requires a >= b > 0 && 3 < ByteLength(b) <= ByteLength(a) <= 255 && !Vanishes(a) && !Vanishes(b)
    ensures Decoded(-a) <= Decoded(-b)
  {
    hide ByteLength, Leading, Pow256, Decoded, NegatedValue, Vanishes;
    LongMagnitude(a);
    LongMagnitude(b);
    var q, q' := Pow256(ByteLength(a) - 3), Pow256(ByteLength(b) - 3);
    if ByteLength(a) == ByteLength(b) {
      LeadingMonotone(a, b, q, Leading(-a), Leading(-b));
      NegatedMonotone(Leading(-a), Leading(-b), ByteLength(a), q);
    } else {
      ThreeUp(ByteLength(b) - 3);
      Pow256Monotone(ByteLength(b) - 2, ByteLength(a) - 3);
    }
  }

  lemma MixedOrder(a: int, b: int)
    requires a > 0 && b > 0 && ByteLength(b) <= 3 < ByteLength(a) <= 255 && !Vanishes(a)
    ensures Decoded(-a) <= Decoded(-b)
  {
    ByteLengthBounds(b);
    SmallPowers();
    Pow256Monotone(ByteLength(b), 3);
    Pow256Monotone(1, ByteLength(a) - 3);
    Pow256Monotone(3, 254);
    hide ByteLength, Leading, Pow256, Decoded, NegatedValue, Vanishes;
    LongMagnitude(a);
    ShortNegative(b);
    LossBound(b);
  }

  lemma EncodableLess(b: nat, a: nat)
    requires b <= a && Encodable(a)
    ensures Encodable(b)
  {
    hide Pow256;
  }

  lemma EncodableLength(n: nat)
    requires n > 0 && Encodable(n)
    ensures ByteLength(n) <= 255
  {
    hide ByteLength, Pow256, Encodable, Size;
    EncodableSize(n);
    SizeOfLength(n);
  }

  lemma LengthMonotone(b: nat, a: nat)
    requires 0 < b <= a
    ensures ByteLength(b) <= ByteLength(a)
  {
    hide ByteLength, Pow256;
    ByteLengthBounds(a);
    ByteLengthBounds(b);
    if ByteLength(b) > ByteLength(a) {
      Pow256Monotone(ByteLength(a), ByteLength(b) - 1);
      assert false;
    }
  }

  /** Of two encodable negative numbers the smaller one is decoded to the smaller, unless it alone vanishes. */
  lemma NegativeOrder(n: int, n': int)
    requires n <= n' < 0 && Encodable(-n)
    ensures Decoded(n) <= Decoded(n') <==> !(Vanishes(-n) && !Vanishes(-n'))
  {
    hide ByteLength, Pow256, Decoded, Vanishes, Encodable, Near;
    EncodableLess(-n', -n);
    NegativeLoss(-n);
    NegativeLoss(-n');
    if !Vanishes(-n) && !Vanishes(-n') {
      EncodableLength(-n);
      LengthMonotone(-n', -n);
      if ByteLength(-n') > 3 {
        LongOrder(-n, -n');
      } else if ByteLength(-n) > 3 {
        MixedOrder(-n, -n');
      } else {
        ShortNegative(-n);
        ShortNegative(-n');
        EncodingMonotone(-n', -n);
      }
    }
  }

  /** Four bytes of ones, negated, decode to zero. */
  lemma NegativeVanishes()
    ensures Decoded(-0xFFFF_FFFF) == 0
  {
    SmallPowers();
    Pow256Monotone(3, 254);
    assert ByteLength(0xFF) == 1;
    assert ByteLength(0xFFFF) == 2;
    assert ByteLength(0xFF_FFFF) == 3;
    assert ByteLength(0xFFFF_FFFF) == 4;
    hide ByteLength, Pow256, Decoded;
    ThreeUp(1);
    Pow256Monotone(4, 254);
    NegativeLoss(0xFFFF_FFFF);
  }

  lemma CloseIsNear(n: nat, d: int)
    requires n > 0 && Close(n, d)
    ensures Near(n, d)
  {
  }

  // ----- the difficulty adjustment -----

  /** 2^255 - 1. */
  const PowLimit: int := 0x80 * Pow256(31) - 1
  const Cycle: int := 10

  function WrapInt64(x: int): int {
    (x + 0x8000_0000_0000_0000) % 0x1_0000_0000_0000_0000 - 0x8000_0000_0000_0000
  }

  function NextTarget(span: int, bits: nat): int {
    var target := CompactToBig(bits) * span / (Cycle * 10);
    if target > PowLimit then PowLimit else target
  }

  /** The source divides as Euclid does, like Dafny. */
  function CalcNextGlobalRequiredDifficulty(t0: int, t1: int, bits: nat): nat {
    BigToCompact(NextTarget(WrapInt64(t1 - t0), bits))
  }

  lemma NegativeDecoded(n: int)
    requires n < 0
    ensures Decoded(n) <= 0
  {
    var c := BigToCompact(n);
    SignBitSet(n);
    hide BigToCompact;
    SignedNotPositive(c);
  }

  lemma CodeBeforeSign(n: int) returns (c: nat)
    requires n < 0
    ensures BigToCompact(n) == if (c / 0x80_0000) % 2 == 0 then c + 0x80_0000 else c
  {
    hide ByteLength, Leading, OrExponent;
    var m0 := Leading(n);
    var length := ByteLength(Abs(n));
    c := if (m0 / 0x80_0000) % 2 == 1 then OrExponent((length + 1) % 256, m0 / 256) else OrExponent(length % 256, m0);
  }

  lemma SignBitAdded(c: nat)
    ensures ((if (c / 0x80_0000) % 2 == 0 then c + 0x80_0000 else c) / 0x80_0000) % 2 == 1
  {
    assert (c + 0x80_0000) / 0x80_0000 == c / 0x80_0000 + 1;
  }

  lemma SignBitSet(n: int)
    requires n < 0
    ensures (BigToCompact(n) / 0x80_0000) % 2 == 1
  {
    hide BigToCompact;
    var c := CodeBeforeSign(n);
    SignBitAdded(c);
  }

  lemma SignedNotPositive(c: nat)
    requires (c / 0x80_0000) % 2 == 1
    ensures CompactToBig(c) <= 0
  {
    var m, e := c % 0x80_0000, c / 0x100_0000;
    if e > 3 {
      MonotoneProduct(0, m, Pow256(e - 3));
    } else {
      DivAtLeast(m, Pow256(3 - e), 0);
    }
  }

  lemma PowLimitEncodable(n: nat)
    requires n <= PowLimit
    ensures Encodable(n)
  {
    Pow256Monotone(31, 254);
    hide Pow256;
  }

  /** Whatever the times and the old bits, the new target decodes to at most 2^255 - 1. */
  lemma NextCapped(t0: int, t1: int, bits: nat)
    ensures CompactToBig(CalcNextGlobalRequiredDifficulty(t0, t1, bits)) <= PowLimit
  {
    var n := NextTarget(WrapInt64(t1 - t0), bits);
    LimitPositive();
    hide NextTarget, WrapInt64, BigToCompact, CompactToBig, Pow256;
    if n < 0 {
      NegativeDecoded(n);
    } else {
      NextTargetBound(WrapInt64(t1 - t0), bits);
      PowLimitEncodable(n);
      LossBound(n);
    }
  }

  lemma LimitPositive()
    ensures PowLimit >= 0
  {
  }

  lemma NextTargetBound(span: int, bits: nat)
    ensures NextTarget(span, bits) <= PowLimit
  {
    hide CompactToBig, Pow256;
  }

  lemma NextTargetMonotone(span: int, span': int, bits: nat)
    requires CompactToBig(bits) >= 0 && span <= span'
    ensures NextTarget(span, bits) <= NextTarget(span', bits) && (span >= 0 ==> NextTarget(span, bits) >= 0)
  {
    var old' := CompactToBig(bits);
    LimitPositive();
    hide CompactToBig, Pow256;
    MonotoneProduct(span, span', old');
    if span >= 0 {
      MonotoneProduct(0, span, old');
    }
  }

  predicate Bounded(n: int) {
    n < 0 ==> Encodable(-n)
  }

  /** Of two negative numbers the first decodes to zero and the second does not. */
  predicate VanishesAlone(n: int, n': int) {
    n < 0 && n' < 0 && Vanishes(-n) && !Vanishes(-n')
  }

  lemma TargetOrder(n: int, n': int)
    requires n <= n' <= PowLimit && (n' < 0 ==> Bounded(n))
    ensures (Decoded(n) <= Decoded(n')) <==> !VanishesAlone(n, n')
    ensures n >= 0 ==> BigToCompact(n) <= BigToCompact(n')
  {
    hide BigToCompact, Decoded, Pow256, Encodable, Vanishes;
    if n' < 0 {
      NegativeOrder(n, n');
    } else {
      PowLimitEncodable(n');
      if n < 0 {
        NegativeDecoded(n);
        EncodingMonotone(0, n');
      } else {
        EncodingMonotone(n, n');
      }
    }
  }

  /** A longer time span never makes the target harder, except from one negative target to another when the smaller
      one alone vanishes. Negative targets are taken below 2^2039. */
  lemma NextMonotone(t0: int, t1: int, t1': int, bits: nat)
    requires CompactToBig(bits) >= 0 && WrapInt64(t1 - t0) <= WrapInt64(t1' - t0)
    requires var n, n' := NextTarget(WrapInt64(t1 - t0), bits), NextTarget(WrapInt64(t1' - t0), bits);
             n' < 0 ==> Bounded(n)
    ensures var n, n' := NextTarget(WrapInt64(t1 - t0), bits), NextTarget(WrapInt64(t1' - t0), bits);
            (CompactToBig(CalcNextGlobalRequiredDifficulty(t0, t1, bits)) <=
             CompactToBig(CalcNextGlobalRequiredDifficulty(t0, t1', bits))) <==> !VanishesAlone(n, n')
    ensures 0 <= WrapInt64(t1 - t0) ==>
              CalcNextGlobalRequiredDifficulty(t0, t1, bits) <= CalcNextGlobalRequiredDifficulty(t0, t1', bits)
  {
    var span, span' := WrapInt64(t1 - t0), WrapInt64(t1' - t0);
    NextTargetMonotone(span, span', bits);
    NextTargetBound(span', bits);
    hide NextTarget, WrapInt64, BigToCompact, CompactToBig, Bounded, VanishesAlone, Decoded;
    var n, n' := NextTarget(span, bits), NextTarget(span', bits);
    TargetOrder(n, n');
    DecodedDef(n);
    DecodedDef(n');
  }

  lemma OneSurvives()
    ensures Encodable(1) && !Vanishes(1)
  {
    assert ByteLength(1) == 1;
    hide ByteLength;
    PowerPositive(254);
    hide Pow256;
  }

  lemma TargetsOfOne()
    ensures NextTarget(-429496729500, 0x101_0000) == -0xFFFF_FFFF && NextTarget(-100, 0x101_0000) == -1
  {
    SmallPowers();
    LimitPositive();
    hide Pow256, CompactToBig;
    DecodeShape(1, 0x1_0000);
    assert CompactToBig(0x101_0000) == 1;
  }

  /** An instance: with a target of one, the span of -429496729500 gives a target of zero and the longer one of -100 a
      negative target. */
  lemma LongerSpanHarder()
    ensures CompactToBig(CalcNextGlobalRequiredDifficulty(0, -429496729500, 0x101_0000)) == 0
    ensures CompactToBig(CalcNextGlobalRequiredDifficulty(0, -100, 0x101_0000)) < 0
  {
    hide BigToCompact, CompactToBig, NextTarget, Decoded, Pow256, ByteLength, Encodable, Vanishes;
    TargetsOfOne();
    NegativeVanishes();
    OneSurvives();
    NegativeLoss(1);
    DecodedDef(-0xFFFF_FFFF);
    DecodedDef(-1);
    assert WrapInt64(-429496729500) == -429496729500 && WrapInt64(-100) == -100;
  }

  /** For a time span that does not run backwards, the new target is the old one times the span over the planned time,
      rounded down, at most 2^255 - 1, and then encoded with a loss of less than one part in 2^15. */
  lemma NextProportional(t0: int, t1: int, bits: nat, t: nat)
    requires 0 <= t1 - t0 < 0x8000_0000_0000_0000 && CompactToBig(bits) >= 0
    requires 100 * t <= CompactToBig(bits) * (t1 - t0) < 100 * t + 100
    ensures Close(if t > PowLimit then PowLimit else t, CompactToBig(CalcNextGlobalRequiredDifficulty(t0, t1, bits)))
  {
    LimitPositive();
    var n := if t > PowLimit then PowLimit else t;
    SameSpan(t1 - t0);
    TargetOf(t1 - t0, bits, t);
    hide BigToCompact, CompactToBig, Pow256, Encodable, Close, NextTarget, WrapInt64;
    PowLimitEncodable(n);
    LossBound(n);
    DecodedDef(n);
  }

  lemma SameSpan(span: int)
    requires -0x8000_0000_0000_0000 <= span < 0x8000_0000_0000_0000
    ensures WrapInt64(span) == span
  {
  }

  lemma TargetOf(span: int, bits: nat, t: nat)
    requires 100 * t <= CompactToBig(bits) * span < 100 * t + 100
    ensures NextTarget(span, bits) == if t > PowLimit then PowLimit else t
  {
    hide CompactToBig, Pow256;
    assert CompactToBig(bits) * span / 100 == t;
  }

  /** When ten blocks took exactly the planned time, the bits stay as they are. */
  lemma OnScheduleKept(t0: int, n: nat)
    requires n <= PowLimit && WrapInt64(t0 + Cycle * 10 - t0) == Cycle * 10
    ensures CalcNextGlobalRequiredDifficulty(t0, t0 + Cycle * 10, BigToCompact(n)) == BigToCompact(n)
  {
    PowLimitEncodable(n);
    EncodingIdempotent(n);
    LossBound(n);
    hide BigToCompact, CompactToBig, Pow256, Encodable;
    assert Decoded(n) * (Cycle * 10) / (Cycle * 10) == Decoded(n);
  }
}
