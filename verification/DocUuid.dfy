/**
 Point ids for the vector store (docUUID in internal/rag/engine.go): two 64-bit FNV-1a lanes,
 printed in the 8-4-4-4-12 layout.
 */
module DocUuid {
  import opened Words

  const OFFSET_HI: Word := 0xcbf29ce484222325
  const OFFSET_LO: Word := 0x14c4b09d7afb5f99
  const PRIME: Word := 0x00000100000001B3
  /** The inverse of PRIME modulo 2^64; it exists because PRIME is odd. */
  const PRIME_INVERSE: Word := 0xce965057aff6957b

  /** One FNV-1a round on one lane: exclusive or with the byte, then multiply modulo 2^64. */
  function Step(h: Word, b: Byte): Word {
    Xor(h, b) * PRIME % TWO64
  }

  function Lane(h: Word, id: seq<Byte>): Word {
    if id == [] then h else Step(Lane(h, id[..|id| - 1]), id[|id| - 1])
  }

  /** The 8-4-4-4-12 layout. */
  function Layout(hi: Word, lo: Word): (s: string)
    ensures |s| == 36
  {
    Hex(hi / 0x1_0000_0000, 8) + "-" + Hex(hi / 0x1_0000 % 0x1_0000, 4) + "-" + Hex(hi % 0x1_0000, 4) + "-"
    + Hex(lo / 0x1_0000_0000_0000, 4) + "-" + Hex(lo % 0x1_0000_0000_0000, 12)
  }

  function DocUuid(id: seq<Byte>): string {
    Layout(Lane(OFFSET_HI, id), Lane(OFFSET_LO, id))
  }

  /** docUUID: both lanes are advanced byte by byte in one loop. */
  method DocUuidOf(id: seq<Byte>) returns (uuid: string)
    ensures uuid == DocUuid(id)
  {
    var hi: nat, lo: nat := OFFSET_HI, OFFSET_LO;
    for i := 0 to |id|
      invariant hi == Lane(OFFSET_HI, id[..i]) && lo == Lane(OFFSET_LO, id[..i])
    {
      assert id[..i + 1][..i] == id[..i];
      lo := Xor(lo, id[i]);
      lo := lo * PRIME % TWO64;
      hi := Xor(hi, id[i]);
      hi := hi * PRIME % TWO64;
    }
    assert id[..|id|] == id;
    uuid := Layout(hi, lo);
  }

  // ------------------------------------------------------------------ the constants

  /** Both lanes start from their own offset and take in each byte in turn. */
  lemma LanesAreFnv(id: seq<Byte>, b: Byte)
    ensures DocUuid(id) == Layout(Lane(0xcbf29ce484222325, id), Lane(0x14c4b09d7afb5f99, id))
    ensures forall h: Word :: Lane(h, []) == h
    ensures forall h: Word :: Lane(h, id + [b]) == Xor(Lane(h, id), b) * 0x100000001b3 % 0x1_0000_0000_0000_0000
  {
    assert (id + [b])[..|id|] == id;
  }

  lemma FourMoreDigits(v: nat, n: nat, a: nat, b: nat, c: nat, d: nat)
    requires a < 16 && b < 16 && c < 16 && d < 16
    ensures Hex(0x1_0000 * v + 0x1000 * a + 0x100 * b + 0x10 * c + d, n + 4)
         == Hex(v, n) + [HexDigit(a), HexDigit(b), HexDigit(c), HexDigit(d)]
  {
    var (x, y) := (16 * v + a, 16 * (16 * v + a) + b);
    hide Hex;
    hide HexDigit;
    HexAppends(v, a, n);
    HexAppends(x, b, n + 1);
    HexAppends(y, c, n + 2);
    HexAppends(16 * y + c, d, n + 3);
  }

  // ------------------------------------------------------------------ the layout determines both lanes

  lemma JoinedFields(a: string, b: string, c: string, d: string, e: string)
    requires |a| == 8 && |b| == |c| == |d| == 4 && |e| == 12
    ensures var s := a + "-" + b + "-" + c + "-" + d + "-" + e;
            |s| == 36 && s[..8] == a && s[9..13] == b && s[14..18] == c && s[19..23] == d && s[24..] == e
  {
  }

  lemma LayoutFields(hi: Word, lo: Word)
    ensures var s := Layout(hi, lo);
            && s[..8] == Hex(hi / 0x1_0000_0000, 8)
            && s[9..13] == Hex(hi / 0x1_0000 % 0x1_0000, 4)
            && s[14..18] == Hex(hi % 0x1_0000, 4)
            && s[19..23] == Hex(lo / 0x1_0000_0000_0000, 4)
            && s[24..] == Hex(lo % 0x1_0000_0000_0000, 12)
  {
    hide Hex;
    JoinedFields(Hex(hi / 0x1_0000_0000, 8), Hex(hi / 0x1_0000 % 0x1_0000, 4), Hex(hi % 0x1_0000, 4),
                 Hex(lo / 0x1_0000_0000_0000, 4), Hex(lo % 0x1_0000_0000_0000, 12));
  }

  lemma LayoutIsInjective(hi: Word, lo: Word, hi': Word, lo': Word)
    requires Layout(hi, lo) == Layout(hi', lo')
    ensures hi == hi' && lo == lo'
  {
    hide Hex;
    hide Layout;
    hide Pow16;
    LayoutFields(hi, lo);
    LayoutFields(hi', lo');
    PowersOf16();
    HexInjective(hi / 0x1_0000_0000, hi' / 0x1_0000_0000, 8);
    HexInjective(hi / 0x1_0000 % 0x1_0000, hi' / 0x1_0000 % 0x1_0000, 4);
    HexInjective(hi % 0x1_0000, hi' % 0x1_0000, 4);
    HexInjective(lo / 0x1_0000_0000_0000, lo' / 0x1_0000_0000_0000, 4);
    HexInjective(lo % 0x1_0000_0000_0000, lo' % 0x1_0000_0000_0000, 12);
    ThreeFields(hi, hi');
  }

  lemma ThreeFields(a: Word, b: Word)
    requires a / 0x1_0000_0000 == b / 0x1_0000_0000
    requires a / 0x1_0000 % 0x1_0000 == b / 0x1_0000 % 0x1_0000
    requires a % 0x1_0000 == b % 0x1_0000
    ensures a == b
  {
    assert a / 0x1_0000 / 0x1_0000 == a / 0x1_0000_0000;
    assert b / 0x1_0000 / 0x1_0000 == b / 0x1_0000_0000;
  }

  lemma PowersOf16()
    ensures Pow16(4) == 0x1_0000 && Pow16(8) == 0x1_0000_0000 && Pow16(12) == 0x1_0000_0000_0000
  {
    assert Pow16(2) == 0x100;
    assert Pow16(4) == 0x1_0000;
    assert Pow16(6) == 0x100_0000;
    assert Pow16(8) == 0x1_0000_0000;
    assert Pow16(10) == 0x100_0000_0000;
  }

  lemma FirstField()
    ensures Hex(0xcbf29ce4, 8) == "cbf2" + "9ce4"
  {
    assert Hex(0, 0) == "";
    hide Hex;
    FourMoreDigits(0, 0, 12, 11, 15, 2);
    FourMoreDigits(0xcbf2, 4, 9, 12, 14, 4);
  }

  lemma SecondAndThirdField()
    ensures Hex(0x8422, 4) == "8422" && Hex(0x2325, 4) == "2325"
  {
    assert Hex(0, 0) == "";
    hide Hex;
    FourMoreDigits(0, 0, 8, 4, 2, 2);
    FourMoreDigits(0, 0, 2, 3, 2, 5);
  }

  lemma FourthField()
    ensures Hex(0x14c4, 4) == "14c4" && Hex(0xb09d, 4) == "b09d"
  {
    assert Hex(0, 0) == "";
    hide Hex;
    FourMoreDigits(0, 0, 1, 4, 12, 4);
    FourMoreDigits(0, 0, 11, 0, 9, 13);
  }

  lemma LastField()
    ensures Hex(0xb09d7afb5f99, 12) == Hex(0xb09d, 4) + "7afb" + "5f99"
  {
    hide Hex;
    FourMoreDigits(0xb09d, 4, 7, 10, 15, 11);
    FourMoreDigits(0xb09d7afb, 8, 5, 15, 9, 9);
  }

  lemma OffsetFields(hi: Word, lo: Word)
    requires hi == 0xcbf29ce484222325 && lo == 0x14c4b09d7afb5f99
    ensures hi / 0x1_0000_0000 == 0xcbf29ce4 && hi / 0x1_0000 % 0x1_0000 == 0x8422 && hi % 0x1_0000 == 0x2325
    ensures lo / 0x1_0000_0000_0000 == 0x14c4 && lo % 0x1_0000_0000_0000 == 0xb09d7afb5f99
  {
  }

  /** The id of the empty string shows the offsets themselves: cbf29ce4-8422-2325-14c4-b09d7afb5f99. */
  lemma IdOfNothing()
    ensures var id := DocUuid([]);
            && id[..8] == "cbf2" + "9ce4" && id[9..13] == "8422" && id[14..18] == "2325" && id[19..23] == "14c4"
            && id[24..] == "b09d" + "7afb" + "5f99"
  {
    var hi: Word :| hi == 0xcbf29ce484222325;
    var lo: Word :| lo == 0x14c4b09d7afb5f99;
    hide *;
    StartsAtTheOffsets(hi, lo);
    FirstField();
    SecondAndThirdField();
    FourthField();
    LastField();
    OffsetFields(hi, lo);
    LayoutFields(hi, lo);
  }

  lemma StartsAtTheOffsets(hi: Word, lo: Word)
    requires hi == 0xcbf29ce484222325 && lo == 0x14c4b09d7afb5f99
    ensures DocUuid([]) == Layout(hi, lo)
  {
    hide Layout;
  }

  predicate IsHexField(s: string, length: nat) {
    |s| == length && IsHex(s)
  }

  /** The textual form of section 4 of RFC 9562: five hexadecimal fields joined by dashes. */
  lemma UuidShape(id: seq<Byte>)
    ensures exists a, b, c, d, e ::
              && DocUuid(id) == a + "-" + b + "-" + c + "-" + d + "-" + e
              && IsHexField(a, 8) && IsHexField(b, 4) && IsHexField(c, 4) && IsHexField(d, 4) && IsHexField(e, 12)
  {
    var hi, lo := Lane(OFFSET_HI, id), Lane(OFFSET_LO, id);
    var a, b, c := Hex(hi / 0x1_0000_0000, 8), Hex(hi / 0x1_0000 % 0x1_0000, 4), Hex(hi % 0x1_0000, 4);
    var d, e := Hex(lo / 0x1_0000_0000_0000, 4), Hex(lo % 0x1_0000_0000_0000, 12);
    assert IsHexField(a, 8) && IsHexField(b, 4) && IsHexField(c, 4) && IsHexField(d, 4) && IsHexField(e, 12);
  }

  // ------------------------------------------------------------------ every round is a bijection

  /** Multiplication by the odd prime is injective modulo 2^64. */
  lemma TimesPrimeInjective(a: Word, b: Word)
    requires a * PRIME % TWO64 == b * PRIME % TWO64
    ensures a == b
  {
    var q := PRIME * PRIME_INVERSE / TWO64;
    assert PRIME * PRIME_INVERSE == 1 + q * TWO64;
    var t := a * PRIME / TWO64 - b * PRIME / TWO64;
    assert a * PRIME == b * PRIME + t * TWO64;
    assert a * PRIME * PRIME_INVERSE == b * PRIME * PRIME_INVERSE + t * TWO64 * PRIME_INVERSE;
    assert a - b == TWO64 * (b * q + t * PRIME_INVERSE - a * q);
  }

  lemma {:induction false} XorInvolution(a: nat, b: nat)
    ensures Xor(Xor(a, b), b) == a
  {
    if a != 0 || b != 0 {
      XorInvolution(a / 2, b / 2);
      var low, high := if a % 2 == b % 2 then 0 else 1, Xor(a / 2, b / 2);
      assert Xor(a, b) == low + 2 * high;
      assert (low + 2 * high) % 2 == low && (low + 2 * high) / 2 == high;
    }
  }

  lemma {:induction false} XorWithZero(a: nat)
    ensures Xor(a, 0) == a
  {
    if a != 0 { XorWithZero(a / 2); }
  }

  /** Exclusive or with a k-bit value changes the low k bits only, to another k-bit value. */
  lemma {:induction false} XorLow(k: nat, x: nat, y: nat, a: nat)
    requires x < Pow2(k) && y < Pow2(k)
    ensures Xor(x + Shl(a, k), y) == Xor(x, y) + Shl(a, k)
    ensures Xor(x, y) < Pow2(k)
  {
    if k == 0 {
      XorWithZero(a);
    } else {
      HalfOfSum(x, Shl(a, k - 1));
      XorLow(k - 1, x / 2, y / 2, a);
    }
  }

  lemma XorByte(h: Word, b: Byte)
    ensures Xor(h, b) == h / 256 * 256 + Xor(h % 256, b)
    ensures Xor(h % 256, b) < 256
  {
    assert Pow2(8) == 256;
    ShlByte(h / 256);
    XorLow(8, h % 256, b, h / 256);
    assert h == h % 256 + 256 * (h / 256);
  }

  lemma XorWithByteIsWord(h: Word, b: Byte)
    ensures Xor(h, b) < TWO64
  {
    hide Xor;
    XorByte(h, b);
    assert h / 256 * 256 <= TWO64 - 256;
  }

  lemma XorRightInjective(a: nat, b: nat, y: nat)
    requires Xor(a, y) == Xor(b, y)
    ensures a == b
  {
    hide Xor;
    XorInvolution(a, y);
    XorInvolution(b, y);
  }

  /** For a fixed byte, a round is injective in the lane. */
  lemma StepInjective(h: Word, h': Word, b: Byte)
    requires Step(h, b) == Step(h', b)
    ensures h == h'
  {
    hide Xor;
    XorWithByteIsWord(h, b);
    XorWithByteIsWord(h', b);
    TimesPrimeInjective(Xor(h, b), Xor(h', b));
    XorRightInjective(h, h', b);
  }

  lemma {:induction false} LaneOfSplit(h: Word, a: seq<Byte>, b: seq<Byte>)
    ensures Lane(h, a + b) == Lane(Lane(h, a), b)
  {
    if b == [] {
      assert a + b == a;
    } else {
      var n := |b| - 1;
      assert (a + b)[..|a| + n] == a + b[..n];
      LaneOfSplit(h, a, b[..n]);
    }
  }

  lemma {:induction false} LaneInjective(h: Word, h': Word, s: seq<Byte>)
    requires Lane(h, s) == Lane(h', s)
    ensures h == h'
  {
    if s != [] {
      var n := |s| - 1;
      StepInjective(Lane(h, s[..n]), Lane(h', s[..n]), s[n]);
      LaneInjective(h, h', s[..n]);
    }
  }

  /** A common suffix neither creates nor removes a collision. */
  lemma CommonSuffixIsIrrelevant(a: seq<Byte>, b: seq<Byte>, s: seq<Byte>)
    ensures DocUuid(a + s) == DocUuid(b + s) <==> DocUuid(a) == DocUuid(b)
  {
    LaneOfSplit(OFFSET_HI, a, s);
    LaneOfSplit(OFFSET_LO, a, s);
    LaneOfSplit(OFFSET_HI, b, s);
    LaneOfSplit(OFFSET_LO, b, s);
    if DocUuid(a + s) == DocUuid(b + s) {
      LayoutIsInjective(Lane(OFFSET_HI, a + s), Lane(OFFSET_LO, a + s), Lane(OFFSET_HI, b + s), Lane(OFFSET_LO, b + s));
      LaneInjective(Lane(OFFSET_HI, a), Lane(OFFSET_HI, b), s);
      LaneInjective(Lane(OFFSET_LO, a), Lane(OFFSET_LO, b), s);
    }
    if DocUuid(a) == DocUuid(b) {
      LayoutIsInjective(Lane(OFFSET_HI, a), Lane(OFFSET_LO, a), Lane(OFFSET_HI, b), Lane(OFFSET_LO, b));
    }
  }

  // ------------------------------------------------------------------ close ids never collide

  /** The multiplication pushes a one-byte difference beyond the low eight bits. */
  lemma ByteDifferenceSpreads(h: Word, x: Byte, y: Byte)
    requires x != y
    ensures Step(h, x) / 256 != Step(h, y) / 256
  {
    hide Xor;
    XorByte(h, x);
    XorByte(h, y);
    var p, q := Xor(h, x), Xor(h, y);
    if p == q {
      XorSameLeft(h, x, y);
    }
    DistantProducts(p, q);
  }

  lemma {:induction false} XorSameLeft(a: nat, x: nat, y: nat)
    requires Xor(a, x) == Xor(a, y)
    ensures x == y
  {
    XorCommutes(a, x);
    XorCommutes(a, y);
    XorInvolution(x, a);
    XorInvolution(y, a);
  }

  lemma {:induction false} XorCommutes(a: nat, b: nat)
    ensures Xor(a, b) == Xor(b, a)
  {
    if a != 0 || b != 0 { XorCommutes(a / 2, b / 2); }
  }

  lemma DistantProducts(p: Word, q: Word)
    requires 0 < p - q < 256 || 0 < q - p < 256
    ensures p * PRIME % TWO64 / 256 != q * PRIME % TWO64 / 256
  {
    var k := p * PRIME / TWO64 - q * PRIME / TWO64;
    var d := p * PRIME % TWO64 - q * PRIME % TWO64;
    assert d == (p - q) * PRIME - k * TWO64;
    assert !(-256 < d < 256);
  }

  /**
   Two ids of equal length that differ only inside two adjacent bytes get different UUID strings,
   whatever surrounds those bytes.
   */
  lemma AdjacentBytesNeverCollide(prefix: seq<Byte>, x: Byte, y: Byte, x': Byte, y': Byte, suffix: seq<Byte>)
    requires x != x' || y != y'
    ensures DocUuid(prefix + [x, y] + suffix) != DocUuid(prefix + [x', y'] + suffix)
  {
    var p, q := prefix + [x, y], prefix + [x', y'];
    CommonSuffixIsIrrelevant(p, q, suffix);
    LaneOfTwoMore(prefix, x, y);
    LaneOfTwoMore(prefix, x', y');
    if DocUuid(p) == DocUuid(q) {
      LayoutIsInjective(Lane(OFFSET_HI, p), Lane(OFFSET_LO, p), Lane(OFFSET_HI, q), Lane(OFFSET_LO, q));
      TwoRoundsDistinguish(Lane(OFFSET_HI, prefix), x, y, x', y');
    }
  }

  lemma TwoRoundsDistinguish(h: Word, x: Byte, y: Byte, x': Byte, y': Byte)
    requires x != x' || y != y'
    ensures Step(Step(h, x), y) != Step(Step(h, x'), y')
  {
    hide Xor;
    var a, b := Step(h, x), Step(h, x');
    if Step(a, y) == Step(b, y') {
      XorByte(a, y);
      XorByte(b, y');
      TimesPrimeInjective(Xor(a, y), Xor(b, y'));
      assert a / 256 == b / 256;
      if x != x' {
        ByteDifferenceSpreads(h, x, x');
      } else {
        XorSameLeft(a, y, y');
      }
    }
  }

  lemma LaneOfTwoMore(prefix: seq<Byte>, x: Byte, y: Byte)
    ensures Lane(OFFSET_HI, prefix + [x, y]) == Step(Step(Lane(OFFSET_HI, prefix), x), y)
  {
    assert (prefix + [x, y])[..|prefix| + 1] == prefix + [x];
    assert (prefix + [x])[..|prefix|] == prefix;
  }
}
