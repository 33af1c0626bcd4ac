/** 64-bit words as natural numbers: bits, exclusive or, population count, bytes and hexadecimal. */
module Words {

  const TWO64: nat := 0x1_0000_0000_0000_0000

  /** A Go uint64. */
  type Word = w: nat | w < TWO64

  type Byte = b: nat | b < 256

  function Pow2(n: nat): (r: nat)
    ensures r > 0
  {
    if n == 0 then 1 else 2 * Pow2(n - 1)
  }

  // ------------------------------------------------------------------ bits

  /** Bit i of w, as in (w >> i) & 1 == 1. */
  predicate Bit(w: nat, i: nat) {
    if i == 0 then w % 2 == 1 else Bit(w / 2, i - 1)
  }

  /** w | (1 << i) */
  function SetBit(w: nat, i: nat): nat {
    if i == 0 then w / 2 * 2 + 1 else w % 2 + 2 * SetBit(w / 2, i - 1)
  }

  lemma {:induction false} BitOfSetBit(w: nat, i: nat, j: nat)
    ensures Bit(SetBit(w, i), j) <==> i == j || Bit(w, j)
  {
    if i > 0 && j > 0 {
      BitOfSetBit(w / 2, i - 1, j - 1);
    } else if i > 0 {
      assert SetBit(w, i) % 2 == w % 2;
    } else if j > 0 {
      assert SetBit(w, i) / 2 == w / 2;
    }
  }

  lemma {:induction false} SetBitBound(w: nat, i: nat, n: nat)
    requires w < Pow2(n) && i < n
    ensures SetBit(w, i) < Pow2(n)
  {
    if i > 0 {
      SetBitBound(w / 2, i - 1, n - 1);
    }
  }

  /** Two n-bit numbers with the same low n bits are equal. */
  lemma {:induction false} SameBitsSameWord(a: nat, b: nat, n: nat)
    requires a < Pow2(n) && b < Pow2(n)
    requires forall i :: 0 <= i < n ==> Bit(a, i) == Bit(b, i)
    ensures a == b
  {
    if n > 0 {
      assert Bit(a, 0) == Bit(b, 0);
      forall i | 0 <= i < n - 1
        ensures Bit(a / 2, i) == Bit(b / 2, i)
      {
        assert Bit(a, i + 1) == Bit(b, i + 1);
      }
      SameBitsSameWord(a / 2, b / 2, n - 1);
    }
  }

  lemma WordIsBelowPow2(w: Word)
    ensures Pow2(64) == TWO64
  {
    assert Pow2(8) == 256;
    assert Pow2(16) == 0x1_0000;
    assert Pow2(24) == 0x100_0000;
    assert Pow2(32) == 0x1_0000_0000;
    assert Pow2(40) == 0x100_0000_0000;
    assert Pow2(48) == 0x1_0000_0000_0000;
    assert Pow2(56) == 0x100_0000_0000_0000;
  }

  // ------------------------------------------------------------------ exclusive or and population count

  /** a ^ b */
  function Xor(a: nat, b: nat): nat {
    if a == 0 && b == 0 then 0
    else (if a % 2 == b % 2 then 0 else 1) + 2 * Xor(a / 2, b / 2)
  }

  /** bits.OnesCount64 */
  function OnesCount(w: nat): nat {
    if w == 0 then 0 else w % 2 + OnesCount(w / 2)
  }

  lemma {:induction false} ZeroHasNoBits(i: nat)
    ensures !Bit(0, i)
  {
    if i > 0 { ZeroHasNoBits(i - 1); }
  }

  /** The positions at which two words differ, among the low n. */
  function DifferingBits(a: nat, b: nat, n: nat): set<nat> {
    set i: nat | i < n && Bit(a, i) != Bit(b, i)
  }

  /** The population count of a ^ b is the number of positions at which a and b differ. */
  lemma {:induction false} OnesCountOfXor(a: nat, b: nat, n: nat)
    requires a < Pow2(n) && b < Pow2(n)
    ensures OnesCount(Xor(a, b)) == |DifferingBits(a, b, n)|
  {
    if n == 0 {
      assert DifferingBits(a, b, n) == {};
    } else {
      hide Xor;
      hide OnesCount;
      hide DifferingBits;
      OnesCountOfXor(a / 2, b / 2, n - 1);
      DifferingBitsHalves(a, b, n);
      XorHalves(a, b);
    }
  }

  lemma DifferingBitsHalves(a: nat, b: nat, n: nat)
    requires n > 0
    ensures |DifferingBits(a, b, n)| == (if a % 2 == b % 2 then 0 else 1) + |DifferingBits(a / 2, b / 2, n - 1)|
  {
    var rest := DifferingBits(a / 2, b / 2, n - 1);
    var shifted := set i | i in rest :: i + 1;
    ShiftedSize(rest, shifted);
    var low: set<nat> := if a % 2 == b % 2 then {} else {0};
    assert DifferingBits(a, b, n) == low + shifted by {
      forall i: nat
        ensures i in DifferingBits(a, b, n) <==> i in low + shifted
      {
        if i > 0 && i in DifferingBits(a, b, n) { assert i - 1 in rest; }
      }
    }
    assert low !! shifted;
  }

  lemma {:induction false} XorHalves(a: nat, b: nat)
    ensures OnesCount(Xor(a, b)) == (if a % 2 == b % 2 then 0 else 1) + OnesCount(Xor(a / 2, b / 2))
  {
    var low := if a % 2 == b % 2 then 0 else 1;
    var high := Xor(a / 2, b / 2);
    if a != 0 || b != 0 {
      assert Xor(a, b) == low + 2 * high;
      OnesCountHalves(low, high);
    }
  }

  lemma {:induction false} OnesCountHalves(low: nat, high: nat)
    requires low < 2
    ensures OnesCount(low + 2 * high) == low + OnesCount(high)
  {
    assert (low + 2 * high) % 2 == low && (low + 2 * high) / 2 == high;
  }

  lemma {:induction false} ShiftedSize(s: set<nat>, t: set<nat>)
    requires forall j: nat :: j in t <==> j > 0 && j - 1 in s
    ensures |t| == |s|
    decreases s
  {
    if s == {} {
      assert forall j: nat :: j !in t;
    } else {
      var x :| x in s;
      var s', t' := s - {x}, t - {x + 1};
      ShiftedSize(s', t');
    }
  }

  /** a << k, without dropping bits */
  function Shl(a: nat, k: nat): nat {
    if k == 0 then a else 2 * Shl(a, k - 1)
  }

  lemma HalfOfSum(x: nat, h: nat)
    ensures (x + 2 * h) % 2 == x % 2 && (x + 2 * h) / 2 == x / 2 + h
  {
  }

  lemma {:induction false} BitOfShiftedSum(k: nat, x: nat, a: nat, i: nat)
    requires x < Pow2(k)
    ensures Bit(x + Shl(a, k), i) <==> if i < k then Bit(x, i) else Bit(a, i - k)
  {
    if k > 0 {
      HalfOfSum(x, Shl(a, k - 1));
      if i > 0 {
        BitOfShiftedSum(k - 1, x / 2, a, i - 1);
      }
    }
  }

  /** The population count of a difference splits at any bit position. */
  lemma {:induction false} XorCountSplits(k: nat, x: nat, y: nat, a: nat, b: nat)
    requires x < Pow2(k) && y < Pow2(k)
    ensures OnesCount(Xor(x + Shl(a, k), y + Shl(b, k))) == OnesCount(Xor(x, y)) + OnesCount(Xor(a, b))
  {
    if k > 0 {
      HalfOfSum(x, Shl(a, k - 1));
      HalfOfSum(y, Shl(b, k - 1));
      XorCountSplits(k - 1, x / 2, y / 2, a, b);
      XorCountStep(x + Shl(a, k), y + Shl(b, k), x, y, OnesCount(Xor(a, b)));
    }
  }

  lemma XorCountStep(p: nat, q: nat, x: nat, y: nat, rest: nat)
    requires p % 2 == x % 2 && q % 2 == y % 2
    requires OnesCount(Xor(p / 2, q / 2)) == OnesCount(Xor(x / 2, y / 2)) + rest
    ensures OnesCount(Xor(p, q)) == OnesCount(Xor(x, y)) + rest
  {
    hide Xor;
    hide OnesCount;
    XorHalves(p, q);
    XorHalves(x, y);
  }

  lemma ShlByte(a: nat)
    ensures Shl(a, 8) == 256 * a
  {
    assert Shl(a, 1) == 2 * a;
    assert Shl(a, 3) == 8 * a;
    assert Shl(a, 5) == 32 * a;
    assert Shl(a, 7) == 128 * a;
  }

  lemma XorCountSplitsAtByte(x: Byte, y: Byte, a: nat, b: nat)
    ensures OnesCount(Xor(x + 256 * a, y + 256 * b)) == OnesCount(Xor(x, y)) + OnesCount(Xor(a, b))
  {
    assert Pow2(8) == 256;
    ShlByte(a);
    ShlByte(b);
    XorCountSplits(8, x, y, a, b);
  }

  // ------------------------------------------------------------------ bits to words

  function FromBits(bs: seq<bool>): (w: nat)
    ensures w < Pow2(|bs|)
  {
    if bs == [] then 0 else (if bs[0] then 1 else 0) + 2 * FromBits(bs[1..])
  }

  lemma {:induction false} BitOfFromBits(bs: seq<bool>, i: nat)
    requires i < |bs|
    ensures Bit(FromBits(bs), i) == bs[i]
  {
    assert FromBits(bs) / 2 == FromBits(bs[1..]);
    if i > 0 { BitOfFromBits(bs[1..], i - 1); }
  }

  // ------------------------------------------------------------------ hexadecimal

  function HexDigit(d: nat): char
    requires d < 16
  {
    if d < 10 then '0' + d as char else 'a' + (d - 10) as char
  }

  /** Hexadecimal digits as %x prints them. */
  predicate IsHex(s: string) {
    forall c :: c in s ==> '0' <= c <= '9' || 'a' <= c <= 'f'
  }

  /** fmt's %0<n>x, for values that fit in n digits. */
  function Hex(v: nat, n: nat): (s: string)
    ensures |s| == n
    ensures IsHex(s)
  {
    if n == 0 then "" else Hex(v / 16, n - 1) + [HexDigit(v % 16)]
  }

  function Pow16(n: nat): (r: nat)
    ensures r > 0
  {
    if n == 0 then 1 else 16 * Pow16(n - 1)
  }

  /** Appending a digit multiplies the number by sixteen and adds the digit's place in the alphabet. */
  lemma HexAppends(v: nat, d: nat, n: nat)
    requires d < 16
    ensures HexDigit(d) == "0123456789abcdef"[d]
    ensures Hex(16 * v + d, n + 1) == Hex(v, n) + [HexDigit(d)]
  {
    var w := 16 * v + d;
    assert w / 16 == v && w % 16 == d;
    assert HexDigit(d) == "0123456789abcdef"[d];
  }

  /** Zero-padded hexadecimal printing is injective on the values that fit. */
  lemma {:induction false} HexInjective(a: nat, b: nat, n: nat)
    requires a < Pow16(n) && b < Pow16(n)
    requires Hex(a, n) == Hex(b, n)
    ensures a == b
  {
    if n > 0 {
      var s, t := Hex(a, n), Hex(b, n);
      assert s[n - 1] == HexDigit(a % 16) && t[n - 1] == HexDigit(b % 16);
      assert s[..n - 1] == Hex(a / 16, n - 1) && t[..n - 1] == Hex(b / 16, n - 1);
      HexInjective(a / 16, b / 16, n - 1);
    }
  }
}
