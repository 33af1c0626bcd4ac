/**
 SimHash fingerprints of log messages (internal/aggregator/fingerprint.go).
 A message arrives here as its list of significant tokens; md5 stands for the first
 eight bytes of a token's MD5 sum, read as a uint64.
 */
module Fingerprint {
  import opened Words
  import opened Basics

  // ------------------------------------------------------------------ SimHash

  /** The counter of bit i after all the feature hashes have voted. */
  function Vote(hashes: seq<Word>, i: nat): (v: int)
    ensures -|hashes| <= v <= |hashes|
  {
    if hashes == [] then 0
    else Vote(hashes[..|hashes| - 1], i) + BitVote(hashes[|hashes| - 1], i)
  }

  function BitVote(h: Word, i: nat): int {
    if Bit(h, i) then 1 else -1
  }

  function SimHash(hashes: seq<Word>): Word {
    var bits := seq(64, i requires 0 <= i < 64 => Vote(hashes, i) > 0);
    WordIsBelowPow2(0);
    FromBits(bits)
  }

  function TokenHashes(tokens: seq<string>, md5: string -> Word): (hashes: seq<Word>)
    ensures |hashes| == |tokens|
  {
    seq(|tokens|, k requires 0 <= k < |tokens| => md5(tokens[k]))
  }

  /**
   Fingerprint, after normalisation and tokenising: the vote of every token on 64 counters. It prints the word in
   which a bit is set iff the hashes of more than half of the tokens have it.
   */
  method FingerprintTokens(tokens: seq<string>, md5: string -> Word) returns (hex: string)
    ensures hex == Hex(SimHash(TokenHashes(tokens, md5)), 16)
    ensures exists fp: Word :: hex == Hex(fp, 16)
              && forall i: nat :: i < 64 ==>
                   (Bit(fp, i) <==> 2 * |Voters(tokens, md5, i)| > |tokens|)
  {
    TokensDecide(tokens, md5);
    ghost var hashes := TokenHashes(tokens, md5);
    var v := new int[64](_ => 0);
    for t := 0 to |tokens|
      invariant forall i :: 0 <= i < 64 ==> v[i] == Vote(hashes[..t], i)
    {
      var h := md5(tokens[t]);
      assert hashes[..t + 1][..t] == hashes[..t];
      for i := 0 to 64
        invariant forall j :: 0 <= j < i ==> v[j] == Vote(hashes[..t + 1], j)
        invariant forall j :: i <= j < 64 ==> v[j] == Vote(hashes[..t], j)
      {
        if Bit(h, i) {
          v[i] := v[i] + 1;
        } else {
          v[i] := v[i] - 1;
        }
      }
    }
    assert hashes[..|tokens|] == hashes;
    var fp := BuildFingerprint(v, hashes);
    hex := Hex(fp, 16);
  }

  /** The second loop of Fingerprint: or in the bits whose counter is positive. */
  method BuildFingerprint(v: array<int>, ghost hashes: seq<Word>) returns (fp: Word)
    requires v.Length == 64 && forall i :: 0 <= i < 64 ==> v[i] == Vote(hashes, i)
    ensures fp == SimHash(hashes)
  {
    var bits: nat := 0;
    ZeroWord();
    for i := 0 to 64
      invariant bits < Pow2(64)
      invariant forall j: nat :: j < 64 ==> (Bit(bits, j) <==> j < i && v[j] > 0)
    {
      if v[i] > 0 {
        forall j: nat { BitOfSetBit(bits, i, j); }
        SetBitBound(bits, i, 64);
        bits := SetBit(bits, i);
      }
    }
    forall i: nat | i < 64
      ensures Bit(bits, i) == Bit(SimHash(hashes), i)
    {
      SimHashBit(hashes, i);
    }
    WordIsBelowPow2(0);
    SameBitsSameWord(bits, SimHash(hashes), 64);
    fp := bits;
  }

  lemma ZeroWord()
    ensures forall j: nat :: !Bit(0, j)
  {
    forall j: nat { ZeroHasNoBits(j); }
  }

  lemma SimHashBit(hashes: seq<Word>, i: nat)
    requires i < 64
    ensures Bit(SimHash(hashes), i) <==> Vote(hashes, i) > 0
  {
    BitOfFromBits(seq(64, k requires 0 <= k < 64 => Vote(hashes, k) > 0), i);
  }

  // ------------------------------------------------------------------ strict majority

  /** The positions of the hashes in which bit i is set. */
  function Setters(hashes: seq<Word>, i: nat): set<nat> {
    set k: nat | k < |hashes| && Bit(hashes[k], i)
  }

  /** Bit i of the fingerprint is set iff a strict majority of the token hashes set it. */
  lemma MajorityDecidesEachBit(hashes: seq<Word>, i: nat)
    requires i < 64
    ensures Bit(SimHash(hashes), i) <==> 2 * |Setters(hashes, i)| > |hashes|
  {
    SimHashBit(hashes, i);
    VoteCountsSetters(hashes, i);
  }

  /** The positions of the tokens whose hash has bit i set. */
  function Voters(tokens: seq<string>, md5: string -> Word, i: nat): set<nat> {
    set k: nat | k < |tokens| && Bit(md5(tokens[k]), i)
  }

  /** So it is the tokens themselves that vote. */
  lemma TokensDecide(tokens: seq<string>, md5: string -> Word)
    ensures forall i: nat :: i < 64 ==>
              (Bit(SimHash(TokenHashes(tokens, md5)), i)
               <==> 2 * |Voters(tokens, md5, i)| > |tokens|)
  {
    var hashes := TokenHashes(tokens, md5);
    forall i: nat | i < 64
      ensures Bit(SimHash(hashes), i) <==> 2 * |Voters(tokens, md5, i)| > |tokens|
    {
      MajorityDecidesEachBit(hashes, i);
      assert Setters(hashes, i) == Voters(tokens, md5, i);
    }
  }

  lemma {:induction false} VoteCountsSetters(hashes: seq<Word>, i: nat)
    ensures Vote(hashes, i) == 2 * |Setters(hashes, i)| - |hashes|
  {
    if hashes == [] {
      assert Setters(hashes, i) == {};
    } else {
      var n := |hashes| - 1;
      VoteCountsSetters(hashes[..n], i);
      var last: set<nat> := if Bit(hashes[n], i) then {n} else {};
      assert Setters(hashes, i) == Setters(hashes[..n], i) + last;
    }
  }

  // ------------------------------------------------------------------ locality

  /** The number of tokens, with multiplicity, that occur in only one of the two lists. */
  ghost function TokenDistance<T>(a: seq<T>, b: seq<T>): int {
    |multiset(a) - multiset(b)| + |multiset(b) - multiset(a)|
  }

  lemma {:induction false} VoteOfSplit(a: seq<Word>, b: seq<Word>, i: nat)
    ensures Vote(a + b, i) == Vote(a, i) + Vote(b, i)
  {
    if b == [] {
      assert a + b == a;
    } else {
      var n := |b| - 1;
      assert (a + b)[..|a| + n] == a + b[..n];
      VoteOfSplit(a, b[..n], i);
    }
  }

  lemma {:induction false} VoteWithout(s: seq<Word>, k: nat, i: nat)
    requires k < |s|
    ensures Vote(s, i) == BitVote(s[k], i) + Vote(Without(s, k), i)
  {
    assert s == s[..k] + ([s[k]] + s[k + 1..]);
    VoteOfSplit(s[..k], [s[k]] + s[k + 1..], i);
    VoteOfSplit([s[k]], s[k + 1..], i);
    assert [s[k]][..0] == [];
    assert Vote([s[k]], i) == BitVote(s[k], i);
    VoteOfSplit(s[..k], s[k + 1..], i);
  }

  lemma CommonTokenKeepsDistance<T>(a: seq<T>, b: seq<T>, k: nat, l: nat)
    requires k < |a| && l < |b| && a[k] == b[l]
    ensures TokenDistance(a, b) == TokenDistance(Without(a, k), Without(b, l))
  {
    MultisetWithout(a, k);
    MultisetWithout(b, l);
    var x, p, q := a[k], multiset(Without(a, k)), multiset(Without(b, l));
    assert (p + multiset{x}) - (q + multiset{x}) == p - q;
    assert (q + multiset{x}) - (p + multiset{x}) == q - p;
  }

  lemma ExtraTokenAddsOne<T>(a: seq<T>, b: seq<T>, k: nat)
    requires k < |a| && a[k] !in b
    ensures TokenDistance(a, b) == TokenDistance(Without(a, k), b) + 1
  {
    MultisetWithout(a, k);
    var x, p, q := a[k], multiset(Without(a, k)), multiset(b);
    assert x !in q;
    assert (p + multiset{x}) - q == (p - q) + multiset{x};
    assert q - (p + multiset{x}) == q - p;
  }

  /** Every token in only one list moves each counter by at most one. */
  lemma {:induction false} VotesAreClose(a: seq<Word>, b: seq<Word>, i: nat)
    ensures -TokenDistance(a, b) <= Vote(a, i) - Vote(b, i) <= TokenDistance(a, b)
    decreases |a|
  {
    if a == [] {
      assert multiset(a) - multiset(b) == multiset{};
      assert multiset(b) - multiset(a) == multiset(b);
    } else {
      VoteWithout(a, 0, i);
      if a[0] in b {
        var k :| 0 <= k < |b| && b[k] == a[0];
        VoteWithout(b, k, i);
        CommonTokenKeepsDistance(a, b, 0, k);
        VotesAreClose(Without(a, 0), Without(b, k), i);
      } else {
        ExtraTokenAddsOne(a, b, 0);
        VotesAreClose(Without(a, 0), b, i);
      }
    }
  }

  /** The order of the token hashes does not matter. */
  lemma HashOrderIsIrrelevant(a: seq<Word>, b: seq<Word>)
    requires multiset(a) == multiset(b)
    ensures SimHash(a) == SimHash(b)
  {
    assert multiset(a) - multiset(b) == multiset{} && multiset(b) - multiset(a) == multiset{};
    forall i: nat | i < 64
      ensures Bit(SimHash(a), i) == Bit(SimHash(b), i)
    {
      VotesAreClose(a, b, i);
      SimHashBit(a, i);
      SimHashBit(b, i);
    }
    WordIsBelowPow2(0);
    SameBitsSameWord(SimHash(a), SimHash(b), 64);
  }

  /** The bits on which a's vote is close enough to a tie for d changed tokens to turn it. */
  function FragileBits(a: seq<Word>, d: int): set<nat> {
    set i: nat | i < 64 && -d < Vote(a, i) <= d
  }

  lemma HashesAreLocal(a: seq<Word>, b: seq<Word>)
    ensures DifferingBits(SimHash(a), SimHash(b), 64) <= FragileBits(a, TokenDistance(a, b))
  {
    forall i | i in DifferingBits(SimHash(a), SimHash(b), 64)
      ensures i in FragileBits(a, TokenDistance(a, b))
    {
      VotesAreClose(a, b, i);
      SimHashBit(a, i);
      SimHashBit(b, i);
    }
  }

  lemma OneTokenMovesDistanceByOne<T>(a: seq<T>, b: seq<T>, k: nat)
    requires k < |a|
    ensures TokenDistance(a, b) <= TokenDistance(Without(a, k), b) + 1
  {
    MultisetWithout(a, k);
    var x, p, q := a[k], multiset(Without(a, k)), multiset(b);
    SmallerMultiset((p + multiset{x}) - q, (p - q) + multiset{x});
    SmallerMultiset(q - (p + multiset{x}), q - p);
  }

  lemma SmallerMultiset<T>(s: multiset<T>, t: multiset<T>)
    requires s <= t
    ensures |s| <= |t|
  {
    assert t == s + (t - s);
  }

  lemma DistanceFromNothing<T>(b: seq<T>)
    ensures TokenDistance([], b) == |b|
  {
    var a: seq<T> := [];
    assert multiset(a) - multiset(b) == multiset{} && multiset(b) - multiset(a) == multiset(b);
  }

  lemma HashesWithout(tokens: seq<string>, k: nat, md5: string -> Word)
    requires k < |tokens|
    ensures TokenHashes(Without(tokens, k), md5) == Without(TokenHashes(tokens, md5), k)
  {
  }

  /** Hashing, even with collisions, brings token lists no further apart. */
  lemma {:induction false} HashingBringsCloser(a: seq<string>, b: seq<string>, md5: string -> Word)
    ensures TokenDistance(TokenHashes(a, md5), TokenHashes(b, md5)) <= TokenDistance(a, b)
    decreases |a|
  {
    hide TokenDistance;
    var x, y := TokenHashes(a, md5), TokenHashes(b, md5);
    if a == [] {
      DistanceFromNothing(b);
      DistanceFromNothing(y);
      assert x == [];
    } else {
      HashesWithout(a, 0, md5);
      if a[0] in b {
        var k :| 0 <= k < |b| && b[k] == a[0];
        assert x[0] == y[k];
        hide *;
        HashesWithout(b, k, md5);
        CommonTokenKeepsDistance(a, b, 0, k);
        CommonTokenKeepsDistance(x, y, 0, k);
        WithoutIsShorter(a, 0);
        HashingBringsCloser(Without(a, 0), Without(b, k), md5);
      } else {
        hide *;
        ExtraTokenAddsOne(a, b, 0);
        OneTokenMovesDistanceByOne(x, y, 0);
        WithoutIsShorter(a, 0);
        HashingBringsCloser(Without(a, 0), b, md5);
      }
    }
  }

  lemma WithoutIsShorter<T>(s: seq<T>, k: nat)
    requires k < |s|
    ensures |Without(s, k)| == |s| - 1
  {
  }

  /** Messages with the same tokens, in any order, have the same fingerprint. */
  lemma FingerprintIgnoresTokenOrder(a: seq<string>, b: seq<string>, md5: string -> Word)
    requires multiset(a) == multiset(b)
    ensures SimHash(TokenHashes(a, md5)) == SimHash(TokenHashes(b, md5))
  {
    var x, y := TokenHashes(a, md5), TokenHashes(b, md5);
    HashingBringsCloser(a, b, md5);
    assert multiset(a) - multiset(b) == multiset{} && multiset(b) - multiset(a) == multiset{};
    SameTokens(x, y);
    hide *;
    HashOrderIsIrrelevant(x, y);
  }

  lemma SameTokens<T>(a: seq<T>, b: seq<T>)
    requires TokenDistance(a, b) == 0
    ensures multiset(a) == multiset(b)
  {
    var p, q := multiset(a), multiset(b);
    assert p - q == multiset{} && q - p == multiset{};
    assert forall x :: p[x] == q[x] + (p - q)[x] - (q - p)[x];
  }

  /**
   Locality: when d tokens, with multiplicity, occur in only one of two messages, their fingerprints
   differ only in bits whose vote lies in (-d, d], and so in no more bits than that.
   */
  lemma SimHashIsLocal(a: seq<string>, b: seq<string>, md5: string -> Word)
    ensures var (x, y, d) := (TokenHashes(a, md5), TokenHashes(b, md5), TokenDistance(a, b));
            && DifferingBits(SimHash(x), SimHash(y), 64) <= FragileBits(x, d)
            && HammingDistance(SimHash(x), SimHash(y)) <= |FragileBits(x, d)|
  {
    var x, y, d := TokenHashes(a, md5), TokenHashes(b, md5), TokenDistance(a, b);
    HashingBringsCloser(a, b, md5);
    HashesAreLocal(x, y);
    FragileBitsGrow(x, TokenDistance(x, y), d);
    hide *;
    HammingCountsDifferingBits(SimHash(x), SimHash(y));
    SubsetSize(DifferingBits(SimHash(x), SimHash(y), 64), FragileBits(x, d));
  }

  lemma FragileBitsGrow(a: seq<Word>, small: int, large: int)
    requires small <= large
    ensures FragileBits(a, small) <= FragileBits(a, large)
  {
  }

  // ------------------------------------------------------------------ Hamming distance

  function HammingDistance(a: Word, b: Word): nat {
    OnesCount(Xor(a, b))
  }

  /** The XOR-and-popcount distance is the number of positions at which the words differ. */
  lemma HammingCountsDifferingBits(a: Word, b: Word)
    ensures HammingDistance(a, b) == |DifferingBits(a, b, 64)| <= 64
  {
    WordIsBelowPow2(0);
    OnesCountOfXor(a, b, 64);
    SubsetSize(DifferingBits(a, b, 64), NatsBelow(64));
  }

  /** HammingDistance is a metric on 64-bit words. */
  lemma HammingIsAMetric(a: Word, b: Word, c: Word)
    ensures HammingDistance(a, b) == 0 <==> a == b
    ensures HammingDistance(a, b) == HammingDistance(b, a)
    ensures HammingDistance(a, c) <= HammingDistance(a, b) + HammingDistance(b, c)
  {
    var ab, bc, ac := DifferingBits(a, b, 64), DifferingBits(b, c, 64), DifferingBits(a, c, 64);
    HammingCountsDifferingBits(a, b);
    HammingCountsDifferingBits(b, c);
    HammingCountsDifferingBits(a, c);
    HammingCountsDifferingBits(b, a);
    assert ab == DifferingBits(b, a, 64);
    SubsetSize(ac, ab + bc);
    if |ab| == 0 {
      forall i: nat | i < 64 ensures Bit(a, i) == Bit(b, i) {
        assert i !in ab;
      }
      WordIsBelowPow2(0);
      SameBitsSameWord(a, b, 64);
    } else {
      var i :| i in ab;
    }
  }

  // ------------------------------------------------------------------ parsing

  function HexValue(c: char): (r: Option<nat>)
    ensures r.Some? ==> r.value < 16
  {
    if '0' <= c <= '9' then Some((c - '0') as nat)
    else if 'a' <= c <= 'f' then Some((c - 'a') as nat + 10)
    else if 'A' <= c <= 'F' then Some((c - 'A') as nat + 10)
    else None
  }

  predicate IsHexChar(c: char) {
    HexValue(c).Some?
  }

  /** hex.DecodeString on a string of even length. */
  function DecodeHex(h: string): (r: Option<seq<Byte>>)
    requires |h| % 2 == 0
    ensures r.Some? ==> |r.value| == |h| / 2
  {
    if h == "" then Some([])
    else
      var n := |h| - 2;
      var front := DecodeHex(h[..n]);
      if front.Some? && IsHexChar(h[n]) && IsHexChar(h[n + 1]) then
        Some(front.value + [16 * HexValue(h[n]).value + HexValue(h[n + 1]).value])
      else
        None
  }

  /** binary.LittleEndian */
  function FromLittleEndian(bytes: seq<Byte>): nat {
    if bytes == [] then 0 else bytes[0] + 256 * FromLittleEndian(bytes[1..])
  }

  function Pow256(n: nat): nat {
    if n == 0 then 1 else 256 * Pow256(n - 1)
  }

  lemma {:induction false} LittleEndianBound(bytes: seq<Byte>)
    ensures FromLittleEndian(bytes) < Pow256(|bytes|)
  {
    if bytes != [] { LittleEndianBound(bytes[1..]); }
  }

  lemma EightBytesAreAWord(bytes: seq<Byte>)
    requires |bytes| == 8
    ensures FromLittleEndian(bytes) < TWO64
  {
    LittleEndianBound(bytes);
    assert Pow256(4) == 0x1_0000_0000;
    assert Pow256(6) == 0x1_0000_0000_0000;
    assert Pow256(8) == TWO64;
  }

  /** parseFingerprint; None is its error. */
  function ParseFingerprint(h: string): Option<Word> {
    if |h| != 16 then None
    else match DecodeHex(h)
      case None => None
      case Some(bytes) =>
        EightBytesAreAWord(bytes);
        Some(FromLittleEndian(bytes))
  }

  function Similarity(a: string, b: string): real {
    match (ParseFingerprint(a), ParseFingerprint(b))
    case (Some(ua), Some(ub)) => 1.0 - HammingDistance(ua, ub) as real / 64.0
    case _ => 0.0
  }

  /** The bytes of an n-byte value, most significant first: the order in which %016x prints them. */
  function BigEndianBytes(w: nat, n: nat): (bytes: seq<Byte>)
    ensures |bytes| == n
  {
    if n == 0 then [] else BigEndianBytes(w / 256, n - 1) + [w % 256]
  }

  lemma {:induction false} DecodeOfPrint(w: nat, n: nat)
    ensures DecodeHex(Hex(w, 2 * n)) == Some(BigEndianBytes(w, n))
  {
    if n > 0 {
      hide *;
      DecodeOfPrint(w / 256, n - 1);
      DecodeOneMoreByte(w, n);
    }
  }

  lemma DecodeOneMoreByte(w: nat, n: nat)
    requires n > 0 && DecodeHex(Hex(w / 256, 2 * n - 2)) == Some(BigEndianBytes(w / 256, n - 1))
    ensures DecodeHex(Hex(w, 2 * n)) == Some(BigEndianBytes(w, n))
  {
    hide *;
    BytesUnfold(w, n);
    HexLastByte(w, 2 * n - 2);
    DecodeLastByte(Hex(w, 2 * n), w / 16 % 16, w % 16);
    TwoNibbles(w);
  }

  lemma BytesUnfold(w: nat, n: nat)
    requires n > 0
    ensures BigEndianBytes(w, n) == BigEndianBytes(w / 256, n - 1) + [w % 256]
  {
  }

  lemma TwoNibbles(w: nat)
    ensures 16 * (w / 16 % 16) + w % 16 == w % 256
  {
  }

  lemma {:induction false} DecodeLastByte(h: string, x: nat, y: nat)
    requires |h| % 2 == 0 && |h| >= 2 && x < 16 && y < 16
    requires h[|h| - 2] == HexDigit(x) && h[|h| - 1] == HexDigit(y)
    ensures match DecodeHex(h[..|h| - 2])
            case Some(front) => DecodeHex(h) == Some(front + [16 * x + y])
            case None => DecodeHex(h) == None
  {
    HexDigitValue(x);
    HexDigitValue(y);
    hide HexDigit;
    hide HexValue;
  }

  lemma {:induction false} HexLastByte(w: nat, n: nat)
    ensures var h := Hex(w, n + 2);
            h[..n] == Hex(w / 256, n) && h[n] == HexDigit(w / 16 % 16) && h[n + 1] == HexDigit(w % 16)
  {
    var h := Hex(w, n + 2);
    assert h[..n + 1] == Hex(w / 16, n + 1);
    assert h[..n + 1][..n] == h[..n] && h[..n + 1][n] == h[n];
    assert w / 16 / 16 == w / 256;
  }

  lemma HexDigitValue(d: nat)
    requires d < 16
    ensures HexValue(HexDigit(d)) == Some(d)
  {
  }

  /** The word whose bytes are those of w in the opposite order. */
  function ByteReversed(w: Word): Word {
    EightBytesAreAWord(BigEndianBytes(w, 8));
    FromLittleEndian(BigEndianBytes(w, 8))
  }

  /** The position that bit i takes when the eight bytes of a word are put in the opposite order. */
  function Mirror(i: nat): nat
    requires i < 64
  {
    8 * (7 - i / 8) + i % 8
  }

  lemma ParseOfPrint(w: Word)
    ensures ParseFingerprint(Hex(w, 16)) == Some(ByteReversed(w))
  {
    DecodeOfPrint(w, 8);
    hide DecodeHex;
    hide FromLittleEndian;
    hide BigEndianBytes;
    hide Hex;
  }

  lemma BitOfReversed(w: Word, k: nat, j: nat)
    requires k < 8 && j < 8
    ensures Bit(ByteReversed(w), 8 * k + j) <==> Bit(w, 8 * (7 - k) + j)
  {
    hide FromLittleEndian;
    hide BigEndianBytes;
    hide Bit;
    BitOfLittleEndian(BigEndianBytes(w, 8), k, j);
    BitOfBigEndian(w, 8, k, j);
  }

  /** Parsing a printed fingerprint yields its byte reversal. */
  lemma ParseOfPrintReversesBytes(w: Word, i: nat)
    requires i < 64
    ensures ParseFingerprint(Hex(w, 16)) == Some(ByteReversed(w))
    ensures Bit(ByteReversed(w), i) <==> Bit(w, Mirror(i))
  {
    hide Bit;
    hide ByteReversed;
    hide ParseFingerprint;
    hide Hex;
    ParseOfPrint(w);
    BitOfReversed(w, i / 8, i % 8);
  }

  /** ... so parse undoes print exactly on the words whose bytes read the same both ways. */
  lemma ParseUndoesPrintOnlyOnPalindromes(w: Word)
    ensures ParseFingerprint(Hex(w, 16)) == Some(w) <==> forall i: nat :: i < 64 ==> Bit(w, i) == Bit(w, Mirror(i))
  {
    forall i: nat | i < 64
      ensures Bit(ByteReversed(w), i) <==> Bit(w, Mirror(i))
    {
      ParseOfPrintReversesBytes(w, i);
    }
    ParseOfPrintReversesBytes(w, 0);
    if forall i: nat :: i < 64 ==> Bit(w, i) == Bit(w, Mirror(i)) {
      WordIsBelowPow2(0);
      SameBitsSameWord(ByteReversed(w), w, 64);
    }
  }

  lemma BitOfByteSum(x: Byte, a: nat, i: nat)
    ensures Bit(x + 256 * a, i) <==> if i < 8 then Bit(x, i) else Bit(a, i - 8)
  {
    assert Pow2(8) == 256;
    ShlByte(a);
    BitOfShiftedSum(8, x, a, i);
  }

  lemma {:induction false} BitOfLittleEndian(bytes: seq<Byte>, k: nat, j: nat)
    requires k < |bytes| && j < 8
    ensures Bit(FromLittleEndian(bytes), 8 * k + j) == Bit(bytes[k], j)
  {
    BitOfByteSum(bytes[0], FromLittleEndian(bytes[1..]), 8 * k + j);
    if k > 0 { BitOfLittleEndian(bytes[1..], k - 1, j); }
  }

  lemma {:induction false} BitOfBigEndian(w: nat, n: nat, k: nat, j: nat)
    requires k < n && j < 8
    ensures Bit(BigEndianBytes(w, n)[k], j) == Bit(w, 8 * (n - 1 - k) + j)
  {
    assert w == w % 256 + 256 * (w / 256);
    BitOfByteSum(w % 256, w / 256, 8 * (n - 1 - k) + j);
    if k < n - 1 { BitOfBigEndian(w / 256, n - 1, k, j); }
  }

  // ------------------------------------------------------------------ similarity of printed fingerprints

  lemma {:induction false} BytewiseDistance(xs: seq<Byte>, ys: seq<Byte>, a: nat, b: nat)
    requires |xs| == |ys|
    requires xs == BigEndianBytes(a, |xs|) && ys == BigEndianBytes(b, |xs|)
    requires a < Pow256(|xs|) && b < Pow256(|xs|)
    ensures OnesCount(Xor(FromLittleEndian(xs), FromLittleEndian(ys))) == OnesCount(Xor(a, b))
  {
    LittleEndianDistance(xs, ys);
    BigEndianDistance(a, b, |xs|);
  }

  function SumOfDistances(xs: seq<Byte>, ys: seq<Byte>): nat
    requires |xs| == |ys|
  {
    if xs == [] then 0 else OnesCount(Xor(xs[0], ys[0])) + SumOfDistances(xs[1..], ys[1..])
  }

  lemma {:induction false} LittleEndianDistance(xs: seq<Byte>, ys: seq<Byte>)
    requires |xs| == |ys|
    ensures OnesCount(Xor(FromLittleEndian(xs), FromLittleEndian(ys))) == SumOfDistances(xs, ys)
  {
    if xs != [] {
      LittleEndianDistance(xs[1..], ys[1..]);
      XorCountSplitsAtByte(xs[0], ys[0], FromLittleEndian(xs[1..]), FromLittleEndian(ys[1..]));
    }
  }

  lemma {:induction false} SumOfDistancesAppend(xs: seq<Byte>, ys: seq<Byte>, x: Byte, y: Byte)
    requires |xs| == |ys|
    ensures SumOfDistances(xs + [x], ys + [y]) == SumOfDistances(xs, ys) + OnesCount(Xor(x, y))
  {
    if xs != [] {
      assert (xs + [x])[1..] == xs[1..] + [x] && (ys + [y])[1..] == ys[1..] + [y];
      SumOfDistancesAppend(xs[1..], ys[1..], x, y);
    }
  }

  lemma {:induction false} BigEndianDistance(a: nat, b: nat, n: nat)
    requires a < Pow256(n) && b < Pow256(n)
    ensures OnesCount(Xor(a, b)) == SumOfDistances(BigEndianBytes(a, n), BigEndianBytes(b, n))
  {
    if n > 0 {
      BigEndianDistance(a / 256, b / 256, n - 1);
      SumOfDistancesAppend(BigEndianBytes(a / 256, n - 1), BigEndianBytes(b / 256, n - 1), a % 256, b % 256);
      XorCountSplitsAtByte(a % 256, b % 256, a / 256, b / 256);
      assert a == a % 256 + 256 * (a / 256) && b == b % 256 + 256 * (b / 256);
    }
  }

  /** Parsing reverses the bytes of both words, which keeps their distance. */
  lemma DistanceOfPrinted(a: Word, b: Word)
    ensures var (p, q) := (ParseFingerprint(Hex(a, 16)), ParseFingerprint(Hex(b, 16)));
            p.Some? && q.Some? && HammingDistance(p.value, q.value) == HammingDistance(a, b)
  {
    DecodeOfPrint(a, 8);
    DecodeOfPrint(b, 8);
    WordIsBelowPow256();
    BytewiseDistance(BigEndianBytes(a, 8), BigEndianBytes(b, 8), a, b);
  }

  /**
   Although parsing reverses the bytes, the similarity of two printed fingerprints is one minus the
   fraction of bits at which the words differ, and it is one only for equal words.
   */
  lemma SimilarityOfPrinted(a: Word, b: Word)
    ensures Similarity(Hex(a, 16), Hex(b, 16)) == 1.0 - |DifferingBits(a, b, 64)| as real / 64.0
    ensures Similarity(Hex(a, 16), Hex(b, 16)) == 1.0 <==> a == b
  {
    hide Hex;
    hide ParseFingerprint;
    hide HammingDistance;
    DistanceOfPrinted(a, b);
    HammingCountsDifferingBits(a, b);
    HammingIsAMetric(a, b, b);
  }

  lemma WordIsBelowPow256()
    ensures Pow256(8) == TWO64
  {
    assert Pow256(4) == 0x1_0000_0000;
    assert Pow256(6) == 0x1_0000_0000_0000;
  }

  /** parseFingerprint accepts exactly the strings of sixteen hexadecimal digits, of either case. */
  lemma ParseAcceptsSixteenHexDigits(h: string)
    ensures ParseFingerprint(h).Some? <==> |h| == 16 && forall c :: c in h ==> IsHexChar(c)
    ensures ParseFingerprint(h).None? ==> forall other :: Similarity(h, other) == Similarity(other, h) == 0.0
  {
    if |h| == 16 { DecodeAcceptsHexDigits(h); }
  }

  lemma {:induction false} DecodeAcceptsHexDigits(h: string)
    requires |h| % 2 == 0
    ensures DecodeHex(h).Some? <==> forall c :: c in h ==> IsHexChar(c)
  {
    if h != "" {
      var n := |h| - 2;
      DecodeAcceptsHexDigits(h[..n]);
      assert h == h[..n] + [h[n], h[n + 1]];
      assert h[n] in h && h[n + 1] in h;
    }
  }
}
