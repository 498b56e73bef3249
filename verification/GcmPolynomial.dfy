/**
 * What AES-GCM computes, spelled out: every byte of the ciphertext, and the tag as a polynomial in the hash key
 * over the field of section 6.3 of NIST SP 800-38D.
 */
module GcmPolynomial {
  import opened Bytes
  import opened GhashField
  import opened GhashTable
  import opened GcmSpec
  import opened Gcm
  import opened GcmRuns
  import opened GcmStandard

  /** The k-th power of a field element. */
  function PowerOf(h: Elem, k: nat): Elem
    requires k > 0
  {
    if k == 1 then h else Product(PowerOf(h, k - 1), h)
  }

  function BlockAt(s: seq<byte>, i: nat): Block
    requires 16 * i + 16 <= |s|
  {
    s[16 * i..16 * i + 16]
  }

  /** The first k blocks of s, block i times h to the power n - i, added up. */
  function Sum(s: seq<byte>, h: Elem, n: nat, k: nat): Elem
    requires 16 * k <= |s| && k <= n
    decreases k
  {
    if k == 0 then ZERO else Add(Sum(s, h, n, k - 1), Product(Bits(BlockAt(s, k - 1)), PowerOf(h, n - (k - 1))))
  }

  /** The polynomial of a string of whole blocks: the last times h, the one before it times h squared, and so on. */
  function Polynomial(s: seq<byte>, h: Elem): Elem
    requires |s| % 16 == 0
  {
    Sum(s, h, |s| / 16, |s| / 16)
  }

  // ------------------------------------------------------------ Horner's rule

  lemma {:induction false} SumTimes(s: seq<byte>, h: Elem, n: nat, k: nat)
    requires 16 * k <= |s| && k <= n
    ensures Product(Sum(s, h, n, k), h) == Sum(s, h, n + 1, k)
    decreases k
  {
    hide Product, Add, Bits;
    if k == 0 {
      ProductZero(h);
    } else {
      var b, p := Bits(BlockAt(s, k - 1)), PowerOf(h, n - (k - 1));
      SumTimes(s, h, n, k - 1);
      ProductSum(Sum(s, h, n, k - 1), Product(b, p), h);
      ProductAssoc(b, p, h);
      assert PowerOf(h, n + 1 - (k - 1)) == Product(p, h);
    }
  }

  lemma {:induction false} SumPrefix(t: seq<byte>, s: seq<byte>, h: Elem, n: nat, k: nat)
    requires t <= s && 16 * k <= |t| && k <= n
    ensures Sum(s, h, n, k) == Sum(t, h, n, k)
    decreases k
  {
    hide Product, Add, Bits, PowerOf;
    if k > 0 {
      SumPrefix(t, s, h, n, k - 1);
      assert BlockAt(s, k - 1) == BlockAt(t, k - 1);
    }
  }

  /** GHASH under the key of the block function is the polynomial. */
  lemma {:induction false} GhashIsPolynomial(key: Block, s: seq<byte>)
    requires |s| % 16 == 0
    ensures Bits(Ghash(TimesKey(key), ZERO_BLOCK, s)) == Polynomial(s, Bits(key))
    decreases |s|
  {
    hide Bits, Ghash, TimesKey, Polynomial;
    var m := TimesKey(key);
    if s == [] {
      GhashEmpty(m, ZERO_BLOCK);
      ZeroBits();
      NoTerms(Bits(key));
    } else {
      var t := s[..|s| - 16];
      var b: Block := s[|s| - 16..];
      SameRem(|s|, |t|, 16, 1);
      assert s == t + b;
      GhashIsPolynomial(key, t);
      GhashAppend(m, ZERO_BLOCK, t, b);
      HashedOnce(key, Ghash(m, ZERO_BLOCK, t), b);
      PolynomialMore(t, b, s, Bits(key));
    }
  }

  lemma NoTerms(h: Elem)
    ensures Polynomial([], h) == ZERO
  {
  }

  /** One more block: add it and multiply by the key. */
  lemma HashedOnce(key: Block, y: Block, b: Block)
    ensures Bits(Ghash(TimesKey(key), y, b)) == Product(Add(Bits(y), Bits(b)), Bits(key))
  {
    hide Bits, Ghash, Product, Add, BlockProduct, Xor;
    GhashBlock(TimesKey(key), y, b);
    BlockProductBits(Xor(y, b), key, ZERO);
    BitsXor(y, b);
  }

  lemma PolynomialMore(t: seq<byte>, b: Block, s: seq<byte>, h: Elem)
    requires |t| % 16 == 0 && |s| % 16 == 0 && s == t + b
    ensures Polynomial(s, h) == Product(Add(Polynomial(t, h), Bits(b)), h)
  {
    hide Bits, Product, Add, Sum;
    var n := |t| / 16;
    SameRem(|s|, |t|, 16, 1);
    ProductSum(Polynomial(t, h), Bits(b), h);
    SumTimes(t, h, n, n);
    SumPrefix(t, s, h, n + 1, n);
    LastTerm(s, b, h, n + 1);
  }

  lemma LastTerm(s: seq<byte>, b: Block, h: Elem, n: nat)
    requires |s| == 16 * n && n > 0 && b == s[|s| - 16..]
    ensures Sum(s, h, n, n) == Add(Sum(s, h, n, n - 1), Product(Bits(b), h))
  {
    hide Product, Add, Bits;
    assert BlockAt(s, n - 1) == b;
  }

  lemma ZeroBits()
    ensures Bits(ZERO_BLOCK) == ZERO
  {
    forall n | 0 <= n < 128
      ensures !Bits(ZERO_BLOCK)[n]
    {
      assert ZERO_BLOCK[n / 8] == 0;
    }
  }

  // ------------------------------------------------------------- the counter

  /** The block with its last four bytes counted up by n. */
  function Counted32(b: Block, n: nat): Block {
    hide Be, BeNat;
    b[..12] + Be((BeNat(b[12..]) + n) % U32, 4)
  }

  /** The block counted up by n as a whole. */
  function Counted128(b: Block, n: nat): Block {
    hide Be, BeNat;
    Be((BeNat(b) + n) % U128, 16)
  }

  lemma {:induction false} Inc32ByIs(b: Block, n: nat)
    ensures Inc32By(b, n) == Counted32(b, n)
    decreases n
  {
    hide Be, BeNat;
    Powers256();
    if n == 0 {
      BeNatBound(b[12..]);
      BeOfBeNat(b[12..]);
    } else {
      Inc32ByIs(b, n - 1);
      var v := BeNat(b[12..]) + (n - 1);
      BeNatOfBe(v % U32, 4);
      SameRem(v + 1, v % U32 + 1, U32, v / U32);
      var p := Inc32By(b, n - 1);
      assert p[..12] == b[..12] && p[12..] == Be(v % U32, 4);
    }
  }

  /** The counter as one number. */
  function CtrNumber(c: Ctr): nat {
    c.hi * U64 + c.lo
  }

  lemma CtrBlockIs(c: Ctr)
    requires Ranged(c)
    ensures CtrBlock(c) == Be(CtrNumber(c), 16) && CtrNumber(c) < U128 && BeNat(CtrBlock(c)) == CtrNumber(c)
  {
    hide Be, BeNat, Power;
    Powers256();
    BeSplit(c.hi, c.lo, 8, 8);
    NumberFits(c.hi, c.lo);
    BeNatOfBe(CtrNumber(c), 16);
  }

  lemma NumberFits(hi: nat, lo: nat)
    requires hi < U64 && lo < U64
    ensures hi * U64 + lo < U128
  {
  }

  lemma IncNumber(c: Ctr)
    requires Ranged(c)
    ensures Ranged(IncCtr(c)) && CtrNumber(IncCtr(c)) == (CtrNumber(c) + 1) % U128
  {
    NumberFits(c.hi, c.lo);
    if c.lo + 1 == U64 && c.hi + 1 == U64 {
      assert CtrNumber(c) + 1 == U128;
    } else {
      NumberFits(IncCtr(c).hi, IncCtr(c).lo);
    }
  }

  lemma CountOn(v: nat)
    ensures (v % U128 + 1) % U128 == (v + 1) % U128
  {
    SameRem(v + 1, v % U128 + 1, U128, v / U128);
  }

  lemma CtrFits(c: Ctr)
    requires Ranged(c)
    ensures CtrNumber(c) % U128 == CtrNumber(c)
  {
    NumberFits(c.hi, c.lo);
  }

  lemma {:induction false} IncByNumber(c: Ctr, n: nat)
    requires Ranged(c)
    ensures Ranged(IncBy(c, n)) && CtrNumber(IncBy(c, n)) == (CtrNumber(c) + n) % U128
    decreases n
  {
    hide IncCtr, CtrNumber, Ranged;
    if n == 0 {
      CtrFits(c);
    } else {
      var d := IncBy(c, n - 1);
      IncByNumber(c, n - 1);
      IncNumber(d);
      CountOn(CtrNumber(c) + (n - 1));
      assert IncBy(c, n) == IncCtr(d);
    }
  }

  // ----------------------------------------------------------- the statements

  /** The string that the tag authenticates: both parts padded with zeros, and two 64-bit lengths. */
  function Hashed(a: seq<byte>, c: seq<byte>, aLen: nat, cLen: nat): (r: seq<byte>)
    ensures |r| % 16 == 0
  {
    hide PadZero, Be;
    SixteenMore(PadZero(a), PadZero(c), Be(aLen, 8), Be(cLen, 8));
    PadZero(a) + PadZero(c) + Be(aLen, 8) + Be(cLen, 8)
  }

  lemma SixteenMore(a: seq<byte>, b: seq<byte>, c: seq<byte>, d: seq<byte>)
    requires |a| % 16 == 0 && |b| % 16 == 0 && |c| == |d| == 8
    ensures |a + b + c + d| % 16 == 0
  {
    SameRem(|a + b + c + d|, 0, 16, |a| / 16 + |b| / 16 + 1);
  }

  /** The pre-counter block of a nonce, its bit length being nLen. */
  ghost predicate IsPreCounter(h: Elem, nonce: seq<byte>, nLen: nat, j0: Block) {
    if |nonce| == 12 then j0 == nonce + [0, 0, 0, 1]
    else Bits(j0) == Polynomial(HashedNonce(nonce, nLen), h)
  }

  /** What such a nonce is hashed as: padded with zeros, 64 zero bits, and its length in 64 bits. */
  function HashedNonce(nonce: seq<byte>, nLen: nat): (r: seq<byte>)
    ensures |r| % 16 == 0
  {
    hide PadZero, Be;
    SixteenMore(PadZero(nonce), [], Zeros(8), Be(nLen, 8));
    assert PadZero(nonce) + [] == PadZero(nonce);
    PadZero(nonce) + Zeros(8) + Be(nLen, 8)
  }

  /** The length block of a nonce begins with zeros. */
  lemma NonceHashed(nonce: seq<byte>, nLen: nat)
    ensures PadZero(nonce) + (Be(0, 8) + Be(nLen, 8)) == HashedNonce(nonce, nLen)
  {
    hide PadZero, Be;
    ZeroBe8();
    ConcatAssoc3(PadZero(nonce), Be(0, 8), Be(nLen, 8));
  }

  lemma ZeroBe8()
    ensures Be(0, 8) == Zeros(8)
  {
    ZeroBe();
    assert Be(0, 5) == Zeros(5) && Be(0, 6) == Zeros(6) && Be(0, 7) == Zeros(7);
  }

  /** Section 7.1 of NIST SP 800-38D, byte by byte and as a polynomial in the hash key. */
  lemma StandardSpelledOut(e: BlockFun, iv: seq<byte>, a: seq<byte>, p: seq<byte>, c: seq<byte>) returns (j0: Block)
    ensures IsPreCounter(Bits(e(Zeros(16))), iv, 8 * |iv|, j0)
    ensures forall k :: 0 <= k < |p| ==>
      Encrypt(e, iv, p)[k] == XorByte(p[k], e(Counted32(j0, 1 + k / 16))[k % 16])
    ensures Bits(Tag(e, iv, a, c)) ==
            Add(Bits(e(j0)), Polynomial(Hashed(a, c, 8 * |a|, 8 * |c|), Bits(e(Zeros(16)))))
  {
    hide Bits, Be, BeNat, Ghash, PadZero, Polynomial, Product, Gctr, Inc32, XorByte, Add, Xor, TimesKey;
    var key := e(ZERO_BLOCK);
    var m := TimesKey(key);
    j0 := PreCounter(m, iv);
    if |iv| != 12 {
      GhashIsPolynomial(key, PadZero(iv) + LengthBlock(0, |iv|));
      NonceHashed(iv, 8 * |iv|);
    }
    forall k | 0 <= k < |p|
      ensures Encrypt(e, iv, p)[k] == XorByte(p[k], e(Counted32(j0, 1 + k / 16))[k % 16])
    {
      GctrAt(e, Inc32(j0), p, k);
      Inc32ByLater(j0, k / 16);
      Inc32ByIs(j0, k / 16 + 1);
    }
    var s := PadZero(a) + PadZero(c) + LengthBlock(|a|, |c|);
    ConcatAssoc3(PadZero(a) + PadZero(c), Be(8 * |a|, 8), Be(8 * |c|, 8));
    GhashIsPolynomial(key, s);
    OneBlockGctr(e, j0, Ghash(m, ZERO_BLOCK, s));
    AddComm(Bits(e(j0)), Bits(Ghash(m, ZERO_BLOCK, s)));
  }

  lemma ConcatAssoc3(a: seq<byte>, b: seq<byte>, c: seq<byte>)
    ensures a + (b + c) == a + b + c
  {
  }

  lemma OneBlockGctr(e: BlockFun, j0: Block, s: Block)
    ensures Bits(Gctr(e, j0, s)) == Add(Bits(s), Bits(e(j0)))
  {
    hide Bits, Xor, Add;
    assert e(j0)[..16] == e(j0);
    BitsXor(s, e(j0));
  }

  /** What the code computes for every nonce and every length: a 128-bit counter, and bit lengths modulo 2^32. */
  lemma CodeSpelledOut(e: BlockFun, nonce: seq<byte>, a: seq<byte>, p: seq<byte>, c: seq<byte>) returns (j0: Block)
    ensures IsPreCounter(Bits(e(Zeros(16))), nonce, 8 * |nonce| % U32, j0)
    ensures forall k :: 0 <= k < |p| ==>
      CodeCipher(e, nonce, p)[k] == XorByte(p[k], e(Counted128(j0, 1 + k / 16))[k % 16])
    ensures Bits(CodeTag(e, nonce, a, c)) ==
            Add(Bits(e(j0)), Polynomial(Hashed(a, c, 8 * |a| % U32, 8 * |c| % U32), Bits(e(Zeros(16)))))
  {
    hide Bits, Be, BeNat, Ghash, PadZero, Polynomial, Product, XorByte, Add, Xor, TimesKey, IncCtr, CtrOf, CtrBlock,
         CodePreCounter, KeyStream;
    var j := CodePreCounter(e, nonce);
    j0 := CtrBlock(j);
    CodeStart(e, nonce);
    forall k | 0 <= k < |p|
      ensures CodeCipher(e, nonce, p)[k] == XorByte(p[k], e(Counted128(j0, 1 + k / 16))[k % 16])
    {
      CodeByte(e, j, p, k);
    }
    CodeTagIs(e, nonce, a, c, j0);
  }

  lemma CodeStart(e: BlockFun, nonce: seq<byte>)
    ensures Ranged(CodePreCounter(e, nonce))
    ensures IsPreCounter(Bits(e(Zeros(16))), nonce, 8 * |nonce| % U32, CtrBlock(CodePreCounter(e, nonce)))
  {
    hide Bits, Be, BeNat, Ghash, PadZero, Polynomial, Product, TimesKey, IncCtr, CtrOf, CtrBlock;
    if |nonce| == 12 {
      PreCounterAgrees(e, nonce);
    } else {
      var s := PadZero(nonce) + CodeLengthBlock(0, |nonce|);
      var key := e(ZERO_BLOCK);
      BlockOfCtr(Ghash(TimesKey(key), ZERO_BLOCK, s));
      GhashIsPolynomial(key, s);
      NonceHashed(nonce, 8 * |nonce| % U32);
    }
  }

  lemma CodeByte(e: BlockFun, j: Ctr, p: seq<byte>, k: nat)
    requires Ranged(j) && k < |p|
    ensures Xor(p, KeyStream(e, IncCtr(j), 0, |p|))[k] ==
            XorByte(p[k], e(Counted128(CtrBlock(j), 1 + k / 16))[k % 16])
  {
    hide Be, BeNat, XorByte, CtrBlock, IncCtr, CtrNumber;
    CtrBlockIs(j);
    IncByLater(j, k / 16);
    IncByNumber(j, k / 16 + 1);
    CtrBlockIs(IncBy(j, k / 16 + 1));
    assert KeyStream(e, IncCtr(j), 0, |p|)[k] == KeyByte(e, IncCtr(j), k);
  }

  lemma CodeHashed(a: seq<byte>, c: seq<byte>)
    ensures PadZero(PadZero(a) + c) + CodeLengthBlock(|a|, |c|) == Hashed(a, c, 8 * |a| % U32, 8 * |c| % U32)
  {
    hide PadZero, Be;
    PadZeroTwice(a, c);
    ConcatAssoc3(PadZero(a) + PadZero(c), Be(8 * |a| % U32, 8), Be(8 * |c| % U32, 8));
  }

  lemma CodeTagIs(e: BlockFun, nonce: seq<byte>, a: seq<byte>, c: seq<byte>, j0: Block)
    requires j0 == CtrBlock(CodePreCounter(e, nonce))
    ensures Bits(CodeTag(e, nonce, a, c)) ==
            Add(Bits(e(j0)), Polynomial(Hashed(a, c, 8 * |a| % U32, 8 * |c| % U32), Bits(e(Zeros(16)))))
  {
    hide Bits, Ghash, PadZero, Polynomial, Product, Add, Xor, TimesKey, CtrBlock, CodePreCounter, Hashed,
         CodeLengthBlock;
    var key := e(ZERO_BLOCK);
    var s := Hashed(a, c, 8 * |a| % U32, 8 * |c| % U32);
    CodeHashed(a, c);
    GhashIsPolynomial(key, s);
    BitsXor(e(j0), Ghash(TimesKey(key), ZERO_BLOCK, s));
  }

  /** c and the tag are those of the message: every byte with its counter, the tag cut from the masked polynomial. */
  ghost predicate IsEncryption(e: BlockFun, j0: Block, a: seq<byte>, p: seq<byte>, c: seq<byte>, tag: seq<byte>) {
    && |c| == |p| && |tag| <= 16
    && (forall k :: 0 <= k < |p| ==> c[k] == XorByte(p[k], e(Counted128(j0, 1 + k / 16))[k % 16]))
    && Bits(tag) == Add(Bits(e(j0)), Polynomial(Hashed(a, c, 8 * |a| % U32, 8 * |c| % U32),
                                                Bits(e(Zeros(16)))))[..8 * |tag|]
  }

  /** An encryption cut up in any way, spelled out. */
  method EncryptedBytes(e: BlockFun, tableBased: bool, nonce: seq<byte>, aads: seq<Piece>, parts: seq<seq<byte>>,
                        last: seq<byte>, tagLen: nat) returns (c: seq<byte>, tag: seq<byte>)
    requires tagLen <= 16
    ensures |c| == |Flatten(parts) + last| && |tag| == tagLen
    ensures exists j0: Block ::
      && IsPreCounter(Bits(e(Zeros(16))), nonce, 8 * |nonce| % U32, j0)
      && IsEncryption(e, j0, Joined(aads), Flatten(parts) + last, c, tag)
  {
    hide Bits, Be, BeNat, Polynomial, XorByte, Add, CodeCipher, CodeTag, Joined, Flatten, IsPreCounter, Hashed;
    c, tag := EncryptRun(e, tableBased, nonce, aads, parts, last, tagLen);
    ghost var j0 := CodeSpelledOut(e, nonce, Joined(aads), Flatten(parts) + last, c);
    BitsPrefix(CodeTag(e, nonce, Joined(aads), c), tagLen);
    assert IsEncryption(e, j0, Joined(aads), Flatten(parts) + last, c, tag);
  }

  lemma BitsPrefix(b: Block, n: nat)
    requires n <= 16
    ensures Bits(b[..n]) == Bits(b)[..8 * n]
  {
    hide Bit;
  }
}
