/**
 * Where the code's AES-GCM and NIST SP 800-38D agree: the code counts with 128 bits
 * where the standard counts with 32, and takes bit lengths modulo 2^32.
 */
module GcmStandard {
  import opened Bytes
  import opened GhashTable
  import opened GcmSpec
  import opened Gcm
  import opened GcmRuns

  const LIMIT: nat := 0x2000_0000

  /** The words of a counter are 64-bit integers. */
  ghost predicate Ranged(c: Ctr) {
    c.hi < U64 && c.lo < U64
  }

  lemma SplitLow(lo: nat)
    ensures Be(lo, 8) == Be(lo / U32, 4) + Be(lo % U32, 4)
  {
    hide Be, Power;
    Powers256();
    BeSplit(lo / U32, lo % U32, 4, 4);
  }

  lemma BlockOfCtr(b: Block)
    ensures CtrBlock(CtrOf(b)) == b && Ranged(CtrOf(b))
  {
    hide Be, BeNat;
    BeOfBeNat(b[..8]);
    BeOfBeNat(b[8..]);
    BeNatBound(b[..8]);
    BeNatBound(b[8..]);
    Powers256();
  }

  lemma BeInjective(a: nat, b: nat)
    requires a < U32 && b < U32 && Be(a, 4) == Be(b, 4)
    ensures a == b
  {
    hide Be, BeNat;
    Powers256();
    BeNatOfBe(a, 4);
    BeNatOfBe(b, 4);
  }

  lemma Inc32Of(c: Ctr)
    requires Ranged(c)
    ensures Inc32(CtrBlock(c)) == Be(c.hi, 8) + Be(c.lo / U32, 4) + Be((c.lo % U32 + 1) % U32, 4)
  {
    hide Be, BeNat;
    SplitLow(c.lo);
    Powers256();
    BeNatOfBe(c.lo % U32, 4);
    var b := CtrBlock(c);
    assert b[..12] == Be(c.hi, 8) + Be(c.lo / U32, 4) && b[12..] == Be(c.lo % U32, 4);
  }

  /** The code's increment is inc32 exactly when the last 32 bits do not run over. */
  lemma IncrementAgrees(c: Ctr)
    requires Ranged(c)
    ensures CtrBlock(IncCtr(c)) == Inc32(CtrBlock(c)) <==> c.lo % U32 != U32 - 1
  {
    hide Be, BeNat, Inc32, IncCtr, CtrBlock;
    Inc32Of(c);
    var d := IncCtr(c);
    CtrBlockParts(d);
    IncrementWords(c);
    if c.lo % U32 == U32 - 1 && CtrBlock(d) == Inc32(CtrBlock(c)) {
      MiddleWord(Be(d.hi, 8), Be(d.lo / U32, 4), Be(d.lo % U32, 4), Be(c.hi, 8), Be(c.lo / U32, 4), Be(0, 4));
      BeInjective(d.lo / U32, c.lo / U32);
    }
  }

  lemma CtrBlockParts(c: Ctr)
    ensures CtrBlock(c) == Be(c.hi, 8) + Be(c.lo / U32, 4) + Be(c.lo % U32, 4)
  {
    hide Be;
    SplitLow(c.lo);
  }

  lemma MiddleWord(a: seq<byte>, b: seq<byte>, c: seq<byte>, a': seq<byte>, b': seq<byte>, c': seq<byte>)
    requires |a| == |a'| == 8 && |b| == |b'| == 4 && a + b + c == a' + b' + c'
    ensures b == b'
  {
    assert (a + b + c)[8..12] == b && (a' + b' + c')[8..12] == b';
  }

  /** The last word moves on, and when it runs over the word before it changes. */
  lemma IncrementWords(c: Ctr)
    requires Ranged(c)
    ensures var d, q, r := IncCtr(c), c.lo / U32, c.lo % U32;
            && q < U32 && d.lo / U32 < U32
            && if r == U32 - 1 then d.lo % U32 == 0 && d.lo / U32 != q
               else d.hi == c.hi && d.lo / U32 == q && d.lo % U32 == r + 1
  {
    var q, r := c.lo / U32, c.lo % U32;
    WordsBelow(c.lo, q, r);
    IncrementLow(c.lo);
    if r != U32 - 1 {
      DivModUnique(c.lo + 1, U32, q, r + 1);
    } else if q != U32 - 1 {
      DivModUnique(c.lo + 1, U32, q + 1, 0);
    }
  }

  lemma WordsBelow(lo: nat, q: nat, r: nat)
    requires lo < U64 && q == lo / U32 && r == lo % U32
    ensures q < U32 && lo == U32 * q + r
    ensures lo + 1 == U64 <==> q == U32 - 1 && r == U32 - 1
  {
  }

  lemma IncrementLow(lo: nat)
    requires lo < U64
    ensures (lo + 1) % U64 == if lo + 1 == U64 then 0 else lo + 1
  {
  }

  /** The length blocks agree exactly when both strings are below 2^29 bytes. */
  lemma LengthsAgree(a: nat, c: nat)
    requires 8 * a < U64 && 8 * c < U64
    ensures CodeLengthBlock(a, c) == LengthBlock(a, c) <==> a < LIMIT && c < LIMIT
  {
    hide Be, BeNat, Wrap32;
    assert (Wrap32(8 * a) == 8 * a <==> a < LIMIT) by { WrapBelow(a); }
    assert (Wrap32(8 * c) == 8 * c <==> c < LIMIT) by { WrapBelow(c); }
    Powers256();
    if CodeLengthBlock(a, c) == LengthBlock(a, c) {
      assert CodeLengthBlock(a, c)[..8] == LengthBlock(a, c)[..8];
      assert CodeLengthBlock(a, c)[8..] == LengthBlock(a, c)[8..];
      WrapRange(8 * a);
      WrapRange(8 * c);
      BeNatOfBe(8 * a, 8);
      BeNatOfBe(Wrap32(8 * a), 8);
      BeNatOfBe(8 * c, 8);
      BeNatOfBe(Wrap32(8 * c), 8);
    }
  }

  lemma WrapBelow(a: nat)
    ensures Wrap32(8 * a) == 8 * a <==> a < LIMIT
  {
  }

  lemma WrapRange(a: nat)
    ensures Wrap32(a) < U64
  {
  }

  // --------------------------------------------------------------- key streams

  lemma {:induction false} IncByLater(c: Ctr, n: nat)
    ensures IncBy(IncCtr(c), n) == IncBy(c, n + 1)
    decreases n
  {
    hide IncCtr;
    if n > 0 {
      IncByLater(c, n - 1);
    }
  }

  lemma KeyStreamLater(e: BlockFun, c: Ctr, len: nat)
    ensures KeyStream(e, c, 16, len) == KeyStream(e, IncCtr(c), 0, len)
  {
    hide IncCtr, CtrBlock, IncBy;
    var l, r := KeyStream(e, c, 16, len), KeyStream(e, IncCtr(c), 0, len);
    forall i | 0 <= i < len
      ensures l[i] == r[i]
    {
      assert l[i] == KeyByte(e, c, 16 + i) && r[i] == KeyByte(e, IncCtr(c), i);
      IncByLater(c, i / 16);
      assert (16 + i) / 16 == i / 16 + 1 && (16 + i) % 16 == i % 16;
    }
  }

  /** GCTR is the code's key stream as long as the last 32 bits of the counter do not run over. */
  lemma {:induction false} GctrIsKeyStream(e: BlockFun, c: Ctr, x: seq<byte>)
    requires Ranged(c) && c.lo % U32 + BlockCount(|x|) <= U32
    ensures Gctr(e, CtrBlock(c), x) == Xor(x, KeyStream(e, c, 0, |x|))
    decreases |x|
  {
    hide Xor, KeyStream, CtrBlock, IncCtr, Inc32;
    if |x| <= 16 {
      KeyStreamInBlock(e, c, 0, 0, |x|);
      assert KeyBlock(e, c, 0) == e(CtrBlock(c));
    } else {
      KeyStreamInBlock(e, c, 0, 0, 16);
      assert KeyBlock(e, c, 0)[0..16] == KeyBlock(e, c, 0) == e(CtrBlock(c));
      KeyStreamSplit(e, c, 0, 16, |x| - 16);
      KeyStreamLater(e, c, |x| - 16);
      XorConcat(x[..16], x[16..], e(CtrBlock(c)), KeyStream(e, IncCtr(c), 0, |x| - 16));
      assert x[..16] + x[16..] == x;
      IncrementAgrees(c);
      IncrementRanged(c);
      GctrIsKeyStream(e, IncCtr(c), x[16..]);
    }
  }

  lemma IncrementRanged(c: Ctr)
    requires Ranged(c)
    ensures Ranged(IncCtr(c)) && (c.lo % U32 != U32 - 1 ==> IncCtr(c).lo % U32 == c.lo % U32 + 1)
  {
    IncrementWords(c);
  }

  // ------------------------------------------------ exactly how far they agree

  function Inc32By(b: Block, n: nat): Block {
    hide Inc32;
    if n == 0 then b else Inc32(Inc32By(b, n - 1))
  }

  lemma {:induction false} WithinWord(c: Ctr, k: nat)
    requires Ranged(c) && c.lo % U32 + k < U32
    ensures Ranged(IncBy(c, k)) && IncBy(c, k).lo % U32 == c.lo % U32 + k
    ensures CtrBlock(IncBy(c, k)) == Inc32By(CtrBlock(c), k)
    decreases k
  {
    hide CtrBlock, IncCtr, Inc32;
    if k > 0 {
      WithinWord(c, k - 1);
      IncrementRanged(IncBy(c, k - 1));
      IncrementAgrees(IncBy(c, k - 1));
    }
  }

  /** The first counter block past the end of the last word is a different one. */
  lemma BeyondWord(c: Ctr, k: nat)
    requires Ranged(c) && k > 0 && c.lo % U32 + k == U32
    ensures CtrBlock(IncBy(c, k)) != Inc32By(CtrBlock(c), k)
  {
    hide CtrBlock, IncCtr, Inc32;
    WithinWord(c, k - 1);
    IncrementAgrees(IncBy(c, k - 1));
  }

  /** The code's first n counter blocks are the standard's exactly when the last word does not run over. */
  lemma CounterBlocksAgree(c: Ctr, n: nat)
    requires Ranged(c)
    ensures (forall k :: 0 <= k < n ==> CtrBlock(IncBy(c, k)) == Inc32By(CtrBlock(c), k)) <==>
            c.lo % U32 + n <= U32
  {
    hide CtrBlock, IncCtr, Inc32, IncBy, Inc32By;
    if c.lo % U32 + n <= U32 {
      forall k | 0 <= k < n
        ensures CtrBlock(IncBy(c, k)) == Inc32By(CtrBlock(c), k)
      {
        WithinWord(c, k);
      }
    } else {
      BeyondWord(c, U32 - c.lo % U32);
    }
  }

  lemma {:induction false} Inc32ByLater(b: Block, n: nat)
    ensures Inc32By(Inc32(b), n) == Inc32By(b, n + 1)
    decreases n
  {
    hide Inc32;
    if n > 0 {
      Inc32ByLater(b, n - 1);
    }
  }

  /** Every byte of GCTR. */
  lemma {:induction false} GctrAt(e: BlockFun, b: Block, x: seq<byte>, k: nat)
    requires k < |x|
    ensures Gctr(e, b, x)[k] == XorByte(x[k], e(Inc32By(b, k / 16))[k % 16])
    decreases |x|
  {
    hide Inc32, XorByte;
    if k >= 16 {
      GctrAt(e, Inc32(b), x[16..], k - 16);
      SameRem(k, k - 16, 16, 1);
      Inc32ByLater(b, (k - 16) / 16);
    }
  }

  /** A block function that knows one block from all others. */
  function Marks(b: Block): BlockFun {
    (x: Block) => if x == b then seq<byte>(16, _ => 1) else ZERO_BLOCK
  }

  lemma StreamsDiffer(c: Ctr, n: nat)
    requires Ranged(c) && c.lo % U32 + BlockCount(n) > U32
    ensures var k := U32 - c.lo % U32;
            Gctr(Marks(CtrBlock(IncBy(c, k))), CtrBlock(c), Zeros(n)) !=
            Xor(Zeros(n), KeyStream(Marks(CtrBlock(IncBy(c, k))), c, 0, n))
  {
    hide CtrBlock, IncCtr, Inc32, IncBy, Inc32By, Gctr, Xor, XorByte;
    var k := U32 - c.lo % U32;
    var e := Marks(CtrBlock(IncBy(c, k)));
    assert 16 * k < n;
    BeyondWord(c, k);
    GctrAt(e, CtrBlock(c), Zeros(n), 16 * k);
    DivModUnique(16 * k, 16, k, 0);
    XorByteZero(e(Inc32By(CtrBlock(c), k))[0]);
    XorZeros(KeyStream(e, c, 0, n));
    assert KeyStream(e, c, 0, n)[16 * k] == KeyByte(e, c, 16 * k) == 1;
  }

  /** The key streams of n bytes agree under every block function exactly then. */
  lemma StreamsAgree(c: Ctr, n: nat)
    requires Ranged(c)
    ensures (forall e: BlockFun, x: seq<byte> | |x| == n ::
               Gctr(e, CtrBlock(c), x) == Xor(x, KeyStream(e, c, 0, n))) <==>
            c.lo % U32 + BlockCount(n) <= U32
  {
    hide CtrBlock, Gctr, Xor, KeyStream, Marks;
    if c.lo % U32 + BlockCount(n) <= U32 {
      forall e: BlockFun, x: seq<byte> | |x| == n
        ensures Gctr(e, CtrBlock(c), x) == Xor(x, KeyStream(e, c, 0, n))
      {
        GctrIsKeyStream(e, c, x);
      }
    } else {
      StreamsDiffer(c, n);
    }
  }

  // ------------------------------------------------------------- the theorem

  /** The code's pre-counter block is the standard's. */
  lemma PreCounterAgrees(e: BlockFun, nonce: seq<byte>)
    requires |nonce| < LIMIT
    ensures CtrBlock(CodePreCounter(e, nonce)) == PreCounter(TimesKey(e(ZERO_BLOCK)), nonce)
    ensures Ranged(CodePreCounter(e, nonce))
    ensures |nonce| == 12 ==> CodePreCounter(e, nonce).lo % U32 == 1
  {
    hide CtrBlock, CtrOf, IncCtr, Inc32, Ghash, TimesKey, PadZero, CodeLengthBlock, LengthBlock;
    if |nonce| == 12 {
      var b := nonce + Zeros(4);
      BlockOfCtr(b);
      LowZero(b);
      IncrementAgrees(CtrOf(b));
      IncrementRanged(CtrOf(b));
      FirstIncrement(nonce);
    } else {
      LengthsAgree(0, |nonce|);
      BlockOfCtr(Ghash(TimesKey(e(ZERO_BLOCK)), ZERO_BLOCK, PadZero(nonce) + CodeLengthBlock(0, |nonce|)));
    }
  }

  lemma LowZero(b: Block)
    requires b[12..] == Zeros(4)
    ensures CtrOf(b).lo % U32 == 0
  {
    hide Be;
    var c := CtrOf(b);
    SplitLow(c.lo);
    BeOfBeNat(b[8..]);
    assert b[8..][4..] == Be(c.lo % U32, 4);
    assert b[8..][4..] == b[12..] == Zeros(4);
    ZeroBe();
    BeInjective(c.lo % U32, 0);
  }

  lemma ZeroBe()
    ensures Be(0, 4) == Zeros(4) && Be(1, 4) == [0, 0, 0, 1]
  {
    assert Be(0, 1) == [0] && Be(0, 2) == [0, 0] && Be(0, 3) == [0, 0, 0];
  }

  lemma FirstIncrement(nonce: seq<byte>)
    requires |nonce| == 12
    ensures Inc32(nonce + Zeros(4)) == nonce + [0, 0, 0, 1]
  {
    hide Be, BeNat;
    ZeroBe();
    Powers256();
    BeNatOfBe(0, 4);
    assert (nonce + Zeros(4))[12..] == Zeros(4) && (nonce + Zeros(4))[..12] == nonce;
  }

  lemma PadZeroTwice(a: seq<byte>, c: seq<byte>)
    ensures PadZero(PadZero(a) + c) == PadZero(a) + PadZero(c)
  {
    hide PadZero;
    var p, r := PadZero(a), |c| % 16;
    SameRem(|p + c|, |c|, 16, |p| / 16);
    PadZeroIs(p + c, r);
    PadZeroIs(c, r);
    var z := Zeros(if r == 0 then 0 else 16 - r);
    assert p + c + z == p + (c + z);
  }

  /**
   * For 96-bit nonces, and additional data and payload below 2^29 bytes, the ciphertext and
   * the tag are those of section 7.1 of NIST SP 800-38D. Other nonces agree too as long as
   * the last 32 bits of their counter do not run over.
   */
  lemma AgreesWithStandard(e: BlockFun, nonce: seq<byte>, a: seq<byte>, p: seq<byte>)
    requires |nonce| < LIMIT && |a| < LIMIT && |p| < LIMIT
    requires |nonce| != 12 ==> CodePreCounter(e, nonce).lo % U32 + BlockCount(|p|) < U32
    ensures CodeCipher(e, nonce, p) == Encrypt(e, nonce, p)
    ensures forall c :: |c| == |p| ==> CodeTag(e, nonce, a, c) == Tag(e, nonce, a, c)
  {
    hide CtrBlock, IncCtr, CodePreCounter, PreCounter, Inc32, Gctr, Xor, KeyStream;
    PreCounterAgrees(e, nonce);
    var j := CodePreCounter(e, nonce);
    IncrementAgrees(j);
    IncrementRanged(j);
    GctrIsKeyStream(e, IncCtr(j), p);
    forall c | |c| == |p|
      ensures CodeTag(e, nonce, a, c) == Tag(e, nonce, a, c)
    {
      TagAgrees(e, nonce, a, c);
    }
  }

  lemma TagAgrees(e: BlockFun, nonce: seq<byte>, a: seq<byte>, c: seq<byte>)
    requires |nonce| < LIMIT && |a| < LIMIT && |c| < LIMIT
    ensures CodeTag(e, nonce, a, c) == Tag(e, nonce, a, c)
  {
    hide CtrBlock, CodePreCounter, PreCounter, Ghash, PadZero, Xor, CodeLengthBlock, LengthBlock, Inc32;
    PreCounterAgrees(e, nonce);
    LengthsAgree(|a|, |c|);
    PadZeroTwice(a, c);
    var m := TimesKey(e(ZERO_BLOCK));
    var s := Ghash(m, ZERO_BLOCK, PadZero(a) + PadZero(c) + LengthBlock(|a|, |c|));
    var k := e(PreCounter(m, nonce));
    XorComm(k, s);
    assert k[..16] == k;
  }

  // ----------------------------------------------------------------- whole runs

  /** Where the code and the standard agree on a message. */
  predicate InStandard(e: BlockFun, nonce: seq<byte>, a: seq<byte>, p: seq<byte>) {
    && |nonce| < LIMIT && |a| < LIMIT && |p| < LIMIT
    && (|nonce| != 12 ==> CodePreCounter(e, nonce).lo % U32 + BlockCount(|p|) < U32)
  }

  /** The bound on the counter is exact: the n counter blocks after the standard's first are its own only under it. */
  lemma CountersExactly(e: BlockFun, nonce: seq<byte>, n: nat)
    requires |nonce| < LIMIT
    ensures var j0 := PreCounter(TimesKey(e(ZERO_BLOCK)), nonce);
            (forall k :: 0 <= k <= n ==> CtrBlock(IncBy(CodePreCounter(e, nonce), k)) == Inc32By(j0, k)) <==>
            CodePreCounter(e, nonce).lo % U32 + n < U32
  {
    hide CtrBlock, IncBy, Inc32By, CodePreCounter, PreCounter;
    PreCounterAgrees(e, nonce);
    CounterBlocksAgree(CodePreCounter(e, nonce), n + 1);
  }

  /** An encryption cut up in any way is that of NIST SP 800-38D. */
  method StandardEncryption(e: BlockFun, tableBased: bool, nonce: seq<byte>, aads: seq<Piece>,
                            parts: seq<seq<byte>>, last: seq<byte>, tagLen: nat)
    returns (c: seq<byte>, tag: seq<byte>)
    requires tagLen <= 16 && InStandard(e, nonce, Joined(aads), Flatten(parts) + last)
    ensures c == Encrypt(e, nonce, Flatten(parts) + last)
    ensures tag == Tag(e, nonce, Joined(aads), c)[..tagLen]
  {
    hide CodePreCounter, Encrypt, Tag, CodeCipher, CodeTag, Joined, Flatten;
    c, tag := EncryptRun(e, tableBased, nonce, aads, parts, last, tagLen);
    AgreesWithStandard(e, nonce, Joined(aads), Flatten(parts) + last);
  }

  /** A decryption cut up in any way undoes it, and accepts exactly the standard's tag. */
  method StandardDecryption(e: BlockFun, tableBased: bool, nonce: seq<byte>, aads: seq<Piece>,
                            parts: seq<seq<byte>>, last: seq<byte>, tag: seq<byte>)
    returns (ok: bool, p: seq<byte>)
    requires |tag| <= 16 && InStandard(e, nonce, Joined(aads), Flatten(parts) + last)
    ensures Encrypt(e, nonce, p) == Flatten(parts) + last
    ensures ok <==> tag == Tag(e, nonce, Joined(aads), Flatten(parts) + last)[..|tag|]
  {
    hide CodePreCounter, Encrypt, Tag, CodeTag, Joined, Flatten, Xor, KeyStream;
    ok, p := DecryptRun(e, tableBased, nonce, aads, parts, last, tag);
    ghost var c := Flatten(parts) + last;
    AgreesWithStandard(e, nonce, Joined(aads), c);
    AgreesWithStandard(e, nonce, Joined(aads), p);
    XorInvolution(c, KeyStream(e, IncCtr(CodePreCounter(e, nonce)), 0, |c|));
  }
}
