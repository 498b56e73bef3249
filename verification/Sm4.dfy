/**
 * The SM4 block cipher of core/crypto/sm4.c: an unbalanced Feistel network that decrypts
 * by running with its round keys reversed. The two word transforms, sm4Lt and sm4CalciRK,
 * are parameters: nothing here depends on the substitution box.
 */
module Sm4 {
  import opened Bytes

  type Word = w: int | 0 <= w < 0x1_0000_0000

  type WordFun = Word -> Word

  function Xor32(a: Word, b: Word): Word {
    Power2At32();
    XorBits(a, b, 32)
  }

  /** Each of the 32 bits is the sum of the two bits modulo two. */
  lemma Xor32Bit(a: Word, b: Word, i: nat)
    requires i < 32
    ensures BitOf(Xor32(a, b), i) == (BitOf(a, i) + BitOf(b, i)) % 2
  {
    hide XorBits, BitOf;
    XorBit(a, b, 32, i);
  }

  lemma Xor32Comm(a: Word, b: Word)
    ensures Xor32(a, b) == Xor32(b, a)
  {
    hide XorBits;
    XorBitsComm(a, b, 32);
  }

  lemma Xor32Assoc(a: Word, b: Word, c: Word)
    ensures Xor32(Xor32(a, b), c) == Xor32(a, Xor32(b, c))
  {
    hide XorBits;
    XorBitsAssoc(a, b, c, 32);
  }

  lemma Xor32Cancels(a: Word, b: Word)
    ensures Xor32(Xor32(a, b), b) == a
  {
    hide XorBits;
    Power2At32();
    XorBitsCancels(a, b, 32);
  }

  // -------------------------------------------------------------- the cipher

  /** Four words: a block as the rounds see it. */
  datatype Quad = Quad(a: Word, b: Word, c: Word, d: Word)

  /** GET_UINT32_BE. */
  function GetBe(b: seq<byte>): Word
    requires |b| == 4
  {
    BeNatBound(b);
    Powers256();
    BeNat(b)
  }

  function Load(b: Block): Quad {
    hide GetBe;
    Quad(GetBe(b[0..4]), GetBe(b[4..8]), GetBe(b[8..12]), GetBe(b[12..16]))
  }

  /** PUT_UINT32_BE of the four words. */
  function Store(q: Quad): Block {
    hide Be;
    Be(q.a, 4) + Be(q.b, 4) + Be(q.c, 4) + Be(q.d, 4)
  }

  function Flip(q: Quad): Quad {
    Quad(q.d, q.c, q.b, q.a)
  }

  /** sm4F. */
  function F(lt: WordFun, x0: Word, x1: Word, x2: Word, x3: Word, rk: Word): Word {
    Xor32(x0, lt(Xor32(Xor32(Xor32(x1, x2), x3), rk)))
  }

  /** One round shifts the words up and appends a new one. */
  function Round(lt: WordFun, q: Quad, rk: Word): Quad {
    Quad(q.b, q.c, q.d, F(lt, q.a, q.b, q.c, q.d, rk))
  }

  function Rounds(lt: WordFun, sk: seq<Word>, q: Quad): Quad {
    if sk == [] then q else Round(lt, Rounds(lt, sk[..|sk| - 1], q), sk[|sk| - 1])
  }

  /** The block function of a key schedule. */
  function Cipher(lt: WordFun, sk: seq<Word>): BlockFun {
    (b: Block) => Store(Flip(Rounds(lt, sk, Load(b))))
  }

  function Reversed(sk: seq<Word>): (r: seq<Word>)
    ensures |r| == |sk|
  {
    seq<Word>(|sk|, i requires 0 <= i < |sk| => sk[|sk| - 1 - i])
  }

  // -------------------------------------------------------- the words it makes

  /** The words of the network: four to begin with, and one more for each round. */
  function Trace(lt: WordFun, sk: seq<Word>, q: Quad): (x: seq<Word>)
    ensures |x| == |sk| + 4
  {
    hide F, Rounds;
    if sk == [] then [q.a, q.b, q.c, q.d]
    else
      var n := |sk| - 1;
      var x := Trace(lt, sk[..n], q);
      x + [F(lt, x[n], x[n + 1], x[n + 2], x[n + 3], sk[n])]
  }

  /** The last four words of the trace are what the rounds hold. */
  lemma {:induction false} TraceEnds(lt: WordFun, sk: seq<Word>, q: Quad, i: nat)
    requires i <= |sk|
    ensures var x := Trace(lt, sk, q); Rounds(lt, sk[..i], q) == Quad(x[i], x[i + 1], x[i + 2], x[i + 3])
    decreases |sk|
  {
    hide F;
    if sk != [] {
      var n := |sk| - 1;
      TraceEnds(lt, sk[..n], q, if i <= n then i else n);
      if i <= n {
        assert sk[..n][..i] == sk[..i];
      } else {
        assert sk[..i] == sk && sk[..n][..n] == sk[..n];
      }
    }
  }

  /** The recurrence of section 6.1 of GB/T 32907-2016: each word from the four before it and a round key. */
  ghost predicate Recurs(lt: WordFun, x: seq<Word>, sk: seq<Word>) {
    |x| == |sk| + 4 && forall i :: 0 <= i < |sk| ==> NextWord(lt, x, i, sk[i])
  }

  predicate NextWord(lt: WordFun, x: seq<Word>, i: nat, k: Word)
    requires i + 4 < |x|
  {
    x[i + 4] == Xor32(x[i], lt(Xor32(Xor32(Xor32(x[i + 1], x[i + 2]), x[i + 3]), k)))
  }

  lemma {:induction false} TraceRecurs(lt: WordFun, sk: seq<Word>, q: Quad)
    ensures Recurs(lt, Trace(lt, sk, q), sk)
    decreases |sk|
  {
    hide Xor32;
    if sk != [] {
      var n := |sk| - 1;
      TraceRecurs(lt, sk[..n], q);
      var x, y := Trace(lt, sk[..n], q), Trace(lt, sk, q);
      forall i | 0 <= i < |sk|
        ensures NextWord(lt, y, i, sk[i])
      {
        if i < n {
          assert sk[..n][i] == sk[i] && NextWord(lt, x, i, sk[i]);
        }
      }
    }
  }

  lemma TraceStarts(lt: WordFun, sk: seq<Word>, q: Quad)
    ensures var x := Trace(lt, sk, q); x[0] == q.a && x[1] == q.b && x[2] == q.c && x[3] == q.d
  {
    hide F, Trace, Round;
    TraceEnds(lt, sk, q, 0);
    assert sk[..0] == [];
  }

  /** The words of a block, by their bytes. */
  lemma LoadIs(b: Block)
    ensures Load(b) == Quad(BeNat(b[0..4]), BeNat(b[4..8]), BeNat(b[8..12]), BeNat(b[12..16]))
  {
    hide BeNat;
  }

  /** 36 words, the first four those of the block, the others by the recurrence, the last four written backwards. */
  ghost predicate IsTrace(lt: WordFun, x: seq<Word>, sk: seq<Word>, b: Block, out: Block) {
    hide Be, BeNat, Recurs;
    && |x| == 36 && Recurs(lt, x, sk)
    && x[0] == BeNat(b[0..4]) && x[1] == BeNat(b[4..8]) && x[2] == BeNat(b[8..12]) && x[3] == BeNat(b[12..16])
    && out == Be(x[35], 4) + Be(x[34], 4) + Be(x[33], 4) + Be(x[32], 4)
  }

  /** The cipher spelled out. */
  lemma CipherSpelledOut(lt: WordFun, sk: seq<Word>, b: Block) returns (x: seq<Word>)
    requires |sk| == 32
    ensures IsTrace(lt, x, sk, b, Cipher(lt, sk)(b))
  {
    hide F, Trace, Rounds, BeNat, Be, Load, Recurs;
    var q := Load(b);
    LoadIs(b);
    x := Trace(lt, sk, q);
    TraceStarts(lt, sk, q);
    TraceEnds(lt, sk, q, 32);
    assert sk[..32] == sk;
    TraceRecurs(lt, sk, q);
  }

  // ------------------------------------------------------------ its inverse

  lemma GetPut(w: Word)
    ensures GetBe(Be(w, 4)) == w
  {
    hide Be, BeNat;
    Powers256();
    BeNatOfBe(w, 4);
  }

  lemma LoadStore(q: Quad)
    ensures Load(Store(q)) == q
  {
    hide Be, GetBe;
    GetPut(q.a);
    GetPut(q.b);
    GetPut(q.c);
    GetPut(q.d);
    var s := Store(q);
    assert s[0..4] == Be(q.a, 4) && s[4..8] == Be(q.b, 4) && s[8..12] == Be(q.c, 4) && s[12..16] == Be(q.d, 4);
  }

  lemma StoreLoad(b: Block)
    ensures Store(Load(b)) == b
  {
    hide Be, BeNat;
    BeOfBeNat(b[0..4]);
    BeOfBeNat(b[4..8]);
    BeOfBeNat(b[8..12]);
    BeOfBeNat(b[12..16]);
  }

  lemma XorReordered(b: Word, c: Word, d: Word)
    ensures Xor32(Xor32(d, c), b) == Xor32(Xor32(b, c), d)
  {
    hide Xor32;
    Xor32Comm(d, c);
    Xor32Assoc(c, d, b);
    Xor32Comm(d, b);
    Xor32Assoc(c, b, d);
    Xor32Comm(c, b);
  }

  /** A round read backwards undoes itself with the same key. */
  lemma RoundUndoes(lt: WordFun, q: Quad, rk: Word)
    ensures Round(lt, Flip(Round(lt, q, rk)), rk) == Flip(q)
  {
    hide Xor32;
    XorReordered(q.b, q.c, q.d);
    Xor32Cancels(q.a, lt(Xor32(Xor32(Xor32(q.b, q.c), q.d), rk)));
  }

  lemma NoRounds(lt: WordFun, sk: seq<Word>, q: Quad)
    ensures Rounds(lt, sk[..0], q) == q && Expanded(lt, sk, q, [])
  {
  }

  /** The last words after one round, after two, and so on. */
  ghost predicate Expanded(lt: WordFun, ck: seq<Word>, q: Quad, s: seq<Word>) {
    |s| <= |ck| && forall j :: 0 <= j < |s| ==> s[j] == Rounds(lt, ck[..j + 1], q).d
  }

  lemma ExpandedNext(lt: WordFun, ck: seq<Word>, q: Quad, s: seq<Word>, x: Word)
    requires |s| < |ck| && Expanded(lt, ck, q, s) && x == Rounds(lt, ck[..|s| + 1], q).d
    ensures Expanded(lt, ck, q, s + [x])
  {
    hide Rounds;
  }

  lemma ExpandedAll(lt: WordFun, ck: seq<Word>, q: Quad, s: seq<Word>)
    requires Expanded(lt, ck, q, s)
    ensures |s| <= |ck| && forall j :: 0 <= j < |s| ==> s[j] == Rounds(lt, ck[..j + 1], q).d
  {
    hide Rounds;
  }

  lemma RoundsNext(lt: WordFun, sk: seq<Word>, q: Quad, i: nat)
    requires i < |sk|
    ensures Rounds(lt, sk[..i + 1], q) == Round(lt, Rounds(lt, sk[..i], q), sk[i])
  {
    assert sk[..i + 1][..i] == sk[..i];
  }

  lemma {:induction false} RoundsFrom(lt: WordFun, k: Word, sk: seq<Word>, q: Quad)
    ensures Rounds(lt, [k] + sk, q) == Rounds(lt, sk, Round(lt, q, k))
  {
    hide Round;
    var s := [k] + sk;
    if sk == [] {
      assert s[..0] == [] && s[0] == k;
    } else {
      assert s[..|s| - 1] == [k] + sk[..|sk| - 1] && s[|s| - 1] == sk[|sk| - 1];
      RoundsFrom(lt, k, sk[..|sk| - 1], q);
    }
  }

  lemma {:induction false} RoundsUndo(lt: WordFun, sk: seq<Word>, q: Quad)
    ensures Rounds(lt, Reversed(sk), Flip(Rounds(lt, sk, q))) == Flip(q)
  {
    hide Round;
    if sk != [] {
      var n := |sk| - 1;
      assert Reversed(sk) == [sk[n]] + Reversed(sk[..n]);
      RoundsFrom(lt, sk[n], Reversed(sk[..n]), Flip(Rounds(lt, sk, q)));
      RoundUndoes(lt, Rounds(lt, sk[..n], q), sk[n]);
      RoundsUndo(lt, sk[..n], q);
    }
  }

  /** With its round keys reversed the cipher is a two-sided inverse of itself. */
  lemma ReversedKeysInvert(lt: WordFun, sk: seq<Word>, b: Block)
    ensures Cipher(lt, Reversed(sk))(Cipher(lt, sk)(b)) == b
    ensures Cipher(lt, sk)(Cipher(lt, Reversed(sk))(b)) == b
  {
    hide Cipher;
    CipherUndoes(lt, sk, b);
    CipherUndoes(lt, Reversed(sk), b);
    assert Reversed(Reversed(sk)) == sk;
  }

  lemma CipherUndoes(lt: WordFun, sk: seq<Word>, b: Block)
    ensures Cipher(lt, Reversed(sk))(Cipher(lt, sk)(b)) == b
  {
    hide Rounds, Load, Store, Reversed;
    var q := Load(b);
    var y := Flip(Rounds(lt, sk, q));
    LoadStore(y);
    RoundsUndo(lt, sk, q);
    StoreLoad(b);
    assert Flip(Flip(q)) == q;
  }

  // ---------------------------------------------------------------- the code

  /** FK, the system parameter. */
  const FK: Quad := Quad(0xa3b1bac6, 0x56aa3350, 0x677d9197, 0xb27022dc)

  /** CK, the fixed parameter. */
  function CK(): (r: seq<Word>)
    ensures |r| == 32
  {
    [0x00070e15, 0x1c232a31, 0x383f464d, 0x545b6269, 0x70777e85, 0x8c939aa1, 0xa8afb6bd, 0xc4cbd2d9,
     0xe0e7eef5, 0xfc030a11, 0x181f262d, 0x343b4249, 0x50575e65, 0x6c737a81, 0x888f969d, 0xa4abb2b9,
     0xc0c7ced5, 0xdce3eaf1, 0xf8ff060d, 0x141b2229, 0x30373e45, 0x4c535a61, 0x686f767d, 0x848b9299,
     0xa0a7aeb5, 0xbcc3cad1, 0xd8dfe6ed, 0xf4fb0209, 0x10171e25, 0x2c333a41, 0x484f565d, 0x646b7279]
  }

  function WhitenedKey(key: Block): Quad {
    hide Xor32;
    var mk := Load(key);
    Quad(Xor32(mk.a, FK.a), Xor32(mk.b, FK.b), Xor32(mk.c, FK.c), Xor32(mk.d, FK.d))
  }

  /** The key schedule is the same network, keyed by CK: round key i is the word round i appends. */
  function Schedule(rk: WordFun, key: Block): (sk: seq<Word>)
    ensures |sk| == 32
  {
    hide Rounds, WhitenedKey, CK;
    seq<Word>(32, i requires 0 <= i < 32 => Rounds(rk, CK()[..i + 1], WhitenedKey(key)).d)
  }

  /** Four words of the key combined with FK, then the recurrence with CK; the round keys are the words it adds. */
  ghost predicate IsSchedule(rk: WordFun, k: seq<Word>, key: Block, sk: seq<Word>) {
    hide XorBits, BeNat, CK, Recurs;
    && |k| == 36 && Recurs(rk, k, CK()) && sk == k[4..]
    && k[0] == XorBits(BeNat(key[0..4]), 0xa3b1bac6, 32) && k[1] == XorBits(BeNat(key[4..8]), 0x56aa3350, 32)
    && k[2] == XorBits(BeNat(key[8..12]), 0x677d9197, 32) && k[3] == XorBits(BeNat(key[12..16]), 0xb27022dc, 32)
  }

  /** The key schedule spelled out. */
  lemma ScheduleSpelledOut(rk: WordFun, key: Block) returns (k: seq<Word>)
    ensures IsSchedule(rk, k, key, Schedule(rk, key))
  {
    hide F, Trace, Rounds, BeNat, XorBits, Load, CK, WhitenedKey, Recurs;
    var q := WhitenedKey(key);
    WhitenedIs(key);
    k := Trace(rk, CK(), q);
    TraceStarts(rk, CK(), q);
    TraceRecurs(rk, CK(), q);
    forall i | 0 <= i < 32
      ensures k[i + 4] == Schedule(rk, key)[i]
    {
      TraceEnds(rk, CK(), q, i + 1);
    }
  }

  lemma WhitenedIs(key: Block)
    ensures WhitenedKey(key) ==
            Quad(XorBits(BeNat(key[0..4]), 0xa3b1bac6, 32), XorBits(BeNat(key[4..8]), 0x56aa3350, 32),
                 XorBits(BeNat(key[8..12]), 0x677d9197, 32), XorBits(BeNat(key[12..16]), 0xb27022dc, 32))
  {
    hide BeNat, XorBits, Load;
    LoadIs(key);
    Power2At32();
  }

  lemma ScheduleIs(rk: WordFun, key: Block, sk: seq<Word>)
    requires |sk| == 32 && forall j :: 0 <= j < 32 ==> sk[j] == Rounds(rk, CK()[..j + 1], WhitenedKey(key)).d
    ensures sk == Schedule(rk, key)
  {
    hide CK, WhitenedKey, Rounds;
  }

  /** struct sm4_context. */
  class Context {
    const lt: WordFun
    const rk: WordFun
    var mode: Mode
    const sk: array<Word>

    constructor (lt: WordFun, rk: WordFun)
      ensures this.lt == lt && this.rk == rk && sk.Length == 32 && fresh(sk)
    {
      this.lt := lt;
      this.rk := rk;
      mode := Encrypting;
      sk := new Word[32](_ => 0);
    }

    /** sm4_setkey. */
    method SetKey(key: Block)
      requires sk.Length == 32
      modifies sk
      ensures sk[..] == Schedule(rk, key)
      ensures exists k :: IsSchedule(rk, k, key, sk[..])
    {
      hide CK, WhitenedKey, IsSchedule, Schedule, Expanded, Rounds;
      var w := WhitenedKey(key);
      ExpandKey(w, CK());
      ExpandedAll(rk, CK(), w, sk[..]);
      ScheduleIs(rk, key, sk[..]);
      ghost var t := ScheduleSpelledOut(rk, key);
    }

    /** The loop of sm4_setkey. */
    method ExpandKey(w: Quad, ck: seq<Word>)
      requires sk.Length == 32 == |ck|
      modifies sk
      ensures Expanded(rk, ck, w, sk[..])
    {
      hide F, Rounds, Expanded;
      var k := new Word[36](_ => 0);
      k[0], k[1], k[2], k[3] := w.a, w.b, w.c, w.d;
      NoRounds(rk, ck, w);
      for i := 0 to 32
        invariant Quad(k[i], k[i + 1], k[i + 2], k[i + 3]) == Rounds(rk, ck[..i], w)
        invariant Expanded(rk, ck, w, sk[..i])
      {
        RoundsNext(rk, ck, w, i);
        ExpandedNext(rk, ck, w, sk[..i], Rounds(rk, ck[..i + 1], w).d);
        k[i + 4] := F(rk, k[i], k[i + 1], k[i + 2], k[i + 3], ck[i]);
        ghost var before := sk[..i];
        sk[i] := k[i + 4];
        assert sk[..i + 1] == before + [k[i + 4]];
      }
      assert sk[..32] == sk[..];
    }

    /** sm4_setkey_enc. */
    method SetKeyEnc(key: Block)
      requires sk.Length == 32
      modifies this, sk
      ensures mode == Encrypting && sk[..] == Schedule(rk, key)
    {
      hide IsSchedule;
      mode := Encrypting;
      SetKey(key);
    }

    /** sm4_setkey_dec: the same schedule, reversed in place. */
    method SetKeyDec(key: Block)
      requires sk.Length == 32
      modifies this, sk
      ensures mode == Decrypting && sk[..] == Reversed(Schedule(rk, key))
    {
      hide Schedule, IsSchedule;
      mode := Decrypting;
      SetKey(key);
      ghost var s := sk[..];
      for i := 0 to 16
        invariant mode == Decrypting
        invariant forall j :: 0 <= j < i ==> sk[j] == s[31 - j] && sk[31 - j] == s[j]
        invariant forall j :: i <= j < 32 - i ==> sk[j] == s[j]
      {
        sk[i], sk[31 - i] := sk[31 - i], sk[i];
      }
      forall j | 0 <= j < 32
        ensures sk[j] == Reversed(s)[j]
      {
        assert j < 16 || sk[31 - (31 - j)] == s[31 - j];
      }
    }

    /** sm4_one_round: all 32 rounds on one block. */
    method OneRound(input: Block) returns (output: Block)
      requires sk.Length == 32
      ensures output == Cipher(lt, sk[..])(input)
      ensures exists x :: IsTrace(lt, x, sk[..], input, output)
    {
      hide Load, F, IsTrace;
      var ulbuf := new Word[36](_ => 0);
      var q := Load(input);
      ulbuf[0], ulbuf[1], ulbuf[2], ulbuf[3] := q.a, q.b, q.c, q.d;
      assert sk[..0] == [];
      for i := 0 to 32
        invariant Quad(ulbuf[i], ulbuf[i + 1], ulbuf[i + 2], ulbuf[i + 3]) == Rounds(lt, sk[..i], q)
      {
        assert sk[..i + 1][..i] == sk[..i];
        ulbuf[i + 4] := F(lt, ulbuf[i], ulbuf[i + 1], ulbuf[i + 2], ulbuf[i + 3], sk[i]);
      }
      assert sk[..32] == sk[..];
      output := Store(Quad(ulbuf[35], ulbuf[34], ulbuf[33], ulbuf[32]));
      ghost var x := CipherSpelledOut(lt, sk[..], input);
    }
  }
}
