/** The buffered AES-GCM state machine of core/crypto/aes-gcm.c and aes-gcm-sw.c. */
module Gcm {
  import opened Bytes
  import opened GhashTable
  import opened GcmSpec
  import opened GhashField

  datatype Result = Success | BadParameters | ShortBuffer | MacInvalid

  /** What an unsigned int keeps of n. */
  function Wrap32(n: nat): nat {
    n % U32
  }

  lemma Wrap32Add(a: nat, b: nat)
    ensures Wrap32(Wrap32(a) + b) == Wrap32(a + b)
  {
    SameRem(a + b, a % U32 + b, U32, a / U32);
  }

  // ------------------------------------------------------------ the counter

  /** The counter block as the code holds it, two big-endian 64-bit words. */
  datatype Ctr = Ctr(hi: nat, lo: nat)

  function CtrBlock(c: Ctr): Block {
    Be(c.hi, 8) + Be(c.lo, 8)
  }

  function CtrOf(b: Block): Ctr {
    Ctr(BeNat(b[..8]), BeNat(b[8..]))
  }

  /** internal_aes_gcm_inc_ctr: a 128-bit increment. */
  function IncCtr(c: Ctr): Ctr {
    var lo := (c.lo + 1) % U64;
    Ctr(if lo == 0 then (c.hi + 1) % U64 else c.hi, lo)
  }

  function IncBy(c: Ctr, n: nat): Ctr {
    if n == 0 then c else IncCtr(IncBy(c, n - 1))
  }

  // ------------------------------------------------------------ the key stream

  /** Key stream block n, `base` the counter of the first. */
  function KeyBlock(e: BlockFun, base: Ctr, n: nat): Block {
    e(CtrBlock(IncBy(base, n)))
  }

  function KeyByte(e: BlockFun, base: Ctr, i: nat): byte {
    KeyBlock(e, base, i / 16)[i % 16]
  }

  /** Bytes `from` to `from + len` of the key stream. */
  function KeyStream(e: BlockFun, base: Ctr, from: nat, len: nat): (r: seq<byte>)
    ensures |r| == len
  {
    seq<byte>(len, i requires 0 <= i < len => KeyByte(e, base, from + i))
  }

  lemma KeyStreamSplit(e: BlockFun, base: Ctr, from: nat, a: nat, b: nat)
    ensures KeyStream(e, base, from, a) + KeyStream(e, base, from + a, b) == KeyStream(e, base, from, a + b)
  {
    hide KeyByte;
  }

  lemma KeyStreamInBlock(e: BlockFun, base: Ctr, k: nat, p: nat, n: nat)
    requires p + n <= 16
    ensures KeyStream(e, base, 16 * k + p, n) == KeyBlock(e, base, k)[p..p + n]
  {
    hide KeyBlock;
    var s := KeyStream(e, base, 16 * k + p, n);
    forall i | 0 <= i < n
      ensures s[i] == KeyBlock(e, base, k)[p + i]
    {
      assert s[i] == KeyByte(e, base, 16 * k + p + i);
      assert (16 * k + p + i) / 16 == k && (16 * k + p + i) % 16 == p + i;
    }
  }

  /** The length block as the code computes it: products of 32-bit integers. */
  function CodeLengthBlock(l1: nat, l2: nat): Block {
    Be(Wrap32(l1 * 8), 8) + Be(Wrap32(l2 * 8), 8)
  }

  /** The hash of a whole operation, `h` everything hashed before the lengths. */
  function HashOf(m: BlockFun, h: seq<byte>, a: nat, c: nat): Block {
    hide PadZero, CodeLengthBlock, Ghash;
    Ghash(m, ZERO_BLOCK, PadZero(h) + CodeLengthBlock(a, c))
  }

  // ---------------------------------------------------------------- GHASH

  lemma GhashEmpty(m: BlockFun, y: Block)
    ensures Ghash(m, y, []) == y
  {
  }

  lemma GhashBlock(m: BlockFun, y: Block, b: Block)
    ensures Ghash(m, y, b) == m(Xor(y, b))
  {
    assert b[..16] == b && b[16..] == [];
  }

  lemma {:induction false} GhashAppend(m: BlockFun, y: Block, a: seq<byte>, b: seq<byte>)
    requires |a| % 16 == 0 && |b| % 16 == 0
    ensures Ghash(m, y, a + b) == Ghash(m, Ghash(m, y, a), b)
    decreases |a|
  {
    hide Xor;
    if a == [] {
      assert a + b == b;
    } else {
      assert (a + b)[..16] == a[..16] && (a + b)[16..] == a[16..] + b;
      GhashAppend(m, m(Xor(y, a[..16])), a[16..], b);
    }
  }

  /** A hash state and the whole blocks that it is the hash of. */
  ghost predicate HashAt(m: BlockFun, state: Block, absorbed: seq<byte>) {
    |absorbed| % 16 == 0 && state == Ghash(m, ZERO_BLOCK, absorbed)
  }

  lemma HashAtStart(m: BlockFun)
    ensures HashAt(m, ZERO_BLOCK, [])
  {
  }

  lemma HashAtMore(m: BlockFun, state: Block, absorbed: seq<byte>, b: Block)
    requires HashAt(m, state, absorbed)
    ensures HashAt(m, Ghash(m, state, b), absorbed + b)
  {
    hide Ghash;
    SameRem(|absorbed + b|, |absorbed|, 16, 1);
    GhashAppend(m, ZERO_BLOCK, absorbed, b);
  }

  // --------------------------------------------------- the counter in step

  /** The counter after n blocks of payload and p bytes more: when encrypting, `ready` runs one block ahead. */
  ghost predicate CtrAt(e: BlockFun, m: Mode, base: Ctr, ctr: Ctr, ready: Block, n: nat, p: nat)
    requires p <= 16
  {
    && ctr == IncBy(base, if m.Encrypting? then n + 1 else n)
    && (m.Encrypting? || p > 0 ==> ready[p..] == KeyBlock(e, base, n)[p..])
  }

  /** Between blocks, encrypting: the block kept ready is the next one, and the counter's is the one after it. */
  lemma CtrAtEncrypt(e: BlockFun, base: Ctr, ctr: Ctr, ready: Block, n: nat)
    requires CtrAt(e, Encrypting, base, ctr, ready, n, 0)
    ensures ready == KeyBlock(e, base, n)
    ensures CtrAt(e, Encrypting, base, IncCtr(ctr), e(CtrBlock(ctr)), n + 1, 0)
  {
    hide IncCtr, CtrBlock;
    assert ready[0..] == ready && KeyBlock(e, base, n)[0..] == KeyBlock(e, base, n);
    CtrAtNext(e, Encrypting, base, ctr, ready, n, 0);
  }

  /** The next block; when decrypting nothing is kept ready between blocks, and `ready` may be anything. */
  lemma CtrAtNext(e: BlockFun, m: Mode, base: Ctr, ctr: Ctr, ready: Block, n: nat, p: nat)
    requires p <= 16 && CtrAt(e, m, base, ctr, ready, n, p)
    ensures m.Encrypting? ==> CtrAt(e, m, base, IncCtr(ctr), e(CtrBlock(ctr)), n + 1, 0)
    ensures m.Decrypting? ==> CtrAt(e, m, base, IncCtr(ctr), ready, n + 1, 0)
    ensures m.Decrypting? ==> e(CtrBlock(ctr)) == KeyBlock(e, base, n)
  {
    hide IncCtr, CtrBlock;
  }

  /** Between blocks, decrypting, the buffer is free. */
  lemma CtrAtFree(e: BlockFun, base: Ctr, ctr: Ctr, was: Block, ready: Block, n: nat)
    requires CtrAt(e, Decrypting, base, ctr, was, n, 0)
    ensures CtrAt(e, Decrypting, base, ctr, ready, n, 0)
  {
    hide IncBy, KeyBlock;
  }

  /** Part of a block: what is left of the buffer is what is left of the key stream block. */
  lemma CtrAtPart(e: BlockFun, m: Mode, base: Ctr, ctr: Ctr, ready: Block, was: Block, n: nat, p: nat, q: nat)
    requires p < q <= 16 && CtrAt(e, m, base, ctr, was, n, p) && ready[q..] == KeyBlock(e, base, n)[q..]
    ensures CtrAt(e, m, base, ctr, ready, n, q)
  {
    hide IncBy, KeyBlock;
  }

  lemma WholeBlocksOnly(b: nat, p: nat)
    requires p < 16
    ensures Wrap32(16 * b + p) == 0 ==> p == 0
  {
  }

  /** internal_aes_gcm_ptr_is_block_aligned. */
  predicate Aligned(addr: nat) {
    addr % 16 == 0
  }

  function WholeBlocks(len: nat): (n: nat)
    ensures 16 * n <= len < 16 * n + 16
  {
    len / 16
  }

  /** The bytes in whole blocks. */
  function WholeLength(len: nat): (k: nat)
    ensures k % 16 == 0 && k <= len < k + 16
  {
    DivModUnique(16 * WholeBlocks(len), 16, WholeBlocks(len), 0);
    16 * WholeBlocks(len)
  }

  // ------------------------------------------------------------ the state

  /** struct internal_aes_gcm_state, with the expanded key kept as the block function `e`. */
  class State {
    const e: BlockFun
    const tableBased: bool
    const key: GhashKey
    var hashSubkey: Block
    var ctr: Ctr
    var hashState: Block
    var bufTag: Block
    var bufHash: Block
    var bufCryp: Block
    var tagLen: nat
    var aadBytes: nat
    var payloadBytes: nat
    var bufPos: nat

    // What has been asked of the state since it was initialised.
    ghost var mode: Mode
    ghost var j0: Ctr              // the pre-counter block
    ghost var base: Ctr            // counter of the first payload block
    ghost var absorbed: seq<byte>  // the whole blocks that went into hashState
    ghost var aad: nat             // bytes of additional data so far
    ghost var blocks: nat          // whole blocks of payload so far
    ghost var inPayload: bool      // the buffer holds payload, not additional data

    ghost function M(): BlockFun {
      TimesKey(e(ZERO_BLOCK))
    }

    /** The multiplier in use has its key. */
    ghost predicate KeyReady()
      reads `hashSubkey, key.HL, key.HH
    {
      && key.HL.Length == key.HH.Length == 16
      && (tableBased ==> key.Valid(e(ZERO_BLOCK)))
      && hashSubkey == e(ZERO_BLOCK)
    }

    /** The GHASH half of the invariant. */
    ghost predicate HashInv()
      reads `hashSubkey, `hashState, `absorbed, `bufPos, key.HL, key.HH
    {
      KeyReady() && bufPos < 16 && HashAt(M(), hashState, absorbed)
    }

    /** Everything that counts as hashed: the buffered tail too. */
    ghost function Hashed(): seq<byte>
      requires bufPos < 16
      reads `absorbed, `bufHash, `bufPos
    {
      absorbed + bufHash[..bufPos]
    }

    /** Bytes of the current payload block that are done. */
    ghost function Pos(): nat
      reads `inPayload, `bufPos
    {
      if inPayload then bufPos else 0
    }

    /** Bytes of payload so far. */
    ghost function Done(): nat
      reads `inPayload, `bufPos, `blocks
    {
      16 * blocks + Pos()
    }

    /** The counter half: when encrypting, bufCryp runs one block ahead. */
    ghost predicate CtrInv()
      requires bufPos < 16
      reads `mode, `base, `ctr, `bufCryp, `blocks, `inPayload, `bufPos
    {
      CtrAt(e, mode, base, ctr, bufCryp, blocks, Pos())
    }

    ghost predicate Valid()
      reads this, key.HL, key.HH
    {
      && HashInv() && CtrInv()
      && tagLen <= 16 && bufTag == e(CtrBlock(j0)) && base == IncCtr(j0)
      && aadBytes == Wrap32(aad) && payloadBytes == Wrap32(Done())
      && (!inPayload ==> payloadBytes == 0)
    }

    constructor (e: BlockFun, tableBased: bool)
      ensures this.e == e && this.tableBased == tableBased
      ensures key.HL.Length == key.HH.Length == 16 && key.HL != key.HH && fresh(key.HL) && fresh(key.HH)
    {
      this.e := e;
      this.tableBased := tableBased;
      key := new GhashKey();
    }

    /** ghash_update_block, with either multiplier. */
    method GhashUpdateBlock(data: Block)
      requires KeyReady()
      modifies `hashState
      ensures hashState == Ghash(M(), old(hashState), data)
      ensures Bits(hashState) == Product(Bits(Xor(old(hashState), data)), Bits(e(ZERO_BLOCK)))
    {
      hide BlockProduct, Xor, Product;
      GhashBlock(M(), hashState, data);
      var y := Xor(hashState, data);
      BlockProductBits(y, e(ZERO_BLOCK), ZERO);
      if tableBased {
        hashState := key.MultTable(y, e(ZERO_BLOCK));
      } else {
        BlockProductCommutes(hashSubkey, y);
        hashState := GfMul(hashSubkey, y);
      }
    }

    /** internal_aes_gcm_ghash_update: the block at `head`, if any, then whole blocks of data. */
    method GhashUpdate(head: seq<byte>, data: seq<byte>)
      requires HashInv()
      requires (|head| == 0 || |head| == 16) && |data| % 16 == 0
      modifies `hashState, `absorbed
      ensures HashInv() && absorbed == old(absorbed) + head + data
    {
      hide Ghash, M, KeyReady, HashAt, Product, Xor;
      if head != [] {
        HashAtMore(M(), hashState, absorbed, head);
        GhashUpdateBlock(head);
      } else {
        assert absorbed + head == absorbed;
      }
      absorbed := absorbed + head;
      ghost var a := absorbed;
      var count := |data| / 16;
      assert |data| == 16 * count;
      for n := 0 to count
        invariant HashInv() && absorbed == a + data[..16 * n]
      {
        var b: Block := data[16 * n..16 * n + 16];
        HashAtMore(M(), hashState, absorbed, b);
        GhashUpdateBlock(b);
        OneMore(a, data, n);
        absorbed := absorbed + b;
      }
      assert data[..16 * count] == data;
    }

    /** memcpy to the free part of buf_hash. */
    method Buffer(x: seq<byte>)
      requires bufPos + |x| <= 16
      modifies `bufHash, `bufPos
      ensures bufPos == old(bufPos) + |x| && bufHash[..bufPos] == old(bufHash[..bufPos]) + x
    {
      bufHash := bufHash[..bufPos] + x + bufHash[bufPos + |x|..];
      bufPos := bufPos + |x|;
    }

    /** __gcm_update_aad; `addr` is the address of the data, which decides how it is cut up. */
    method UpdateAad(data: seq<byte>, addr: nat) returns (res: Result)
      requires Valid()
      modifies `hashState, `absorbed, `bufHash, `bufPos, `aadBytes, `aad, `inPayload
      ensures Valid()
      ensures res == if old(payloadBytes) != 0 then BadParameters else Success
      ensures res != Success ==> unchanged(this)
      ensures res == Success ==>
        Hashed() == old(Hashed()) + data && aad == old(aad) + |data| && Done() == old(Done()) && !inPayload
    {
      hide *;
      if payloadBytes != 0 {
        return BadParameters;
      }
      AcceptAad(data, addr);
      return Success;
    }

    method AcceptAad(data: seq<byte>, addr: nat)
      requires Valid() && payloadBytes == 0
      modifies `hashState, `absorbed, `bufHash, `bufPos, `aadBytes, `aad, `inPayload
      ensures Valid() && Hashed() == old(Hashed()) + data
      ensures aad == old(aad) + |data| && Done() == old(Done()) && !inPayload
    {
      hide M, KeyReady, HashAt, CtrAt, Wrap32, CtrBlock, IncCtr, Hashed;
      WholeBlocksOnly(blocks, Pos());
      CountAad(data);
      AbsorbAad(data, addr);
    }

    /** The count of additional data; without payload the buffer holds no more than such data. */
    method CountAad(data: seq<byte>)
      requires aadBytes == Wrap32(aad) && Pos() == 0
      modifies `aadBytes, `aad, `inPayload
      ensures aadBytes == Wrap32(aad) && aad == old(aad) + |data| && !inPayload && Pos() == 0
    {
      hide Wrap32;
      Wrap32Add(aad, |data|);
      aadBytes := Wrap32(aadBytes + |data|);
      aad := aad + |data|;
      inPayload := false;
    }

    /** Top up the buffer from x; a buffer that fills up becomes the head of the next update. */
    method TopUp(x: seq<byte>) returns (n: nat, head: seq<byte>)
      requires HashInv() && x != []
      modifies `bufHash, `bufPos
      ensures HashInv() && n <= |x|
      ensures head == [] ==> n == |x| && Hashed() == old(Hashed()) + x
      ensures head != [] ==> |head| == 16 && n > 0 && bufPos == 0 && absorbed + head == old(Hashed()) + x[..n]
    {
      hide M, KeyReady, HashAt;
      n := if 16 - bufPos < |x| then 16 - bufPos else |x|;
      Buffer(x[..n]);
      if bufPos != 16 {
        return n, [];
      }
      bufPos := 0;
      head := bufHash;
    }

    /**
     * One round of the loop of __gcm_update_aad on the data x left at `addr`. A head left
     * over from an earlier round is never hashed again: such a round always tops up first.
     */
    method AadRound(x: seq<byte>, addr: nat, stale: seq<byte>) returns (n: nat, head: seq<byte>)
      requires HashInv() && x != []
      requires (|stale| == 0 || |stale| == 16) && (stale != [] ==> !Aligned(addr) || |x| < 16)
      modifies `hashState, `absorbed, `bufHash, `bufPos
      ensures HashInv() && 0 < n <= |x| && Hashed() == old(Hashed()) + x[..n]
      ensures (|head| == 0 || |head| == 16) && (head != [] ==> n == |x| || !Aligned(addr + n) || |x| - n < 16)
    {
      hide M, KeyReady, HashAt, Aligned, WholeBlocks;
      ghost var h := Hashed();
      n, head := 0, stale;
      if bufPos > 0 || !Aligned(addr) || |x| < 16 {
        n, head := TopUp(x);
        if head == [] {
          assert x[..n] == x;
          return;
        }
      } else {
        assert absorbed + bufHash[..0] + x[..0] == absorbed + head;
      }
      ghost var a := absorbed;
      assert bufPos == 0 && a + head == h + x[..n];
      var k := if Aligned(addr + n) then WholeBlocks(|x| - n) else 0;
      var m := n + 16 * k;
      DivModUnique(m - n, 16, k, 0);
      GhashUpdate(head, x[n..m]);
      Regrouped(a, head, h, x, n, m);
      n := m;
    }

    /** The loop of __gcm_update_aad. */
    method AbsorbAad(data: seq<byte>, addr: nat)
      requires HashInv()
      modifies `hashState, `absorbed, `bufHash, `bufPos
      ensures HashInv() && Hashed() == old(Hashed()) + data
    {
      hide M, KeyReady, HashAt, Aligned;
      var i, head := 0, [];
      while i < |data|
        invariant 0 <= i <= |data|
        invariant HashInv() && bufPos < 16 && Hashed() == old(Hashed()) + data[..i]
        invariant |head| == 0 || |head| == 16
        invariant head != [] ==> i == |data| || !Aligned(addr + i) || |data| - i < 16
        decreases |data| - i
      {
        var n;
        n, head := AadRound(data[i..], addr + i, head);
        assert data[..i] + data[i..][..n] == data[..i + n];
        i := i + n;
      }
    }

    // ------------------------------------------------------------ payload

    ghost predicate PayloadInv()
      reads `hashSubkey, `hashState, `absorbed, key.HL, key.HH,
            `mode, `base, `ctr, `bufCryp, `blocks, `inPayload, `bufPos
    {
      HashInv() && CtrInv() && inPayload
    }

    /** encrypt_block: bufCryp already holds the key stream block, and is refilled at once. */
    method EncryptBlock(src: Block) returns (dst: Block)
      requires PayloadInv() && bufPos == 0 && mode.Encrypting?
      modifies `hashState, `absorbed, `bufCryp, `ctr, `blocks
      ensures PayloadInv() && blocks == old(blocks) + 1
      ensures dst == Xor(src, KeyBlock(e, base, old(blocks))) && absorbed == old(absorbed) + dst
    {
      hide M, KeyReady, HashAt, CtrAt, CtrBlock, IncCtr, Xor, KeyBlock;
      CtrAtEncrypt(e, base, ctr, bufCryp, blocks);
      XorComm(bufCryp, src);
      bufCryp := Xor(bufCryp, src);
      GhashUpdate(bufCryp, []);
      assert old(absorbed) + bufCryp + [] == old(absorbed) + bufCryp;
      dst := bufCryp;
      bufCryp := e(CtrBlock(ctr));
      ctr := IncCtr(ctr);
      blocks := blocks + 1;
    }

    /** decrypt_block: the key stream block is made when it is needed. */
    method DecryptBlock(src: Block) returns (dst: Block)
      requires PayloadInv() && bufPos == 0 && mode.Decrypting?
      modifies `hashState, `absorbed, `bufCryp, `ctr, `blocks
      ensures PayloadInv() && blocks == old(blocks) + 1
      ensures dst == Xor(src, KeyBlock(e, base, old(blocks))) && absorbed == old(absorbed) + src
    {
      hide M, KeyReady, HashAt, CtrAt, CtrBlock, IncCtr, Xor, KeyBlock;
      CtrAtNext(e, Decrypting, base, ctr, bufCryp, blocks, 0);
      ghost var was := bufCryp;
      bufCryp := e(CtrBlock(ctr));
      ctr := IncCtr(ctr);
      XorComm(bufCryp, src);
      bufCryp := Xor(bufCryp, src);
      CtrAtFree(e, base, ctr, was, bufCryp, blocks + 1);
      GhashUpdate(src, []);
      assert old(absorbed) + src + [] == old(absorbed) + src;
      dst := bufCryp;
      blocks := blocks + 1;
    }

    /** internal_aes_gcm_update_payload_blocks. */
    method UpdateBlocks(src: seq<byte>, m: Mode) returns (dst: seq<byte>)
      requires PayloadInv() && bufPos == 0 && m == mode && |src| % 16 == 0
      modifies `hashState, `absorbed, `bufCryp, `ctr, `blocks
      ensures PayloadInv() && blocks == old(blocks) + |src| / 16
      ensures dst == Xor(src, KeyStream(e, base, 16 * old(blocks), |src|))
      ensures absorbed == old(absorbed) + (if m.Encrypting? then dst else src)
    {
      hide M, KeyReady, HashAt, CtrInv, Xor, KeyBlock, KeyStream;
      dst := [];
      assert src[..0] == [];
      ghost var b0 := blocks;
      XorEmpty();
      var count := |src| / 16;
      assert |src| == 16 * count;
      for n := 0 to count
        invariant PayloadInv() && blocks == b0 + n
        invariant dst == Xor(src[..16 * n], KeyStream(e, base, 16 * b0, 16 * n))
        invariant absorbed == old(absorbed) + (if m.Encrypting? then dst else src[..16 * n])
      {
        var s: Block := src[16 * n..16 * n + 16];
        var d: Block;
        if m.Encrypting? {
          d := EncryptBlock(s);
        } else {
          d := DecryptBlock(s);
        }
        ExtendStream(e, base, 16 * b0, src[..16 * n], s);
        KeyStreamInBlock(e, base, b0 + n, 0, 16);
        assert KeyBlock(e, base, b0 + n)[0..16] == KeyBlock(e, base, b0 + n);
        OneMore(old(absorbed), src, n);
        assert old(absorbed) + dst + d == old(absorbed) + (dst + d);
        dst := dst + d;
      }
      assert src[..16 * count] == src;
    }

    /** Exclusive-or s with the next bytes of bufCryp, in place; decryption fills it first. */
    method Encipher(s: seq<byte>, m: Mode) returns (d: seq<byte>)
      requires bufPos < 16 && CtrInv() && inPayload && m == mode && |s| <= 16 - bufPos
      modifies `bufCryp
      ensures d == Xor(s, KeyStream(e, base, Done(), |s|))
      ensures bufCryp[bufPos + |s|..] == KeyBlock(e, base, blocks)[bufPos + |s|..]
    {
      hide CtrBlock, IncCtr, Xor, KeyStream;
      var p, n := bufPos, |s|;
      if p == 0 && m.Decrypting? {
        bufCryp := e(CtrBlock(ctr));
      }
      ghost var k := KeyBlock(e, base, blocks);
      KeyStreamInBlock(e, base, blocks, p, n);
      assert bufCryp[p..p + n] == bufCryp[p..][..n] == k[p..][..n] == k[p..p + n];
      XorComm(bufCryp[p..p + n], s);
      d := Xor(bufCryp[p..p + n], s);
      bufCryp := bufCryp[..p] + d + bufCryp[p + n..];
    }

    /** The branch of __gcm_update_payload for a partly filled buffer, or less than a block of data. */
    method UpdatePartial(s: seq<byte>, m: Mode) returns (d: seq<byte>)
      requires PayloadInv() && m == mode && 0 < |s| <= 16 - bufPos
      modifies `hashState, `absorbed, `bufHash, `bufPos, `bufCryp, `ctr, `blocks
      ensures PayloadInv() && Done() == old(Done()) + |s|
      ensures d == Xor(s, KeyStream(e, base, old(Done()), |s|))
      ensures Hashed() == old(Hashed()) + (if m.Encrypting? then d else s)
    {
      hide M, KeyReady, HashAt, CtrAt, KeyBlock, Xor, KeyStream;
      ghost var was := bufCryp;
      d := Encipher(s, m);
      CtrAtPart(e, mode, base, ctr, bufCryp, was, blocks, bufPos, bufPos + |s|);
      Buffer(if m.Encrypting? then d else s);
      ghost var t := if m.Encrypting? then d else s;
      assert absorbed + bufHash[..bufPos] == old(Hashed()) + t;
      if bufPos != 16 {
        return;
      }
      FinishBlock(m);
    }

    /** A payload block is complete in the buffer: hash it and step the counter. */
    method FinishBlock(m: Mode)
      requires bufPos == 16 && m == mode && KeyReady() && HashAt(M(), hashState, absorbed)
      requires CtrAt(e, mode, base, ctr, bufCryp, blocks, 16) && inPayload
      modifies `hashState, `absorbed, `bufPos, `bufCryp, `ctr, `blocks
      ensures PayloadInv() && bufPos == 0 && blocks == old(blocks) + 1
      ensures absorbed == old(absorbed) + bufHash
    {
      hide M, KeyReady, HashAt, CtrAt, CtrBlock, IncCtr;
      CtrAtNext(e, m, base, ctr, bufCryp, blocks, 16);
      bufPos := 0;
      GhashUpdate(bufHash, []);
      assert old(absorbed) + bufHash + [] == old(absorbed) + bufHash;
      if m.Encrypting? {
        bufCryp := e(CtrBlock(ctr));
      }
      ctr := IncCtr(ctr);
      blocks := blocks + 1;
    }

    /** Zero fill and hash the buffer, so that what comes next starts a new block. */
    method Flush()
      requires HashInv()
      modifies `hashState, `absorbed, `bufHash, `bufPos
      ensures HashInv() && bufPos == 0 && Hashed() == PadZero(old(Hashed()))
    {
      hide Ghash, M, KeyReady, PadZero;
      PadZeroTail(absorbed, bufHash[..bufPos]);
      if bufPos > 0 {
        bufHash := bufHash[..bufPos] + Zeros(16 - bufPos);
        GhashUpdate(bufHash, []);
        bufPos := 0;
      }
    }

    /** One round of the loop of __gcm_update_payload, on the data x that is left. */
    method PayloadRound(x: seq<byte>, m: Mode) returns (n: nat, d: seq<byte>)
      requires PayloadInv() && m == mode && x != []
      modifies `hashState, `absorbed, `bufHash, `bufPos, `bufCryp, `ctr, `blocks
      ensures PayloadInv() && 0 < n <= |x| && Done() == old(Done()) + n
      ensures d == Xor(x[..n], KeyStream(e, base, old(Done()), n))
      ensures Hashed() == old(Hashed()) + (if m.Encrypting? then d else x[..n])
    {
      hide M, KeyReady, HashAt, CtrInv, Xor, KeyStream, WholeBlocks;
      if bufPos > 0 || |x| < 16 {
        n := if 16 - bufPos < |x| then 16 - bufPos else |x|;
        d := UpdatePartial(x[..n], m);
      } else {
        n := 16 * WholeBlocks(|x|);
        DivModUnique(n, 16, WholeBlocks(|x|), 0);
        d := UpdateBlocks(x[..n], m);
      }
    }

    /** The loop of __gcm_update_payload. */
    method Process(src: seq<byte>, m: Mode) returns (dst: seq<byte>)
      requires PayloadInv() && m == mode
      modifies `hashState, `absorbed, `bufHash, `bufPos, `bufCryp, `ctr, `blocks
      ensures PayloadInv() && Done() == old(Done()) + |src|
      ensures dst == Xor(src, KeyStream(e, base, old(Done()), |src|))
      ensures Hashed() == old(Hashed()) + (if m.Encrypting? then dst else src)
    {
      hide M, KeyReady, HashAt, CtrInv, Xor, KeyStream, Done, Hashed;
      var i := 0;
      dst := [];
      XorEmpty();
      ghost var from, h := Done(), Hashed();
      assert h + [] == h && src[..0] == [];
      while i < |src|
        invariant 0 <= i <= |src|
        invariant PayloadInv() && Done() == from + i
        invariant dst == Xor(src[..i], KeyStream(e, base, from, i))
        invariant Hashed() == h + (if m.Encrypting? then dst else src[..i])
      {
        var n, d := PayloadRound(src[i..], m);
        ExtendStream(e, base, from, src[..i], src[i..][..n]);
        Taken(h, src, i, n);
        assert h + dst + d == h + (dst + d);
        dst := dst + d;
        i := i + n;
      }
      assert src[..i] == src;
    }

    /** What the payload will be hashed after: the first payload call pads the additional data. */
    ghost function Prefix(): seq<byte>
      requires bufPos < 16
      reads `absorbed, `bufHash, `bufPos, `payloadBytes
    {
      if payloadBytes == 0 then PadZero(Hashed()) else Hashed()
    }

    /** The first payload call ends the additional data. */
    method BeginPayload()
      requires Valid()
      modifies `hashState, `absorbed, `bufHash, `bufPos, `inPayload
      ensures PayloadInv() && Done() == old(Done())
      ensures Hashed() == old(Prefix())
    {
      hide M, KeyReady, HashAt, CtrAt, Wrap32, CtrBlock;
      WholeBlocksOnly(blocks, Pos());
      if payloadBytes == 0 {
        Flush();
      }
      inPayload := true;
    }

    /** __gcm_update_payload. */
    method UpdatePayload(src: seq<byte>, m: Mode) returns (dst: seq<byte>)
      requires Valid() && m == mode
      modifies `hashState, `absorbed, `bufHash, `bufPos, `bufCryp, `ctr, `blocks, `payloadBytes, `inPayload
      ensures Valid() && inPayload && Done() == old(Done()) + |src|
      ensures dst == Xor(src, KeyStream(e, base, old(Done()), |src|))
      ensures Hashed() == old(Prefix()) + (if m.Encrypting? then dst else src)
    {
      hide M, KeyReady, HashAt, Wrap32, Xor, KeyStream, CtrBlock, IncCtr, CtrInv, Prefix, Hashed;
      Wrap32Add(Done(), |src|);
      BeginPayload();
      payloadBytes := Wrap32(payloadBytes + |src|);
      dst := Process(src, m);
    }

    /** operation_final. */
    method OperationFinal(src: seq<byte>, m: Mode) returns (dst: seq<byte>)
      requires Valid() && m == mode
      modifies this
      ensures tagLen == old(tagLen) <= 16
      ensures dst == Xor(src, KeyStream(e, base, old(Done()), |src|)) && base == old(base)
      ensures bufTag[..tagLen] ==
              Xor(old(bufTag), HashOf(M(), old(Prefix()) + (if m.Encrypting? then dst else src),
                                      old(aad), old(Done()) + |src|))[..tagLen]
    {
      hide Ghash, M, KeyReady, IncBy, KeyBlock, Xor, KeyStream, CtrBlock, CtrInv, PadZero;
      hide CodeLengthBlock, IncCtr, Prefix;
      dst := UpdatePayload(src, m);
      ghost var h := Hashed();
      LengthsWrap(aad, Done());
      Flush();
      assert absorbed == PadZero(h);
      GhashUpdate(CodeLengthBlock(aadBytes, payloadBytes), []);
      assert absorbed == PadZero(h) + CodeLengthBlock(old(aad), old(Done()) + |src|);
      XorSlice(bufTag, hashState, 0, tagLen);
      bufTag := Xor(bufTag[..tagLen], hashState[..tagLen]) + bufTag[tagLen..];
    }

    /** __gcm_enc_final; `room` is the size of the caller's tag buffer. */
    method EncFinal(src: seq<byte>, room: nat) returns (res: Result, dst: seq<byte>, tag: seq<byte>)
      requires Valid() && mode.Encrypting?
      modifies this
      ensures res == if room < old(tagLen) then ShortBuffer else Success
      ensures res == Success ==> dst == Xor(src, KeyStream(e, old(base), old(Done()), |src|))
      ensures res == Success ==>
        tag == Xor(old(bufTag), HashOf(M(), old(Prefix()) + dst, old(aad), old(Done()) + |src|))[..old(tagLen)]
      ensures res != Success ==> unchanged(this)
    {
      hide *;
      dst, tag := [], [];
      if room < tagLen {
        return ShortBuffer, dst, tag;
      }
      dst := OperationFinal(src, Encrypting);
      tag := bufTag[..tagLen];
      res := Success;
    }

    /** __gcm_dec_final: the output is written even when the tag turns out wrong. */
    method DecFinal(src: seq<byte>, tag: seq<byte>) returns (res: Result, dst: seq<byte>)
      requires Valid() && mode.Decrypting?
      modifies this
      ensures res == Success || res == MacInvalid
      ensures |tag| != old(tagLen) ==> res == MacInvalid && unchanged(this)
      ensures |tag| == old(tagLen) ==> dst == Xor(src, KeyStream(e, old(base), old(Done()), |src|))
      ensures |tag| == old(tagLen) ==>
        (res == Success <==>
         tag == Xor(old(bufTag), HashOf(M(), old(Prefix()) + src, old(aad), old(Done()) + |src|))[..old(tagLen)])
    {
      hide *;
      dst := [];
      if |tag| != tagLen {
        return MacInvalid, dst;
      }
      dst := OperationFinal(src, Decrypting);
      res := if bufTag[..tagLen] == tag then Success else MacInvalid;
    }

    /** ghash_update_pad_zero, on an empty buffer. */
    method GhashPadZero(data: seq<byte>)
      requires HashInv() && bufPos == 0
      modifies `hashState, `absorbed
      ensures HashInv() && absorbed == old(absorbed) + PadZero(data)
    {
      hide M, KeyReady, HashAt, WholeBlocks, PadZero;
      ghost var a := absorbed;
      var k := WholeLength(|data|);
      PadZeroSplit(data, k);
      GhashUpdate([], data[..k]);
      NothingBefore(a, data[..k]);
      if |data| > k {
        var block: Block := data[k..] + Zeros(16 - (|data| - k));
        GhashUpdate(block, []);
        NothingAfter(a, data[..k], block);
      }
    }

    /** The first counter block, by nonce length. */
    method SetPreCounter(nonce: seq<byte>)
      requires HashInv() && bufPos == 0 && absorbed == []
      modifies `ctr, `hashState, `absorbed
      ensures HashInv() && absorbed == [] && ctr == CodePreCounter(e, nonce)
    {
      hide Ghash, CtrOf, PadZero, TimesKey, IncCtr, CodeLengthBlock, KeyReady;
      if |nonce| == 12 {
        ctr := IncCtr(CtrOf(nonce + Zeros(4)));
      } else {
        GhashPadZero(nonce);
        GhashUpdate(CodeLengthBlock(0, |nonce|), []);
        assert absorbed == PadZero(nonce) + CodeLengthBlock(0, |nonce|);
        ctr := CtrOf(hashState);
        hashState, absorbed := ZERO_BLOCK, [];
        GhashEmpty(M(), ZERO_BLOCK);
      }
    }

    /** The block that masks the tag, and the key stream block that encryption keeps ready. */
    method StartCounter(m: Mode)
      requires m == mode && blocks == 0 && !inPayload && bufPos < 16
      modifies `ctr, `j0, `base, `bufTag, `bufCryp
      ensures CtrInv() && j0 == old(ctr) && base == IncCtr(j0) && bufTag == e(CtrBlock(j0))
    {
      hide CtrBlock, IncCtr;
      j0 := ctr;
      bufTag := e(CtrBlock(ctr));
      ctr := IncCtr(ctr);
      base := ctr;
      assert IncBy(base, 0) == base && IncBy(base, 1) == IncCtr(IncBy(base, 0));
      if m.Encrypting? {
        bufCryp := e(CtrBlock(ctr));
        ctr := IncCtr(ctr);
      }
    }

    /** internal_aes_gcm_set_key, for both multipliers. */
    method SetKey()
      requires key.HL.Length == key.HH.Length == 16 && key.HL != key.HH
      modifies `hashSubkey, key.HL, key.HH
      ensures KeyReady()
    {
      key.GenTable(e(ZERO_BLOCK));
      hashSubkey := e(ZERO_BLOCK);
    }

    /** The memset of __gcm_init, and the key. */
    method Reset(m: Mode, tagLen: nat)
      requires key.HL.Length == key.HH.Length == 16 && key.HL != key.HH
      modifies this, key.HL, key.HH
      ensures HashInv() && absorbed == [] && bufPos == 0
      ensures this.tagLen == tagLen && mode == m && !inPayload
      ensures aadBytes == payloadBytes == aad == blocks == 0
    {
      hide M, KeyReady, HashAt;
      this.tagLen, mode := tagLen, m;
      aadBytes, payloadBytes, bufPos, aad, blocks, inPayload := 0, 0, 0, 0, 0, false;
      hashState, absorbed := ZERO_BLOCK, [];
      HashAtStart(M());
      SetKey();
    }

    /** __gcm_init: key, pre-counter block and first counters. */
    method Init(m: Mode, nonce: seq<byte>, tagLen: nat) returns (res: Result)
      requires key.HL.Length == key.HH.Length == 16 && key.HL != key.HH
      modifies this, key.HL, key.HH
      ensures res == if tagLen > 16 then BadParameters else Success
      ensures res == Success ==> Valid() && mode == m && this.tagLen == tagLen
      ensures res == Success ==> Hashed() == [] && aad == 0 && Done() == 0 && !inPayload
      ensures res == Success ==> j0 == CodePreCounter(e, nonce)
    {
      hide Ghash, CtrBlock, CtrInv, M, IncCtr, CodePreCounter, KeyReady;
      if tagLen > 16 {
        return BadParameters;
      }
      Reset(m, tagLen);
      SetPreCounter(nonce);
      StartCounter(m);
      return Success;
    }
  }

  /** The pre-counter block as the code computes it. */
  function CodePreCounter(e: BlockFun, nonce: seq<byte>): Ctr {
    hide Ghash, CtrOf, PadZero, TimesKey, IncCtr, CodeLengthBlock;
    if |nonce| == 12 then IncCtr(CtrOf(nonce + Zeros(4)))
    else CtrOf(Ghash(TimesKey(e(ZERO_BLOCK)), ZERO_BLOCK, PadZero(nonce) + CodeLengthBlock(0, |nonce|)))
  }

  lemma PadZeroTail(a: seq<byte>, t: seq<byte>)
    requires |a| % 16 == 0 && |t| < 16
    ensures PadZero(a + t) == if t == [] then a else a + (t + Zeros(16 - |t|))
  {
    hide PadZero;
    SameRem(|a + t|, |t|, 16, |a| / 16);
    PadZeroIs(a + t, |t|);
    if t != [] {
      assert a + t + Zeros(16 - |t|) == a + (t + Zeros(16 - |t|));
    } else {
      assert a + t + Zeros(0) == a;
    }
  }

  lemma NothingBefore(a: seq<byte>, b: seq<byte>)
    ensures a + [] + b == a + b
  {
  }

  lemma NothingAfter(a: seq<byte>, b: seq<byte>, c: seq<byte>)
    ensures a + b + c + [] == a + (b + c)
  {
  }

  lemma PadZeroSplit(data: seq<byte>, k: nat)
    requires k % 16 == 0 && k <= |data| < k + 16
    ensures PadZero(data) == if |data| == k then data[..k] else data[..k] + (data[k..] + Zeros(16 - (|data| - k)))
  {
    hide PadZero;
    assert data == data[..k] + data[k..];
    PadZeroTail(data[..k], data[k..]);
  }

  lemma WrapTimes8(a: nat)
    ensures Wrap32(Wrap32(a) * 8) == Wrap32(a * 8)
  {
    SameRem(a * 8, a % U32 * 8, U32, 8 * (a / U32));
  }

  lemma LengthsWrap(a: nat, c: nat)
    ensures CodeLengthBlock(Wrap32(a), Wrap32(c)) == CodeLengthBlock(a, c)
  {
    hide Wrap32, Be;
    WrapTimes8(a);
    WrapTimes8(c);
  }

  /** One more block of data. */
  lemma OneMore(a: seq<byte>, data: seq<byte>, n: nat)
    requires 16 * n + 16 <= |data|
    ensures data[..16 * n] + data[16 * n..16 * n + 16] == data[..16 * (n + 1)]
    ensures a + data[..16 * n] + data[16 * n..16 * n + 16] == a + data[..16 * (n + 1)]
  {
    SliceMore(a, data, 16 * n, 16 * n + 16);
  }

  /** The next n bytes of data after the first i. */
  lemma Taken(h: seq<byte>, data: seq<byte>, i: nat, n: nat)
    requires i + n <= |data|
    ensures data[..i] + data[i..][..n] == data[..i + n]
    ensures h + data[..i] + data[i..][..n] == h + data[..i + n]
  {
    assert data[i..][..n] == data[i..i + n];
    SliceMore(h, data, i, i + n);
  }

  lemma Regrouped(a: seq<byte>, head: seq<byte>, h: seq<byte>, x: seq<byte>, n: nat, m: nat)
    requires n <= m <= |x| && a + head == h + x[..n]
    ensures a + head + x[n..m] == h + x[..m]
  {
    assert x[..m] == x[..n] + x[n..m];
  }

  lemma XorEmpty()
    ensures forall k: seq<byte> :: |k| == 0 ==> Xor([], k) == []
  {
  }

  /** Enciphering piece by piece is enciphering the whole. */
  lemma ExtendStream(e: BlockFun, base: Ctr, from: nat, a: seq<byte>, b: seq<byte>)
    ensures Xor(a, KeyStream(e, base, from, |a|)) + Xor(b, KeyStream(e, base, from + |a|, |b|))
         == Xor(a + b, KeyStream(e, base, from, |a + b|))
  {
    hide Xor, KeyStream;
    KeyStreamSplit(e, base, from, |a|, |b|);
    XorConcat(a, b, KeyStream(e, base, from, |a|), KeyStream(e, base, from + |a|, |b|));
  }
}
