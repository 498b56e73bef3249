/**
 * The streaming half of core/crypto/sm3.c, and its HMAC. The compression function is a parameter; the
 * eight state words are kept as the 32 bytes they are written out as.
 */
module Sm3 {
  import opened Bytes

  type Chunk = b: seq<byte> | |b| == 64 witness Zeros(64)

  type Compression = (Digest, Chunk) -> Digest

  // -------------------------------------------------------------- the standards

  /** The initial value. */
  function IV(): Digest {
    hide Be;
    Be(0x7380166F, 4) + Be(0x4914B2B9, 4) + Be(0x172442D7, 4) + Be(0xDA8A0600, 4) +
    Be(0xA96F30BC, 4) + Be(0x163138AA, 4) + Be(0xE38DEE4D, 4) + Be(0xB0FB0E4E, 4)
  }

  /** The blocks of m compressed one after another. */
  function Compressed(cf: Compression, iv: Digest, m: seq<byte>): Digest
    requires |m| % 64 == 0
    decreases |m|
  {
    if |m| < 64 then iv else cf(Compressed(cf, iv, m[..|m| - 64]), m[|m| - 64..])
  }

  /** Zero bytes after the one bit, to leave eight bytes for the length. */
  function ZeroCount(n: nat): (k: nat)
    ensures (n + 1 + k + 8) % 64 == 0 && k < 64
  {
    (119 - n % 64) % 64
  }

  /**
   * Section 5.2 of GM/T 0004-2012: a one bit, zeros, the bit length in 64 bits. The standard stops below 2^61 bytes;
   * from there on this is the bit length modulo 2^64, as the code has it.
   */
  function Padding(n: nat): (r: seq<byte>)
    ensures (n + |r|) % 64 == 0
  {
    hide Be;
    [0x80] + Zeros(ZeroCount(n)) + Be(8 * n, 8)
  }

  function Hash(cf: Compression, m: seq<byte>): Digest {
    hide Padding, IV;
    Compressed(cf, IV(), m + Padding(|m|))
  }

  /** A key of one block: a longer key is hashed first, then zeros. */
  function BlockKey(cf: Compression, key: seq<byte>): Chunk {
    hide Hash;
    var k := if |key| > 64 then Hash(cf, key) else key;
    k + Zeros(64 - |k|)
  }

  function Repeated(v: byte): Chunk {
    seq<byte>(64, _ => v)
  }

  /** Section 2 of RFC 2104. */
  function Hmac(cf: Compression, key: seq<byte>, text: seq<byte>): Digest {
    hide Hash, BlockKey, Xor, Repeated;
    var k := BlockKey(cf, key);
    Hash(cf, Xor(k, Repeated(0x5C)) + Hash(cf, Xor(k, Repeated(0x36)) + text))
  }

  // ------------------------------------------------- the digest, block by block

  /** p is m, the byte 0x80, the fewest zeros, and the bit length modulo 2^64 in eight bytes. */
  ghost predicate IsPadded(m: seq<byte>, p: seq<byte>) {
    && |p| % 64 == 0 && |m| + 9 <= |p| < |m| + 73
    && p[..|m|] == m && p[|m|] == 0x80
    && (forall i :: |m| < i < |p| - 8 ==> p[i] == 0)
    && BeNat(p[|p| - 8..]) == 8 * |m| % U64
  }

  /** The eight words of the initial value. */
  ghost predicate IsInitial(v: Digest) {
    && BeNat(v[0..4]) == 0x7380166F && BeNat(v[4..8]) == 0x4914B2B9
    && BeNat(v[8..12]) == 0x172442D7 && BeNat(v[12..16]) == 0xDA8A0600
    && BeNat(v[16..20]) == 0xA96F30BC && BeNat(v[20..24]) == 0x163138AA
    && BeNat(v[24..28]) == 0xE38DEE4D && BeNat(v[28..32]) == 0xB0FB0E4E
  }

  /** Value i is the compression of block i - 1 into value i - 1. */
  ghost predicate NextValue(cf: Compression, p: seq<byte>, vs: seq<Digest>, i: int)
    requires 0 < i < |vs| && 64 * i <= |p|
  {
    vs[i] == cf(vs[i - 1], p[64 * (i - 1)..64 * i])
  }

  ghost predicate IsChain(cf: Compression, p: seq<byte>, vs: seq<Digest>) {
    |vs| == |p| / 64 + 1 && forall i :: 0 < i < |vs| ==> NextValue(cf, p, vs, i)
  }

  /** d is the last value of the chain from the initial value over the padded message. */
  ghost predicate IsHash(cf: Compression, m: seq<byte>, d: Digest) {
    exists p, vs: seq<Digest> :: IsPadded(m, p) && IsChain(cf, p, vs) && IsInitial(vs[0]) && d == vs[|vs| - 1]
  }

  /** k is the key, or its digest if it is longer than a block, and zeros. */
  ghost predicate IsBlockKey(cf: Compression, key: seq<byte>, k: Chunk) {
    var n := if |key| > 64 then 32 else |key|;
    && (if |key| > 64 then IsHash(cf, key, k[..32]) else k[..|key|] == key)
    && forall i :: n <= i < 64 ==> k[i] == 0
  }

  ghost predicate IsPad(k: Chunk, v: byte, pad: Chunk) {
    forall i :: 0 <= i < 64 ==> pad[i] == XorByte(k[i], v)
  }

  /** d is the digest of the outer pad and the digest of the inner pad and the text. */
  ghost predicate IsHmac(cf: Compression, key: seq<byte>, text: seq<byte>, d: Digest) {
    exists k: Chunk, inner: Chunk, outer: Chunk, t: Digest ::
      && IsBlockKey(cf, key, k) && IsPad(k, 0x36, inner) && IsPad(k, 0x5C, outer)
      && IsHash(cf, inner + text, t) && IsHash(cf, outer + t, d)
  }

  lemma WordBack(v: Digest, a: seq<byte>, n: nat, b: seq<byte>)
    requires n < U32 && v == a + Be(n, 4) + b
    ensures BeNat(v[|a|..|a| + 4]) == n
  {
    hide Be, BeNat;
    Powers256();
    BeNatOfBe(n, 4);
    assert v[|a|..|a| + 4] == Be(n, 4);
  }

  /** The words of a digest made of eight. */
  lemma InitialIs()
    ensures IsInitial(IV())
  {
    hide Be, BeNat;
    var v := IV();
    FirstWords(v);
    LastWords(v);
  }

  lemma FirstWords(v: Digest)
    requires v == IV()
    ensures BeNat(v[0..4]) == 0x7380166F && BeNat(v[4..8]) == 0x4914B2B9
    ensures BeNat(v[8..12]) == 0x172442D7 && BeNat(v[12..16]) == 0xDA8A0600
  {
    hide Be, BeNat;
    WordBack(v, [], 0x7380166F, v[4..]);
    WordBack(v, v[..4], 0x4914B2B9, v[8..]);
    WordBack(v, v[..8], 0x172442D7, v[12..]);
    WordBack(v, v[..12], 0xDA8A0600, v[16..]);
  }

  lemma LastWords(v: Digest)
    requires v == IV()
    ensures BeNat(v[16..20]) == 0xA96F30BC && BeNat(v[20..24]) == 0x163138AA
    ensures BeNat(v[24..28]) == 0xE38DEE4D && BeNat(v[28..32]) == 0xB0FB0E4E
  {
    hide Be, BeNat;
    WordBack(v, v[..16], 0xA96F30BC, v[20..]);
    WordBack(v, v[..20], 0x163138AA, v[24..]);
    WordBack(v, v[..24], 0xE38DEE4D, v[28..]);
    WordBack(v, v[..28], 0xB0FB0E4E, []);
  }

  lemma PaddedIs(m: seq<byte>)
    ensures IsPadded(m, m + Padding(|m|))
  {
    hide Be, BeNat, Power;
    var p, n := m + Padding(|m|), 8 * |m|;
    assert p[|p| - 8..] == Be(n, 8);
    Powers256();
    DivParts(n, U64);
    BeMod(n / U64, n % U64, 8);
    BeNatOfBe(n % U64, 8);
  }

  lemma {:induction false} ChainIs(cf: Compression, iv: Digest, p: seq<byte>, n: nat) returns (vs: seq<Digest>)
    requires |p| == 64 * n && |p| % 64 == 0
    ensures IsChain(cf, p, vs) && vs[0] == iv && vs[n] == Compressed(cf, iv, p)
    decreases n
  {
    if n == 0 {
      vs := [iv];
    } else {
      var q := p[..64 * (n - 1)];
      var us := ChainIs(cf, iv, q, n - 1);
      CompressedMore(cf, iv, q, p[64 * (n - 1)..]);
      hide Compressed;
      assert q + p[64 * (n - 1)..] == p;
      vs := us + [Compressed(cf, iv, p)];
      forall i | 0 < i < |vs|
        ensures NextValue(cf, p, vs, i)
      {
        if i < n {
          assert NextValue(cf, q, us, i);
          assert q[64 * (i - 1)..64 * i] == p[64 * (i - 1)..64 * i];
        } else {
          assert p[64 * (i - 1)..64 * i] == p[64 * (n - 1)..];
        }
      }
    }
  }

  lemma HashSpelledOut(cf: Compression, m: seq<byte>)
    ensures IsHash(cf, m, Hash(cf, m))
  {
    hide IV, Padding, Compressed, IsPadded, IsChain, IsInitial;
    var p := m + Padding(|m|);
    PaddedIs(m);
    InitialIs();
    var vs := ChainIs(cf, IV(), p, |p| / 64);
    ChainLength(cf, p, vs);
  }

  lemma ChainLength(cf: Compression, p: seq<byte>, vs: seq<Digest>)
    requires IsChain(cf, p, vs)
    ensures |vs| == |p| / 64 + 1
  {
  }

  lemma BlockKeyIs(cf: Compression, key: seq<byte>)
    ensures IsBlockKey(cf, key, BlockKey(cf, key))
  {
    hide Hash, IsHash;
    HashSpelledOut(cf, key);
    var k := if |key| > 64 then Hash(cf, key) else key;
    assert (k + Zeros(64 - |k|))[..|k|] == k;
  }

  lemma PadIs(k: Chunk, v: byte)
    ensures IsPad(k, v, Xor(k, Repeated(v)))
  {
    hide XorByte;
  }

  lemma HmacSpelledOut(cf: Compression, key: seq<byte>, text: seq<byte>)
    ensures IsHmac(cf, key, text, Hmac(cf, key, text))
  {
    hide Hash, IsHash, BlockKey, IsBlockKey, Xor, Repeated, IsPad;
    var k := BlockKey(cf, key);
    var inner: Chunk, outer: Chunk := Xor(k, Repeated(0x36)), Xor(k, Repeated(0x5C));
    BlockKeyIs(cf, key);
    PadIs(k, 0x36);
    PadIs(k, 0x5C);
    var t := Hash(cf, inner + text);
    HashSpelledOut(cf, inner + text);
    HashSpelledOut(cf, outer + t);
  }

  // ---------------------------------------------------------------- the code

  lemma CompressedMore(cf: Compression, iv: Digest, m: seq<byte>, b: Chunk)
    requires |m| % 64 == 0
    ensures Compressed(cf, iv, m + b) == cf(Compressed(cf, iv, m), b)
  {
    var t := m + b;
    assert t[..|t| - 64] == m && t[|t| - 64..] == b;
  }

  /** The byte count after a call, as the code keeps it in two words. */
  function CountLow(low: nat, n: nat): nat {
    (low + n) % U32
  }

  function CountHigh(low: nat, high: nat, n: nat): nat {
    if CountLow(low, n) < n then (high + 1) % U32 else high
  }

  /** The two count words are right exactly for calls of less than 2^32 bytes and those that happen to carry once. */
  lemma CarryExactly(low: nat, high: nat, n: nat)
    requires low < U32 && high < U32
    ensures CountLow(low, n) + U32 * CountHigh(low, high, n) == (low + U32 * high + n) % U64 <==>
            n < U32 || (low + n) / U32 % U32 == 1
  {
    var c, l := (low + n) / U32, CountLow(low, n);
    assert low + n == U32 * c + l;
    HighPart(low + U32 * high + n, high + c, l);
    if n < U32 {
      assert c <= 1;
      assert l < n <==> c == 1;
      assert c == 0 ==> (high + c) % U32 == high;
    } else {
      SameHigh(high, c);
    }
  }

  /** What is left of an update of n bytes, after completing a block begun with `left` bytes. */
  function PostFill(left: nat, n: nat): nat
    requires left < 64
  {
    if left != 0 && n >= 64 - left then n - (64 - left) else n
  }

  /** The bytes in whole blocks, as the code has them: an unsigned int for the blocks, and a product of that width. */
  function Consumed(m: nat): nat {
    m / 64 % U32 * 64 % U32
  }

  /** The product is the number of bytes in whole blocks exactly below 2^32 bytes. */
  lemma ConsumedExactly(m: nat)
    ensures Consumed(m) == m - m % 64 <==> m < U32
  {
    var q := m / 64;
    assert m == 64 * q + m % 64;
    if m < U32 {
      assert q < U32;
    } else {
      assert q >= 0x0400_0000;
    }
  }

  /** When a call on a context that has counted `low` mod 2^32 bytes is served right. */
  predicate Served(low: nat, n: nat) {
    PostFill(low % 64, n) < U32 && (n < U32 || low + n < 2 * U32)
  }

  /** Exactly when no byte of a whole block is left for the buffer and both count words are right. */
  lemma ServedExactly(low: nat, high: nat, n: nat)
    requires low < U32 && high < U32
    ensures Served(low, n) <==>
            var m := PostFill(low % 64, n);
            Consumed(m) == m - m % 64 &&
            CountLow(low, n) + U32 * CountHigh(low, high, n) == (low + U32 * high + n) % U64
    ensures n < U32 ==> Served(low, n)
  {
    hide Consumed, CountLow, CountHigh;
    ConsumedExactly(PostFill(low % 64, n));
    CarryExactly(low, high, n);
    if PostFill(low % 64, n) < U32 <= n {
      assert (low + n) / U32 <= 2;
    }
  }

  /** The bit length that sm3_final computes from the two words of the byte count. */
  function LengthField(low: nat, high: nat): (r: seq<byte>)
    ensures |r| == 8
  {
    hide Be;
    Be(low / 0x2000_0000 + high * 8 % U32, 4) + Be(low * 8 % U32, 4)
  }

  lemma HighPart(total: nat, h: nat, l: nat)
    requires l < U32 && total == U32 * h + l
    ensures total % U64 == U32 * (h % U32) + l
  {
    assert total == U64 * (h / U32) + (U32 * (h % U32) + l);
    ModOf(total, h / U32, U32 * (h % U32) + l);
  }

  lemma SameHigh(high: nat, c: nat)
    ensures (high + c) % U32 == (high + 1) % U32 <==> c % U32 == 1
  {
  }

  lemma BlocksUsed(n: nat, blocks: nat, used: nat)
    requires n < U32 && blocks == n / 64 % U32 && used == blocks * 64 % U32
    ensures used == 64 * blocks <= n < used + 64
  {
    var q, r := n / 64, n % 64;
    assert n == 64 * q + r && q < U32;
  }

  lemma SmallOffset(n: nat, at: nat)
    requires 64 * n < U32 && at == n * 64 % U32
    ensures at == 64 * n && at + 64 == 64 * (n + 1)
  {
  }

  class Context {
    const cf: Compression
    var total0: nat
    var total1: nat
    var state: Digest
    var buffer: Chunk
    var ipad: Chunk
    var opad: Chunk
    /** The message so far: the blocks compressed, and the rest. */
    ghost var whole: seq<byte>
    ghost var part: seq<byte>

    ghost predicate Counted()
      reads `total0, `total1, `whole, `part
    {
      total0 < U32 && total1 < U32 && total0 + U32 * total1 == (|whole| + |part|) % U64
    }

    ghost predicate Absorbed()
      reads `state, `whole
    {
      |whole| % 64 == 0 && state == Compressed(cf, IV(), whole)
    }

    ghost predicate Kept()
      reads `buffer, `part
    {
      |part| < 64 && buffer[..|part|] == part
    }

    ghost predicate Valid()
      reads this
    {
      Counted() && Absorbed() && Kept()
    }

    ghost function Message(): seq<byte>
      reads `whole, `part
    {
      whole + part
    }

    constructor (cf: Compression)
      ensures this.cf == cf
    {
      this.cf := cf;
      total0, total1, state := 0, 0, Zeros(32);
      buffer, ipad, opad := Zeros(64), Zeros(64), Zeros(64);
    }

    /** sm3_init. */
    method Init()
      modifies `total0, `total1, `state, `whole, `part
      ensures Valid() && Message() == []
    {
      hide IV;
      total0, total1, state := 0, 0, IV();
      whole, part := [], [];
    }

    /** sm3_process_blocks. */
    method ProcessBlocks(input: seq<byte>, count: nat)
      requires 64 * count <= |input| && 64 * count <= U32 && Absorbed()
      modifies `state, `whole
      ensures Absorbed() && whole == old(whole) + input[..64 * count]
    {
      hide IV, Compressed;
      for n := 0 to count
        invariant Absorbed() && whole == old(whole) + input[..64 * n]
      {
        var at := n * 64 % U32;
        SmallOffset(n, at);
        var b: Chunk := input[at..at + 64];
        CompressedMore(cf, IV(), whole, b);
        SliceMore(old(whole), input, at, at + 64);
        SameRem(|whole + b|, |whole|, 64, 1);
        state := cf(state, b);
        whole := whole + b;
      }
    }

    /** The block begun by earlier calls, if this one completes it. */
    method FillBuffer(input: seq<byte>, start: nat) returns (rest: seq<byte>, left: nat)
      requires Absorbed() && Kept() && start == |part|
      modifies `state, `buffer, `whole, `part
      ensures Absorbed() && Kept() && Message() + rest == old(Message()) + input
      ensures part == [] || |part| + |rest| < 64
      ensures left == |part| && |rest| == PostFill(start, |input|)
    {
      hide IV, Compressed;
      rest, left := input, start;
      var fill := 64 - left;
      if left != 0 && |input| >= fill {
        buffer := buffer[..left] + input[..fill];
        rest := input[fill..];
        assert part + input == buffer + rest;
        ghost var w := whole;
        ProcessBlocks(buffer, 1);
        left := 0;
        part := [];
        assert whole == w + buffer;
        assert whole + part + rest == w + buffer + rest;
      }
    }

    /** The data of an update: complete the block begun, compress whole blocks, keep the rest. */
    method Absorb(input: seq<byte>, start: nat)
      requires Absorbed() && Kept() && start == |part| && PostFill(start, |input|) < U32
      modifies `state, `buffer, `whole, `part
      ensures Absorbed() && Kept() && Message() == old(Message()) + input
    {
      hide IV, Compressed, Absorbed;
      var rest, left := FillBuffer(input, start);
      ghost var w, p := whole, part;
      var blocks := |rest| / 64 % U32;
      var used := blocks * 64 % U32;
      BlocksUsed(|rest|, blocks, used);
      ProcessBlocks(rest, blocks);
      var tail := rest[used..];
      RestJoined(w, p, rest, used);
      RestBuffered(buffer, p, tail);
      if tail != [] {
        buffer := buffer[..left] + tail + buffer[left + |tail|..];
      }
      part := part + tail;
    }

    /** sm3_update. */
    method Update(input: seq<byte>)
      requires Valid() && Served(total0, |input|)
      modifies `total0, `total1, `state, `buffer, `whole, `part
      ensures Valid() && Message() == old(Message()) + input
    {
      hide IV, Compressed, CountLow, CountHigh;
      if input == [] {
        return;
      }
      var left := total0 % 64;
      CountedLeft(total0, total1, |whole|, |part|);
      CountSteps(total0, total1, |Message()|, |input|);
      total1 := CountHigh(total0, total1, |input|);
      total0 := CountLow(total0, |input|);
      Absorb(input, left);
      assert |whole| + |part| == |Message()|;
    }

    lemma LeftOver()
      requires Valid()
      ensures total0 % 64 == |Message()| % 64
      ensures total0 < U32 && total1 < U32 && total0 + U32 * total1 == |Message()| % U64
    {
      hide IV, Compressed, Kept;
      PartFits();
      CountedLeft(total0, total1, |whole|, |part|);
      assert |Message()| == |whole| + |part|;
    }

    lemma PartFits()
      requires Kept()
      ensures |part| < 64
    {
    }

    lemma StateOfWhole()
      requires Valid() && |Message()| % 64 == 0
      ensures state == Compressed(cf, IV(), Message())
    {
      hide IV, Compressed;
      AllWhole(whole, part, Message());
    }

    /** sm3_final. */
    method Final() returns (output: Digest)
      requires Valid()
      modifies `total0, `total1, `state, `buffer, `whole, `part
      ensures output == Hash(cf, old(Message())) && IsHash(cf, old(Message()), output)
    {
      hide IV, Compressed, Padding, LengthField, Be, Absorbed, Kept, Counted, Message, IsHash;
      ghost var m := Message();
      HashSpelledOut(cf, m);
      LeftOver();
      var msglen := LengthField(total0, total1);
      LengthBytes(total0, total1, |m|);
      var last := total0 % 64;
      var padn := if last < 56 then 56 - last else 120 - last;
      PaddingIs(|m|, last, padn, msglen);
      var padding := [0x80] + Zeros(padn - 1);
      Update(padding);
      Update(msglen);
      assert m + padding + msglen == m + (padding + msglen);
      StateOfWhole();
      output := state;
    }

    /** The two pads of sm3_hmac_init, for a key of at most one block. */
    method SetPads(k: seq<byte>)
      requires |k| <= 64
      modifies `ipad, `opad
      ensures ipad == Xor(k + Zeros(64 - |k|), Repeated(0x36)) && opad == Xor(k + Zeros(64 - |k|), Repeated(0x5C))
    {
      hide XorByte, Xor;
      ipad, opad := Repeated(0x36), Repeated(0x5C);
      for i := 0 to |k|
        invariant forall j :: 0 <= j < i ==> ipad[j] == XorByte(0x36, k[j]) && opad[j] == XorByte(0x5C, k[j])
        invariant forall j :: i <= j < 64 ==> ipad[j] == 0x36 && opad[j] == 0x5C
      {
        ipad := ipad[i := XorByte(ipad[i], k[i])];
        opad := opad[i := XorByte(opad[i], k[i])];
      }
      XorKey(k, k + Zeros(64 - |k|), 0x36, ipad);
      XorKey(k, k + Zeros(64 - |k|), 0x5C, opad);
    }

    /** sm3_hmac_init. */
    method HmacInit(key: seq<byte>)
      requires |key| < U32
      modifies this
      ensures Valid() && Message() == Xor(BlockKey(cf, key), Repeated(0x36))
      ensures opad == Xor(BlockKey(cf, key), Repeated(0x5C))
    {
      hide Hash, Xor, Repeated, Absorbed, Kept, Counted, Message;
      hide IsHash;
      var k := key;
      if |key| > 64 {
        k := Digested(cf, key);
      }
      SetPads(k);
      Init();
      Update(ipad);
      assert [] + ipad == ipad;
    }

    /** sm3_hmac_final. */
    method HmacFinal(ghost key: seq<byte>, ghost text: seq<byte>) returns (output: Digest)
      requires Valid() && Message() == Xor(BlockKey(cf, key), Repeated(0x36)) + text
      requires opad == Xor(BlockKey(cf, key), Repeated(0x5C))
      modifies `total0, `total1, `state, `buffer, `whole, `part
      ensures output == Hmac(cf, key, text) && IsHmac(cf, key, text, output)
    {
      hide IsHash, IsHmac;
      HmacSpelledOut(cf, key, text);
      hide Hash, Xor, BlockKey, Repeated, Absorbed, Kept, Counted, Message;
      var tmpbuf := Final();
      Init();
      Update(opad);
      Update(tmpbuf);
      assert [] + opad + tmpbuf == opad + tmpbuf;
      output := Final();
    }
  }

  /** sm3: the one-shot hash. */
  method Digested(cf: Compression, input: seq<byte>) returns (output: Digest)
    requires |input| < U32
    ensures output == Hash(cf, input) && IsHash(cf, input, output)
  {
    hide Hash, IV, Compressed, IsHash;
    var ctx := new Context(cf);
    ctx.Init();
    assert ctx.whole + ctx.part == [];
    ctx.Update(input);
    assert [] + input == input;
    output := ctx.Final();
  }

  lemma CountedLeft(low: nat, high: nat, w: nat, p: nat)
    requires low < U32 && low + U32 * high == (w + p) % U64 && w % 64 == 0 && p < 64
    ensures low % 64 == p == (w + p) % 64
  {
    var v, q := w / 64, (w + p) / U64;
    assert w + p == U64 * q + low + U32 * high;
    Mod64(low, v - 0x0400_0000_0000_0000 * q - 0x0400_0000 * high, p);
    Mod64(w + p, v, p);
  }

  lemma Mod64(n: nat, x: int, p: nat)
    requires n == 64 * x + p && p < 64
    ensures n % 64 == p
  {
  }

  lemma CountSteps(low: nat, high: nat, m: nat, n: nat)
    requires low < U32 && high < U32 && low + U32 * high == m % U64 && (n < U32 || low + n < 2 * U32)
    ensures CountLow(low, n) < U32 && CountHigh(low, high, n) < U32
    ensures CountLow(low, n) + U32 * CountHigh(low, high, n) == (m + n) % U64
  {
    CarryExactly(low, high, n);
    OneCarry(low, n);
    CountsFit(low, high, n);
    hide CountLow, CountHigh;
    ModAdd(m, n);
  }

  lemma CountsFit(low: nat, high: nat, n: nat)
    requires high < U32
    ensures CountLow(low, n) < U32 && CountHigh(low, high, n) < U32
  {
  }

  lemma OneCarry(low: nat, n: nat)
    requires n < U32 || low + n < 2 * U32
    ensures n < U32 || (low + n) / U32 % U32 == 1
  {
  }

  lemma ModAdd(m: nat, n: nat)
    ensures (m % U64 + n) % U64 == (m + n) % U64
  {
  }

  lemma LengthBytes(low: nat, high: nat, n: nat)
    requires low < U32 && high < U32 && low + U32 * high == n % U64
    ensures LengthField(low, high) == Be(8 * n, 8)
  {
    hide Be, Power;
    Powers256();
    var h, l := low / 0x2000_0000 + high * 8 % U32, low * 8 % U32;
    BeSplit(h, l, 4, 4);
    EightTimes(low, high, n);
    BeMod(8 * n / U64, 8 * n % U64, 8);
  }

  lemma EightTimes(low: nat, high: nat, n: nat)
    requires low < U32 && high < U32 && low + U32 * high == n % U64
    ensures (low / 0x2000_0000 + high * 8 % U32) * U32 + low * 8 % U32 == 8 * n % U64
  {
    var q := n / U64;
    assert n == U64 * q + low + U32 * high;
    var a, b := low / 0x2000_0000, high * 8 / U32;
    assert low * 8 == U32 * a + low * 8 % U32;
    assert high * 8 == U32 * b + high * 8 % U32;
    var top, rest := a + high * 8 % U32, low * 8 % U32;
    assert top < U32 by {
      assert a < 8;
      EightDivides(high);
    }
    assert 8 * n == U64 * (8 * q + b) + (top * U32 + rest);
    ModOf(8 * n, 8 * q + b, top * U32 + rest);
  }

  lemma EightDivides(high: nat)
    ensures high * 8 % U32 <= U32 - 8
  {
    var b := high * 8 / U32;
    assert high * 8 % U32 == 8 * (high - 0x2000_0000 * b);
  }

  lemma ModOf(n: nat, x: nat, r: nat)
    requires r < U64 && n == U64 * x + r
    ensures n % U64 == r
  {
  }

  lemma PaddingIs(n: nat, last: nat, padn: nat, msglen: seq<byte>)
    requires last == n % 64 && padn == (if last < 56 then 56 - last else 120 - last) && msglen == Be(8 * n, 8)
    ensures Padding(n) == [0x80] + Zeros(padn - 1) + msglen
  {
    hide Be;
    assert ZeroCount(n) == padn - 1;
  }

  lemma AllWhole(whole: seq<byte>, part: seq<byte>, m: seq<byte>)
    requires whole + part == m && |m| % 64 == 0 && |whole| % 64 == 0 && |part| < 64
    ensures whole == m
  {
  }

  lemma XorKey(k: seq<byte>, k0: Chunk, v: byte, pad: Chunk)
    requires |k| <= 64 && k0 == k + Zeros(64 - |k|)
    requires forall j :: 0 <= j < |k| ==> pad[j] == XorByte(v, k[j])
    requires forall j :: |k| <= j < 64 ==> pad[j] == v
    ensures pad == Xor(k0, Repeated(v))
  {
    hide XorByte;
    forall j | 0 <= j < 64
      ensures pad[j] == XorByte(k0[j], v)
    {
      if j < |k| {
        XorByteComm(v, k[j]);
      } else {
        XorByteZero(v);
      }
    }
  }

  // ------------------------------------------------------------- whole runs

  predicate Small(chunks: seq<seq<byte>>) {
    forall i :: 0 <= i < |chunks| ==> |chunks[i]| < U32
  }

  /** Any cutting of a message into calls of less than 2^32 bytes. */
  method HashRun(cf: Compression, chunks: seq<seq<byte>>) returns (output: Digest)
    requires Small(chunks)
    ensures output == Hash(cf, Flatten(chunks)) && IsHash(cf, Flatten(chunks), output)
  {
    hide IsHash, Hash, Flatten, Context.Absorbed, Context.Kept, Context.Counted;
    var ctx := new Context(cf);
    ctx.Init();
    NoChunks();
    assert chunks[..0] == [];
    for i := 0 to |chunks|
      invariant ctx.Valid() && ctx.Message() == Flatten(chunks[..i])
      invariant fresh(ctx) && ctx.cf == cf
    {
      FlattenNext(chunks, i);
      ctx.Update(chunks[i]);
    }
    assert chunks[..|chunks|] == chunks;
    output := ctx.Final();
  }

  lemma NoChunks()
    ensures Flatten([]) == []
  {
  }

  /** The streaming HMAC, for every key and every cutting of the text. */
  method HmacRun(cf: Compression, key: seq<byte>, chunks: seq<seq<byte>>) returns (output: Digest)
    requires |key| < U32 && Small(chunks)
    ensures output == Hmac(cf, key, Flatten(chunks)) && IsHmac(cf, key, Flatten(chunks), output)
  {
    hide IsHash, IsHmac, Hash, Hmac, Flatten, Xor, BlockKey, Repeated, Context.Absorbed, Context.Kept, Context.Counted;
    var ctx := new Context(cf);
    ctx.HmacInit(key);
    NoChunks();
    assert chunks[..0] == [];
    ghost var start: seq<byte> := ctx.Message();
    for i := 0 to |chunks|
      invariant ctx.Valid() && ctx.Message() == start + Flatten(chunks[..i])
      invariant fresh(ctx) && ctx.cf == cf && ctx.opad == Xor(BlockKey(cf, key), Repeated(0x5C))
    {
      FlattenNext(chunks, i);
      ctx.Update(chunks[i]);
    }
    assert chunks[..|chunks|] == chunks;
    output := ctx.HmacFinal(key, Flatten(chunks));
  }
}
