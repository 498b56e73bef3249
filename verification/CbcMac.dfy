/** core/crypto/cbc-mac.c: CBC-MAC over any cipher of 8- or 16-byte blocks, fed in pieces of any size. */
module CbcMac {
  import opened Bytes
  import opened BlockModes

  // -------------------------------------------------------------- the one-shot form

  /** The block length of the cipher: 8 for DES and Triple DES, 16 for AES. */
  type BlockLen = n: nat | n == 8 || n == 16 witness 8

  type Cipher = seq<byte> -> seq<byte>

  /** The cipher maps blocks to blocks. */
  ghost predicate Keeps(f: Cipher, bl: BlockLen) {
    forall b: seq<byte> :: |b| == bl ==> |f(b)| == bl
  }

  function Rem(n: nat, bl: BlockLen): (r: nat)
    ensures r < bl
  {
    if bl == 8 then n % 8 else n % 16
  }

  /** The whole blocks in n bytes. */
  function Quot(n: nat, bl: BlockLen): nat {
    if bl == 8 then n / 8 else n / 16
  }

  function Times(n: nat, bl: BlockLen): nat {
    if bl == 8 then n * 8 else n * 16
  }

  function Pkcs5(msg: seq<byte>, bl: BlockLen): (r: seq<byte>)
    ensures Rem(|r|, bl) == 0 && |r| > |msg|
  {
    var n := bl - Rem(|msg|, bl);
    msg + Filled(n, n)
  }

  function Filled(n: nat, v: byte): (r: seq<byte>)
    ensures |r| == n && forall i :: 0 <= i < n ==> r[i] == v
  {
    seq<byte>(n, _ => v)
  }

  datatype Result = Digest(mac: seq<byte>) | BadState

  /** The last block of the CBC encryption of whole blocks with a zero iv, and the zero iv when there are none. */
  ghost function Chained(f: Cipher, bl: BlockLen, whole: seq<byte>): (r: seq<byte>)
    requires Keeps(f, bl) && Rem(|whole|, bl) == 0
    ensures |r| == bl
    decreases |whole|
  {
    hide Xor;
    if |whole| < bl then Zeros(bl)
    else f(Xor(whole[|whole| - bl..], Chained(f, bl, whole[..|whole| - bl])))
  }

  /** The last CBC block of the whole message; there is none without whole blocks. */
  ghost function Mac(f: Cipher, bl: BlockLen, pkcs5: bool, msg: seq<byte>, digestLen: nat): Result
    requires Keeps(f, bl)
  {
    hide Chained;
    var m := if pkcs5 then Pkcs5(msg, bl) else msg;
    if m == [] || Rem(|m|, bl) != 0 then BadState
    else Digest(Chained(f, bl, m)[..if digestLen < bl then digestLen else bl])
  }

  /** On 16-byte blocks this is the last block of CBC as the cipher modes have it. */
  lemma {:induction false} ChainedIsCbc(f: Cipher, e: BlockFun, m: seq<byte>)
    requires Keeps(f, 16) && (forall b: Block :: f(b) == e(b)) && |m| % 16 == 0
    ensures Chained(f, 16, m) == Chain(Zeros(16), Cbc(e, Zeros(16), m))
    decreases |m|
  {
    hide Cbc, Xor;
    var z := Zeros(16);
    if |m| < 16 {
      CbcEmpty(e, z);
      assert m == [];
    } else {
      var a := m[..|m| - 16];
      var b: Block := m[|m| - 16..];
      assert a + b == m;
      ChainedIsCbc(f, e, a);
      CbcAppend(e, z, a, b);
      CbcBlock(e, Chain(z, Cbc(e, z, a)), b);
    }
  }

  // ----------------------------------------------------------- block by block

  /** Value i is the cipher on the sum of block i - 1 and value i - 1. */
  ghost predicate NextChained(f: Cipher, bl: BlockLen, m: seq<byte>, vs: seq<seq<byte>>, i: int)
    requires 0 < i < |vs|
  {
    var a, b := Times(i - 1, bl), Times(i, bl);
    0 <= a <= b <= |m| && |vs[i - 1]| == b - a && vs[i] == f(Xor(m[a..b], vs[i - 1]))
  }

  /** The values from zero on, one more than there are blocks. */
  ghost predicate IsChained(f: Cipher, bl: BlockLen, m: seq<byte>, vs: seq<seq<byte>>) {
    && |vs| == Quot(|m|, bl) + 1
    && |vs[0]| == bl && (forall i :: 0 <= i < bl ==> vs[0][i] == 0)
    && forall i :: 0 < i < |vs| ==> NextChained(f, bl, m, vs, i)
  }

  /** The padded message: n times the byte n, from 1 to a whole block. */
  ghost predicate IsPkcs5(msg: seq<byte>, bl: BlockLen, m: seq<byte>) {
    && Rem(|m|, bl) == 0 && |msg| < |m| <= |msg| + bl && m[..|msg|] == msg
    && forall i :: |msg| <= i < |m| ==> m[i] == |m| - |msg|
  }

  /** The result: the beginning of the last value, or a refusal without whole blocks. */
  ghost predicate IsMac(f: Cipher, bl: BlockLen, pkcs5: bool, msg: seq<byte>, digestLen: nat, r: Result) {
    exists m :: (if pkcs5 then IsPkcs5(msg, bl, m) else m == msg) &&
      if m == [] || Rem(|m|, bl) != 0 then r == BadState
      else r.Digest? && exists vs :: IsChained(f, bl, m, vs) && |r.mac| == (if digestLen < bl then digestLen else bl) &&
                                     r.mac <= vs[|vs| - 1]
  }

  lemma QuotTimes(n: nat, bl: BlockLen)
    ensures Rem(n, bl) == 0 ==> Times(Quot(n, bl), bl) == n
    ensures n >= bl ==> Quot(n, bl) == Quot(n - bl, bl) + 1 && Rem(n, bl) == Rem(n - bl, bl)
    ensures n < bl ==> Quot(n, bl) == 0
  {
  }

  lemma {:induction false} ChainedSpelledOut(f: Cipher, bl: BlockLen, m: seq<byte>) returns (vs: seq<seq<byte>>)
    requires Keeps(f, bl) && Rem(|m|, bl) == 0
    ensures IsChained(f, bl, m, vs) && vs[|vs| - 1] == Chained(f, bl, m)
    decreases |m|
  {
    hide Rem, Quot, Times, Xor;
    QuotTimes(|m|, bl);
    if |m| < bl {
      vs := [Zeros(bl)];
    } else {
      var a, b := m[..|m| - bl], m[|m| - bl..];
      var us := ChainedSpelledOut(f, bl, a);
      var n := |us|;
      vs := us + [Chained(f, bl, m)];
      QuotTimes(|a|, bl);
      forall i | 0 < i < |vs|
        ensures NextChained(f, bl, m, vs, i)
      {
        if i < n {
          assert NextChained(f, bl, a, us, i);
          var lo, hi := Times(i - 1, bl), Times(i, bl);
          assert a[lo..hi] == m[lo..hi];
        } else {
          assert m[|a|..|m|] == b;
        }
      }
    }
  }

  lemma MacSpelledOut(f: Cipher, bl: BlockLen, pkcs5: bool, msg: seq<byte>, digestLen: nat)
    requires Keeps(f, bl)
    ensures IsMac(f, bl, pkcs5, msg, digestLen, Mac(f, bl, pkcs5, msg, digestLen))
  {
    hide Rem, Chained, IsChained, Keeps;
    var m := if pkcs5 then Pkcs5(msg, bl) else msg;
    assert pkcs5 ==> IsPkcs5(msg, bl, m);
    if m != [] && Rem(|m|, bl) == 0 {
      var vs := ChainedSpelledOut(f, bl, m);
    }
  }

  // ---------------------------------------------------------------- the code

  lemma ChainedMore(f: Cipher, bl: BlockLen, m: seq<byte>, b: seq<byte>)
    requires Keeps(f, bl) && Rem(|m|, bl) == 0 && |b| == bl
    ensures Rem(|m + b|, bl) == 0 && Chained(f, bl, m + b) == f(Xor(b, Chained(f, bl, m)))
  {
    hide Xor;
    var t := m + b;
    assert t[..|t| - bl] == m && t[|t| - bl..] == b;
  }

  /** How much goes to the cipher at once: a bundle if its output has a buffer, else one block. */
  function BundleLen(bl: BlockLen, left: nat, bundle: nat, outTmp: bool): (r: nat)
    requires left >= bl
    ensures bl <= r <= left && Rem(r, bl) == 0
  {
    var nblocks := if Quot(left, bl) < bundle then Quot(left, bl) else bundle;
    if nblocks > 1 && outTmp then Times(nblocks, bl) else bl
  }

  class Context {
    const f: Cipher
    const blockLen: BlockLen
    const pkcs5Pad: bool
    /** CFG_CRYPTO_CBC_MAC_BUNDLE_BLOCKS. */
    const bundle: nat
    /** The chaining block inside the CBC context. */
    var chain: seq<byte>
    var block: seq<byte>
    var digest: seq<byte>
    var currentBlockLen: nat
    var isComputed: bool
    /** The message so far: the blocks that went through the cipher, and the rest. */
    ghost var whole: seq<byte>
    ghost var part: seq<byte>

    ghost predicate Computed()
      reads `chain, `digest, `isComputed, `whole
    {
      && Keeps(f, blockLen) && Rem(|whole|, blockLen) == 0 && chain == Chained(f, blockLen, whole)
      && (isComputed <==> whole != [])
      && (isComputed ==> digest == chain)
    }

    ghost predicate Kept()
      reads `block, `currentBlockLen, `part
    {
      |block| == blockLen && currentBlockLen == |part| < blockLen && block[..currentBlockLen] == part
    }

    ghost predicate Valid()
      reads this
    {
      Computed() && Kept()
    }

    ghost function Message(): seq<byte>
      reads `whole, `part
    {
      whole + part
    }

    constructor (f: Cipher, blockLen: BlockLen, pkcs5Pad: bool, bundle: nat)
      ensures this.f == f && this.blockLen == blockLen && this.pkcs5Pad == pkcs5Pad
    {
      this.f, this.blockLen, this.pkcs5Pad, this.bundle := f, blockLen, pkcs5Pad, bundle;
      chain, block, digest, currentBlockLen, isComputed := [], [], [], 0, false;
      whole, part := [], [];
    }

    /** crypto_cbc_mac_init. */
    method Init()
      requires Keeps(f, blockLen)
      modifies this
      ensures Valid() && Message() == []
    {
      block, digest, currentBlockLen, isComputed := Zeros(blockLen), Zeros(blockLen), 0, false;
      chain := block;
      whole, part := [], [];
    }

    /** crypto_cipher_update: CBC encryption that goes on where it stopped. */
    method Encrypt(data: seq<byte>) returns (out: seq<byte>)
      requires Rem(|data|, blockLen) == 0 && |data| >= blockLen
      requires Keeps(f, blockLen) && Rem(|whole|, blockLen) == 0 && chain == Chained(f, blockLen, whole)
      modifies `chain, `whole
      ensures |out| == |data| && whole == old(whole) + data && Rem(|whole|, blockLen) == 0
      ensures chain == Chained(f, blockLen, whole) == out[|out| - blockLen..]
    {
      hide Chained, Xor;
      out := [];
      var n := 0;
      while n < |data|
        invariant n <= |data| && Rem(n, blockLen) == 0 && |out| == n
        invariant whole == old(whole) + data[..n] && Rem(|whole|, blockLen) == 0
        invariant chain == Chained(f, blockLen, whole) && (n > 0 ==> out[n - blockLen..] == chain)
      {
        WholeLeft(n, |data|, blockLen);
        var b := data[n..n + blockLen];
        assert data[..n] + b == data[..n + blockLen];
        ChainedMore(f, blockLen, whole, b);
        chain := f(Xor(b, chain));
        out := out + chain;
        whole := whole + b;
        n := n + blockLen;
      }
      assert data[..n] == data;
    }

    /** The block begun by earlier calls, if this one completes it. */
    method FillBlock(data: seq<byte>) returns (rest: seq<byte>)
      requires Valid()
      modifies `chain, `block, `digest, `currentBlockLen, `isComputed, `whole, `part
      ensures Valid() && Message() + rest == old(Message()) + data
      ensures part == [] || |part| + |rest| < blockLen
    {
      hide Chained, Keeps, Rem;
      OneBlock(blockLen);
      rest := data;
      if currentBlockLen > 0 && |data| + currentBlockLen >= blockLen {
        var padLen := blockLen - currentBlockLen;
        block := block[..currentBlockLen] + data[..padLen];
        rest := data[padLen..];
        assert part + data == block + rest;
        digest := Encrypt(block);
        isComputed := true;
        currentBlockLen := 0;
        part := [];
        assert whole + part + rest == old(whole) + block + rest;
      }
    }

    /** The whole blocks, in bundles when there is room for their output. */
    method Blocks(data: seq<byte>, alloc: bool) returns (n: nat)
      requires Computed()
      modifies `chain, `digest, `isComputed, `whole
      ensures n <= |data| && |data| - n < blockLen && Computed() && whole == old(whole) + data[..n]
      ensures |data| < blockLen ==> n == 0
    {
      hide Chained, BundleLen, Keeps, Rem, Quot;
      var nblocks := if Quot(|data|, blockLen) < bundle then Quot(|data|, blockLen) else bundle;
      var outTmp := nblocks > 1 && alloc;
      n := 0;
      while |data| - n >= blockLen
        invariant n <= |data| && Rem(|whole|, blockLen) == 0
        invariant whole == old(whole) + data[..n]
        invariant chain == Chained(f, blockLen, whole)
        invariant isComputed <==> whole != []
        invariant isComputed ==> digest == chain || |data| - n >= blockLen
        invariant |data| < blockLen ==> n == 0
      {
        var len := BundleLen(blockLen, |data| - n, bundle, outTmp);
        var out := Encrypt(data[n..n + len]);
        SliceMore(old(whole), data, n, n + len);
        isComputed := true;
        n := n + len;
        if len == blockLen {
          digest := out;
        } else if |data| - n < blockLen {
          digest := out[|out| - blockLen..];
        }
      }
    }

    /** crypto_cbc_mac_update; `alloc` tells whether calloc gives the temporary buffer. */
    method Update(data: seq<byte>, alloc: bool)
      requires Valid()
      modifies `chain, `block, `digest, `currentBlockLen, `isComputed, `whole, `part
      ensures Valid() && Message() == old(Message()) + data
    {
      hide Chained, Computed;
      var rest := FillBlock(data);
      ghost var w, p := whole, part;
      var n := Blocks(rest, alloc);
      var tail := rest[n..];
      RestJoined(w, p, rest, n);
      RestBuffered(block, p, tail);
      if tail != [] {
        block := block[..currentBlockLen] + tail + block[currentBlockLen + |tail|..];
        currentBlockLen := currentBlockLen + |tail|;
      }
      part := part + tail;
    }

    /** The padding of crypto_cbc_mac_final. */
    method Pad(alloc: bool)
      requires Valid()
      modifies `chain, `block, `digest, `currentBlockLen, `isComputed, `whole, `part
      ensures Valid() && Message() == Pkcs5(old(Message()), blockLen)
    {
      hide Chained, Filled, Pkcs5;
      var padLen: byte := blockLen - currentBlockLen;
      block := block[..currentBlockLen] + Filled(padLen, padLen);
      PaddedMessage(blockLen, whole, part, block);
      assert whole + [] + block == whole + block;
      currentBlockLen := 0;
      part := [];
      Update(block, alloc);
    }

    /** crypto_cbc_mac_final. */
    method Final(digestLen: nat, alloc: bool) returns (r: Result)
      requires Valid() && Keeps(f, blockLen)
      modifies `chain, `block, `digest, `currentBlockLen, `isComputed, `whole, `part
      ensures r == Mac(f, blockLen, pkcs5Pad, old(Message()), digestLen)
      ensures IsMac(f, blockLen, pkcs5Pad, old(Message()), digestLen, r)
    {
      hide IsMac;
      MacSpelledOut(f, blockLen, pkcs5Pad, Message(), digestLen);
      hide Chained, Pkcs5, Keeps, Rem;
      if pkcs5Pad {
        Pad(alloc);
      }
      Remainder(blockLen, whole, part);
      if !isComputed || currentBlockLen != 0 {
        return BadState;
      }
      return Digest(digest[..if digestLen < blockLen then digestLen else blockLen]);
    }
  }

  lemma OneBlock(bl: BlockLen)
    ensures Rem(bl, bl) == 0
  {
  }

  lemma WholeLeft(n: nat, len: nat, bl: BlockLen)
    requires n < len && Rem(n, bl) == 0 && Rem(len, bl) == 0
    ensures n + bl <= len && Rem(n + bl, bl) == 0
  {
    SameRem(n + bl, n, bl, 1);
    if bl == 8 {
      assert n == 8 * (n / 8) && len == 8 * (len / 8);
    } else {
      assert n == 16 * (n / 16) && len == 16 * (len / 16);
    }
  }

  lemma Remainder(bl: BlockLen, w: seq<byte>, p: seq<byte>)
    requires Rem(|w|, bl) == 0 && |p| < bl
    ensures Rem(|w + p|, bl) == |p| && (w + p == [] <==> w == [] && p == []) && (p == [] ==> w + p == w)
  {
    if bl == 8 {
      SameRem(|w + p|, |p|, 8, |w| / 8);
    } else {
      SameRem(|w + p|, |p|, 16, |w| / 16);
    }
  }

  lemma PaddedMessage(bl: BlockLen, w: seq<byte>, p: seq<byte>, block: seq<byte>)
    requires Rem(|w|, bl) == 0 && |p| < bl && block == p + Filled(bl - |p|, bl - |p|)
    ensures Pkcs5(w + p, bl) == w + block
  {
    hide Rem;
    Remainder(bl, w, p);
  }

  /** Any cutting of the message, any bundle size, any outcome of the allocations. */
  method Run(f: Cipher, bl: BlockLen, pkcs5Pad: bool, bundle: nat, chunks: seq<seq<byte>>, allocs: seq<bool>,
             digestLen: nat) returns (r: Result)
    requires Keeps(f, bl) && |allocs| == |chunks| + 1
    ensures r == Mac(f, bl, pkcs5Pad, Flatten(chunks), digestLen)
    ensures IsMac(f, bl, pkcs5Pad, Flatten(chunks), digestLen, r)
  {
    hide IsMac;
    hide Mac, Flatten, Keeps, Context.Computed, Context.Kept;
    var mc := new Context(f, bl, pkcs5Pad, bundle);
    mc.Init();
    FlattenEmpty(Zeros(16));
    assert chunks[..0] == [];
    for i := 0 to |chunks|
      invariant mc.Valid() && mc.Message() == Flatten(chunks[..i])
      invariant fresh(mc) && mc.f == f && mc.blockLen == bl && mc.pkcs5Pad == pkcs5Pad
    {
      FlattenNext(chunks, i);
      mc.Update(chunks[i], allocs[i]);
    }
    assert chunks[..|chunks|] == chunks;
    r := mc.Final(digestLen, allocs[|chunks|]);
  }

  /** It fails exactly when no block was processed or, unpadded, a partial block remains. */
  lemma FailsExactly(f: Cipher, bl: BlockLen, pkcs5: bool, msg: seq<byte>, digestLen: nat)
    requires Keeps(f, bl)
    ensures Mac(f, bl, pkcs5, msg, digestLen) == BadState <==> !pkcs5 && (|msg| < bl || Rem(|msg|, bl) != 0)
  {
    hide Chained;
  }
}
