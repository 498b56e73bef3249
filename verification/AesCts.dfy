/** cbc_cts_update of core/crypto/aes-cts.c: CBC with ciphertext stealing over any block cipher. */
module AesCts {
  import opened Bytes
  import opened BlockModes

  // -------------------------------------------------------------- the standard

  /** Where the last block, partial or full, begins. */
  function LastStart(n: nat): (m: nat)
    requires n > 16
    ensures m % 16 == 0 && 16 <= m && 0 < n - m <= 16
  {
    (n - 1) / 16 * 16
  }

  /** CBC-CS3: pad with zeros, encrypt with CBC, swap the last two blocks, cut to the original length. */
  function CtsEncrypt(f: BlockFun, iv: Block, p: seq<byte>): (c: seq<byte>)
    requires |p| > 16
    ensures |c| == |p|
  {
    hide Cbc;
    var m := LastStart(|p|);
    var c := Cbc(f, iv, p[..m] + Padded(p[m..]));
    Swapped(c, m, |p|)
  }

  /** The blocks around m exchanged, and the whole cut to n bytes. */
  function Swapped(c: seq<byte>, m: nat, n: nat): (r: seq<byte>)
    requires 16 <= m <= n <= |c|
    ensures |r| == n
  {
    (c[..m - 16] + c[m..] + c[m - 16..m])[..n]
  }

  lemma Slices(x: seq<byte>, y: seq<byte>, j: nat, k: nat)
    requires j <= k <= |y|
    ensures (x + y)[..|x| + k] == x + y[..k]
    ensures (x + y)[|x| + k..] == y[k..]
    ensures (x + y)[|x| + j..|x| + k] == y[j..k]
  {
  }

  lemma SwappedParts(c: seq<byte>, m: nat, n: nat)
    requires 16 <= m <= n <= |c| == m + 16
    ensures Swapped(c, m, n)[..m - 16] == c[..m - 16]
    ensures Swapped(c, m, n)[m - 16..m] == c[m..]
    ensures Swapped(c, m, n)[m..] == c[m - 16..m][..n - m]
  {
  }

  lemma SwappedAppend(a: seq<byte>, c: seq<byte>, m: nat, n: nat)
    requires 16 <= m <= n <= |c|
    ensures Swapped(a + c, |a| + m, |a| + n) == a + Swapped(c, m, n)
  {
    Slices(a, c, m - 16, m);
    Slices(a, c, m - 16, m - 16);
    var t := c[..m - 16] + c[m..] + c[m - 16..m];
    assert a + c[..m - 16] + c[m..] + c[m - 16..m] == a + t;
    Slices(a, t, n, n);
  }

  function Padded(s: seq<byte>): (r: Block)
    requires |s| <= 16
  {
    s + Zeros(16 - |s|)
  }

  /** The padding is the one that completes the block. */
  lemma PaddedIsZeroPadding(p: seq<byte>)
    requires |p| > 16
    ensures p[..LastStart(|p|)] + Padded(p[LastStart(|p|)..]) == PadZero(p)
  {
    hide LastStart;
    var m := LastStart(|p|);
    PadCount(|p|, m);
    assert p == p[..m] + p[m..];
  }

  lemma PadCount(n: nat, m: nat)
    requires m % 16 == 0 && 0 < n - m <= 16
    ensures (16 - n % 16) % 16 == 16 - (n - m)
  {
  }

  /** The inverse: complete the last block from the deciphered one before it, swap, decrypt, cut. */
  function CtsDecrypt(g: BlockFun, iv: Block, c: seq<byte>): (p: seq<byte>)
    requires |c| > 16
    ensures |p| == |c|
  {
    hide CbcInv, Rejoined;
    CbcInv(g, iv, Rejoined(g, c, LastStart(|c|)))[..|c|]
  }

  /** The ciphertext as CBC produced it. */
  function Rejoined(g: BlockFun, c: seq<byte>, m: nat): (r: seq<byte>)
    requires 16 <= m <= |c| <= m + 16
    ensures |r| == m + 16
  {
    c[..m - 16] + Completed(c[m..], g(c[m - 16..m])) + c[m - 16..m]
  }

  function Completed(s: seq<byte>, d: Block): Block
    requires |s| <= 16
  {
    s + d[|s|..]
  }

  /** Beyond the padded string the exclusive or is the other operand. */
  lemma XorPadded(s: seq<byte>, b: Block)
    requires |s| <= 16
    ensures Xor(Padded(s), b)[|s|..] == b[|s|..]
  {
    hide XorByte, Xor;
    XorSlice(Padded(s), b, |s|, 16);
    var x := Xor(Padded(s), b);
    assert Padded(s)[|s|..16] == Zeros(16 - |s|) && b[|s|..16] == b[|s|..] && x[|s|..16] == x[|s|..];
    XorZeros(b[|s|..]);
  }

  /** The last two CBC blocks, the earlier one read back from the later. */
  lemma LastTwo(g: BlockFun, f: BlockFun, iv: Block, x: seq<byte>, last: seq<byte>)
    requires Inverts(g, f) && |x| % 16 == 0 && |x| >= 16 && |last| <= 16
    ensures var c := Cbc(f, iv, x + Padded(last));
      Completed(c[|x| - 16..|x|][..|last|], g(c[|x|..])) == c[|x| - 16..|x|]
  {
    hide Cbc, Xor, Padded, Chain;
    var c, a := Cbc(f, iv, x + Padded(last)), Cbc(f, iv, x);
    CbcAppend(f, iv, x, Padded(last));
    ChainLast(iv, a);
    var prev: Block := a[|a| - 16..];
    var b: Block := f(Xor(Padded(last), prev));
    CbcBlock(f, prev, Padded(last));
    EndOfConcat(a, b);
    XorPadded(last, prev);
    assert prev[..|last|] + prev[|last|..] == prev;
  }

  lemma EndOfConcat(a: seq<byte>, b: seq<byte>)
    requires |a| >= 16
    ensures (a + b)[|a| - 16..|a|] == a[|a| - 16..] && (a + b)[|a|..] == b
  {
  }

  /** Decryption undoes encryption for every length beyond one block. */
  lemma CtsInverts(g: BlockFun, f: BlockFun, iv: Block, p: seq<byte>)
    requires Inverts(g, f) && |p| > 16
    ensures CtsDecrypt(g, iv, CtsEncrypt(f, iv, p)) == p
  {
    hide Cbc, CbcInv, Padded, Completed, LastStart, Swapped;
    var m := LastStart(|p|);
    var q := p[..m] + Padded(p[m..]);
    var c := Cbc(f, iv, q);
    var x := CtsEncrypt(f, iv, p);
    SwappedParts(c, m, |p|);
    LastTwo(g, f, iv, p[..m], p[m..]);
    assert c[..m - 16] + c[m - 16..m] + c[m..] == c;
    CbcInverts(g, f, iv, q);
    PaddedIsZeroPadding(p);
    assert q[..|p|] == p;
  }

  /** Block-aligned text in front goes through plain CBC and only moves the chaining block. */
  lemma CtsEncryptAppend(f: BlockFun, iv: Block, x: seq<byte>, y: seq<byte>)
    requires |x| % 16 == 0 && |y| > 16
    ensures CtsEncrypt(f, iv, x + y) == Cbc(f, iv, x) + CtsEncrypt(f, Chain(iv, Cbc(f, iv, x)), y)
  {
    hide Cbc, Chain, Padded, LastStart, Swapped;
    LastStartSum(|x|, |y|);
    var m := LastStart(|y|);
    var q := y[..m] + Padded(y[m..]);
    Slices(x, y, m, m);
    assert x + y[..m] + Padded(y[m..]) == x + q;
    CbcAppend(f, iv, x, q);
    SwappedAppend(Cbc(f, iv, x), Cbc(f, Chain(iv, Cbc(f, iv, x)), q), m, |y|);
  }

  lemma CtsDecryptAppend(g: BlockFun, iv: Block, x: seq<byte>, y: seq<byte>)
    requires |x| % 16 == 0 && |y| > 16
    ensures CtsDecrypt(g, iv, x + y) == CbcInv(g, iv, x) + CtsDecrypt(g, Chain(iv, x), y)
  {
    hide CbcInv, Chain, Rejoined, LastStart;
    LastStartSum(|x|, |y|);
    var q := Rejoined(g, y, LastStart(|y|));
    RejoinedAppend(g, x, y, LastStart(|y|));
    CbcInvAppend(g, iv, x, q);
    Slices(CbcInv(g, iv, x), CbcInv(g, Chain(iv, x), q), |y|, |y|);
  }

  lemma RejoinedAppend(g: BlockFun, x: seq<byte>, y: seq<byte>, m: nat)
    requires 16 <= m <= |y| <= m + 16
    ensures Rejoined(g, x + y, |x| + m) == x + Rejoined(g, y, m)
  {
    hide Completed;
    Slices(x, y, m - 16, m);
    Slices(x, y, m - 16, m - 16);
  }

  lemma LastStartSum(a: nat, b: nat)
    requires a % 16 == 0 && b > 16
    ensures LastStart(a + b) == a + LastStart(b)
  {
    SameRem(a + b - 1, b - 1, 16, a / 16);
  }

  // ----------------------------------------------------------- block by block

  /** e is the CBC ciphertext of p made up to whole blocks with zeros; c is e with its last two blocks exchanged. */
  ghost predicate IsCtsEncrypted(f: BlockFun, iv: Block, p: seq<byte>, c: seq<byte>) {
    exists m: nat, q, e ::
      && m % 16 == 0 && 16 <= m < |p| <= m + 16 && |q| == m + 16 && |c| == |p|
      && q[..|p|] == p && (forall i :: |p| <= i < |q| ==> q[i] == 0)
      && IsCbc(f, iv, q, e)
      && c[..m - 16] == e[..m - 16] && c[m - 16..m] == e[m..] && c[m..] == e[m - 16..|p| - 16]
  }

  /** e is c with its last two blocks exchanged, the shorter made up with the end of what g makes of the other. */
  ghost predicate IsCtsDecrypted(g: BlockFun, iv: Block, c: seq<byte>, p: seq<byte>) {
    exists m: nat, q, e ::
      && m % 16 == 0 && 16 <= m < |c| <= m + 16 && |e| == m + 16
      && e[..m - 16] == c[..m - 16] && e[m..] == c[m - 16..m] && e[m - 16..|c| - 16] == c[m..]
      && e[|c| - 16..m] == g(c[m - 16..m])[|c| - m..]
      && IsCbcInv(g, iv, e, q) && p == q[..|c|]
  }

  lemma CtsEncryptSpelledOut(f: BlockFun, iv: Block, p: seq<byte>)
    requires |p| > 16
    ensures IsCtsEncrypted(f, iv, p, CtsEncrypt(f, iv, p))
  {
    hide Cbc, IsCbc, LastStart, Swapped;
    var m := LastStart(|p|);
    var q := p[..m] + Padded(p[m..]);
    var e := Cbc(f, iv, q);
    CbcSpelledOut(f, iv, q);
    SwappedParts(e, m, |p|);
    assert q[..|p|] == p;
    assert e[m - 16..m][..|p| - m] == e[m - 16..|p| - 16];
  }

  lemma CtsDecryptSpelledOut(g: BlockFun, iv: Block, c: seq<byte>)
    requires |c| > 16
    ensures IsCtsDecrypted(g, iv, c, CtsDecrypt(g, iv, c))
  {
    hide CbcInv, IsCbcInv, LastStart, Rejoined;
    var m := LastStart(|c|);
    var e := Rejoined(g, c, m);
    RejoinedParts(g, c, m);
    CbcInvSpelledOut(g, iv, e);
    var q := CbcInv(g, iv, e);
    assert CtsDecrypt(g, iv, c) == q[..|c|];
  }

  lemma RejoinedParts(g: BlockFun, c: seq<byte>, m: nat)
    requires 16 <= m < |c| <= m + 16
    ensures var e := Rejoined(g, c, m);
      && e[..m - 16] == c[..m - 16] && e[m..] == c[m - 16..m] && e[m - 16..|c| - 16] == c[m..]
      && e[|c| - 16..m] == g(c[m - 16..m])[|c| - m..]
  {
  }

  // ---------------------------------------------------------------- the code

  /** The longest last call whose block offsets, computed as int, do not overflow. */
  const LAST_MAX: nat := 0x8000_0000

  /** The offset of the last block fits a 32-bit int exactly up to that length. */
  lemma OffsetFits(n: nat)
    requires n > 16
    ensures (BlockCount(n) - 1) * 16 == LastStart(n)
    ensures (BlockCount(n) - 1) * 16 <= 0x7fff_ffff <==> n <= LAST_MAX
  {
  }

  datatype Result = Success(dst: seq<byte>) | BadParameters | BadState

  type Int32 = x: int | -0x8000_0000 <= x <= 0x7fff_ffff

  /** The two contexts: CBC with its chaining block, and ECB under the same key. */
  class CtsContext {
    const enc: BlockFun
    const dec: BlockFun
    const mode: Mode
    var iv: Block

    constructor (enc: BlockFun, dec: BlockFun, mode: Mode, iv: Block)
      ensures this.enc == enc && this.dec == dec && this.mode == mode && this.iv == iv
    {
      this.enc, this.dec, this.mode, this.iv := enc, dec, mode, iv;
    }

    /** tee_do_cipher_update on the CBC context, not on the last block. */
    method CbcUpdate(data: seq<byte>) returns (r: Result)
      modifies `iv
      ensures |data| % 16 != 0 ==> r == BadParameters && iv == old(iv)
      ensures |data| % 16 == 0 && mode == Encrypting ==>
        r == Success(Cbc(enc, old(iv), data)) && iv == Chain(old(iv), Cbc(enc, old(iv), data))
      ensures |data| % 16 == 0 && mode == Decrypting ==>
        r == Success(CbcInv(dec, old(iv), data)) && iv == Chain(old(iv), data)
    {
      hide Cbc, CbcInv, Chain;
      if |data| % 16 != 0 {
        return BadParameters;
      }
      if mode == Encrypting {
        var c := Cbc(enc, iv, data);
        iv := Chain(iv, c);
        return Success(c);
      }
      var p := CbcInv(dec, iv, data);
      iv := Chain(iv, data);
      return Success(p);
    }

    method EncryptLast(data: seq<byte>) returns (r: Result)
      requires mode == Encrypting && 16 < |data| <= LAST_MAX
      modifies `iv
      ensures r == Success(CtsEncrypt(enc, old(iv), data))
    {
      hide Cbc, Chain, LastStart;
      OffsetFits(|data|);
      var m: Int32 := (BlockCount(|data|) - 1) * 16;
      var tmp: Block := data[m..] + Zeros(16 - (|data| - m));
      ghost var iv0 := iv;
      var head := CbcUpdate(data[..m]);
      var dst := head.dst;
      var moved := dst[m - 16..][..|data| - m];
      ChainLast(iv0, dst);
      CbcAppend(enc, iv0, data[..m], tmp);
      var last := CbcUpdate(tmp);
      var c := dst[..m - 16] + last.dst + moved;
      assert tmp == Padded(data[m..]);
      ghost var all := dst + last.dst;
      assert all[..m - 16] == dst[..m - 16] && all[m..] == last.dst && all[m - 16..m] == dst[m - 16..];
      r := Success(c);
    }

    method DecryptLast(data: seq<byte>) returns (r: Result)
      requires mode == Decrypting && 16 < |data| <= LAST_MAX
      modifies `iv
      ensures r == Success(CtsDecrypt(dec, old(iv), data))
    {
      hide CbcInv, Chain, LastStart, CtsDecrypt;
      OffsetFits(|data|);
      var m: Int32 := (BlockCount(|data|) - 1) * 16;
      var n := |data| - m;
      SameRem(m, m - 16, 16, 1);
      var x, y := data[..m - 16], data[m - 16..m];
      var tmp2 := dec(y);
      var tmp: Block := data[m..] + tmp2[n..];
      CtsDecryptParts(dec, iv, data, m, x, y, tmp);
      ghost var iv0 := iv;
      var dst := [];
      if m > 16 {
        var head := CbcUpdate(x);
        dst := head.dst;
      } else {
        NothingChained(dec, iv0, x);
      }
      var mid := CbcUpdate(tmp);
      var last := CbcUpdate(y);
      r := Success(dst + mid.dst + last.dst[..n]);
    }

    /** cbc_cts_update. */
    method Update(lastBlock: bool, data: seq<byte>) returns (r: Result)
      requires lastBlock ==> |data| <= LAST_MAX
      modifies `iv
      ensures !lastBlock && |data| % 16 != 0 ==> r == BadParameters && iv == old(iv)
      ensures !lastBlock && |data| % 16 == 0 && mode == Encrypting ==>
        r == Success(Cbc(enc, old(iv), data)) && iv == Chain(old(iv), Cbc(enc, old(iv), data))
      ensures !lastBlock && |data| % 16 == 0 && mode == Decrypting ==>
        r == Success(CbcInv(dec, old(iv), data)) && iv == Chain(old(iv), data)
      ensures lastBlock && |data| <= 16 ==> r == BadState && iv == old(iv)
      ensures lastBlock && |data| > 16 ==> r == Success(
        if mode == Encrypting then CtsEncrypt(enc, old(iv), data) else CtsDecrypt(dec, old(iv), data))
      ensures lastBlock && |data| > 16 && mode == Encrypting ==> IsCtsEncrypted(enc, old(iv), data, r.dst)
      ensures lastBlock && |data| > 16 && mode == Decrypting ==> IsCtsDecrypted(dec, old(iv), data, r.dst)
    {
      hide Cbc, CbcInv, Chain, CtsEncrypt, CtsDecrypt, IsCtsEncrypted, IsCtsDecrypted;
      if |data| > 16 {
        CtsEncryptSpelledOut(enc, iv, data);
        CtsDecryptSpelledOut(dec, iv, data);
      }
      if !lastBlock {
        r := CbcUpdate(data);
        return;
      }
      var blocks := BlockCount(|data|);
      if blocks < 2 {
        return BadState;
      }
      if mode == Encrypting {
        r := EncryptLast(data);
      } else {
        r := DecryptLast(data);
      }
    }
  }

  /** Decryption part by part: what comes before the last two blocks, the completed one, and the one before it. */
  lemma CtsDecryptParts(g: BlockFun, iv: Block, data: seq<byte>, m: nat, x: seq<byte>, y: Block, tmp: Block)
    requires |data| > 16 && m == LastStart(|data|) && x == data[..m - 16] && y == data[m - 16..m] && |x| % 16 == 0
    requires tmp == data[m..] + g(y)[|data| - m..]
    ensures CtsDecrypt(g, iv, data) == CbcInv(g, iv, x) + CbcInv(g, Chain(iv, x), tmp) +
                                       CbcInv(g, Chain(Chain(iv, x), tmp), y)[..|data| - m]
  {
    hide CbcInv, Chain, LastStart;
    SameRem(|x + tmp|, |x|, 16, 1);
    CbcInvAppend(g, iv, x, tmp);
    ChainConcat(iv, x, tmp);
    CbcInvAppend(g, iv, x + tmp, y);
    Slices(CbcInv(g, iv, x) + CbcInv(g, Chain(iv, x), tmp), CbcInv(g, Chain(Chain(iv, x), tmp), y), 0, |data| - m);
  }

  lemma ChainLast(iv: Block, c: seq<byte>)
    requires |c| % 16 == 0 && |c| >= 16
    ensures Chain(iv, c) == c[|c| - 16..]
  {
  }

  lemma NothingChained(g: BlockFun, iv: Block, x: seq<byte>)
    requires x == []
    ensures CbcInv(g, iv, x) == [] && Chain(iv, x) == iv
  {
  }

  // ------------------------------------------------------------- whole runs

  /** The message in one go: CBC with stealing in the direction of the context. */
  function Cts(ctx: CtsContext, iv: Block, x: seq<byte>): (r: seq<byte>)
    requires |x| > 16
    ensures |r| == |x|
  {
    if ctx.mode == Encrypting then CtsEncrypt(ctx.enc, iv, x) else CtsDecrypt(ctx.dec, iv, x)
  }

  /** Any block-aligned updates before the last one leave the result as it is in one call. */
  method Run(ctx: CtsContext, chunks: seq<seq<byte>>, last: seq<byte>) returns (output: seq<byte>)
    requires Aligned(chunks) && 16 < |last| <= LAST_MAX
    modifies ctx
    ensures output == Cts(ctx, old(ctx.iv), Flatten(chunks) + last)
  {
    hide Cbc, CbcInv, Chain, CtsEncrypt, CtsDecrypt, Flatten, IsCtsEncrypted, IsCtsDecrypted;
    ghost var iv0 := ctx.iv;
    output := [];
    FlattenEmpty(iv0);
    CbcEmpty(ctx.enc, iv0);
    CbcEmpty(ctx.dec, iv0);
    assert chunks[..0] == [];
    for i := 0 to |chunks|
      invariant |Flatten(chunks[..i])| % 16 == 0
      invariant ctx.mode == Encrypting ==>
        output == Cbc(ctx.enc, iv0, Flatten(chunks[..i])) && ctx.iv == Chain(iv0, output)
      invariant ctx.mode == Decrypting ==>
        output == CbcInv(ctx.dec, iv0, Flatten(chunks[..i])) && ctx.iv == Chain(iv0, Flatten(chunks[..i]))
    {
      ghost var done := Flatten(chunks[..i]);
      FlattenNext(chunks, i);
      CbcAppend(ctx.enc, iv0, done, chunks[i]);
      CbcInvAppend(ctx.dec, iv0, done, chunks[i]);
      ChainConcat(iv0, done, chunks[i]);
      var r := ctx.Update(false, chunks[i]);
      if ctx.mode == Encrypting {
        ChainConcat(iv0, output, r.dst);
      }
      output := output + r.dst;
    }
    assert chunks[..|chunks|] == chunks;
    CtsEncryptAppend(ctx.enc, iv0, Flatten(chunks), last);
    CtsDecryptAppend(ctx.dec, iv0, Flatten(chunks), last);
    var r := ctx.Update(true, last);
    output := output + r.dst;
  }

  /** Cuts c into pieces of the given numbers of blocks; what is left is cut to the length of a last call. */
  method Pieces(c: seq<byte>, cuts: seq<nat>) returns (parts: seq<seq<byte>>, rest: seq<byte>)
    requires |c| > 16
    ensures Aligned(parts) && 16 < |rest| <= LAST_MAX && Flatten(parts) + rest == c
  {
    hide Flatten;
    parts, rest := [], c;
    FlattenEmpty(Zeros(16));
    for i := 0 to |cuts|
      invariant Aligned(parts) && |rest| > 16 && Flatten(parts) + rest == c
    {
      parts, rest := Piece(parts, rest, 16 * cuts[i]);
    }
    if |rest| > LAST_MAX {
      parts, rest := Piece(parts, rest, LastStart(|rest|) - 16);
    }
  }

  method Piece(before: seq<seq<byte>>, c: seq<byte>, n: nat) returns (parts: seq<seq<byte>>, rest: seq<byte>)
    requires Aligned(before) && |c| > 16 && n % 16 == 0
    ensures Aligned(parts) && Flatten(parts) + rest == Flatten(before) + c
    ensures |rest| == if n + 16 < |c| then |c| - n else |c|
  {
    hide Flatten;
    if n + 16 >= |c| {
      return before, c;
    }
    FlattenSnoc(before, c[..n]);
    assert Flatten(before) + c == Flatten(before) + c[..n] + c[n..];
    return before + [c[..n]], c[n..];
  }

  /** Decryption with one cutting undoes encryption with another. */
  method RoundTrip(enc: BlockFun, dec: BlockFun, iv: Block, chunks: seq<seq<byte>>, last: seq<byte>, cuts: seq<nat>)
    returns (output: seq<byte>)
    requires Inverts(dec, enc) && Aligned(chunks) && 16 < |last| <= LAST_MAX
    ensures output == Flatten(chunks) + last
  {
    hide CtsEncrypt, CtsDecrypt, Flatten, Inverts, Aligned;
    var e := new CtsContext(enc, dec, Encrypting, iv);
    var c := Run(e, chunks, last);
    var d := new CtsContext(enc, dec, Decrypting, iv);
    var parts, rest := Pieces(c, cuts);
    output := Run(d, parts, rest);
    CtsInverts(dec, enc, iv, Flatten(chunks) + last);
  }
}
