/** AES-GCM as NIST SP 800-38D defines it, over any block function `e`. */
module GcmSpec {
  import opened Bytes
  import opened GhashTable

  const ZERO_BLOCK: Block := Zeros(16)

  /** Multiplication by the hash key h. */
  function TimesKey(h: Block): BlockFun {
    (x: Block) => BlockProduct(x, h)
  }

  /** GHASH (section 6.4) for multiplication `m` by the hash key, continued from the block `y`. */
  function Ghash(m: BlockFun, y: Block, s: seq<byte>): Block
    requires |s| % 16 == 0
    decreases |s|
  {
    if s == [] then y else Ghash(m, m(Xor(y, s[..16])), s[16..])
  }

  /** inc32 (section 6.2): the last four bytes count up modulo 2^32. */
  function Inc32(b: Block): Block {
    b[..12] + Be((BeNat(b[12..]) + 1) % 0x1_0000_0000, 4)
  }

  /** GCTR (section 6.5). */
  function Gctr(e: BlockFun, icb: Block, x: seq<byte>): (r: seq<byte>)
    ensures |r| == |x|
    decreases |x|
  {
    hide Xor, Inc32;
    if |x| <= 16 then Xor(x, e(icb)[..|x|])
    else Xor(x[..16], e(icb)) + Gctr(e, Inc32(icb), x[16..])
  }

  /** The block of the two bit lengths that ends the hashed string. */
  function LengthBlock(a: nat, c: nat): Block {
    Be(8 * a, 8) + Be(8 * c, 8)
  }

  /** The pre-counter block J0 (step 2 of section 7.1). */
  function PreCounter(m: BlockFun, iv: seq<byte>): Block {
    hide Ghash, PadZero, LengthBlock;
    if |iv| == 12 then iv + [0, 0, 0, 1]
    else Ghash(m, ZERO_BLOCK, PadZero(iv) + LengthBlock(0, |iv|))
  }

  function Tag(e: BlockFun, iv: seq<byte>, a: seq<byte>, c: seq<byte>): Block {
    hide Ghash, PadZero, LengthBlock, Gctr, PreCounter;
    var m := TimesKey(e(ZERO_BLOCK));
    var s := Ghash(m, ZERO_BLOCK, PadZero(a) + PadZero(c) + LengthBlock(|a|, |c|));
    Gctr(e, PreCounter(m, iv), s)
  }

  /** The ciphertext of authenticated encryption (section 7.1). */
  function Encrypt(e: BlockFun, iv: seq<byte>, p: seq<byte>): (c: seq<byte>)
    ensures |c| == |p|
  {
    Gctr(e, Inc32(PreCounter(TimesKey(e(ZERO_BLOCK)), iv)), p)
  }
}
