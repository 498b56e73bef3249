/**
 * sm4_crypt_xts against IEEE Std 1619-2007: the tweak of section 5.2, the data-unit procedures
 * with ciphertext stealing of section 5.3, and the tweak carried between calls in the iv.
 */
module Sm4Xts {
  import opened Bytes
  import opened BlockModes
  import opened Sm4
  import opened Sm4Modes

  // ---------------------------------------------- the standard: the tweak

  /** Multiplication by alpha before reduction: every byte doubled, its top bit moved one byte up. */
  function Shifted(t: Block): (r: Block) {
    seq<byte>(16, k requires 0 <= k < 16 => 2 * (t[k] % 128) + (if k == 0 then 0 else t[k - 1] / 128))
  }

  function Alpha(t: Block): (r: Block) {
    hide XorByte;
    Shifted(t)[0 := XorByte(Shifted(t)[0], 135 * (t[15] / 128))]
  }

  /** The top bit of the byte below byte k, which the shift moves into byte k. */
  function CarryIn(t: Block, k: nat): nat
    requires k <= 16
  {
    if k == 0 then 0 else t[k - 1] / 128
  }

  lemma {:induction false} ShiftedSuffix(t: Block, k: nat)
    requires k <= 16
    ensures LeNat(Shifted(t)[k..]) + Power(256, 16 - k) * (t[15] / 128) == 2 * LeNat(t[k..]) + CarryIn(t, k)
    decreases 16 - k
  {
    hide LeNat, Shifted, Power, CarryIn;
    var s := Shifted(t);
    LeNatStep(s, k);
    LeNatStep(t, k);
    if k == 16 {
      LastCarry(t);
      PowerStep(0, t[15] / 128);
    } else {
      var x := Power(256, 15 - k) * (t[15] / 128);
      ShiftedSuffix(t, k + 1);
      ShiftedByte(t, k);
      PowerStep(15 - k, t[15] / 128);
      DoubledByte(t[k], CarryIn(t, k), x, LeNat(s[k + 1..]), LeNat(t[k + 1..]));
    }
  }

  lemma ShiftedByte(t: Block, k: nat)
    requires k < 16
    ensures Shifted(t)[k] == 2 * (t[k] % 128) + CarryIn(t, k) && CarryIn(t, k + 1) == t[k] / 128
  {
  }

  lemma PowerStep(n: nat, top: nat)
    ensures Power(256, 0) * top == top && Power(256, n + 1) * top == 256 * (Power(256, n) * top)
  {
    PowerNext(256, n + 1);
    hide Power;
    MulAssoc(256, Power(256, n), top);
  }

  lemma DoubledByte(b: byte, c: nat, x: nat, u: nat, v: nat)
    requires u + x == 2 * v + b / 128
    ensures 2 * (b % 128) + c + 256 * u + 256 * x == 2 * (b + 256 * v) + c
  {
  }

  lemma LeNatStep(s: Block, k: nat)
    requires k <= 16
    ensures LeNat(s[k..]) == if k == 16 then 0 else s[k] + 256 * LeNat(s[k + 1..])
  {
    if k < 16 {
      assert s[k..][1..] == s[k + 1..];
    }
  }

  /** Read as a little-endian integer the shift doubles, and drops exactly the bit that alpha reduces by. */
  lemma ShiftedDoubles(t: Block)
    ensures LeNat(Shifted(t)) + U128 * (t[15] / 128) == 2 * LeNat(t)
  {
    hide LeNat, Shifted, Power;
    ShiftedSuffix(t, 0);
    Powers256();
    assert Shifted(t)[0..] == Shifted(t) && t[0..] == t;
  }

  /** x^128 + x^7 + x^2 + x + 1, the coefficient of x^i in bit i. */
  const FIELD_POLYNOMIAL: nat := U128 + 0x87

  /** u is t times x, minus the multiple of the field polynomial that takes away bit 128. */
  ghost predicate IsTimesAlpha(t: Block, u: Block) {
    LeNat(u) == XorBits(2 * LeNat(t), 2 * LeNat(t) / U128 * FIELD_POLYNOMIAL, 129)
  }

  /** Alpha is the element x: its product with any tweak, in the field of section 5.2. */
  lemma AlphaIsProduct(t: Block)
    ensures IsTimesAlpha(t, Alpha(t))
  {
    hide LeNat, Shifted, Power, XorByte, XorBits;
    var s, q := Shifted(t), t[15] / 128;
    ShiftedDoubles(t);
    LastCarry(t);
    LeNatStep(s, 0);
    LeNatStep(Alpha(t), 0);
    assert s[0..] == s && Alpha(t)[0..] == Alpha(t) && Alpha(t)[1..] == s[1..];
    LeNatBound(s);
    var h := LeNat(s[1..]);
    Powers256();
    Reduced(s[0], h, q);
    DivModUnique(2 * LeNat(t), U128, q, LeNat(s));
  }

  lemma {:induction false} LeNatBound(s: seq<byte>)
    ensures LeNat(s) < Power(256, |s|)
  {
    if s != [] {
      LeNatBound(s[1..]);
    }
  }

  /** The top bits cancel and the low bytes are added. */
  lemma Reduced(b: byte, h: nat, q: nat)
    requires q < 2 && b + 256 * h < Power(256, 16)
    ensures XorBits(b + 256 * h + U128 * q, q * FIELD_POLYNOMIAL, 129) == XorByte(b, 135 * q) + 256 * h
  {
    hide Power, XorBits, Doubled;
    var p := 0x1000000_00000000_00000000_00000000;
    assert p * 256 == U128;
    Powers256();
    Power2At8();
    Power2At120();
    DoubledIs(q, 120);
    DoubledIs(0, 120);
    DoubledIs(h, 8);
    DoubledIs(h + p * q, 8);
    DoubledIs(p * q, 8);
    XorBitsParts(h, 0, q, q, 120, 1);
    XorBitsSelf(q, 1);
    XorBitsZero(h, 120);
    XorBitsParts(b, 135 * q, h + p * q, p * q, 8, 121);
  }

  lemma Power2At120()
    ensures Power(2, 120) == 0x1000000_00000000_00000000_00000000
  {
    hide Power;
    Power2At8();
    Power2At32();
    PowerSum(2, 8, 8);
    PowerSum(2, 8, 16);
    PowerSum(2, 32, 32);
    PowerSum(2, 32, 64);
    PowerSum(2, 96, 24);
  }

  // ------------------------------------- the standard: the data-unit procedures

  function TweakedBlock(f: BlockFun, t: Block, p: Block): Block {
    Xor(f(Xor(p, t)), t)
  }

  function TweakedBlocks(f: BlockFun, a: BlockFun, t: Block, x: seq<byte>): (r: seq<byte>)
    requires |x| % 16 == 0
    ensures |r| == |x|
    decreases |x|
  {
    hide TweakedBlock;
    if |x| < 16 then [] else TweakedBlock(f, t, x[..16]) + TweakedBlocks(f, a, a(t), x[16..])
  }

  /** The bytes before the last full block, whose tail is stolen. */
  function HeadLength(n: nat): (k: nat)
    requires n >= 16
    ensures k % 16 == 0 && 16 <= n - k < 32
  {
    n - n % 16 - 16
  }

  /** Ciphertext stealing over a full block and a partial one, under their tweaks t and u. */
  function EncryptTail(f: BlockFun, t: Block, u: Block, p: seq<byte>): (c: seq<byte>)
    requires 16 <= |p| < 32
    ensures |c| == |p|
  {
    hide TweakedBlock;
    var cc: Block := TweakedBlock(f, t, p[..16]);
    var pp: Block := p[16..] + cc[|p| - 16..];
    TweakedBlock(f, u, pp) + cc[..|p| - 16]
  }

  /** The same in decryption, which meets the two tweaks in the other order. */
  function DecryptTail(g: BlockFun, t: Block, u: Block, c: seq<byte>): (p: seq<byte>)
    requires 16 <= |c| < 32
    ensures |p| == |c|
  {
    hide TweakedBlock;
    var pp: Block := TweakedBlock(g, u, c[..16]);
    var cc: Block := c[16..] + pp[|c| - 16..];
    TweakedBlock(g, t, cc) + pp[..|c| - 16]
  }

  function Tail(f: BlockFun, mode: Mode, t: Block, u: Block, p: seq<byte>): (c: seq<byte>)
    requires 16 <= |p| < 32
    ensures |c| == |p|
  {
    if mode == Encrypting then EncryptTail(f, t, u, p) else DecryptTail(f, t, u, p)
  }

  /** Sections 5.3.2 and 5.4.2: a data unit of any length from one block up, from its first tweak. */
  function Xts(f: BlockFun, mode: Mode, a: BlockFun, t: Block, p: seq<byte>): (c: seq<byte>)
    requires |p| >= 16
    ensures |c| == |p|
  {
    hide Tail, TweakedBlocks, Advance;
    if |p| % 16 == 0 then TweakedBlocks(f, a, t, p) else
    var n := HeadLength(|p|);
    TweakedBlocks(f, a, t, p[..n]) + Tail(f, mode, Advance(a, t, n / 16), Advance(a, t, n / 16 + 1), p[n..])
  }

  lemma XtsWhole(f: BlockFun, mode: Mode, a: BlockFun, t: Block, p: seq<byte>)
    requires |p| >= 16 && |p| % 16 == 0
    ensures Xts(f, mode, a, t, p) == TweakedBlocks(f, a, t, p)
  {
    hide Tail, TweakedBlocks, Advance;
  }

  lemma XtsSteals(f: BlockFun, mode: Mode, a: BlockFun, t: Block, p: seq<byte>, n: nat)
    requires |p| >= 16 && |p| % 16 != 0 && n == HeadLength(|p|)
    ensures Xts(f, mode, a, t, p) == TweakedBlocks(f, a, t, p[..n]) +
            Tail(f, mode, Advance(a, t, n / 16), Advance(a, t, n / 16 + 1), p[n..])
  {
    hide Tail, TweakedBlocks, Advance;
  }

  lemma TweakedBlockInverts(g: BlockFun, f: BlockFun, t: Block, p: Block)
    requires Inverts(g, f)
    ensures TweakedBlock(g, t, TweakedBlock(f, t, p)) == p
  {
    hide Xor;
    XorInvolution(f(Xor(p, t)), t);
    XorInvolution(p, t);
  }

  lemma TweakedStep(f: BlockFun, a: BlockFun, t: Block, x: seq<byte>)
    requires |x| % 16 == 0
    ensures TweakedBlocks(f, a, t, x) ==
            if |x| < 16 then [] else TweakedBlock(f, t, x[..16]) + TweakedBlocks(f, a, a(t), x[16..])
  {
    hide TweakedBlock;
  }

  lemma {:induction false} TweakedInverts(g: BlockFun, f: BlockFun, a: BlockFun, t: Block, x: seq<byte>)
    requires Inverts(g, f) && |x| % 16 == 0
    ensures TweakedBlocks(g, a, t, TweakedBlocks(f, a, t, x)) == x
    decreases |x|
  {
    hide TweakedBlock, TweakedBlocks;
    var c := TweakedBlocks(f, a, t, x);
    TweakedStep(f, a, t, x);
    TweakedStep(g, a, t, c);
    if |x| >= 16 {
      assert c[..16] == TweakedBlock(f, t, x[..16]) && c[16..] == TweakedBlocks(f, a, a(t), x[16..]);
      TweakedBlockInverts(g, f, t, x[..16]);
      TweakedInverts(g, f, a, a(t), x[16..]);
    }
  }

  lemma TailInverts(g: BlockFun, f: BlockFun, t: Block, u: Block, p: seq<byte>)
    requires Inverts(g, f) && 16 <= |p| < 32
    ensures Tail(g, Decrypting, t, u, Tail(f, Encrypting, t, u, p)) == p
  {
    hide TweakedBlock;
    var b := |p| - 16;
    var cc: Block := TweakedBlock(f, t, p[..16]);
    var pp: Block := p[16..] + cc[b..];
    var c := EncryptTail(f, t, u, p);
    assert c[..16] == TweakedBlock(f, u, pp) && c[16..] == cc[..b];
    TweakedBlockInverts(g, f, u, pp);
    TweakedBlockInverts(g, f, t, p[..16]);
    assert pp[..b] == p[16..] && cc[..b] + pp[b..] == cc;
  }

  /** XTS decryption undoes encryption for every length of at least one block. */
  lemma XtsInverts(g: BlockFun, f: BlockFun, a: BlockFun, t: Block, p: seq<byte>)
    requires Inverts(g, f) && |p| >= 16
    ensures Xts(g, Decrypting, a, t, Xts(f, Encrypting, a, t, p)) == p
  {
    hide Tail, TweakedBlocks, Advance, HeadLength, Xts;
    var c := Xts(f, Encrypting, a, t, p);
    if |p| % 16 == 0 {
      TweakedInverts(g, f, a, t, p);
      XtsWhole(f, Encrypting, a, t, p);
      XtsWhole(g, Decrypting, a, t, c);
    } else {
      var n := HeadLength(|p|);
      XtsSteals(f, Encrypting, a, t, p, n);
      XtsSteals(g, Decrypting, a, t, c, n);
      TweakedInverts(g, f, a, t, p[..n]);
      TailInverts(g, f, Advance(a, t, n / 16), Advance(a, t, n / 16 + 1), p[n..]);
      assert c[..n] == TweakedBlocks(f, a, t, p[..n]);
      assert c[n..] == Tail(f, Encrypting, Advance(a, t, n / 16), Advance(a, t, n / 16 + 1), p[n..]);
      assert p == p[..n] + p[n..];
    }
  }

  // ------------------------------------------------------- byte by byte

  /** Each tweak is the one before it times alpha. */
  ghost predicate AreTweaks(t: Block, ts: seq<Block>) {
    ts != [] && ts[0] == t && forall j :: 0 < j < |ts| ==> NextTweak(ts, j)
  }

  ghost predicate NextTweak(ts: seq<Block>, j: int)
    requires 0 < j < |ts|
  {
    IsTimesAlpha(ts[j - 1], ts[j])
  }

  /** y is the cipher on x, with the tweak added to every byte before and after. */
  ghost predicate TweakedAt(f: BlockFun, t: Block, x: Block, y: Block) {
    && |Xor(x, t)| == 16
    && forall k :: 0 <= k < 16 ==>
         && Xor(x, t)[k] == XorByte(x[k], t[k])
         && y[k] == XorByte(f(Xor(x, t))[k], t[k])
  }

  /** Block j of y is block j of x under the j-th tweak. */
  ghost predicate BlockTweaked(f: BlockFun, ts: seq<Block>, x: seq<byte>, y: seq<byte>, j: nat)
    requires 16 * j + 16 <= |x| <= |y| && j < |ts|
  {
    TweakedAt(f, ts[j], x[16 * j..16 * j + 16], y[16 * j..16 * j + 16])
  }

  /**
   * The last n bytes, less than two blocks: the block b under the tweak t, the bytes behind it made up to a block
   * with the end of b and put in its place under the tweak u, and the beginning of b put behind that.
   */
  ghost predicate Stolen(f: BlockFun, t: Block, u: Block, x: seq<byte>, y: seq<byte>, b: Block) {
    && 16 < |x| < 32 && |y| == |x|
    && TweakedAt(f, t, x[..16], b)
    && TweakedAt(f, u, x[16..] + b[|x| - 16..], y[..16])
    && y[16..] == b[..|x| - 16]
  }

  /** Every block but the stolen two under its own tweak; those two under the last two, in the order of the mode. */
  ghost predicate IsXts(f: BlockFun, mode: Mode, ts: seq<Block>, x: seq<byte>, y: seq<byte>) {
    && |ts| == |x| / 16 + 1 && |y| == |x| >= 16
    && var m := if |x| % 16 == 0 then |x| / 16 else |x| / 16 - 1;
       && (forall j :: 0 <= j < m ==> BlockTweaked(f, ts, x, y, j))
       && (|x| % 16 != 0 ==>
             var t := if mode == Encrypting then ts[m] else ts[m + 1];
             var u := if mode == Encrypting then ts[m + 1] else ts[m];
             exists b :: Stolen(f, t, u, x[16 * m..], y[16 * m..], b))
  }

  lemma TweakedBlockIs(f: BlockFun, t: Block, x: Block)
    ensures TweakedAt(f, t, x, TweakedBlock(f, t, x))
  {
    hide XorByte;
  }

  lemma {:induction false} TweakList(t: Block, n: nat) returns (ts: seq<Block>)
    ensures |ts| == n + 1 && AreTweaks(t, ts) && forall j :: 0 <= j <= n ==> ts[j] == Advance(Alpha, t, j)
  {
    hide Alpha, Advance, IsTimesAlpha;
    if n == 0 {
      ts := [t];
      AdvanceStep(Alpha, t, 0);
    } else {
      var us := TweakList(t, n - 1);
      ts := us + [Advance(Alpha, t, n)];
      AdvanceLater(Alpha, t, n - 1);
      AlphaIsProduct(us[n - 1]);
      forall j | 0 < j < |ts|
        ensures NextTweak(ts, j)
      {
        assert j < n ==> NextTweak(us, j);
      }
    }
  }

  lemma {:induction false} BlockTweakedIs(f: BlockFun, t: Block, ts: seq<Block>, x: seq<byte>, y: seq<byte>, n: nat,
                                          j: nat)
    requires j < n <= |ts| && |x| == 16 * n && |x| % 16 == 0 && y == TweakedBlocks(f, Alpha, t, x)
    requires forall i :: 0 <= i < n ==> ts[i] == Advance(Alpha, t, i)
    ensures BlockTweaked(f, ts, x, y, j)
    decreases n
  {
    hide TweakedBlocks, TweakedBlock, TweakedAt, Advance, Alpha;
    var m := n - 1;
    TweakedMore(f, Alpha, t, x, 16 * m);
    var v, w := x[..16 * m], x[16 * m..16 * n];
    var z := TweakedBlocks(f, Alpha, t, v);
    var b := TweakedBlock(f, Advance(Alpha, t, 16 * m / 16), w);
    assert x[..16 * m + 16] == x && 16 * m / 16 == m && y == z + b;
    TweakedBlockIs(f, ts[m], w);
    if j < m {
      BlockTweakedIs(f, t, ts, v, z, m, j);
      SameSlice(v, w, x, 16 * j);
      SameSlice(z, b, y, 16 * j);
    } else {
      assert x[16 * j..16 * j + 16] == w && y[16 * j..16 * j + 16] == b;
    }
  }

  lemma SameSlice(a: seq<byte>, b: seq<byte>, c: seq<byte>, i: nat)
    requires c == a + b && i + 16 <= |a|
    ensures c[i..i + 16] == a[i..i + 16]
  {
  }

  lemma StolenIs(f: BlockFun, mode: Mode, t: Block, u: Block, x: seq<byte>)
    requires 16 < |x| < 32
    ensures var v, w := if mode == Encrypting then t else u, if mode == Encrypting then u else t;
      exists b :: Stolen(f, v, w, x, Tail(f, mode, t, u, x), b)
  {
    hide TweakedBlock, TweakedAt;
    var v, w := if mode == Encrypting then t else u, if mode == Encrypting then u else t;
    var b: Block := TweakedBlock(f, v, x[..16]);
    var c: Block := x[16..] + b[|x| - 16..];
    TweakedBlockIs(f, v, x[..16]);
    TweakedBlockIs(f, w, c);
    var y := Tail(f, mode, t, u, x);
    assert y[..16] == TweakedBlock(f, w, c) && y[16..] == b[..|x| - 16];
    assert Stolen(f, v, w, x, y, b);
  }

  /** Every byte of the data unit, from the block cipher and the product in the field alone. */
  lemma XtsSpelledOut(f: BlockFun, mode: Mode, t: Block, x: seq<byte>) returns (ts: seq<Block>)
    requires |x| >= 16
    ensures |ts| == |x| / 16 + 1 && AreTweaks(t, ts) && ts[|x| / 16] == Advance(Alpha, t, |x| / 16)
    ensures IsXts(f, mode, ts, x, Xts(f, mode, Alpha, t, x))
  {
    hide Xts, TweakedBlocks, Tail, BlockTweaked, Stolen, Advance, Alpha, AreTweaks, HeadLength;
    ts := TweakList(t, |x| / 16);
    var y := Xts(f, mode, Alpha, t, x);
    var m := if |x| % 16 == 0 then |x| / 16 else |x| / 16 - 1;
    var z := TweakedBlocks(f, Alpha, t, x[..16 * m]);
    if |x| % 16 == 0 {
      XtsWhole(f, mode, Alpha, t, x);
      assert x[..16 * m] == x;
    } else {
      HeadIs(|x|, 16 * m);
      XtsSteals(f, mode, Alpha, t, x, 16 * m);
      StolenIs(f, mode, ts[m], ts[m + 1], x[16 * m..]);
    }
    forall j | 0 <= j < m
      ensures BlockTweaked(f, ts, x, y, j)
    {
      BlockTweakedIs(f, t, ts, x[..16 * m], z, m, j);
      BlockTweakedMore(f, ts, x, y, z, 16 * m, j);
    }
  }

  lemma BlockTweakedMore(f: BlockFun, ts: seq<Block>, x: seq<byte>, y: seq<byte>, z: seq<byte>, n: nat, j: nat)
    requires n == |z| <= |x| == |y| && z == y[..n] && 16 * j + 16 <= n && j < |ts| && BlockTweaked(f, ts, x[..n], z, j)
    ensures BlockTweaked(f, ts, x, y, j)
  {
    hide TweakedAt;
    assert x[..n][16 * j..16 * j + 16] == x[16 * j..16 * j + 16];
    assert z[16 * j..16 * j + 16] == y[16 * j..16 * j + 16];
  }

  // ------------------------------------------------------- cutting at block boundaries

  lemma {:induction false} TweakedAppend(f: BlockFun, a: BlockFun, t: Block, x: seq<byte>, y: seq<byte>)
    requires |x| % 16 == 0 && |y| % 16 == 0
    ensures TweakedBlocks(f, a, t, x + y) ==
            TweakedBlocks(f, a, t, x) + TweakedBlocks(f, a, Advance(a, t, |x| / 16), y)
    decreases |x|
  {
    hide TweakedBlock, TweakedBlocks, Advance;
    TweakedStep(f, a, t, x);
    AdvanceStep(a, t, |x| / 16);
    if x == [] {
      assert x + y == y;
    } else {
      HeadOfConcat(x, y);
      TweakedStep(f, a, t, x + y);
      TweakedAppend(f, a, a(t), x[16..], y);
      assert |x| / 16 == |x[16..]| / 16 + 1;
    }
  }

  lemma TweakedOne(f: BlockFun, a: BlockFun, t: Block, b: Block)
    ensures TweakedBlocks(f, a, t, b) == TweakedBlock(f, t, b)
  {
    hide TweakedBlock, TweakedBlocks;
    TweakedStep(f, a, t, b);
    TweakedStep(f, a, a(t), []);
    assert b[..16] == b && b[16..] == [];
  }

  lemma HeadOfSum(x: seq<byte>, y: seq<byte>)
    requires |x| % 16 == 0 && |y| >= 16
    ensures HeadLength(|x + y|) == |x| + HeadLength(|y|)
    ensures (|x| + HeadLength(|y|)) / 16 == |x| / 16 + HeadLength(|y|) / 16
    ensures (x + y)[..|x| + HeadLength(|y|)] == x + y[..HeadLength(|y|)]
    ensures (x + y)[|x| + HeadLength(|y|)..] == y[HeadLength(|y|)..]
    ensures |x + y| % 16 == |y| % 16
  {
  }

  /** A message cut at a block boundary: the second part goes on from the advanced tweak. */
  lemma XtsAppend(f: BlockFun, mode: Mode, a: BlockFun, t: Block, x: seq<byte>, y: seq<byte>)
    requires |x| % 16 == 0 && |y| >= 16
    ensures Xts(f, mode, a, t, x + y) ==
            TweakedBlocks(f, a, t, x) + Xts(f, mode, a, Advance(a, t, |x| / 16), y)
  {
    hide Tail, TweakedBlocks, Advance, HeadLength, Xts;
    HeadOfSum(x, y);
    var j := |x| / 16;
    var u := Advance(a, t, j);
    if |y| % 16 == 0 {
      TweakedAppend(f, a, t, x, y);
      XtsWhole(f, mode, a, t, x + y);
      XtsWhole(f, mode, a, u, y);
    } else {
      var n := HeadLength(|y|);
      XtsAppendSteals(f, mode, a, t, u, x, y, x + y, j, n / 16, n, |x| + n);
    }
  }

  /** The second part y of z ends partially; n and m are where the stealing begins in y and in z. */
  lemma XtsAppendSteals(f: BlockFun, mode: Mode, a: BlockFun, t: Block, u: Block, x: seq<byte>, y: seq<byte>,
                        z: seq<byte>, j: nat, k: nat, n: nat, m: nat)
    requires |y| >= 16 && |y| % 16 != 0 && n == HeadLength(|y|) && n / 16 == k
    requires |z| >= 16 && |z| % 16 != 0 && m == HeadLength(|z|) && m / 16 == j + k
    requires |x| % 16 == 0 && |x| / 16 == j && z[..m] == x + y[..n] && z[m..] == y[n..] && u == Advance(a, t, j)
    ensures Xts(f, mode, a, t, z) == TweakedBlocks(f, a, t, x) + Xts(f, mode, a, u, y)
  {
    hide Tail, TweakedBlocks, Advance, HeadLength, Xts;
    var head, rest := y[..n], y[n..];
    var first, second := TweakedBlocks(f, a, t, x), TweakedBlocks(f, a, u, head);
    var last := Tail(f, mode, Advance(a, u, k), Advance(a, u, k + 1), rest);
    assert Xts(f, mode, a, u, y) == second + last by {
      XtsSteals(f, mode, a, u, y, n);
    }
    assert Xts(f, mode, a, t, z) == first + second + last by {
      XtsSteals(f, mode, a, t, z, m);
      TweaksMatch(a, t, u, j, k);
      TweakedAppend(f, a, t, x, head);
    }
    ConcatAssoc(first, second, last);
  }

  lemma TweaksMatch(a: BlockFun, t: Block, u: Block, j: nat, k: nat)
    requires u == Advance(a, t, j)
    ensures Advance(a, t, j + k) == Advance(a, u, k) && Advance(a, t, j + k + 1) == Advance(a, u, k + 1)
  {
    hide Advance;
    AdvancePlus(a, t, j, k);
    AdvancePlus(a, t, j, k + 1);
    assert j + k + 1 == j + (k + 1);
  }

  lemma ConcatAssoc(a: seq<byte>, b: seq<byte>, c: seq<byte>)
    ensures a + b + c == a + (b + c)
  {
  }

  // ---------------------------------------------------------------- the code

  lemma NoCarry(t: Block)
    ensures CarryIn(t, 0) == 0
  {
  }

  lemma LastCarry(t: Block)
    ensures CarryIn(t, 16) == t[15] / 128 && (t[15] / 128 == 0 || t[15] / 128 == 1)
  {
  }

  /** A byte of the shift as the code computes it. */
  lemma ShiftedValue(t: Block, i: nat)
    requires i < 16
    ensures Shifted(t)[i] == 2 * t[i] % 256 + CarryIn(t, i) && CarryIn(t, i + 1) == t[i] / 128
    ensures 2 * t[i] % 256 + CarryIn(t, i) < 256
  {
    ShiftedByte(t, i);
    DoubleMod(t[i]);
  }

  lemma DoubleMod(b: byte)
    ensures 2 * b % 256 == 2 * (b % 128)
  {
  }

  /** xts_multi; the two arrays may be one. */
  method XtsMulti(input: array<byte>, output: array<byte>)
    requires input.Length == 16 && output.Length == 16
    modifies output
    ensures output[..] == Alpha(old(input[..]))
  {
    hide XorByte, Shifted, CarryIn;
    ghost var was: Block := input[..];
    ghost var shifted := Shifted(was);
    var t, tt := 0, 0;
    NoCarry(was);
    for i := 0 to 16
      invariant forall j :: i <= j < 16 ==> input[j] == was[j]
      invariant t == tt == CarryIn(was, i)
      invariant forall j :: 0 <= j < i ==> output[j] == shifted[j]
    {
      ShiftedValue(was, i);
      var v: int := input[i];
      tt := v / 128;
      output[i] := (2 * v) % 256 + t;
      t := tt;
    }
    LastCarry(was);
    assert output[..] == shifted;
    output[0] := XorByte(output[0], if tt == 1 then 0x87 else 0);
  }

  /** The block with its first |p| bytes replaced by p, and the bytes replaced. */
  method Exchange(ct: Block, p: seq<byte>) returns (moved: seq<byte>, mixed: Block)
    requires |p| < 16
    ensures moved == ct[..|p|] && mixed == p + ct[|p|..]
  {
    moved, mixed := [], ct;
    for i := 0 to |p|
      invariant |moved| == i && forall j :: 0 <= j < i ==> moved[j] == ct[j] && mixed[j] == p[j]
      invariant forall j :: i <= j < 16 ==> mixed[j] == ct[j]
    {
      moved := moved + [mixed[i]];
      mixed := mixed[i := p[i]];
    }
  }

  /** One block between the two tweak additions. */
  method Tweaked(ctx: Context, t: Block, p: Block) returns (c: Block)
    requires ctx.sk.Length == 32
    ensures c == TweakedBlock(Cipher(ctx.lt, ctx.sk[..]), t, p)
  {
    hide Cipher, Xor, IsTrace;
    var ct := ctx.OneRound(Xor(p, t));
    c := Xor(ct, t);
  }

  /** One turn of the loop. */
  method NextBlock(ctx: Context, ghost t: Block, tweak: array<byte>, p: Block) returns (c: Block)
    requires ctx.sk.Length == 32 && tweak.Length == 16 && tweak[..] == t
    modifies tweak
    ensures ctx.sk[..] == old(ctx.sk[..])
    ensures c == TweakedBlock(Cipher(ctx.lt, ctx.sk[..]), t, p)
    ensures tweak[..] == Alpha(t)
  {
    hide Cipher, TweakedBlock, Alpha;
    c := Tweaked(ctx, tweak[..], p);
    XtsMulti(tweak, tweak);
  }

  /** The encrypting end of sm4_crypt_xts: cc is the last full block, already encrypted under t. */
  method StealEncrypting(ctx: Context, ghost t: Block, u: Block, ghost last: Block, cc: Block, rest: seq<byte>)
    returns (c: seq<byte>)
    requires ctx.sk.Length == 32 && 0 < |rest| < 16
    requires cc == TweakedBlock(Cipher(ctx.lt, ctx.sk[..]), t, last)
    ensures c == EncryptTail(Cipher(ctx.lt, ctx.sk[..]), t, u, last + rest)
  {
    hide Cipher, TweakedBlock;
    var moved, pp := Exchange(cc, rest);
    var d := Tweaked(ctx, u, pp);
    c := d + moved;
    assert (last + rest)[..16] == last && (last + rest)[16..] == rest;
  }

  method StealDecrypting(ctx: Context, t: Block, input: seq<byte>) returns (p: seq<byte>)
    requires ctx.sk.Length == 32 && 16 < |input| < 32
    ensures p == DecryptTail(Cipher(ctx.lt, ctx.sk[..]), t, Alpha(t), input)
  {
    hide Cipher, TweakedBlock, Alpha;
    var tweak := new byte[16](i requires 0 <= i < 16 => t[i]);
    var tweak1 := new byte[16];
    assert tweak[..] == t;
    XtsMulti(tweak, tweak1);
    var pp := Tweaked(ctx, tweak1[..], input[..16]);
    var moved, cc := Exchange(pp, input[16..]);
    var d := Tweaked(ctx, t, cc);
    p := d + moved;
  }

  /** Adding one block to the part already done. */
  lemma TweakedMore(f: BlockFun, a: BlockFun, t: Block, x: seq<byte>, n: nat)
    requires n % 16 == 0 && n + 16 <= |x|
    ensures TweakedBlocks(f, a, t, x[..n + 16]) ==
            TweakedBlocks(f, a, t, x[..n]) + TweakedBlock(f, Advance(a, t, n / 16), x[n..n + 16])
    ensures Advance(a, t, (n + 16) / 16) == a(Advance(a, t, n / 16))
  {
    hide TweakedBlocks, TweakedBlock, Advance;
    assert x[..n] + x[n..n + 16] == x[..n + 16];
    TweakedAppend(f, a, t, x[..n], x[n..n + 16]);
    TweakedOne(f, a, Advance(a, t, n / 16), x[n..n + 16]);
    AdvanceLater(a, t, n / 16);
  }

  lemma NothingTweaked(f: BlockFun, a: BlockFun, t: Block)
    ensures TweakedBlocks(f, a, t, []) == [] && Advance(a, t, 0) == t
  {
  }

  /** The length of the head, from the multiple of 16 that fits the bounds. */
  lemma HeadIs(n: nat, k: nat)
    requires k % 16 == 0 && 16 < n - k < 32
    ensures n % 16 != 0 && HeadLength(n) == k
  {
  }

  /** What follows the loop when encrypting: all n bytes of full blocks are done. */
  method FinishEncrypting(ctx: Context, ghost a: BlockFun, ghost t0: Block, u: Block, n: nat, input: seq<byte>,
                          done: seq<byte>) returns (output: seq<byte>)
    requires ctx.sk.Length == 32 && n % 16 == 0 && 16 <= n && 0 < |input| - n < 16
    requires done == TweakedBlocks(Cipher(ctx.lt, ctx.sk[..]), a, t0, input[..n])
    requires u == Advance(a, t0, n / 16)
    ensures output == Xts(Cipher(ctx.lt, ctx.sk[..]), Encrypting, a, t0, input)
  {
    hide Cipher, TweakedBlock, TweakedBlocks, Advance, Xts, EncryptTail, HeadLength;
    ghost var f := Cipher(ctx.lt, ctx.sk[..]);
    var m := n - 16;
    HeadIs(|input|, m);
    XtsSteals(f, Encrypting, a, t0, input, m);
    TweakedMore(f, a, t0, input, m);
    assert input[m..] == input[m..n] + input[n..];
    ghost var t := Advance(a, t0, m / 16);
    assert n / 16 == m / 16 + 1;
    var c := StealEncrypting(ctx, t, u, input[m..n], done[m..], input[n..]);
    output := done[..m] + c;
  }

  /** And when decrypting: the last full block was kept back. */
  method FinishDecrypting(ctx: Context, ghost t0: Block, t: Block, n: nat, input: seq<byte>, done: seq<byte>)
    returns (output: seq<byte>)
    requires ctx.sk.Length == 32 && n % 16 == 0 && 16 < |input| - n < 32
    requires done == TweakedBlocks(Cipher(ctx.lt, ctx.sk[..]), Alpha, t0, input[..n])
    requires t == Advance(Alpha, t0, n / 16)
    ensures output == Xts(Cipher(ctx.lt, ctx.sk[..]), Decrypting, Alpha, t0, input)
  {
    hide Cipher, TweakedBlocks, Advance, Alpha, Xts, DecryptTail, HeadLength;
    HeadIs(|input|, n);
    XtsSteals(Cipher(ctx.lt, ctx.sk[..]), Decrypting, Alpha, t0, input, n);
    AdvanceLater(Alpha, t0, n / 16);
    var p := StealDecrypting(ctx, t, input[n..]);
    output := done + p;
  }

  /** The loop of sm4_crypt_xts over the whole blocks in the first len bytes. */
  method EachBlock(ctx: Context, ghost t0: Block, tweak: array<byte>, input: seq<byte>, len: nat)
    returns (output: seq<byte>, n: nat)
    requires ctx.sk.Length == 32 && tweak.Length == 16 && tweak[..] == t0 && len <= |input|
    modifies tweak
    ensures ctx.sk[..] == old(ctx.sk[..])
    ensures n % 16 == 0 && n <= len < n + 16
    ensures output == TweakedBlocks(Cipher(ctx.lt, ctx.sk[..]), Alpha, t0, input[..n])
    ensures tweak[..] == Advance(Alpha, t0, n / 16)
  {
    hide Cipher, TweakedBlock, TweakedBlocks, Advance, Alpha;
    ghost var f := Cipher(ctx.lt, ctx.sk[..]);
    n, output := 0, [];
    NothingTweaked(f, Alpha, t0);
    assert input[..0] == [];
    while len - n >= 16
      invariant n <= len && n % 16 == 0
      invariant ctx.sk[..] == old(ctx.sk[..])
      invariant output == TweakedBlocks(f, Alpha, t0, input[..n])
      invariant |tweak[..]| == 16 && tweak[..] == Advance(Alpha, t0, n / 16)
    {
      TweakedMore(f, Alpha, t0, input, n);
      ghost var t: Block := tweak[..];
      var c := NextBlock(ctx, t, tweak, input[n..n + 16]);
      output := output + c;
      SameRem(n + 16, n, 16, 1);
      n := n + 16;
    }
  }

  method CryptXts(ctx: Context, ek: Context, dk: Context, iv: array<byte>, input: seq<byte>)
    returns (output: seq<byte>)
    requires ctx.sk.Length == 32 && ek.sk.Length == 32 && dk.sk.Length == 32
    requires iv.Length == 16 && |input| >= 16
    modifies iv
    ensures ctx.sk[..] == old(ctx.sk[..]) && ek.sk[..] == old(ek.sk[..]) && dk.sk[..] == old(dk.sk[..])
    ensures output == Xts(Cipher(ctx.lt, ctx.sk[..]), ctx.mode, Alpha, Cipher(ek.lt, ek.sk[..])(old(iv[..])), input)
    ensures iv[..] == if |input| % 16 != 0 then old(iv[..]) else
                        var t := Cipher(ek.lt, ek.sk[..])(old(iv[..]));
                        Cipher(dk.lt, dk.sk[..])(Advance(Alpha, t, |input| / 16))
    ensures exists ts ::
      && AreTweaks(Cipher(ek.lt, ek.sk[..])(old(iv[..])), ts)
      && IsXts(Cipher(ctx.lt, ctx.sk[..]), ctx.mode, ts, input, output)
      && (|input| % 16 == 0 ==> iv[..] == Cipher(dk.lt, dk.sk[..])(ts[|input| / 16]))
  {
    hide Cipher, TweakedBlocks, Advance, Alpha, Xts, IsTrace, AreTweaks, BlockTweaked, Stolen;
    ghost var f := Cipher(ctx.lt, ctx.sk[..]);
    var t0 := ek.OneRound(iv[..]);
    ghost var ts := XtsSpelledOut(f, ctx.mode, t0, input);
    var tweak := Copied(t0);
    var len := if ctx.mode == Decrypting && |input| % 16 != 0 then |input| - 16 else |input|;
    var n;
    output, n := EachBlock(ctx, t0, tweak, input, len);
    if n == len {
      assert input[..n] == input;
      XtsWhole(f, ctx.mode, Alpha, t0, input);
      var v := dk.OneRound(tweak[..]);
      Overwrite(iv, v);
      return;
    }
    if ctx.mode == Encrypting {
      output := FinishEncrypting(ctx, Alpha, t0, tweak[..], n, input, output);
    } else {
      output := FinishDecrypting(ctx, t0, tweak[..], n, input, output);
    }
  }

  // ------------------------------------------------------------- whole runs

  /** What a call on whole blocks adds, and the tweak it leaves. */
  lemma MoreWhole(f: BlockFun, mode: Mode, a: BlockFun, t: Block, x: seq<byte>, y: seq<byte>)
    requires |x| % 16 == 0 && |y| % 16 == 0 && |y| >= 16
    ensures |x + y| % 16 == 0
    ensures TweakedBlocks(f, a, t, x + y) == TweakedBlocks(f, a, t, x) + Xts(f, mode, a, Advance(a, t, |x| / 16), y)
    ensures Advance(a, t, |x + y| / 16) == Advance(a, Advance(a, t, |x| / 16), |y| / 16)
  {
    hide TweakedBlocks, Advance, Xts;
    TweakedAppend(f, a, t, x, y);
    XtsWhole(f, mode, a, Advance(a, t, |x| / 16), y);
    AdvancePlus(a, t, |x| / 16, |y| / 16);
  }

  ghost predicate WholeBlocks(chunks: seq<seq<byte>>) {
    forall i :: 0 <= i < |chunks| ==> |chunks[i]| % 16 == 0 && |chunks[i]| >= 16
  }

  /**
   * A message cut at any block boundaries into successive calls comes out as from one call: the iv
   * left behind is the key-two decryption of the next tweak, which the next call encrypts again.
   */
  method XtsRun(ctx: Context, ek: Context, dk: Context, iv: array<byte>, chunks: seq<seq<byte>>, last: seq<byte>)
    returns (output: seq<byte>)
    requires ctx.sk.Length == 32 && ek.sk.Length == 32 && dk.sk.Length == 32 && iv.Length == 16
    requires WholeBlocks(chunks) && |last| >= 16
    requires Inverts(Cipher(ek.lt, ek.sk[..]), Cipher(dk.lt, dk.sk[..]))
    modifies iv
    ensures output == Xts(Cipher(ctx.lt, old(ctx.sk[..])), ctx.mode, Alpha,
                          Cipher(ek.lt, old(ek.sk[..]))(old(iv[..])), Flatten(chunks) + last)
  {
    hide Cipher, TweakedBlocks, Advance, Alpha, Xts, Flatten, AreTweaks, IsXts;
    ghost var f, e := Cipher(ctx.lt, ctx.sk[..]), Cipher(ek.lt, ek.sk[..]);
    ghost var t0 := e(iv[..]);
    ghost var iv0: Block := iv[..];
    output := [];
    FlattenEmpty(iv0);
    NothingTweaked(f, Alpha, t0);
    assert chunks[..0] == [];
    for i := 0 to |chunks|
      invariant ctx.sk[..] == old(ctx.sk[..]) && ek.sk[..] == old(ek.sk[..]) && dk.sk[..] == old(dk.sk[..])
      invariant |Flatten(chunks[..i])| % 16 == 0
      invariant output == TweakedBlocks(f, Alpha, t0, Flatten(chunks[..i]))
      invariant e(iv[..]) == Advance(Alpha, t0, |Flatten(chunks[..i])| / 16)
    {
      ghost var x, y := Flatten(chunks[..i]), chunks[i];
      FlattenNext(chunks, i);
      MoreWhole(f, ctx.mode, Alpha, t0, x, y);
      ghost var next := Advance(Alpha, t0, |x + y| / 16);
      var c := CryptXts(ctx, ek, dk, iv, chunks[i]);
      assert e(Cipher(dk.lt, dk.sk[..])(next)) == next;
      output := output + c;
    }
    assert chunks[..|chunks|] == chunks;
    XtsAppend(f, ctx.mode, Alpha, t0, Flatten(chunks), last);
    var c := CryptXts(ctx, ek, dk, iv, last);
    output := output + c;
  }

  /** Decrypting with one cutting what was encrypted with another, from the same two keys and iv. */
  method XtsRoundTrip(lt: WordFun, rk: WordFun, key1: Block, key2: Block, iv: Block, chunks: seq<seq<byte>>,
                      last: seq<byte>, cuts: seq<nat>) returns (output: seq<byte>)
    requires WholeBlocks(chunks) && |last| >= 16
    ensures output == Flatten(chunks) + last
  {
    hide Cipher, Reversed, Xts, Alpha, Flatten, Schedule, Inverts, WholeBlocks;
    ghost var sk1, sk2 := Schedule(rk, key1), Schedule(rk, key2);
    var enc, dec := Keyed(lt, rk, key1);
    var ek, dk := Keyed(lt, rk, key2);
    var v := Copied(iv);
    var w := Copied(iv);
    KeysInvert(lt, sk1);
    KeysInvert(lt, sk2);
    var c := XtsRun(enc, ek, dk, v, chunks, last);
    var parts, rest := Pieces(c, cuts);
    output := XtsRun(dec, ek, dk, w, parts, rest);
    XtsInverts(Cipher(lt, Reversed(sk1)), Cipher(lt, sk1), Alpha, Cipher(lt, sk2)(iv), Flatten(chunks) + last);
  }

  /** Cuts c into pieces of the given numbers of blocks, as long as a block is left for the rest. */
  method Pieces(c: seq<byte>, cuts: seq<nat>) returns (parts: seq<seq<byte>>, rest: seq<byte>)
    requires |c| >= 16
    ensures WholeBlocks(parts) && |rest| >= 16 && Flatten(parts) + rest == c
  {
    hide Flatten;
    parts, rest := [], c;
    FlattenEmpty(Zeros(16));
    for i := 0 to |cuts|
      invariant WholeBlocks(parts) && |rest| >= 16 && Flatten(parts) + rest == c
    {
      var n := 16 * cuts[i];
      if 0 < n && n + 16 <= |rest| {
        FlattenSnoc(parts, rest[..n]);
        assert Flatten(parts) + rest == Flatten(parts) + rest[..n] + rest[n..];
        parts, rest := parts + [rest[..n]], rest[n..];
      }
    }
  }
}
