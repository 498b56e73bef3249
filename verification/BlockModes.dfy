/** Modes of operation over any block function, as whole strings in and out. */
module BlockModes {
  import opened Bytes

  ghost predicate Inverts(g: BlockFun, f: BlockFun) {
    forall b: Block :: g(f(b)) == b
  }

  /** Taking the first block off a concatenation takes it off the left part. */
  lemma HeadOfConcat(a: seq<byte>, b: seq<byte>)
    requires |a| >= 16
    ensures (a + b)[..16] == a[..16] && (a + b)[16..] == a[16..] + b
  {
  }

  /** Pieces of whole blocks. */
  ghost predicate Aligned(chunks: seq<seq<byte>>) {
    forall i :: 0 <= i < |chunks| ==> |chunks[i]| % 16 == 0
  }

  lemma FlattenEmpty(iv: Block)
    ensures Flatten([]) == [] && Chain(iv, []) == iv
  {
  }

  // ------------------------------------------------------------------- ECB

  function Ecb(f: BlockFun, x: seq<byte>): (r: seq<byte>)
    requires |x| % 16 == 0
    ensures |r| == |x|
    decreases |x|
  {
    if |x| < 16 then [] else f(x[..16]) + Ecb(f, x[16..])
  }

  lemma EcbStep(f: BlockFun, x: seq<byte>)
    requires |x| % 16 == 0
    ensures Ecb(f, x) == if |x| < 16 then [] else f(x[..16]) + Ecb(f, x[16..])
  {
  }

  lemma {:induction false} EcbAppend(f: BlockFun, a: seq<byte>, b: seq<byte>)
    requires |a| % 16 == 0 && |b| % 16 == 0
    ensures Ecb(f, a + b) == Ecb(f, a) + Ecb(f, b)
    decreases |a|
  {
    hide Ecb;
    EcbStep(f, a);
    if a == [] {
      assert a + b == b;
    } else {
      EcbStep(f, a + b);
      HeadOfConcat(a, b);
      EcbAppend(f, a[16..], b);
    }
  }

  lemma {:induction false} EcbInverts(g: BlockFun, f: BlockFun, x: seq<byte>)
    requires |x| % 16 == 0 && Inverts(g, f)
    ensures Ecb(g, Ecb(f, x)) == x
    decreases |x|
  {
    hide Ecb;
    EcbStep(f, x);
    EcbStep(g, Ecb(f, x));
    if x != [] {
      HeadOfConcat(f(x[..16]), Ecb(f, x[16..]));
      EcbInverts(g, f, x[16..]);
    }
  }

  // ------------------------------------------------------------------- CBC

  function Cbc(f: BlockFun, iv: Block, p: seq<byte>): (c: seq<byte>)
    requires |p| % 16 == 0
    ensures |c| == |p|
    decreases |p|
  {
    if |p| < 16 then [] else
    var c: Block := f(Xor(p[..16], iv));
    c + Cbc(f, c, p[16..])
  }

  function CbcInv(g: BlockFun, iv: Block, c: seq<byte>): (p: seq<byte>)
    requires |c| % 16 == 0
    ensures |p| == |c|
    decreases |c|
  {
    if |c| < 16 then [] else Xor(g(c[..16]), iv) + CbcInv(g, c[..16], c[16..])
  }

  /** The chaining block after ciphertext c. */
  function Chain(iv: Block, c: seq<byte>): Block
    requires |c| % 16 == 0
  {
    if c == [] then iv else c[|c| - 16..]
  }

  lemma CbcStep(f: BlockFun, iv: Block, p: seq<byte>, c: Block)
    requires |p| % 16 == 0 && p != [] && c == f(Xor(p[..16], iv))
    ensures Cbc(f, iv, p) == c + Cbc(f, c, p[16..])
  {
  }

  lemma CbcInvStep(g: BlockFun, iv: Block, c: seq<byte>)
    requires |c| % 16 == 0 && c != []
    ensures CbcInv(g, iv, c) == Xor(g(c[..16]), iv) + CbcInv(g, c[..16], c[16..])
  {
  }

  lemma CbcEmpty(f: BlockFun, iv: Block)
    ensures Cbc(f, iv, []) == [] == CbcInv(f, iv, [])
  {
  }

  lemma ChainConcat(iv: Block, a: seq<byte>, b: seq<byte>)
    requires |a| % 16 == 0 && |b| % 16 == 0
    ensures Chain(iv, a + b) == Chain(Chain(iv, a), b)
  {
  }

  lemma {:induction false} CbcAppend(f: BlockFun, iv: Block, a: seq<byte>, b: seq<byte>)
    requires |a| % 16 == 0 && |b| % 16 == 0
    ensures Cbc(f, iv, a + b) == Cbc(f, iv, a) + Cbc(f, Chain(iv, Cbc(f, iv, a)), b)
    decreases |a|
  {
    hide Xor, Cbc;
    if a == [] {
      assert a + b == b;
      CbcEmpty(f, iv);
    } else {
      var c: Block := f(Xor(a[..16], iv));
      HeadOfConcat(a, b);
      CbcStep(f, iv, a, c);
      CbcStep(f, iv, a + b, c);
      CbcAppend(f, c, a[16..], b);
      ChainConcat(iv, c, Cbc(f, c, a[16..]));
      assert Chain(iv, c) == c;
    }
  }

  lemma {:induction false} CbcInvAppend(g: BlockFun, iv: Block, a: seq<byte>, b: seq<byte>)
    requires |a| % 16 == 0 && |b| % 16 == 0
    ensures CbcInv(g, iv, a + b) == CbcInv(g, iv, a) + CbcInv(g, Chain(iv, a), b)
    decreases |a|
  {
    hide Xor, CbcInv;
    if a == [] {
      assert a + b == b;
      CbcEmpty(g, iv);
    } else {
      HeadOfConcat(a, b);
      CbcInvStep(g, iv, a);
      CbcInvStep(g, iv, a + b);
      CbcInvAppend(g, a[..16], a[16..], b);
      assert Chain(iv, a) == Chain(a[..16], a[16..]);
    }
  }

  lemma CbcBlock(f: BlockFun, iv: Block, p: Block)
    ensures Cbc(f, iv, p) == f(Xor(p, iv))
  {
    hide Xor, Cbc;
    var c: Block := f(Xor(p, iv));
    assert p[..16] == p && p[16..] == [];
    CbcStep(f, iv, p, c);
    CbcEmpty(f, c);
  }

  lemma CbcInvBlock(g: BlockFun, iv: Block, c: Block)
    ensures CbcInv(g, iv, c) == Xor(g(c), iv)
  {
    hide Xor, CbcInv;
    assert c[..16] == c && c[16..] == [];
    CbcInvStep(g, iv, c);
    CbcEmpty(g, c);
  }

  lemma {:induction false} CbcInverts(g: BlockFun, f: BlockFun, iv: Block, p: seq<byte>)
    requires |p| % 16 == 0 && Inverts(g, f)
    ensures CbcInv(g, iv, Cbc(f, iv, p)) == p
    decreases |p|
  {
    hide Xor, Cbc, CbcInv;
    if p == [] {
      CbcEmpty(f, iv);
      CbcEmpty(g, iv);
    } else {
      var c: Block := f(Xor(p[..16], iv));
      CbcStep(f, iv, p, c);
      var t := Cbc(f, c, p[16..]);
      HeadOfConcat(c, t);
      assert c[..16] == c && c[16..] + t == t;
      CbcInvStep(g, iv, c + t);
      XorInvolution(p[..16], iv);
      CbcInverts(g, f, c, p[16..]);
    }
  }

  // ------------------------------------------------------------------- CTR

  function Successor(n: nat): nat {
    if n + 1 < U128 then n + 1 else 0
  }

  /** The next counter block: a big-endian increment modulo 2^128. */
  function Next(b: Block): Block {
    Be(Successor(BeNat(b)), 16)
  }

  /** The block reached from b after k steps. */
  function Advance(next: BlockFun, b: Block, k: nat): Block
    decreases k
  {
    if k == 0 then b else Advance(next, next(b), k - 1)
  }

  /** Counter mode from counter block b. */
  function Ctr(f: BlockFun, next: BlockFun, b: Block, x: seq<byte>): (r: seq<byte>)
    requires |x| % 16 == 0
    ensures |r| == |x|
    decreases |x|
  {
    hide Xor;
    if |x| < 16 then [] else Xor(x[..16], f(b)) + Ctr(f, next, next(b), x[16..])
  }

  lemma CtrStep(f: BlockFun, next: BlockFun, b: Block, x: seq<byte>)
    requires |x| % 16 == 0
    ensures Ctr(f, next, b, x) == if |x| < 16 then [] else Xor(x[..16], f(b)) + Ctr(f, next, next(b), x[16..])
  {
    hide Xor;
  }

  lemma CtrOne(f: BlockFun, next: BlockFun, n: Block, b: Block)
    ensures Ctr(f, next, n, b) == Xor(b, f(n))
  {
    hide Ctr, Xor;
    CtrStep(f, next, n, b);
    CtrStep(f, next, next(n), []);
    assert b[..16] == b && b[16..] == [];
  }

  lemma NextValue(b: Block)
    ensures BeNat(Next(b)) == (BeNat(b) + 1) % U128
  {
    hide Be, BeNat, Power;
    Powers256();
    BeNatBound(b);
    BeNatOfBe(Successor(BeNat(b)), 16);
  }

  /** After k blocks the counter is start + k modulo 2^128. */
  lemma {:induction false} AdvanceValue(b: Block, k: nat)
    ensures BeNat(Advance(Next, b, k)) == (BeNat(b) + k) % U128
    decreases k
  {
    hide Be, BeNat, Power, Next;
    if k == 0 {
      Powers256();
      BeNatBound(b);
    } else {
      NextValue(b);
      AdvanceValue(Next(b), k - 1);
    }
  }

  lemma AdvanceStep(next: BlockFun, b: Block, k: nat)
    ensures Advance(next, b, k) == if k == 0 then b else Advance(next, next(b), k - 1)
  {
  }

  lemma {:induction false} AdvanceLater(next: BlockFun, b: Block, k: nat)
    ensures Advance(next, b, k + 1) == next(Advance(next, b, k))
    decreases k
  {
    if k > 0 {
      AdvanceLater(next, next(b), k - 1);
    }
  }

  lemma {:induction false} AdvancePlus(next: BlockFun, b: Block, j: nat, k: nat)
    ensures Advance(next, b, j + k) == Advance(next, Advance(next, b, j), k)
    decreases j
  {
    if j > 0 {
      AdvancePlus(next, next(b), j - 1, k);
    }
  }

  lemma {:induction false} CtrAppend(f: BlockFun, next: BlockFun, n: Block, a: seq<byte>, b: seq<byte>)
    requires |a| % 16 == 0 && |b| % 16 == 0
    ensures Ctr(f, next, n, a + b) == Ctr(f, next, n, a) + Ctr(f, next, Advance(next, n, |a| / 16), b)
    decreases |a|
  {
    hide Xor, Ctr, Advance;
    CtrStep(f, next, n, a);
    AdvanceStep(next, n, |a| / 16);
    if a == [] {
      assert a + b == b;
    } else {
      HeadOfConcat(a, b);
      CtrStep(f, next, n, a + b);
      CtrAppend(f, next, next(n), a[16..], b);
      assert |a| / 16 == |a[16..]| / 16 + 1;
    }
  }

  lemma {:induction false} CtrInvolution(f: BlockFun, next: BlockFun, n: Block, x: seq<byte>)
    requires |x| % 16 == 0
    ensures Ctr(f, next, n, Ctr(f, next, n, x)) == x
    decreases |x|
  {
    hide Xor, Ctr;
    var c := Ctr(f, next, n, x);
    CtrStep(f, next, n, x);
    CtrStep(f, next, n, c);
    if x != [] {
      assert c[..16] == Xor(x[..16], f(n)) && c[16..] == Ctr(f, next, next(n), x[16..]);
      XorInvolution(x[..16], f(n));
      CtrInvolution(f, next, next(n), x[16..]);
    }
  }

  // ---------------------------------------------------------- block by block

  /** Block j of a string. */
  function BlockOf(x: seq<byte>, j: nat): Block
    requires 16 * j + 16 <= |x|
  {
    x[16 * j..16 * j + 16]
  }

  lemma BlockOfRest(b: Block, t: seq<byte>, j: nat)
    requires 0 < j && 16 * j <= |t|
    ensures BlockOf(b + t, j) == BlockOf(t, j - 1)
  {
  }

  lemma BlockOfFirst(b: Block, t: seq<byte>)
    ensures BlockOf(b + t, 0) == b
  {
  }

  /** Every block of y is f of that block of x. */
  ghost predicate IsEcb(f: BlockFun, x: seq<byte>, y: seq<byte>) {
    |y| == |x| && forall j: nat :: 16 * j + 16 <= |x| ==> BlockOf(y, j) == f(BlockOf(x, j))
  }

  lemma {:induction false} EcbSpelledOut(f: BlockFun, x: seq<byte>)
    requires |x| % 16 == 0
    ensures IsEcb(f, x, Ecb(f, x))
    decreases |x|
  {
    hide Ecb, BlockOf;
    EcbStep(f, x);
    if x != [] {
      var b: Block, t := f(x[..16]), Ecb(f, x[16..]);
      EcbSpelledOut(f, x[16..]);
      BlockOfFirst(x[..16], x[16..]);
      BlockOfFirst(b, t);
      assert x[..16] + x[16..] == x;
      forall j: nat | 0 < j && 16 * j + 16 <= |x|
        ensures BlockOf(b + t, j) == f(BlockOf(x, j))
      {
        BlockOfRest(b, t, j);
        BlockOfRest(x[..16], x[16..], j);
      }
    }
  }

  /** The ciphertext block before block j. */
  function Before(iv: Block, c: seq<byte>, j: nat): Block
    requires 16 * j <= |c|
  {
    if j == 0 then iv else BlockOf(c, j - 1)
  }

  lemma BeforeRest(iv: Block, b: Block, t: seq<byte>, j: nat)
    requires 0 < j && 16 * j <= |t|
    ensures Before(iv, b + t, j) == Before(b, t, j - 1)
  {
    hide BlockOf;
    BlockOfFirst(b, t);
    if j > 1 {
      BlockOfRest(b, t, j - 1);
    }
  }

  /** Every block of c is f of the sum of that block of p and the block of c before it. */
  ghost predicate IsCbc(f: BlockFun, iv: Block, p: seq<byte>, c: seq<byte>) {
    |c| == |p| && forall j: nat :: 16 * j + 16 <= |p| ==> BlockOf(c, j) == f(Xor(BlockOf(p, j), Before(iv, c, j)))
  }

  lemma {:induction false} CbcSpelledOut(f: BlockFun, iv: Block, p: seq<byte>)
    requires |p| % 16 == 0
    ensures IsCbc(f, iv, p, Cbc(f, iv, p))
    decreases |p|
  {
    hide Cbc, BlockOf, Before, Xor;
    if p == [] {
      CbcEmpty(f, iv);
    } else {
      var b: Block := f(Xor(p[..16], iv));
      var t := Cbc(f, b, p[16..]);
      CbcStep(f, iv, p, b);
      CbcSpelledOut(f, b, p[16..]);
      BlockOfFirst(p[..16], p[16..]);
      BlockOfFirst(b, t);
      NothingBefore(iv, b + t);
      assert p[..16] + p[16..] == p;
      forall j: nat | 0 < j && 16 * j + 16 <= |p|
        ensures BlockOf(b + t, j) == f(Xor(BlockOf(p, j), Before(iv, b + t, j)))
      {
        BlockOfRest(b, t, j);
        BlockOfRest(p[..16], p[16..], j);
        BeforeRest(iv, b, t, j);
      }
    }
  }

  lemma NothingBefore(iv: Block, c: seq<byte>)
    ensures Before(iv, c, 0) == iv
  {
  }

  /** Every block of p is the sum of g of that block of c and the block of c before it. */
  ghost predicate IsCbcInv(g: BlockFun, iv: Block, c: seq<byte>, p: seq<byte>) {
    |p| == |c| && forall j: nat :: 16 * j + 16 <= |c| ==> BlockOf(p, j) == Xor(g(BlockOf(c, j)), Before(iv, c, j))
  }

  lemma {:induction false} CbcInvSpelledOut(g: BlockFun, iv: Block, c: seq<byte>)
    requires |c| % 16 == 0
    ensures IsCbcInv(g, iv, c, CbcInv(g, iv, c))
    decreases |c|
  {
    hide CbcInv, BlockOf, Before, Xor;
    if c == [] {
      CbcEmpty(g, iv);
    } else {
      var b: Block, d := c[..16], c[16..];
      var p: Block, t := Xor(g(b), iv), CbcInv(g, b, d);
      CbcInvStep(g, iv, c);
      CbcInvSpelledOut(g, b, d);
      BlockOfFirst(b, d);
      BlockOfFirst(p, t);
      assert b + d == c;
      NothingBefore(iv, c);
      forall j: nat | 0 < j && 16 * j + 16 <= |c|
        ensures BlockOf(p + t, j) == Xor(g(BlockOf(c, j)), Before(iv, c, j))
      {
        BlockOfRest(b, d, j);
        BlockOfRest(p, t, j);
        BeforeRest(iv, b, d, j);
      }
    }
  }

  /** n is the block of the number k modulo 2^128. */
  predicate Numbers(n: Block, k: nat) {
    BeNat(n) == k % U128
  }

  lemma SameNumber(m: Block, n: Block, k: nat)
    requires Numbers(m, k) && Numbers(n, k)
    ensures m == n
  {
    BeOfBeNat(m);
    BeOfBeNat(n);
  }

  /** Every block of y is that block of x plus f of the counter, which goes up by one from block to block. */
  ghost predicate IsCtr(f: BlockFun, b: Block, x: seq<byte>, y: seq<byte>) {
    && |y| == |x|
    && forall j: nat, n: Block :: 16 * j + 16 <= |x| && Numbers(n, BeNat(b) + j) ==>
         BlockOf(y, j) == Xor(BlockOf(x, j), f(n))
  }

  lemma {:induction false} CtrAt(f: BlockFun, b: Block, x: seq<byte>, j: nat)
    requires |x| % 16 == 0 && 16 * j + 16 <= |x|
    ensures BlockOf(Ctr(f, Next, b, x), j) == Xor(BlockOf(x, j), f(Advance(Next, b, j)))
    decreases |x|
  {
    hide Ctr, BlockOf, Advance, Next, Xor;
    CtrStep(f, Next, b, x);
    AdvanceStep(Next, b, j);
    var y: Block, t := Xor(x[..16], f(b)), Ctr(f, Next, Next(b), x[16..]);
    assert x[..16] + x[16..] == x;
    if j == 0 {
      BlockOfFirst(x[..16], x[16..]);
      BlockOfFirst(y, t);
    } else {
      BlockOfRest(x[..16], x[16..], j);
      BlockOfRest(y, t, j);
      CtrAt(f, Next(b), x[16..], j - 1);
    }
  }

  lemma CtrSpelledOut(f: BlockFun, b: Block, x: seq<byte>)
    requires |x| % 16 == 0
    ensures IsCtr(f, b, x, Ctr(f, Next, b, x))
  {
    hide Ctr, BlockOf, Advance, Next, Xor, BeNat;
    forall j: nat, n: Block | 16 * j + 16 <= |x| && Numbers(n, BeNat(b) + j)
      ensures BlockOf(Ctr(f, Next, b, x), j) == Xor(BlockOf(x, j), f(n))
    {
      CtrAt(f, b, x, j);
      AdvanceValue(b, j);
      SameNumber(n, Advance(Next, b, j), BeNat(b) + j);
    }
  }
}
