/** sm4_crypt_ecb, sm4_crypt_cbc and sm4_crypt_ctr, and what they promise over whole runs of calls. */
module Sm4Modes {
  import opened Bytes
  import opened BlockModes
  import opened Sm4

  // --------------------------------------------------- the counter increment

  /** Increment with carry, from the last byte towards the first. */
  function Carried(s: seq<byte>): (r: seq<byte>)
    ensures |r| == |s|
  {
    if s == [] then []
    else if s[|s| - 1] == 255 then Carried(s[..|s| - 1]) + [0]
    else s[..|s| - 1] + [s[|s| - 1] + 1]
  }

  lemma {:induction false} CarriedIsBe(s: seq<byte>)
    ensures Carried(s) == Be(BeNat(s) + 1, |s|)
  {
    if s != [] {
      var t, b := s[..|s| - 1], s[|s| - 1];
      var v := BeNat(t);
      CarriedIsBe(t);
      BeOfBeNat(t);
      if b == 255 {
        assert (v * 256 + b + 1) / 256 == v + 1 && (v * 256 + b + 1) % 256 == 0;
      } else {
        assert (v * 256 + b + 1) / 256 == v && (v * 256 + b + 1) % 256 == b + 1;
      }
    }
  }

  /** The byte-wise carry is the increment modulo 2^128. */
  lemma CarriedIsNext(b: Block)
    ensures Carried(b) == Next(b)
  {
    hide Be, BeNat, Power, Carried;
    CarriedIsBe(b);
    BeNatBound(b);
    Powers256();
    if BeNat(b) + 1 == U128 {
      BeSplit(1, 0, 0, 16);
      assert Be(1, 0) == [];
    }
  }

  lemma CarriedSnoc(s: seq<byte>, b: byte)
    ensures Carried(s + [b]) == if b == 255 then Carried(s) + [0] else s + [b + 1]
  {
    assert (s + [b])[..|s|] == s;
  }

  lemma CarriedEmpty()
    ensures Carried([]) == []
  {
  }

  /** One step of the carry: the rest of the increment is that of the bytes before i. */
  lemma CarryStep(s: seq<byte>, i: nat, b: byte)
    requires 0 < i <= |s| && b == (if s[i - 1] == 255 then 0 else s[i - 1] + 1)
    ensures b != 0 ==> Carried(s[..i]) + s[i..] == s[i - 1 := b]
    ensures b == 0 ==> Carried(s[..i]) + s[i..] == Carried(s[i - 1 := b][..i - 1]) + s[i - 1 := b][i - 1..]
  {
    hide Carried;
    assert s[..i] == s[..i - 1] + [s[i - 1]];
    CarriedSnoc(s[..i - 1], s[i - 1]);
  }

  method Increment(ctr: array<byte>)
    requires ctr.Length == 16
    modifies ctr
    ensures ctr[..] == Next(old(ctr[..]))
  {
    hide Next, Carried;
    ghost var was := ctr[..];
    var i := 16;
    assert ctr[..16] == was && ctr[16..] == [];
    while i > 0
      invariant 0 <= i <= 16
      invariant Carried(was) == Carried(ctr[..i]) + ctr[i..]
    {
      ghost var s := ctr[..];
      assert s[..i] == ctr[..i] && s[i..] == ctr[i..];
      var v: int := ctr[i - 1];
      ctr[i - 1] := (v + 1) % 256;
      assert ctr[..] == s[i - 1 := ctr[i - 1]];
      CarryStep(s, i, ctr[i - 1]);
      if ctr[i - 1] != 0 {
        CarriedIsNext(was);
        return;
      }
      i := i - 1;
      assert ctr[..i] == ctr[..][..i] && ctr[i..] == ctr[..][i..];
    }
    CarriedEmpty();
    CarriedIsNext(was);
  }

  // --------------------------------------------------------------- the modes

  method CryptEcb(ctx: Context, input: seq<byte>) returns (output: seq<byte>)
    requires ctx.sk.Length == 32 && |input| % 16 == 0
    ensures output == Ecb(Cipher(ctx.lt, ctx.sk[..]), input)
    ensures IsEcb(Cipher(ctx.lt, ctx.sk[..]), input, output)
  {
    hide Cipher, Ecb, IsTrace, IsEcb;
    ghost var f := Cipher(ctx.lt, ctx.sk[..]);
    EcbSpelledOut(f, input);
    output := [];
    var n := 0;
    EcbStep(f, []);
    assert input[..0] == [];
    while n < |input|
      invariant 0 <= n <= |input| && n % 16 == 0
      invariant output == Ecb(f, input[..n])
    {
      var c := ctx.OneRound(input[n..n + 16]);
      EcbOne(f, input[n..n + 16]);
      EcbAppend(f, input[..n], input[n..n + 16]);
      assert input[..n] + input[n..n + 16] == input[..n + 16];
      output := output + c;
      n := n + 16;
    }
    assert input[..n] == input;
  }

  lemma EcbOne(f: BlockFun, b: Block)
    ensures Ecb(f, b) == f(b)
  {
    hide Ecb;
    EcbStep(f, b);
    EcbStep(f, []);
    assert b[..16] == b && b[16..] == [];
  }

  /** sm4_crypt_cbc: the iv carries the chain into the next call. */
  method CryptCbc(ctx: Context, iv: array<byte>, input: seq<byte>) returns (output: seq<byte>)
    requires ctx.sk.Length == 32 && iv.Length == 16 && |input| % 16 == 0
    modifies iv
    ensures ctx.sk[..] == old(ctx.sk[..])
    ensures ctx.mode == Encrypting ==>
      && output == Cbc(Cipher(ctx.lt, ctx.sk[..]), old(iv[..]), input)
      && IsCbc(Cipher(ctx.lt, ctx.sk[..]), old(iv[..]), input, output)
      && iv[..] == Chain(old(iv[..]), output)
    ensures ctx.mode == Decrypting ==>
      && output == CbcInv(Cipher(ctx.lt, ctx.sk[..]), old(iv[..]), input)
      && IsCbcInv(Cipher(ctx.lt, ctx.sk[..]), old(iv[..]), input, output)
      && iv[..] == Chain(old(iv[..]), input)
  {
    hide Cipher, Cbc, CbcInv, Chain, IsCbc, IsCbcInv;
    CbcSpelledOut(Cipher(ctx.lt, ctx.sk[..]), iv[..], input);
    CbcInvSpelledOut(Cipher(ctx.lt, ctx.sk[..]), iv[..], input);
    if ctx.mode == Encrypting {
      output := CbcEncrypt(ctx, iv, input);
    } else {
      output := CbcDecrypt(ctx, iv, input);
    }
  }

  method CbcEncrypt(ctx: Context, iv: array<byte>, input: seq<byte>) returns (output: seq<byte>)
    requires ctx.sk.Length == 32 && iv.Length == 16 && |input| % 16 == 0
    modifies iv
    ensures ctx.sk[..] == old(ctx.sk[..])
    ensures output == Cbc(Cipher(ctx.lt, ctx.sk[..]), old(iv[..]), input)
    ensures iv[..] == Chain(old(iv[..]), output)
  {
    hide Cipher, Cbc, Xor, IsTrace;
    ghost var f := Cipher(ctx.lt, ctx.sk[..]);
    ghost var iv0: Block := iv[..];
    output := [];
    var n := 0;
    CbcEmpty(f, iv0);
    assert input[..0] == [];
    while n < |input|
      invariant 0 <= n <= |input| && n % 16 == 0
      invariant ctx.sk[..] == old(ctx.sk[..])
      invariant output == Cbc(f, iv0, input[..n])
      invariant iv[..] == Chain(iv0, output)
    {
      var p: Block := input[n..n + 16];
      var v: Block := iv[..];
      var c := ctx.OneRound(Xor(p, v));
      Overwrite(iv, c);
      CbcBlock(f, v, p);
      CbcAppend(f, iv0, input[..n], p);
      assert input[..n] + p == input[..n + 16];
      ChainConcat(iv0, output, c);
      output := output + c;
      n := n + 16;
    }
    assert input[..n] == input;
  }

  method CbcDecrypt(ctx: Context, iv: array<byte>, input: seq<byte>) returns (output: seq<byte>)
    requires ctx.sk.Length == 32 && iv.Length == 16 && |input| % 16 == 0
    modifies iv
    ensures ctx.sk[..] == old(ctx.sk[..])
    ensures output == CbcInv(Cipher(ctx.lt, ctx.sk[..]), old(iv[..]), input)
    ensures iv[..] == Chain(old(iv[..]), input)
  {
    hide Cipher, CbcInv, Xor, IsTrace;
    ghost var f := Cipher(ctx.lt, ctx.sk[..]);
    ghost var iv0: Block := iv[..];
    output := [];
    var n := 0;
    CbcEmpty(f, iv0);
    assert input[..0] == [];
    while n < |input|
      invariant 0 <= n <= |input| && n % 16 == 0
      invariant ctx.sk[..] == old(ctx.sk[..])
      invariant output == CbcInv(f, iv0, input[..n])
      invariant iv[..] == Chain(iv0, input[..n])
    {
      var c: Block := input[n..n + 16];
      var v: Block := iv[..];
      var d := ctx.OneRound(c);
      Overwrite(iv, c);
      CbcInvBlock(f, v, c);
      CbcInvAppend(f, iv0, input[..n], c);
      assert input[..n] + c == input[..n + 16];
      ChainConcat(iv0, input[..n], c);
      output := output + Xor(d, v);
      n := n + 16;
    }
    assert input[..n] == input;
  }

  /** memcpy into a 16-byte array. */
  method Overwrite(a: array<byte>, b: Block)
    requires a.Length == 16
    modifies a
    ensures a[..] == b
  {
    forall i | 0 <= i < 16 {
      a[i] := b[i];
    }
  }

  method CryptCtr(ctx: Context, ctr: array<byte>, input: seq<byte>) returns (output: seq<byte>)
    requires ctx.sk.Length == 32 && ctr.Length == 16 && |input| % 16 == 0
    modifies ctr
    ensures ctx.sk[..] == old(ctx.sk[..])
    ensures output == Ctr(Cipher(ctx.lt, ctx.sk[..]), Next, old(ctr[..]), input)
    ensures ctr[..] == Advance(Next, old(ctr[..]), |input| / 16)
    ensures IsCtr(Cipher(ctx.lt, ctx.sk[..]), old(ctr[..]), input, output)
    ensures Numbers(ctr[..], BeNat(old(ctr[..])) + |input| / 16)
  {
    hide Cipher, Ctr, Xor, Next, Advance, IsTrace, IsCtr, BeNat;
    ghost var f := Cipher(ctx.lt, ctx.sk[..]);
    ghost var ctr0: Block := ctr[..];
    CtrSpelledOut(f, ctr0, input);
    AdvanceValue(ctr0, |input| / 16);
    output := [];
    var n := 0;
    CtrStep(f, Next, ctr0, []);
    AdvanceStep(Next, ctr0, 0);
    assert input[..0] == [];
    while n < |input|
      invariant 0 <= n <= |input| && n % 16 == 0
      invariant ctx.sk[..] == old(ctx.sk[..])
      invariant output == Ctr(f, Next, ctr0, input[..n])
      invariant ctr[..] == Advance(Next, ctr0, n / 16)
    {
      var p: Block := input[n..n + 16];
      var temp: Block := ctr[..];
      var k := ctx.OneRound(temp);
      Increment(ctr);
      CtrOne(f, Next, temp, p);
      CtrAppend(f, Next, ctr0, input[..n], p);
      AdvanceLater(Next, ctr0, n / 16);
      assert input[..n] + p == input[..n + 16] && n / 16 + 1 == (n + 16) / 16;
      output := output + Xor(p, k);
      n := n + 16;
    }
    assert input[..n] == input;
  }

  // ------------------------------------------------------------- whole runs

  /** Any block-aligned cutting of a message into ECB calls gives the one-call result. */
  method EcbRun(ctx: Context, chunks: seq<seq<byte>>) returns (output: seq<byte>)
    requires ctx.sk.Length == 32 && Aligned(chunks)
    ensures |Flatten(chunks)| % 16 == 0
    ensures output == Ecb(Cipher(ctx.lt, ctx.sk[..]), Flatten(chunks))
  {
    hide Cipher, Ecb, Flatten;
    ghost var f := Cipher(ctx.lt, ctx.sk[..]);
    output := [];
    EcbStep(f, []);
    FlattenEmpty(Zeros(16));
    assert chunks[..0] == [];
    for i := 0 to |chunks|
      invariant |Flatten(chunks[..i])| % 16 == 0
      invariant output == Ecb(f, Flatten(chunks[..i]))
    {
      FlattenNext(chunks, i);
      EcbAppend(f, Flatten(chunks[..i]), chunks[i]);
      var c := CryptEcb(ctx, chunks[i]);
      output := output + c;
    }
    assert chunks[..|chunks|] == chunks;
  }

  /** Any block-aligned cutting of a message into CBC encryption calls gives the one-call ciphertext. */
  method CbcEncryptRun(ctx: Context, iv: array<byte>, chunks: seq<seq<byte>>) returns (output: seq<byte>)
    requires ctx.sk.Length == 32 && iv.Length == 16 && ctx.mode == Encrypting && Aligned(chunks)
    modifies iv
    ensures |Flatten(chunks)| % 16 == 0
    ensures output == Cbc(Cipher(ctx.lt, old(ctx.sk[..])), old(iv[..]), Flatten(chunks))
  {
    hide Cipher, Cbc, CbcInv, Chain, Flatten;
    ghost var f := Cipher(ctx.lt, ctx.sk[..]);
    ghost var iv0: Block := iv[..];
    output := [];
    CbcEmpty(f, iv0);
    FlattenEmpty(iv0);
    assert chunks[..0] == [];
    for i := 0 to |chunks|
      invariant ctx.sk[..] == old(ctx.sk[..])
      invariant |Flatten(chunks[..i])| % 16 == 0
      invariant output == Cbc(f, iv0, Flatten(chunks[..i]))
      invariant iv[..] == Chain(iv0, output)
    {
      FlattenNext(chunks, i);
      CbcAppend(f, iv0, Flatten(chunks[..i]), chunks[i]);
      var c := CryptCbc(ctx, iv, chunks[i]);
      ChainConcat(iv0, output, c);
      output := output + c;
    }
    assert chunks[..|chunks|] == chunks;
  }

  method CbcDecryptRun(ctx: Context, iv: array<byte>, chunks: seq<seq<byte>>) returns (output: seq<byte>)
    requires ctx.sk.Length == 32 && iv.Length == 16 && ctx.mode == Decrypting && Aligned(chunks)
    modifies iv
    ensures |Flatten(chunks)| % 16 == 0
    ensures output == CbcInv(Cipher(ctx.lt, old(ctx.sk[..])), old(iv[..]), Flatten(chunks))
  {
    hide Cipher, Cbc, CbcInv, Chain, Flatten;
    ghost var f := Cipher(ctx.lt, ctx.sk[..]);
    ghost var iv0: Block := iv[..];
    output := [];
    CbcEmpty(f, iv0);
    FlattenEmpty(iv0);
    assert chunks[..0] == [];
    for i := 0 to |chunks|
      invariant ctx.sk[..] == old(ctx.sk[..])
      invariant |Flatten(chunks[..i])| % 16 == 0
      invariant output == CbcInv(f, iv0, Flatten(chunks[..i]))
      invariant iv[..] == Chain(iv0, Flatten(chunks[..i]))
    {
      FlattenNext(chunks, i);
      CbcInvAppend(f, iv0, Flatten(chunks[..i]), chunks[i]);
      ChainConcat(iv0, Flatten(chunks[..i]), chunks[i]);
      var p := CryptCbc(ctx, iv, chunks[i]);
      output := output + p;
    }
    assert chunks[..|chunks|] == chunks;
  }

  method CtrRun(ctx: Context, ctr: array<byte>, chunks: seq<seq<byte>>) returns (output: seq<byte>)
    requires ctx.sk.Length == 32 && ctr.Length == 16 && Aligned(chunks)
    modifies ctr
    ensures |Flatten(chunks)| % 16 == 0
    ensures output == Ctr(Cipher(ctx.lt, old(ctx.sk[..])), Next, old(ctr[..]), Flatten(chunks))
    ensures BeNat(ctr[..]) == (BeNat(old(ctr[..])) + |Flatten(chunks)| / 16) % U128
  {
    hide Cipher, Ctr, Advance, Flatten, BeNat, Next;
    ghost var f := Cipher(ctx.lt, ctx.sk[..]);
    ghost var ctr0: Block := ctr[..];
    output := [];
    CtrStep(f, Next, ctr0, []);
    AdvanceStep(Next, ctr0, 0);
    FlattenEmpty(ctr0);
    assert chunks[..0] == [];
    for i := 0 to |chunks|
      invariant ctx.sk[..] == old(ctx.sk[..])
      invariant |Flatten(chunks[..i])| % 16 == 0
      invariant output == Ctr(f, Next, ctr0, Flatten(chunks[..i]))
      invariant ctr[..] == Advance(Next, ctr0, |Flatten(chunks[..i])| / 16)
    {
      FlattenNext(chunks, i);
      CtrAppend(f, Next, ctr0, Flatten(chunks[..i]), chunks[i]);
      AdvancePlus(Next, ctr0, |Flatten(chunks[..i])| / 16, |chunks[i]| / 16);
      var c := CryptCtr(ctx, ctr, chunks[i]);
      output := output + c;
    }
    assert chunks[..|chunks|] == chunks;
    AdvanceValue(ctr0, |Flatten(chunks)| / 16);
  }

  // ------------------------------------------------------------- round trips

  lemma KeysInvert(lt: WordFun, sk: seq<Word>)
    ensures Inverts(Cipher(lt, Reversed(sk)), Cipher(lt, sk))
    ensures Inverts(Cipher(lt, sk), Cipher(lt, Reversed(sk)))
  {
    hide Cipher, Reversed;
    forall b: Block
      ensures Cipher(lt, Reversed(sk))(Cipher(lt, sk)(b)) == b
      ensures Cipher(lt, sk)(Cipher(lt, Reversed(sk))(b)) == b
    {
      ReversedKeysInvert(lt, sk, b);
    }
  }

  /** Contexts set up with one key for the two directions. */
  method Keyed(lt: WordFun, rk: WordFun, key: Block) returns (enc: Context, dec: Context)
    ensures fresh(enc) && fresh(enc.sk) && fresh(dec) && fresh(dec.sk)
    ensures enc.sk.Length == 32 && dec.sk.Length == 32
    ensures enc.mode == Encrypting && dec.mode == Decrypting
    ensures enc.lt == lt && dec.lt == lt
    ensures enc.sk[..] == Schedule(rk, key) && dec.sk[..] == Reversed(Schedule(rk, key))
  {
    hide Schedule, Reversed;
    enc := new Context(lt, rk);
    dec := new Context(lt, rk);
    enc.SetKeyEnc(key);
    dec.SetKeyDec(key);
  }

  method Copied(b: Block) returns (a: array<byte>)
    ensures fresh(a) && a.Length == 16 && a[..] == b
  {
    a := new byte[16](i requires 0 <= i < 16 => b[i]);
  }

  /** Decryption cut one way undoes encryption cut another. */
  method EcbRoundTrip(lt: WordFun, rk: WordFun, key: Block, chunks: seq<seq<byte>>, cuts: seq<nat>)
    returns (output: seq<byte>)
    requires Aligned(chunks)
    ensures output == Flatten(chunks)
  {
    hide Cipher, Reversed, Ecb, Flatten, Schedule;
    var enc, dec := Keyed(lt, rk, key);
    var c := EcbRun(enc, chunks);
    var parts := Blockwise(c, cuts);
    output := EcbRun(dec, parts);
    ghost var sk := Schedule(rk, key);
    KeysInvert(lt, sk);
    EcbInverts(Cipher(lt, Reversed(sk)), Cipher(lt, sk), Flatten(chunks));
  }

  /** In CTR mode both directions use the encryption keys. */
  method CtrRoundTrip(lt: WordFun, rk: WordFun, key: Block, ctr: Block, chunks: seq<seq<byte>>, cuts: seq<nat>)
    returns (output: seq<byte>)
    requires Aligned(chunks)
    ensures output == Flatten(chunks)
  {
    hide Cipher, Ctr, Flatten, Schedule, Reversed, Next, BeNat;
    var enc, _ := Keyed(lt, rk, key);
    var again, _ := Keyed(lt, rk, key);
    var v := Copied(ctr);
    var w := Copied(ctr);
    var c := CtrRun(enc, v, chunks);
    var parts := Blockwise(c, cuts);
    output := CtrRun(again, w, parts);
    CtrInvolution(Cipher(lt, Schedule(rk, key)), Next, ctr, Flatten(chunks));
  }

  /** Decryption cut one way undoes encryption cut another. */
  method CbcRoundTrip(lt: WordFun, rk: WordFun, key: Block, iv: Block, chunks: seq<seq<byte>>, cuts: seq<nat>)
    returns (output: seq<byte>)
    requires Aligned(chunks)
    ensures output == Flatten(chunks)
  {
    hide Cipher, Reversed, Cbc, CbcInv, Flatten, Schedule;
    var enc, dec := Keyed(lt, rk, key);
    var v := Copied(iv);
    var w := Copied(iv);
    var c := CbcEncryptRun(enc, v, chunks);
    var parts := Blockwise(c, cuts);
    output := CbcDecryptRun(dec, w, parts);
    ghost var sk := Schedule(rk, key);
    KeysInvert(lt, sk);
    CbcInverts(Cipher(lt, Reversed(sk)), Cipher(lt, sk), iv, Flatten(chunks));
  }

  /** Cuts c into aligned pieces of the given numbers of blocks, the last piece taking what is left. */
  method Blockwise(c: seq<byte>, cuts: seq<nat>) returns (parts: seq<seq<byte>>)
    requires |c| % 16 == 0
    ensures Aligned(parts) && Flatten(parts) == c
  {
    hide Flatten;
    parts := [];
    FlattenEmpty(Zeros(16));
    var n := 0;
    for i := 0 to |cuts|
      invariant 0 <= n <= |c| && n % 16 == 0
      invariant Aligned(parts) && Flatten(parts) == c[..n]
    {
      var k := if n + 16 * cuts[i] <= |c| then 16 * cuts[i] else |c| - n;
      WholeEnd(n, cuts[i], |c|, k);
      FlattenSnoc(parts, c[n..n + k]);
      parts := parts + [c[n..n + k]];
      assert c[..n] + c[n..n + k] == c[..n + k];
      n := n + k;
    }
    WholeEnd(n, |c|, |c|, |c| - n);
    FlattenSnoc(parts, c[n..]);
    parts := parts + [c[n..]];
    assert c[..n] + c[n..] == c;
  }

  lemma WholeEnd(n: nat, blocks: nat, len: nat, k: nat)
    requires n <= len && n % 16 == 0 && len % 16 == 0
    requires k == if n + 16 * blocks <= len then 16 * blocks else len - n
    ensures k % 16 == 0 && (n + k) % 16 == 0
  {
    var i, j := n / 16, len / 16;
    assert n == 16 * i && len == 16 * j;
    var b := if n + 16 * blocks <= len then blocks else j - i;
    DivModUnique(k, 16, b, 0);
    DivModUnique(n + k, 16, i + b, 0);
  }
}
