/** Whole AES-GCM operations: every way of cutting the input gives what NIST SP 800-38D asks for. */
module GcmRuns {
  import opened Bytes
  import opened GhashTable
  import opened GcmSpec
  import opened Gcm

  /** One call's data and the address it lies at. */
  datatype Piece = Piece(data: seq<byte>, addr: nat)

  function Joined(pieces: seq<Piece>): seq<byte> {
    if pieces == [] then [] else Joined(pieces[..|pieces| - 1]) + pieces[|pieces| - 1].data
  }

  // -------------------------------------- what the code computes, in one piece

  function CodeCipher(e: BlockFun, nonce: seq<byte>, p: seq<byte>): (c: seq<byte>)
    ensures |c| == |p|
  {
    Xor(p, KeyStream(e, IncCtr(CodePreCounter(e, nonce)), 0, |p|))
  }

  function CodeTag(e: BlockFun, nonce: seq<byte>, a: seq<byte>, c: seq<byte>): Block {
    hide HashOf, PadZero;
    Xor(e(CtrBlock(CodePreCounter(e, nonce))), HashOf(TimesKey(e(ZERO_BLOCK)), PadZero(a) + c, |a|, |c|))
  }

  lemma PadZeroWhole(s: seq<byte>)
    requires |s| % 16 == 0
    ensures PadZero(s) == s
  {
  }

  lemma WholeWrap(n: nat)
    requires Wrap32(n) == 0
    ensures n % 16 == 0
  {
    assert n == 16 * (0x1000_0000 * (n / U32));
  }

  /** Once payload has been fed, nothing more is padded before the end. */
  lemma NoMorePadding(a: seq<byte>, c: seq<byte>, done: nat)
    requires done == |c|
    ensures Wrap32(done) == 0 ==> PadZero(PadZero(a) + c) == PadZero(a) + c
  {
    hide PadZero, Wrap32;
    if Wrap32(done) == 0 {
      WholeWrap(done);
      var p := PadZero(a);
      SameRem(|p + c|, |c|, 16, |p| / 16);
      PadZeroWhole(p + c);
    }
  }

  /** Feed all the additional data. */
  method FeedAad(s: State, aads: seq<Piece>)
    requires s.Valid() && s.Hashed() == [] && s.aad == 0 && s.Done() == 0 && !s.inPayload
    modifies s
    ensures s.Valid() && s.Hashed() == Joined(aads) && s.aad == |Joined(aads)| && s.Done() == 0 && !s.inPayload
    ensures s.mode == old(s.mode) && s.j0 == old(s.j0) && s.tagLen == old(s.tagLen)
  {
    hide Ghash, CtrBlock, IncCtr;
    hide State.M, State.KeyReady, State.CtrInv;
    for i := 0 to |aads|
      invariant s.Valid() && s.Hashed() == Joined(aads[..i]) && s.aad == |Joined(aads[..i])| && s.Done() == 0
      invariant !s.inPayload && s.mode == old(s.mode) && s.j0 == old(s.j0) && s.tagLen == old(s.tagLen)
    {
      var r := s.UpdateAad(aads[i].data, aads[i].addr);
      assert aads[..i + 1][..i] == aads[..i];
    }
    assert aads[..|aads|] == aads;
  }

  /** After payload `p`, the output is enciphered from the start of the key stream. */
  ghost predicate Fed(s: State, m: Mode, a: seq<byte>, p: seq<byte>, out: seq<byte>)
    reads s, s.key.HL, s.key.HH
  {
    && s.Valid() && s.mode == m && s.aad == |a| && s.Done() == |p|
    && out == Xor(p, KeyStream(s.e, s.base, 0, |p|))
    && s.Prefix() == PadZero(a) + (if m.Encrypting? then out else p)
  }

  method FeedPart(s: State, m: Mode, part: seq<byte>, out: seq<byte>, ghost a: seq<byte>, ghost p: seq<byte>)
    returns (out': seq<byte>)
    requires Fed(s, m, a, p, out)
    modifies s
    ensures Fed(s, m, a, p + part, out') && s.j0 == old(s.j0) && s.tagLen == old(s.tagLen)
  {
    hide Ghash, CtrBlock, IncCtr, Xor, KeyStream, PadZero;
    hide State.M, State.KeyReady, State.CtrInv;
    var d := s.UpdatePayload(part, m);
    ExtendStream(s.e, s.base, 0, p, part);
    out' := out + d;
    assert s.Hashed() == PadZero(a) + (if m.Encrypting? then out' else p + part);
    NoMorePadding(a, if m.Encrypting? then out' else p + part, s.Done());
  }

  /** Feed payload call by call. */
  method FeedPayload(s: State, m: Mode, parts: seq<seq<byte>>, ghost a: seq<byte>) returns (out: seq<byte>)
    requires s.Valid() && s.mode == m && s.Hashed() == a && s.Done() == 0 && s.aad == |a| && !s.inPayload
    modifies s
    ensures Fed(s, m, a, Flatten(parts), out) && s.j0 == old(s.j0) && s.tagLen == old(s.tagLen)
  {
    hide Xor, KeyStream, PadZero;
    hide State.M, State.KeyReady, State.CtrInv;
    out := [];
    XorEmpty();
    assert PadZero(a) + [] == PadZero(a);
    for i := 0 to |parts|
      invariant Fed(s, m, a, Flatten(parts[..i]), out)
      invariant s.j0 == old(s.j0) && s.tagLen == old(s.tagLen)
    {
      out := FeedPart(s, m, parts[i], out, a, Flatten(parts[..i]));
      assert parts[..i + 1][..i] == parts[..i];
    }
    assert parts[..|parts|] == parts;
  }

  /** Everything up to the final call. */
  method FeedAll(e: BlockFun, tableBased: bool, m: Mode, nonce: seq<byte>, aads: seq<Piece>,
                 parts: seq<seq<byte>>, tagLen: nat)
    returns (s: State, out: seq<byte>)
    requires tagLen <= 16
    ensures fresh(s) && fresh(s.key.HL) && fresh(s.key.HH) && s.e == e && s.tagLen == tagLen
    ensures Fed(s, m, Joined(aads), Flatten(parts), out) && s.j0 == CodePreCounter(e, nonce)
  {
    hide Ghash, CtrBlock, IncCtr, CodePreCounter, Xor, KeyStream, PadZero, Joined, Flatten, Fed;
    hide State.KeyReady, State.CtrInv, State.M;
    s := new State(e, tableBased);
    var r := s.Init(m, nonce, tagLen);
    FeedAad(s, aads);
    out := FeedPayload(s, m, parts, Joined(aads));
  }

  /** An encryption cut up in any way; `tagLen` is also the caller's room for the tag. */
  method EncryptRun(e: BlockFun, tableBased: bool, nonce: seq<byte>, aads: seq<Piece>,
                    parts: seq<seq<byte>>, last: seq<byte>, tagLen: nat)
    returns (c: seq<byte>, tag: seq<byte>)
    requires tagLen <= 16
    ensures c == CodeCipher(e, nonce, Flatten(parts) + last)
    ensures tag == CodeTag(e, nonce, Joined(aads), c)[..tagLen]
  {
    hide CtrBlock, IncCtr, CodePreCounter, Xor, KeyStream, PadZero, HashOf, Joined, Flatten;
    hide State.HashInv, State.CtrInv, State.Hashed, State.Prefix;
    var s, out := FeedAll(e, tableBased, Encrypting, nonce, aads, parts, tagLen);
    var r, d, t := s.EncFinal(last, tagLen);
    c, tag := out + d, t;
    ExtendStream(e, IncCtr(CodePreCounter(e, nonce)), 0, Flatten(parts), last);
    assert PadZero(Joined(aads)) + out + d == PadZero(Joined(aads)) + c;
  }

  /** A decryption cut up in any way. */
  method DecryptRun(e: BlockFun, tableBased: bool, nonce: seq<byte>, aads: seq<Piece>,
                    parts: seq<seq<byte>>, last: seq<byte>, tag: seq<byte>)
    returns (ok: bool, p: seq<byte>)
    requires |tag| <= 16
    ensures p == CodeCipher(e, nonce, Flatten(parts) + last)
    ensures ok <==> tag == CodeTag(e, nonce, Joined(aads), Flatten(parts) + last)[..|tag|]
  {
    hide CtrBlock, IncCtr, CodePreCounter, Xor, KeyStream, PadZero, HashOf, Joined, Flatten;
    hide State.HashInv, State.CtrInv, State.Hashed, State.Prefix;
    var s, out := FeedAll(e, tableBased, Decrypting, nonce, aads, parts, |tag|);
    var r, d := s.DecFinal(last, tag);
    p, ok := out + d, r.Success?;
    ExtendStream(e, IncCtr(CodePreCounter(e, nonce)), 0, Flatten(parts), last);
    assert PadZero(Joined(aads)) + Flatten(parts) + last == PadZero(Joined(aads)) + (Flatten(parts) + last);
  }

  /** Decryption under any cut undoes encryption under any other, and accepts its tag. */
  method RoundTrip(e: BlockFun, tableBased: bool, tableBased': bool, nonce: seq<byte>,
                   aads: seq<Piece>, parts: seq<seq<byte>>, last: seq<byte>, tagLen: nat,
                   aads': seq<Piece>, cuts: seq<nat>)
    returns (ok: bool, p: seq<byte>)
    requires tagLen <= 16 && Joined(aads) == Joined(aads')
    ensures ok && p == Flatten(parts) + last
  {
    hide *;
    var c, tag := EncryptRun(e, tableBased, nonce, aads, parts, last, tagLen);
    var pieces, rest := Cut(c, cuts);
    ok, p := DecryptRun(e, tableBased', nonce, aads', pieces, rest, tag);
    CipherInvolution(e, nonce, Flatten(parts) + last);
    TagLength(e, nonce, Joined(aads), c, tagLen);
  }

  /** Cut a string at the given lengths, as far as it goes. */
  method Cut(s: seq<byte>, cuts: seq<nat>) returns (pieces: seq<seq<byte>>, rest: seq<byte>)
    ensures Flatten(pieces) + rest == s
  {
    pieces, rest := [], s;
    for i := 0 to |cuts|
      invariant Flatten(pieces) + rest == s
    {
      var n := if cuts[i] <= |rest| then cuts[i] else |rest|;
      ghost var before := pieces;
      pieces := pieces + [rest[..n]];
      assert pieces[..|pieces| - 1] == before;
      rest := rest[n..];
    }
  }

  lemma CipherInvolution(e: BlockFun, nonce: seq<byte>, p: seq<byte>)
    ensures CodeCipher(e, nonce, CodeCipher(e, nonce, p)) == p
  {
    hide Xor, KeyStream;
    XorInvolution(p, KeyStream(e, IncCtr(CodePreCounter(e, nonce)), 0, |p|));
  }

  lemma TagLength(e: BlockFun, nonce: seq<byte>, a: seq<byte>, c: seq<byte>, n: nat)
    requires n <= 16
    ensures |CodeTag(e, nonce, a, c)[..n]| == n
  {
  }
}
