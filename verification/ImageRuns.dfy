/** From the commands that sign a chain to the two verifiers that judge it. */
module ImageRuns {
  import opened Bytes
  import opened ImageFormat
  import opened ImageUuid
  import opened ImageChain
  import opened ImageWriter
  import opened SignedHdr

  // ------------------------------------------------------- correct chains grow

  /** What follows the last subkey of a chain is right for it. */
  predicate Fitting(w: World, links: seq<Link>, name: seq<byte>, more: seq<Link>, ta: Option<Ta>)
    requires links != [] && Writable(more, ta)
  {
    hide NameImg, NextUuid, Correct;
    var last := links[|links| - 1].key;
    && |name| <= last.nameSize
    && var nameImg := NameImg(name, last.nameSize);
       && (last.nameSize > 0 ==> w.utf8(nameImg))
       && Correct(w, last.key, Some(NextUuid(w.sha, last.uuid, nameImg)), last.maxDepth, more, ta)
  }

  lemma {:induction false} CorrectExtends(w: World, root: Key, expected: Option<Uuid>, maxDepth: int, links: seq<Link>,
                                          name: seq<byte>, more: seq<Link>, ta: Option<Ta>)
    requires Writable(links, None) && Correct(w, root, expected, maxDepth, links, None)
    requires Writable(more, ta) && Fitting(w, links, name, more, ta)
    ensures Writable(WithName(links, name) + more, ta)
    ensures Correct(w, root, expected, maxDepth, WithName(links, name) + more, ta)
    decreases |links|
  {
    hide WritableSubkey, WritableTa, SubkeyShdr, SubkeyImg, TaShdr, Le, NextUuid, NameImg, WithName;
    WithNameWritable(links, name, more, ta);
    var all := WithName(links, name) + more;
    var k := links[0].key;
    WithNameParts(links, name, more);
    if |links| > 1 {
      TailWritable(links);
      var nameImg := NameImg(links[0].name, k.nameSize);
      CorrectExtends(w, k.key, Some(NextUuid(w.sha, k.uuid, nameImg)), k.maxDepth, links[1..], name, more, ta);
    }
  }

  lemma WithNameParts(links: seq<Link>, name: seq<byte>, more: seq<Link>)
    requires links != []
    ensures var all := WithName(links, name) + more;
            if |links| == 1 then all[1..] == more && all[0] == Link(links[0].key, name)
            else all[1..] == WithName(links[1..], name) + more && all[0] == links[0]
  {
  }

  // ------------------------------------------------------------- the commands

  /** A signer whose signatures a key checks, of the announced size. */
  ghost predicate Honest(w: World, key: Key, signer: Digest -> seq<byte>, algo: nat, sigSize: nat) {
    sigSize < 0x1_0000 && forall d: Digest :: |signer(d)| == sigSize && w.check(key, algo, d, signer(d))
  }

  /** One call of the command: the subkey, the depth asked for, its name under the one before, and who signs. */
  datatype Request = Request(k: Subkey, asked: Option<nat>, name: seq<byte>, signer: Digest -> seq<byte>, sigSize: nat)

  /** The UUID is the one derived from the name under the subkey before. */
  predicate Named(w: World, before: Subkey, name: seq<byte>, uuid: Uuid) {
    hide NameImg, NextUuid;
    && |name| <= before.nameSize
    && (before.nameSize > 0 ==> w.utf8(NameImg(name, before.nameSize)))
    && uuid == NextUuid(w.sha, before.uuid, NameImg(name, before.nameSize))
  }

  ghost predicate GoodRequest(w: World, root: Key, rs: seq<Request>, i: nat)
    requires i < |rs|
  {
    var r := rs[i];
    && WritableSubkey(r.k) && w.valid(r.k.key)
    && Honest(w, if i == 0 then root else rs[i - 1].k.key, r.signer, r.k.sigAlgo, r.sigSize)
    && (i > 0 ==> Named(w, rs[i - 1].k, r.name, r.k.uuid))
  }

  /** The depth the i-th subkey gets, if there is one left. */
  function DepthOf(rs: seq<Request>, i: nat): Option<nat>
    requires i < |rs|
  {
    if i == 0 then
      var d := ChosenDepth(None, rs[0].asked);
      if d.Some? && d.value < U32 then d else None
    else
      var p := DepthOf(rs, i - 1);
      if p.None? then None else ChosenDepth(p, rs[i].asked)
  }

  lemma {:induction false} DepthsFail(rs: seq<Request>, i: nat, j: nat)
    requires i <= j < |rs| && DepthOf(rs, i).None?
    ensures DepthOf(rs, j).None?
    decreases j
  {
    hide ChosenDepth;
    if i < j {
      DepthsFail(rs, i, j - 1);
    }
  }

  /** The key, name size and UUID asked for are those of the link. */
  predicate AsAsked(l: Link, r: Request, depth: Option<nat>) {
    && l.key.key == r.k.key && l.key.nameSize == r.k.nameSize && l.key.uuid == r.k.uuid
    && depth.Some? && l.key.maxDepth == depth.value
  }

  /** The file made by the first n requests is that of a correct chain of what was asked for. */
  ghost predicate FileMade(w: World, root: Key, rs: seq<Request>, n: nat, links: seq<Link>, file: seq<byte>) {
    && 0 < n == |links| <= |rs| && Writable(links, None) && file == FileOf(links, None)
    && Correct(w, root, None, -1, links, None)
    && forall i :: 0 <= i < n ==> AsAsked(links[i], rs[i], DepthOf(rs, i)) && w.valid(links[i].key.key)
  }

  lemma OneCorrect(w: World, root: Key, expected: Option<Uuid>, maxDepth: int, r: Request, depth: Word, f: Subkey)
    requires WritableSubkey(r.k) && w.valid(r.k.key) && Honest(w, root, r.signer, r.k.sigAlgo, r.sigSize)
    requires f == Finished(w.hash, r.signer, r.k, depth, r.sigSize)
    requires Matches(expected, r.k.uuid) && (maxDepth >= 0 ==> depth < maxDepth)
    ensures Writable([Link(f, [])], None) && Correct(w, root, expected, maxDepth, [Link(f, [])], None)
    ensures f.key == r.k.key && f.nameSize == r.k.nameSize && f.uuid == r.k.uuid && f.maxDepth == depth
  {
    hide Shdr, SubkeyImg, SubkeyShdr, IntBytes, SubkeyBytes;
    FinishedIs(w.hash, r.signer, r.k, depth, r.sigSize, f);
    assert |f.sig| == r.sigSize;
    FinishedBytes(w.hash, r.signer, r.k, depth, r.sigSize, f);
    OneLink(f);
    assert [Link(f, [])][0].key == f;
  }

  /** The first call. */
  method SignOne(w: World, root: Key, rs: seq<Request>) returns (out: Option<seq<byte>>, ghost links: seq<Link>)
    requires rs != [] && GoodRequest(w, root, rs, 0)
    ensures out.Some? <==> DepthOf(rs, 0).Some?
    ensures out.Some? ==> FileMade(w, root, rs, 1, links, out.value)
  {
    hide WritableSubkey, FileOf, Correct, Writable, Finished;
    var r := rs[0];
    out := SignFirstSubkey(w.hash, r.signer, r.sigSize, r.k, r.asked);
    links := [];
    if out.Some? {
      var d := ChosenDepth(None, r.asked).value;
      ghost var f := Finished(w.hash, r.signer, r.k, d, r.sigSize);
      OneCorrect(w, root, None, -1, r, d, f);
      links := [Link(f, [])];
    }
  }

  /** A further call on the file made so far. */
  method SignMore(w: World, root: Key, rs: seq<Request>, i: nat, file: seq<byte>, ghost links: seq<Link>)
    returns (out: Option<seq<byte>>, ghost all: seq<Link>)
    requires 0 < i < |rs| && GoodRequest(w, root, rs, i) && FileMade(w, root, rs, i, links, file)
    ensures out.Some? <==> DepthOf(rs, i).Some?
    ensures out.Some? ==> FileMade(w, root, rs, i + 1, all, out.value)
  {
    hide WritableSubkey, FileOf, Correct, Writable, Finished, NameImg, NextUuid, ChosenDepth, Honest;
    var r := rs[i];
    ghost var last := links[i - 1].key;
    assert AsAsked(links[i - 1], rs[i - 1], DepthOf(rs, i - 1));
    HonestSizes(w, rs[i - 1].k.key, r);
    out := SignNextSubkey(w.valid, w.hash, r.signer, r.sigSize, file, r.name, r.k, r.asked, links);
    all := [];
    if out.Some? {
      ghost var d := ChosenDepth(Some(last.maxDepth), r.asked).value;
      ghost var f := Finished(w.hash, r.signer, r.k, d, r.sigSize);
      OneCorrect(w, last.key, Some(r.k.uuid), last.maxDepth, r, d, f);
      CorrectExtends(w, root, None, -1, links, r.name, [Link(f, [])], None);
      all := WithName(links, r.name) + [Link(f, [])];
      KeepsAsked(w, rs, i, links, r.name, all);
    }
  }

  lemma HonestSizes(w: World, key: Key, r: Request)
    requires Honest(w, key, r.signer, r.k.sigAlgo, r.sigSize)
    ensures Sizes(r.signer, r.sigSize)
  {
  }

  lemma KeepsAsked(w: World, rs: seq<Request>, i: nat, links: seq<Link>, name: seq<byte>, all: seq<Link>)
    requires 0 < i == |links| < |rs| && i < |all| && all[..i] == WithName(links, name)
    requires forall j :: 0 <= j < i ==> AsAsked(links[j], rs[j], DepthOf(rs, j)) && w.valid(links[j].key.key)
    ensures forall j :: 0 <= j < i ==> AsAsked(all[j], rs[j], DepthOf(rs, j)) && w.valid(all[j].key.key)
  {
    hide DepthOf;
    forall j | 0 <= j < i
      ensures AsAsked(all[j], rs[j], DepthOf(rs, j)) && w.valid(all[j].key.key)
    {
      assert all[j] == all[..i][j] && all[j].key == links[j].key;
      assert AsAsked(links[j], rs[j], DepthOf(rs, j));
    }
  }

  /** All the calls, one after another. */
  method SignSubkeys(w: World, root: Key, rs: seq<Request>) returns (out: Option<seq<byte>>, ghost links: seq<Link>)
    requires rs != [] && forall i :: 0 <= i < |rs| ==> GoodRequest(w, root, rs, i)
    ensures out.Some? <==> DepthOf(rs, |rs| - 1).Some?
    ensures out.Some? ==> FileMade(w, root, rs, |rs|, links, out.value)
  {
    hide GoodRequest, FileMade, DepthOf;
    out, links := SignOne(w, root, rs);
    if out.None? {
      DepthsFail(rs, 0, |rs| - 1);
      return;
    }
    for i := 1 to |rs|
      invariant out.Some? && FileMade(w, root, rs, i, links, out.value) && DepthOf(rs, i - 1).Some?
    {
      out, links := SignMore(w, root, rs, i, out.value, links);
      if out.None? {
        DepthsFail(rs, i, |rs| - 1);
        return;
      }
    }
  }

  /** The key that signs the trusted application: that of the last subkey, or the root without subkeys. */
  function LastKey(root: Key, rs: seq<Request>): Key {
    if rs == [] then root else rs[|rs| - 1].k.key
  }

  /** The trusted application on the file of the chain, if there is one. */
  method SignLast(w: World, root: Key, rs: seq<Request>, t: Ta, name: seq<byte>, signer: Digest -> seq<byte>,
                  sigSize: nat, chain: Option<seq<byte>>, ghost links: seq<Link>)
    returns (file: Option<seq<byte>>, ghost all: seq<Link>, ghost f: Ta)
    requires if chain.None? then rs == [] && links == [] else FileMade(w, root, rs, |rs|, links, chain.value)
    requires |t.img| < U32 && KnownAlgo(t.sigAlgo) && (rs != [] ==> Named(w, rs[|rs| - 1].k, name, t.uuid))
    requires Honest(w, LastKey(root, rs), signer, t.sigAlgo, sigSize)
    ensures file.Some? && f.uuid == t.uuid && |all| == |rs|
    ensures Writable(all, Some(f)) && file.value == FileOf(all, Some(f)) && Correct(w, root, None, -1, all, Some(f))
    ensures forall i :: 0 <= i < |rs| ==> AsAsked(all[i], rs[i], DepthOf(rs, i))
  {
    hide WritableSubkey, FileOf, Correct, Writable, NameImg, NextUuid, DepthOf, FinishedTa;
    if rs != [] {
      assert AsAsked(links[|rs| - 1], rs[|rs| - 1], DepthOf(rs, |rs| - 1));
    }
    file := SignTa(w.valid, w.hash, signer, sigSize, chain, name, t, links);
    f := FinishedTa(w.hash, signer, t, sigSize);
    all := Under(links, name);
    if rs == [] {
      TaCorrect(w, root, None, t, signer, sigSize, -1, f);
    } else {
      ghost var last := links[|rs| - 1].key;
      TaCorrect(w, last.key, Some(t.uuid), t, signer, sigSize, last.maxDepth, f);
      CorrectExtends(w, root, None, -1, links, name, [], Some(f));
      assert all + [] == all;
    }
    forall i | 0 <= i < |rs|
      ensures AsAsked(all[i], rs[i], DepthOf(rs, i))
    {
      assert all[i].key == links[i].key && AsAsked(links[i], rs[i], DepthOf(rs, i));
    }
  }

  lemma TaCorrect(w: World, key: Key, expected: Option<Uuid>, t: Ta, signer: Digest -> seq<byte>, sigSize: nat,
                  maxDepth: int, f: Ta)
    requires |t.img| < U32 && KnownAlgo(t.sigAlgo) && Honest(w, key, signer, t.sigAlgo, sigSize)
    requires f == FinishedTa(w.hash, signer, t, sigSize) && Matches(expected, t.uuid)
    ensures f.uuid == t.uuid && Writable([], Some(f)) && Correct(w, key, expected, maxDepth, [], Some(f))
  {
    hide Shdr, Le;
    assert |f.sig| == sigSize;
    OneTa(f);
    var a, b, c := TaShdr(f), t.uuid, Le(t.version, 4);
    assert a + (b + c) + t.img == a + b + c + t.img;
  }

  /**
   * Signing any number of subkeys and a trusted application under them, and giving the file to both verifiers. The
   * commands go through exactly when the depths last. The script then accepts the file exactly when every
   * subkey has a name field, and the secure world goes along exactly when the first depth is not the largest
   * number there is.
   */
  method SignAndJudge(w: World, root: Key, rs: seq<Request>, t: Ta, name: seq<byte>, signer: Digest -> seq<byte>,
                      sigSize: nat) returns (signed: bool, script: bool, keys: Option<seq<PubKey>>)
    requires forall i :: 0 <= i < |rs| ==> GoodRequest(w, root, rs, i)
    requires |t.img| < U32 && KnownAlgo(t.sigAlgo) && (rs != [] ==> Named(w, rs[|rs| - 1].k, name, t.uuid))
    requires Honest(w, LastKey(root, rs), signer, t.sigAlgo, sigSize)
    ensures signed <==> rs == [] || DepthOf(rs, |rs| - 1).Some?
    ensures signed ==> (script <==> forall i :: 0 <= i < |rs| ==> rs[i].k.nameSize > 0)
    ensures signed && rs == [] ==> keys == Some([])
    ensures signed && rs != [] ==> DepthOf(rs, 0).Some? && (keys.Some? <==> DepthOf(rs, 0).value < U32 - 1)
    ensures signed && keys.Some? ==> |keys.value| == |rs|
  {
    hide GoodRequest, FileMade, DepthOf, Writable, Correct, FileOf, Verify, Walk, Named, Honest, KeysOf, LastKey,
         SignedChain, SignedStages;
    var chain, file;
    ghost var links, all, f := [], [], t;
    script, keys, chain := false, None, None;
    if rs != [] {
      chain, links := SignSubkeys(w, root, rs);
      if chain.None? {
        return false, false, None;
      }
    }
    signed := true;
    file, all, f := SignLast(w, root, rs, t, name, signer, sigSize, chain, links);
    assert forall i :: 0 <= i < |rs| ==> AsAsked(all[i], rs[i], DepthOf(rs, i));
    CorrectIsAccepted(w, root, None, -1, all, Some(f), t.uuid);
    CorrectIsLoaded(w, root, None, -1, U32 - 1, all, f);
    KeysCount(w, all, f);
    script := CommandVerify(w, file.value, root, t.uuid);
    ghost var offs;
    keys, offs := LoadChain(w, root, file.value, t.uuid);
    if rs != [] {
      assert all != [] && AsAsked(all[0], rs[0], DepthOf(rs, 0));
    }
    AllNamed(all, rs, f);
  }

  lemma AllNamed(all: seq<Link>, rs: seq<Request>, f: Ta)
    requires |all| == |rs| && forall i :: 0 <= i < |rs| ==> AsAsked(all[i], rs[i], DepthOf(rs, i))
    ensures NamesAll(all, Some(f)) <==> forall i :: 0 <= i < |rs| ==> rs[i].k.nameSize > 0
  {
    hide DepthOf;
    forall i | 0 <= i < |rs|
      ensures all[i].key.nameSize == rs[i].k.nameSize
    {
      assert AsAsked(all[i], rs[i], DepthOf(rs, i));
    }
  }

  lemma {:induction false} KeysCount(w: World, links: seq<Link>, t: Ta)
    requires Writable(links, Some(t))
    ensures |KeysOf(w, links)| == |links|
    decreases |links|
  {
    hide WritableSubkey, WritableTa, NextUuid;
    if links != [] {
      KeysCount(w, links[1..], t);
    }
  }
}
