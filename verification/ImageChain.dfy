/**
 * Chains of subkeys ending in a trusted application: the files the script writes, the files it accepts, and
 * how far a chain can go.
 */
module ImageChain {
  import opened Bytes
  import opened ImageFormat
  import opened ImageUuid

  /**
   * What the cryptography library decides: keys, SHA-256 and the other digests by number, signatures, and which bytes
   * are UTF-8.
   */
  datatype World = World(valid: Key -> bool, hash: seq<byte> -> Digest, sha: Sha512,
                         check: (Key, nat, seq<byte>, seq<byte>) -> bool, utf8: seq<byte> -> bool,
                         others: (nat, seq<byte>) -> seq<byte>)

  // --------------------------------------------------------------- the verifier

  lemma ParseShrinks(valid: Key -> bool, inf: seq<byte>)
    requires Parse(valid, inf).Some? && Parse(valid, inf).value.ParsedSubkey?
    ensures |Parse(valid, inf).value.nextInf| < |inf|
    ensures |Parse(valid, inf).value.uuid| == 16
    ensures Parse(valid, inf).value.nextInf != [] ==>
      |Parse(valid, inf).value.nameImg| == Parse(valid, inf).value.nameSize
  {
    hide WordAt, FindAttr, BeNat, LeNat;
    var h := ParseHeader(inf).value;
    assert |h.1| < |inf|;
  }

  /** The signature of a subkey and the digest it signs. */
  predicate SubkeySigned(w: World, key: Key, p: Parsed)
    requires p.ParsedSubkey?
  {
    w.check(key, p.h.algo, p.h.digest, p.h.sig) && p.h.digest == w.hash(p.h.shdr + p.img)
  }

  predicate TaSigned(w: World, key: Key, p: Parsed)
    requires p.ParsedTa?
  {
    w.check(key, p.h.algo, p.h.digest, p.h.sig) && p.h.digest == w.hash(p.h.shdr + p.uuid + p.taVersion + p.img)
  }

  predicate Matches(expected: Option<Uuid>, uuid: seq<byte>) {
    expected.Some? ==> uuid == expected.value
  }

  /** The script's next_uuid: unset, an object of class UUID, or the bare bytes of a subkey's UUID. */
  datatype NextId = Unset | UuidObject(uuid: Uuid) | BareBytes(bytes: seq<byte>)

  /** The script compares a UUID object; bare bytes are never equal to one. */
  predicate Passes(next: NextId, uuid: seq<byte>) {
    match next
    case Unset => true
    case UuidObject(u) => uuid == u
    case BareBytes(b) => false
  }

  /** What the script expects after a subkey. */
  function NextOf(sha: Sha512, p: Parsed): NextId
    requires p.ParsedSubkey? && |p.uuid| == 16
  {
    hide NextUuid;
    if p.nameSize > 0 then UuidObject(NextUuid(sha, p.uuid, p.nameImg)) else BareBytes(p.uuid)
  }

  /** command_verify from some point of the chain on; maxDepth is -1 before the first subkey. */
  predicate Verify(w: World, inf: seq<byte>, key: Key, next: NextId, maxDepth: int, taUuid: Uuid)
    decreases |inf|
  {
    hide Parse;
    match Parse(w.valid, inf)
    case None => false
    case Some(p) =>
      if p.ParsedSubkey? then
        ParseShrinks(w.valid, inf);
        && SubkeySigned(w, key, p) && Passes(next, p.uuid) && (maxDepth >= 0 ==> p.maxDepth < maxDepth)
        && (p.nextInf == [] ||
            ((p.nameSize > 0 ==> w.utf8(p.nameImg)) &&
             Verify(w, p.nextInf, p.key, NextOf(w.sha, p), p.maxDepth, taUuid)))
      else
        Passes(next, p.uuid) && TaSigned(w, key, p) && p.uuid == taUuid
  }

  /** command_verify: the loop over the chain. */
  method CommandVerify(w: World, inf: seq<byte>, key: Key, taUuid: Uuid) returns (ok: bool)
    ensures ok == Verify(w, inf, key, Unset, -1, taUuid)
    ensures ok ==> exists ss :: SignedStages(w, inf, key, ss, taUuid)
  {
    hide Verify, SignedStages;
    ok := VerifyChain(w, inf, key, taUuid);
    if ok {
      ghost var ss := AcceptedIsSigned(w, inf, key, Unset, -1, taUuid);
    }
  }

  /** Its loop. */
  method VerifyChain(w: World, inf: seq<byte>, key: Key, taUuid: Uuid) returns (ok: bool)
    ensures ok == Verify(w, inf, key, Unset, -1, taUuid)
  {
    hide Parse, SubkeySigned, TaSigned, NextOf, Passes;
    var rest, k, next := inf, key, Unset;
    var maxDepth: int := -1;
    while true
      invariant Verify(w, rest, k, next, maxDepth, taUuid) == Verify(w, inf, key, Unset, -1, taUuid)
      decreases |rest|
    {
      var r := Parse(w.valid, rest);
      if r.None? {
        return false;
      }
      var p := r.value;
      if p.ParsedTa? {
        return Passes(next, p.uuid) && TaSigned(w, k, p) && p.uuid == taUuid;
      }
      ParseShrinks(w.valid, rest);
      if !SubkeySigned(w, k, p) || !Passes(next, p.uuid) || (maxDepth >= 0 && p.maxDepth >= maxDepth) {
        return false;
      }
      if p.nextInf == [] {
        return true;
      }
      if p.nameSize > 0 && !w.utf8(p.nameImg) {
        return false;
      }
      rest, k, next, maxDepth := p.nextInf, p.key, NextOf(w.sha, p), p.maxDepth;
    }
  }

  /** What is left of a file, the key it is to be signed under, and what the parser reads there. */
  datatype Stage = Stage(inf: seq<byte>, key: Key, image: Parsed)

  /** The image of a stage is signed under its key, and the digest signed is that of its header and contents. */
  ghost predicate SignedStage(w: World, s: Stage) {
    && Parse(w.valid, s.inf) == Some(s.image)
    && var h := s.image.h;
       && w.check(s.key, h.algo, h.digest, h.sig)
       && h.digest == w.hash(h.shdr + if s.image.ParsedSubkey? then s.image.img
                                      else s.image.uuid + s.image.taVersion + s.image.img)
  }

  /** b is under the key and at the bytes that the subkey a holds, has the UUID that a names, and lies deeper. */
  ghost predicate FollowsStage(w: World, a: Stage, b: Stage) {
    && a.image.ParsedSubkey? && b.inf == a.image.nextInf && b.key == a.image.key
    && a.image.nameSize > 0 && |a.image.uuid| == 16 == |b.image.uuid|
    && IsNextUuid(w.sha, a.image.uuid, a.image.nameImg, b.image.uuid)
    && (b.image.ParsedSubkey? ==> b.image.maxDepth < a.image.maxDepth)
  }

  ghost predicate FollowsAt(w: World, ss: seq<Stage>, i: int)
    requires 0 < i < |ss|
  {
    FollowsStage(w, ss[i - 1], ss[i])
  }

  /** From a key on: every image signed, each under the key in the subkey before it, up to the end of the file. */
  ghost predicate SignedStages(w: World, inf: seq<byte>, key: Key, ss: seq<Stage>, taUuid: Uuid) {
    && ss != [] && ss[0].inf == inf && ss[0].key == key
    && (forall i :: 0 <= i < |ss| ==> SignedStage(w, ss[i]))
    && (forall i :: 0 < i < |ss| ==> FollowsAt(w, ss, i))
    && var last := ss[|ss| - 1].image;
       if last.ParsedSubkey? then last.nextInf == [] else last.uuid == taUuid
  }

  lemma StagesMore(w: World, s: Stage, ss: seq<Stage>, taUuid: Uuid)
    requires SignedStage(w, s) && s.image.ParsedSubkey?
    requires SignedStages(w, s.image.nextInf, s.image.key, ss, taUuid) && FollowsStage(w, s, ss[0])
    ensures SignedStages(w, s.inf, s.key, [s] + ss, taUuid)
  {
    hide SignedStage, FollowsStage;
    var all := [s] + ss;
    forall i | 0 < i < |all|
      ensures FollowsAt(w, all, i)
    {
      assert all[i] == ss[i - 1];
      if i > 1 {
        assert FollowsAt(w, ss, i - 1);
        assert all[i - 1] == ss[i - 2];
      }
    }
  }

  /** Whatever the bytes, a file that the script accepts is signed from the first key on. */
  lemma {:induction false} AcceptedIsSigned(w: World, inf: seq<byte>, key: Key, next: NextId, maxDepth: int,
                                            taUuid: Uuid) returns (ss: seq<Stage>)
    requires Verify(w, inf, key, next, maxDepth, taUuid)
    ensures SignedStages(w, inf, key, ss, taUuid) && Passes(next, ss[0].image.uuid)
    ensures ss[0].image.ParsedSubkey? && maxDepth >= 0 ==> ss[0].image.maxDepth < maxDepth
    decreases |inf|
  {
    hide Parse;
    var p := Parse(w.valid, inf).value;
    var s := Stage(inf, key, p);
    if p.ParsedTa? {
      assert p.h.shdr + p.uuid + p.taVersion + p.img == p.h.shdr + (p.uuid + p.taVersion + p.img);
    }
    assert SignedStage(w, s);
    ss := [s];
    if p.ParsedSubkey? && p.nextInf != [] {
      ParseShrinks(w.valid, inf);
      var rest := AcceptedIsSigned(w, p.nextInf, p.key, NextOf(w.sha, p), p.maxDepth, taUuid);
      NextUuidSpelledOut(w.sha, p.uuid, p.nameImg);
      StagesMore(w, s, rest, taUuid);
      ss := [s] + rest;
    }
  }

  /** Nothing is accepted after a subkey without a name. */
  lemma BareBytesRejected(w: World, inf: seq<byte>, key: Key, b: seq<byte>, maxDepth: int, taUuid: Uuid)
    ensures !Verify(w, inf, key, BareBytes(b), maxDepth, taUuid)
  {
    hide Parse, SubkeySigned, TaSigned, NextOf;
  }

  // ------------------------------------------------------------ how far it goes

  /** The depths of the subkeys of a file, from its first on. */
  function Depths(valid: Key -> bool, inf: seq<byte>): seq<nat>
    decreases |inf|
  {
    hide Parse;
    match Parse(valid, inf)
    case None => []
    case Some(p) =>
      if p.ParsedSubkey? then
        ParseShrinks(valid, inf);
        [p.maxDepth] + (if p.nextInf == [] then [] else Depths(valid, p.nextInf))
      else []
  }

  predicate Decreasing(s: seq<nat>) {
    forall i, j :: 0 <= i < j < |s| ==> s[i] > s[j]
  }

  /** An accepted chain has strictly decreasing depths, so at most one more subkey than its first depth. */
  lemma {:induction false} AcceptedIsShort(w: World, inf: seq<byte>, key: Key, next: NextId, maxDepth: int,
                                           taUuid: Uuid)
    requires Verify(w, inf, key, next, maxDepth, taUuid)
    ensures var ds := Depths(w.valid, inf);
      && Decreasing(ds)
      && (ds != [] && maxDepth >= 0 ==> ds[0] < maxDepth)
      && (ds != [] ==> |ds| <= ds[0] + 1)
    decreases |inf|
  {
    hide Parse, SubkeySigned, TaSigned, NextOf, Passes;
    var p := Parse(w.valid, inf).value;
    if p.ParsedSubkey? && p.nextInf != [] {
      ParseShrinks(w.valid, inf);
      AcceptedIsShort(w, p.nextInf, p.key, NextOf(w.sha, p), p.maxDepth, taUuid);
    }
  }

  // --------------------------------------------------------- chains as written

  /** A subkey and the name under which what follows it is found. */
  datatype Link = Link(key: Subkey, name: seq<byte>)

  predicate WritableLink(l: Link) {
    WritableSubkey(l.key) && |l.name| <= l.key.nameSize
  }

  /** name.ljust(name_size, b'\\0') */
  function NameImg(name: seq<byte>, nameSize: nat): (r: seq<byte>)
    requires |name| <= nameSize
    ensures |r| == nameSize
  {
    name + Zeros(nameSize - |name|)
  }

  predicate Writable(links: seq<Link>, ta: Option<Ta>) {
    && (links != [] || ta.Some?)
    && (forall i :: 0 <= i < |links| ==> WritableLink(links[i]))
    && (ta.Some? ==> WritableTa(ta.value))
  }

  /** The file of a chain, with or without a trusted application at its end. */
  function FileOf(links: seq<Link>, ta: Option<Ta>): seq<byte>
    requires Writable(links, ta)
    decreases |links|
  {
    hide SubkeyBytes, TaBytes, NameImg, WritableSubkey, WritableTa;
    if links == [] then TaBytes(ta.value)
    else if |links| == 1 && ta.None? then SubkeyBytes(links[0].key)
    else SubkeyBytes(links[0].key) + NameImg(links[0].name, links[0].key.nameSize) + FileOf(links[1..], ta)
  }

  /** Signed by the key before it, named by the subkey before it, below it in depth. */
  predicate Correct(w: World, root: Key, expected: Option<Uuid>, maxDepth: int, links: seq<Link>, ta: Option<Ta>)
    requires Writable(links, ta)
    decreases |links|
  {
    hide WritableSubkey, WritableTa, SubkeyShdr, SubkeyImg, TaShdr, Le, NextUuid, NameImg;
    if links == [] then
      var t := ta.value;
      && w.check(root, t.sigAlgo, t.digest, t.sig) && t.digest == w.hash(TaShdr(t) + t.uuid + Le(t.version, 4) + t.img)
      && Matches(expected, t.uuid)
    else
      var k := links[0].key;
      WritableHas(k, links[0]);
      && w.check(root, k.sigAlgo, k.digest, k.sig) && k.digest == w.hash(SubkeyShdr(k) + SubkeyImg(k))
      && w.valid(k.key) && Matches(expected, k.uuid) && (maxDepth >= 0 ==> k.maxDepth < maxDepth)
      && ((|links| == 1 && ta.None?) ||
          (var nameImg := NameImg(links[0].name, k.nameSize);
           && (k.nameSize > 0 ==> w.utf8(nameImg))
           && Correct(w, k.key, Some(NextUuid(w.sha, k.uuid, nameImg)), k.maxDepth, links[1..], ta)))
  }

  lemma WritableHas(k: Subkey, l: Link)
    requires WritableLink(l) && k == l.key
    ensures WritableSubkey(k) && |IntBytes(k.key.n)| + |IntBytes(k.key.e)| + ATTRS_END < U32
  {
  }

  /** What follows the first subkey of a file. */
  function Rest(links: seq<Link>, ta: Option<Ta>): (r: seq<byte>)
    requires Writable(links, ta) && links != []
  {
    hide NameImg, FileOf, WritableSubkey, WritableTa;
    if |links| == 1 && ta.None? then []
    else NameImg(links[0].name, links[0].key.nameSize) + FileOf(links[1..], ta)
  }

  lemma FileStep(links: seq<Link>, ta: Option<Ta>)
    requires Writable(links, ta) && links != []
    ensures FileOf(links, ta) == SubkeyBytes(links[0].key) + Rest(links, ta)
  {
    hide SubkeyBytes, NameImg, WritableSubkey, WritableTa;
    if |links| == 1 && ta.None? {
      assert SubkeyBytes(links[0].key) + [] == SubkeyBytes(links[0].key);
    } else {
      var a, b, c := SubkeyBytes(links[0].key), NameImg(links[0].name, links[0].key.nameSize), FileOf(links[1..], ta);
      assert a + b + c == a + (b + c);
    }
  }

  /** The name and the remaining file are found where they were put. */
  lemma RestSplits(links: seq<Link>, ta: Option<Ta>)
    requires Writable(links, ta) && links != [] && !(|links| == 1 && ta.None?)
    ensures var k := links[0].key; var r := Rest(links, ta);
      && Slice(r, 0, k.nameSize) == NameImg(links[0].name, k.nameSize)
      && Slice(r, k.nameSize, |r|) == FileOf(links[1..], ta)
  {
    hide FileOf, NameImg, WritableSubkey, WritableTa;
    var a, b := NameImg(links[0].name, links[0].key.nameSize), FileOf(links[1..], ta);
    SliceIs(a + b, 0, |a|);
    SliceIs(a + b, |a|, |a + b|);
    assert (a + b)[0..|a|] == a && (a + b)[|a|..|a + b|] == b;
  }

  lemma FileNotEmpty(links: seq<Link>, ta: Option<Ta>)
    requires Writable(links, ta)
    ensures FileOf(links, ta) != []
  {
    hide SubkeyShdr, TaShdr, SubkeyImg, IntBytes, NameImg;
    if links != [] {
      FileStep(links, ta);
    }
  }

  /** Parsing the first subkey of a file as written. */
  lemma FirstBack(valid: Key -> bool, links: seq<Link>, ta: Option<Ta>, p: Parsed)
    requires Writable(links, ta) && links != [] && valid(links[0].key.key)
    requires p == SubkeyParsed(links[0].key, Rest(links, ta))
    ensures Parse(valid, FileOf(links, ta)) == Some(p)
  {
    hide SubkeyBytes, Parse, SubkeyParsed, Rest, FileOf, IntBytes;
    FileStep(links, ta);
    SubkeyBack(valid, links[0].key, Rest(links, ta));
  }

  lemma SubkeyParsedIs(k: Subkey, rest: seq<byte>, p: Parsed)
    requires WritableSubkey(k) && p == SubkeyParsed(k, rest)
    ensures p.ParsedSubkey? && p.uuid == k.uuid && p.nameSize == k.nameSize && p.version == k.version
    ensures p.maxDepth == k.maxDepth && p.algo == k.algo && p.key == k.key && p.img == SubkeyImg(k)
    ensures p.h.shdr == SubkeyShdr(k) && p.h.algo == k.sigAlgo && p.h.digest == k.digest && p.h.sig == k.sig
    ensures p.nameImg == Slice(rest, 0, k.nameSize) && p.nextInf == Slice(rest, k.nameSize, |rest|)
  {
    hide SubkeyShdr, SubkeyImg, IntBytes, Slice;
  }

  /** Every subkey with something after it gives it a name. */
  predicate NamesAll(links: seq<Link>, ta: Option<Ta>) {
    forall i :: 0 <= i < |links| && (i + 1 < |links| || ta.Some?) ==> links[i].key.nameSize > 0
  }

  function Expected(expected: Option<Uuid>): NextId {
    if expected.Some? then UuidObject(expected.value) else Unset
  }

  /**
   * A correctly signed chain with derived UUIDs and sinking depths is accepted exactly when every subkey with
   * something after it has a name field: after one without, the script compares a UUID with bytes.
   */
  lemma {:induction false} CorrectIsAccepted(w: World, root: Key, expected: Option<Uuid>, maxDepth: int,
                                             links: seq<Link>, ta: Option<Ta>, taUuid: Uuid)
    requires Writable(links, ta) && Correct(w, root, expected, maxDepth, links, ta)
    requires ta.Some? ==> taUuid == ta.value.uuid
    ensures Verify(w, FileOf(links, ta), root, Expected(expected), maxDepth, taUuid) <==> NamesAll(links, ta)
    decreases |links|
  {
    hide Parse, SubkeyParsed, TaParsed, SubkeyShdr, SubkeyImg, TaShdr, Le, NextUuid, NameImg, Slice, IntBytes,
         SubkeyBytes, TaBytes, FileOf, Rest, WritableTa;
    if links == [] {
      TaFile(w.valid, ta);
    } else {
      var k, rest := links[0].key, Rest(links, ta);
      var p := SubkeyParsed(k, rest);
      FirstBack(w.valid, links, ta, p);
      SubkeyParsedIs(k, rest, p);
      if |links| == 1 && ta.None? {
        RestEmpty(links, ta, k.nameSize);
      } else {
        RestSplits(links, ta);
        FileNotEmpty(links[1..], ta);
        NamesTail(links, ta);
        if k.nameSize == 0 {
          BareBytesRejected(w, p.nextInf, p.key, p.uuid, p.maxDepth, taUuid);
        } else {
          var next := NextUuid(w.sha, k.uuid, NameImg(links[0].name, k.nameSize));
          CorrectIsAccepted(w, k.key, Some(next), k.maxDepth, links[1..], ta, taUuid);
        }
      }
    }
  }

  lemma NamesTail(links: seq<Link>, ta: Option<Ta>)
    requires links != [] && !(|links| == 1 && ta.None?)
    ensures NamesAll(links, ta) <==> links[0].key.nameSize > 0 && NamesAll(links[1..], ta)
  {
    if links[0].key.nameSize > 0 && NamesAll(links[1..], ta) {
      forall i | 0 <= i < |links| && (i + 1 < |links| || ta.Some?)
        ensures links[i].key.nameSize > 0
      {
        assert i > 0 ==> links[i] == links[1..][i - 1];
      }
    }
  }

  lemma RestEmpty(links: seq<Link>, ta: Option<Ta>, n: nat)
    requires Writable(links, ta) && |links| == 1 && ta.None?
    ensures Slice(Rest(links, ta), n, |Rest(links, ta)|) == []
  {
  }

  lemma TaFile(valid: Key -> bool, ta: Option<Ta>)
    requires Writable([], ta)
    ensures var t := ta.value; var p := TaParsed(t);
      && Parse(valid, FileOf([], ta)) == Some(p)
      && p.ParsedTa? && p.uuid == t.uuid && p.taVersion == Le(t.version, 4) && p.img == t.img
      && p.h.shdr == TaShdr(t) && p.h.algo == t.sigAlgo && p.h.digest == t.digest && p.h.sig == t.sig
  {
    hide Parse, TaShdr, Le, TaBytes;
    TaBack(valid, ta.value);
  }
}
