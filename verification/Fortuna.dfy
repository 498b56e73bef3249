/**
 * The Fortuna generator of core/crypto/rng_fortuna.c: which counters are encrypted under which keys over
 * whole runs, with calls into the cipher and hash libraries failing at any point.
 */
module Fortuna {
  import opened Bytes
  import opened FortunaPools

  const MIN_POOL_SIZE := 64
  const MAX_EVENT_DATA_LEN := 32
  const SIZE_1M: nat := 0x10_0000

  /** What becomes of the next element of the ring. */
  datatype Fate = Over | Lost | Kept(event: Event)

  datatype Event = Event(snum: byte, pnum: nat, data: seq<byte>)

  // ----------------------------------------------------------- the discipline

  /** The counter value after `at` increments, encrypted under the key of generation gen. */
  datatype Use = Use(gen: nat, at: nat)
  {
    function Counter(): nat { at % U128 }
  }

  /** How many blocks one key encrypted. */
  function Blocks(log: seq<Use>, gen: nat): nat {
    if log == [] then 0 else Blocks(log[..|log| - 1], gen) + if log[|log| - 1].gen == gen then 1 else 0
  }

  /** Encryption never goes back: every use is later than the ones before it. */
  predicate Increasing(log: seq<Use>, incs: nat) {
    && (forall i :: 0 <= i < |log| ==> log[i].at < incs)
    && forall i, j :: 0 <= i < j < |log| ==> log[i].at < log[j].at
  }

  /** Until 2^128 increments have been made, no counter value is encrypted twice. */
  lemma NeverTwice(log: seq<Use>, incs: nat, i: nat, j: nat)
    requires Increasing(log, incs) && incs <= U128 && i < j < |log|
    ensures log[i].Counter() != log[j].Counter()
  {
  }

  const MAX_BLOCKS: nat := 0x10002

  ghost predicate Sparing(log: seq<Use>, gen: nat) {
    && (forall i :: 0 <= i < |log| ==> log[i].gen <= gen)
    && forall g: nat :: Blocks(log, g) <= MAX_BLOCKS
  }

  /** n blocks in a row. */
  function Row(gen: nat, at: nat, n: nat): (r: seq<Use>)
    ensures |r| == n
  {
    seq(n, i requires 0 <= i < n => Use(gen, at + i))
  }

  lemma LaterIncreasing(log: seq<Use>, incs: nat)
    requires Increasing(log, incs)
    ensures Increasing(log, incs + 1)
  {
  }

  lemma RowIncreasing(log: seq<Use>, incs: nat, gen: nat, n: nat)
    requires Increasing(log, incs)
    ensures Increasing(log + Row(gen, incs, n), incs + n)
  {
  }

  lemma {:induction false} RowBlocks(log: seq<Use>, at: nat, gen: nat, n: nat, g: nat)
    ensures Blocks(log + Row(gen, at, n), g) == Blocks(log, g) + if g == gen then n else 0
    decreases n
  {
    var r := log + Row(gen, at, n);
    if n == 0 {
      assert r == log;
    } else {
      assert r[..|r| - 1] == log + Row(gen, at, n - 1);
      RowBlocks(log, at, gen, n - 1, g);
    }
  }

  lemma RowSparing(log: seq<Use>, at: nat, gen: nat, n: nat)
    requires Sparing(log, gen) && Blocks(log, gen) + n <= MAX_BLOCKS
    ensures Sparing(log + Row(gen, at, n), gen)
  {
    hide Blocks;
    var r := log + Row(gen, at, n);
    forall g: nat
      ensures Blocks(r, g) <= MAX_BLOCKS
    {
      RowBlocks(log, at, gen, n, g);
    }
  }

  lemma {:induction false} FreshKeyUnused(log: seq<Use>, gen: nat)
    requires forall i :: 0 <= i < |log| ==> log[i].gen < gen
    ensures Blocks(log, gen) == 0
  {
    if log != [] {
      FreshKeyUnused(log[..|log| - 1], gen);
    }
  }

  type Cipher = (Digest, nat) -> Block

  type Hash = seq<byte> -> Digest

  /** The keystream of n blocks. */
  function Stream(enc: Cipher, key: Digest, at: nat, n: nat): (r: seq<byte>)
    ensures |r| == 16 * n
  {
    if n == 0 then [] else Stream(enc, key, at, n - 1) + enc(key, (at + n - 1) % U128)
  }

  /** Byte k of the keystream is a byte of the counter's block under the key. */
  lemma {:induction false} StreamAt(enc: Cipher, key: Digest, at: nat, n: nat, k: nat)
    requires k < 16 * n
    ensures Stream(enc, key, at, n)[k] == enc(key, (at + k / 16) % U128)[k % 16]
    decreases n
  {
    if k < 16 * (n - 1) {
      StreamAt(enc, key, at, n - 1, k);
    } else {
      DivModUnique(k, 16, n - 1, k - 16 * (n - 1));
    }
  }

  // -------------------------------------------------------------- the pools

  function Digests(hash: Hash, pools: seq<seq<byte>>, k: nat): seq<byte>
    requires k <= |pools|
  {
    if k == 0 then [] else Digests(hash, pools, k - 1) + hash(pools[k - 1])
  }

  function EmptyPools(): (r: seq<seq<byte>>)
    ensures |r| == NUM_POOLS
  {
    seq(NUM_POOLS, _ => [])
  }

  /** Pools 0 to k - 1 go on from their digests; the others are as they were. */
  predicate Restarted(hash: Hash, was: seq<seq<byte>>, now: seq<seq<byte>>, k: nat) {
    |was| == |now| && forall n :: 0 <= n < |now| ==> now[n] == if n < k then hash(was[n]) else was[n]
  }

  /** One more draw from each of the pools 0 to k - 1. */
  function Drawn(draws: seq<nat>, k: nat): (r: seq<nat>)
    ensures |r| == |draws|
  {
    seq(|draws|, n requires 0 <= n < |draws| => if n < k then draws[n] + 1 else draws[n])
  }

  function NoDraws(): seq<nat> {
    seq(NUM_POOLS, _ => 0)
  }

  /** Every pool was drawn from whenever the rule names it. */
  predicate InTurn(draws: seq<nat>, reseeds: nat) {
    |draws| == NUM_POOLS && forall n :: 0 <= n < NUM_POOLS ==> draws[n] == Uses(n, reseeds)
  }

  lemma NextInTurn(draws: seq<nat>, reseeds: nat)
    requires InTurn(draws, reseeds)
    ensures InTurn(Drawn(draws, Turns((reseeds + 1) % U32)), reseeds + 1)
  {
    hide Divides, Turns;
    var r := Drawn(draws, Turns((reseeds + 1) % U32));
    TurnsExactly((reseeds + 1) % U32);
    forall n | 0 <= n < NUM_POOLS
      ensures r[n] == Uses(n, reseeds + 1)
    {
      DividesWrapped(n, reseeds + 1);
    }
  }

  lemma NoneDrawn()
    ensures InTurn(NoDraws(), 0)
  {
  }

  /** The digests of the pools whose turn it is, hashed: the key of a reseed. */
  function ReseedKey(hash: Hash, pools: seq<seq<byte>>, count: nat): Digest
    requires |pools| == NUM_POOLS
  {
    hide Turns;
    hash(Digests(hash, pools, Turns(count)))
  }

  /** Byte by byte: the digests of the first k pools, one after another. */
  lemma {:induction false} DigestsAt(hash: Hash, pools: seq<seq<byte>>, k: nat, i: nat)
    requires k <= |pools| && i < 32 * k
    ensures |Digests(hash, pools, k)| == 32 * k && Digests(hash, pools, k)[i] == hash(pools[i / 32])[i % 32]
    decreases k
  {
    if i < 32 * (k - 1) {
      DigestsAt(hash, pools, k - 1, i);
    } else {
      DigestsLength(hash, pools, k - 1);
      DivModUnique(i, 32, k - 1, i - 32 * (k - 1));
    }
  }

  lemma {:induction false} DigestsLength(hash: Hash, pools: seq<seq<byte>>, k: nat)
    requires k <= |pools|
    ensures |Digests(hash, pools, k)| == 32 * k
  {
    if k > 0 {
      DigestsLength(hash, pools, k - 1);
    }
  }

  /** The key of a reseed spelled out: the hash of the digests of those pools n for which 2^n divides the count. */
  lemma ReseedKeySpelledOut(hash: Hash, pools: seq<seq<byte>>, count: nat) returns (drawn: seq<byte>, k: nat)
    requires |pools| == NUM_POOLS
    ensures ReseedKey(hash, pools, count) == hash(drawn)
    ensures k <= 32 && forall n :: 0 <= n < 32 ==> (n < k <==> count % Power(2, n) == 0)
    ensures |drawn| == 32 * k && forall i :: 0 <= i < 32 * k ==> drawn[i] == hash(pools[i / 32])[i % 32]
  {
    hide Turns, Digests, Power;
    k := Turns(count);
    drawn := Digests(hash, pools, k);
    TurnsExactly(count);
    forall n | 0 <= n < 32
      ensures n < k <==> count % Power(2, n) == 0
    {
      assert n < Turns(count) <==> Divides(n, count);
    }
    DigestsLength(hash, pools, k);
    forall i | 0 <= i < 32 * k
      ensures drawn[i] == hash(pools[i / 32])[i % 32]
    {
      DigestsAt(hash, pools, k, i);
    }
  }

  /** A stretch of output: len bytes under one key, from one counter on. */
  datatype Piece = Piece(key: Digest, at: nat, len: nat)
  {
    /** The counter after the two blocks for the next key. */
    function End(): nat { at + (len + 15) / 16 + 2 }
  }

  function PieceBytes(enc: Cipher, p: Piece): (r: seq<byte>)
    ensures |r| == p.len
  {
    Stream(enc, p.key, p.at, (p.len + 15) / 16)[..p.len]
  }

  /** The key that a piece leaves behind. */
  function NextKey(enc: Cipher, p: Piece): Digest {
    Stream(enc, p.key, p.at + (p.len + 15) / 16, 2)
  }

  lemma PieceAt(enc: Cipher, p: Piece, k: nat)
    requires k < p.len
    ensures PieceBytes(enc, p)[k] == enc(p.key, (p.at + k / 16) % U128)[k % 16]
  {
    hide Stream;
    StreamAt(enc, p.key, p.at, (p.len + 15) / 16, k);
  }

  lemma NextKeyAt(enc: Cipher, p: Piece, k: nat)
    requires k < 32
    ensures NextKey(enc, p)[k] == enc(p.key, (p.at + (p.len + 15) / 16 + k / 16) % U128)[k % 16]
  {
    hide Stream;
    StreamAt(enc, p.key, p.at + (p.len + 15) / 16, 2, k);
  }

  /** The two blocks after those of a piece, byte by byte. */
  ghost predicate KeyAfter(enc: Cipher, p: Piece, key: Digest) {
    forall k :: 0 <= k < 32 ==> key[k] == enc(p.key, (p.at + (p.len + 15) / 16 + k / 16) % U128)[k % 16]
  }

  lemma NextKeyIs(enc: Cipher, p: Piece)
    ensures KeyAfter(enc, p, NextKey(enc, p))
  {
    hide NextKey;
    forall k | 0 <= k < 32
      ensures NextKey(enc, p)[k] == enc(p.key, (p.at + (p.len + 15) / 16 + k / 16) % U128)[k % 16]
    {
      NextKeyAt(enc, p, k);
    }
  }

  /** The next piece goes on with that key and counter, or with the key of a reseed and one counter later. */
  ghost predicate Follows(enc: Cipher, hash: Hash, p: Piece, q: Piece) {
    || (q.at == p.End() && q.key == NextKey(enc, p))
    || (q.at == p.End() + 1 && exists pools, count :: |pools| == NUM_POOLS && q.key == ReseedKey(hash, pools, count))
  }

  ghost predicate Chained(enc: Cipher, hash: Hash, pieces: seq<Piece>) {
    forall i :: 0 < i < |pieces| ==> Follows(enc, hash, pieces[i - 1], pieces[i])
  }

  function AllBytes(enc: Cipher, pieces: seq<Piece>): seq<byte> {
    if pieces == [] then [] else AllBytes(enc, pieces[..|pieces| - 1]) + PieceBytes(enc, pieces[|pieces| - 1])
  }

  /** The bytes of a read that began with a key and a counter, and the key and counter it left. */
  ghost predicate Produced(enc: Cipher, hash: Hash, key0: Digest, at0: nat, key: Digest, incs: nat,
                           pieces: seq<Piece>, buf: seq<byte>) {
    && buf == AllBytes(enc, pieces) && Chained(enc, hash, pieces)
    && pieces != [] && pieces[0].key == key0 && pieces[0].at == at0
    && var p := pieces[|pieces| - 1]; key == NextKey(enc, p) && incs == p.End()
  }

  lemma ProducedMore(enc: Cipher, hash: Hash, key0: Digest, at0: nat, pieces: seq<Piece>, buf: seq<byte>,
                     p: Piece, key: Digest, incs: nat, part: seq<byte>)
    requires part == PieceBytes(enc, p) && key == NextKey(enc, p) && incs == p.End()
    requires buf == AllBytes(enc, pieces) && Chained(enc, hash, pieces)
    requires if pieces == [] then p.key == key0 && p.at == at0 else
             pieces[0].key == key0 && pieces[0].at == at0 && Follows(enc, hash, pieces[|pieces| - 1], p)
    ensures Produced(enc, hash, key0, at0, key, incs, pieces + [p], buf + part)
  {
    hide PieceBytes, NextKey, Follows, AllBytes, Chained;
    AllBytesMore(enc, pieces, p);
    ChainedMore(enc, hash, pieces, p);
  }

  lemma AllBytesMore(enc: Cipher, pieces: seq<Piece>, p: Piece)
    ensures AllBytes(enc, []) == []
    ensures AllBytes(enc, pieces + [p]) == AllBytes(enc, pieces) + PieceBytes(enc, p)
  {
    hide PieceBytes;
    assert (pieces + [p])[..|pieces|] == pieces;
  }

  /** Byte k of all of them lies in the piece of its mebibyte. */
  lemma {:induction false} AllBytesAt(enc: Cipher, pieces: seq<Piece>, k: nat)
    requires Mebibytes(pieces) && k < |AllBytes(enc, pieces)|
    ensures k / SIZE_1M < |pieces|
    ensures var p := pieces[k / SIZE_1M];
            AllBytes(enc, pieces)[k] == enc(p.key, (p.at + k % SIZE_1M / 16) % U128)[k % 16]
    decreases |pieces|
  {
    hide PieceBytes;
    var n := |pieces| - 1;
    var before := AllBytes(enc, pieces[..n]);
    AllBytesLength(enc, pieces[..n]);
    if k < |before| {
      AllBytesAt(enc, pieces[..n], k);
    } else {
      var i := k - SIZE_1M * n;
      DivModUnique(k, SIZE_1M, n, i);
      SameRem(k, i, 16, 0x1_0000 * n);
      PieceAt(enc, pieces[n], i);
    }
  }

  lemma {:induction false} AllBytesLength(enc: Cipher, pieces: seq<Piece>)
    requires forall i :: 0 <= i < |pieces| ==> pieces[i].len == SIZE_1M
    ensures |AllBytes(enc, pieces)| == SIZE_1M * |pieces|
    decreases |pieces|
  {
    hide PieceBytes;
    if pieces != [] {
      AllBytesLength(enc, pieces[..|pieces| - 1]);
    }
  }

  /** The counter goes on after the two blocks that make the next key, or one later under the key of a reseed. */
  ghost predicate Successive(enc: Cipher, hash: Hash, p: Piece, q: Piece) {
    || (q.at == p.at + (p.len + 15) / 16 + 2 && KeyAfter(enc, p, q.key))
    || (q.at == p.at + (p.len + 15) / 16 + 3 &&
        exists pools, count :: |pools| == NUM_POOLS && q.key == ReseedKey(hash, pools, count))
  }

  lemma FollowsSpelledOut(enc: Cipher, hash: Hash, p: Piece, q: Piece)
    requires Follows(enc, hash, p, q)
    ensures Successive(enc, hash, p, q)
  {
    hide NextKey, KeyAfter, ReseedKey;
    NextKeyIs(enc, p);
  }

  lemma PieceCount(enc: Cipher, pieces: seq<Piece>, len: nat)
    requires Mebibytes(pieces) && pieces != [] && len == |AllBytes(enc, pieces)|
    ensures len > 0 && |pieces| == (len - 1) / SIZE_1M + 1
  {
    hide PieceBytes;
    var n := |pieces| - 1;
    AllBytesLength(enc, pieces[..n]);
    DivModUnique(len - 1, SIZE_1M, n, pieces[n].len - 1);
  }

  lemma ChainedMore(enc: Cipher, hash: Hash, pieces: seq<Piece>, p: Piece)
    requires Chained(enc, hash, pieces) && (pieces == [] || Follows(enc, hash, pieces[|pieces| - 1], p))
    ensures Chained(enc, hash, pieces + [p])
  {
    hide Follows;
  }

  /** All but the last piece are one mebibyte, and the last is not longer. */
  predicate Mebibytes(pieces: seq<Piece>) {
    && (forall i :: 0 <= i < |pieces| ==> 0 < pieces[i].len <= SIZE_1M)
    && forall i :: 0 <= i < |pieces| - 1 ==> pieces[i].len == SIZE_1M
  }

  /** The two halves of the counter after one more increment. */
  lemma CounterCarries(lo: nat, hi: nat, incs: nat)
    requires lo < U64 && hi < U64 && lo + U64 * hi == incs % U128
    ensures lo + 1 < U64 ==> lo + 1 + U64 * hi == (incs + 1) % U128
    ensures lo + 1 == U64 ==> U64 * ((hi + 1) % U64) == (incs + 1) % U128
  {
    if lo + 1 < U64 || hi + 1 < U64 {
      assert lo + 1 + U64 * hi < U128;
    }
  }

  class State {
    const enc: Cipher
    const hash: Hash
    /** The outside world: whether the n-th call into a library fails, the rate limiter bites, the ring is empty. */
    const fails: nat -> bool
    const limited: nat -> bool
    const empty: nat -> bool
    var tick: nat
    /** What comes out of the ring, one element after another, and how many came out so far. */
    const ring: seq<Event>
    var taken: nat

    var alive: bool
    var key: Digest
    var lo: nat
    var hi: nat
    var pool0Length: nat
    var pools: seq<seq<byte>>
    var reseedCount: nat

    ghost var log: seq<Use>
    ghost var gen: nat
    ghost var incs: nat
    /** The reseeds begun, and how often each pool was drawn from. */
    ghost var reseeds: nat
    ghost var draws: seq<nat>
    /** The events with data that came out of the ring, and those of them that reached a pool. */
    ghost var drained: seq<Event>
    ghost var fed: seq<Event>

    /** counter[0] and counter[1] are the number of increments, modulo 2^128. */
    ghost predicate Counts()
      reads `lo, `hi, `incs
    {
      lo < U64 && hi < U64 && lo + U64 * hi == incs % U128
    }

    /** Holds at every point of every run. */
    ghost predicate Disciplined()
      reads `lo, `hi, `incs, `log, `gen
    {
      Counts() && Increasing(log, incs) && Sparing(log, gen)
    }

    ghost predicate Scheduled()
      reads `reseedCount, `reseeds, `draws
    {
      reseedCount == reseeds % U32 && InTurn(draws, reseeds)
    }

    /** Nothing that came out of the ring is fed twice or out of turn. */
    ghost predicate Drained()
      reads `taken, `drained, `fed
    {
      DrainedAt(ring, taken, drained, fed, Reliable())
    }

    /** Whether a read reseeds first. */
    ghost predicate Reseeding()
      reads `tick, `pool0Length
    {
      pool0Length >= MIN_POOL_SIZE && !limited(tick)
    }

    /** The key a read uses. */
    ghost function KeyToUse(): Digest
      requires |pools| == NUM_POOLS
      reads `tick, `pool0Length, `key, `pools, `reseedCount
    {
      if Reseeding() then ReseedKey(hash, pools, (reseedCount + 1) % U32) else key
    }

    /** The counter it starts from. */
    ghost function CounterToUse(): nat
      reads `tick, `pool0Length, `incs
    {
      if Reseeding() then incs + 1 else incs
    }

    /** Holds between calls: a key that is still in use has encrypted nothing yet. */
    ghost predicate Valid()
      reads this
    {
      && Disciplined() && |pools| == NUM_POOLS && reseedCount < U32 && Drained()
      && (alive ==> Blocks(log, gen) == 0 && Scheduled())
    }

    constructor (enc: Cipher, hash: Hash, fails: nat -> bool, limited: nat -> bool, empty: nat -> bool,
                 ring: seq<Event>)
      ensures Valid() && !alive && this.ring == ring && taken == 0 && drained == fed == []
    {
      this.enc, this.hash, this.fails, this.limited := enc, hash, fails, limited;
      this.empty, this.ring, taken, drained, fed := empty, ring, 0, [], [];
      tick, alive, key, lo, hi, pool0Length, reseedCount := 0, false, Zeros(32), 0, 0, 0, 0;
      pools := EmptyPools();
      log, gen, incs := [], 0, 0;
      reseeds, draws := 0, NoDraws();
    }

    /** A world in which no call fails and the ring names only pools that exist. */
    ghost predicate Reliable() {
      (forall t :: !fails(t)) && forall i :: 0 <= i < |ring| ==> ring[i].pnum < NUM_POOLS
    }

    /** A call into a library. */
    method Try() returns (ok: bool)
      modifies `tick
      ensures ok == !fails(old(tick)) && (Reliable() ==> ok)
    {
      ok := !fails(tick);
      tick := tick + 1;
    }

    /** inc_counter. */
    method IncCounter()
      requires Counts()
      modifies `lo, `hi, `incs
      ensures Counts() && incs == old(incs) + 1
    {
      CounterCarries(lo, hi, incs);
      lo := (lo + 1) % U64;
      if lo == 0 {
        hi := (hi + 1) % U64;
      }
      incs := incs + 1;
    }

    /** The increment after a key has been set up. */
    method StepCounter()
      requires Disciplined()
      modifies `lo, `hi, `incs
      ensures Disciplined() && incs == old(incs) + 1
    {
      hide Counts, Increasing, Sparing;
      LaterIncreasing(log, incs);
      IncCounter();
    }

    /** One turn of generate_blocks: the counter moves even when the cipher call fails. */
    method GenerateBlock() returns (ok: bool, block: Block)
      requires Counts()
      modifies `tick, `lo, `hi, `incs, `log
      ensures Counts() && incs == old(incs) + 1 && log == old(log) + [Use(gen, old(incs))]
      ensures block == enc(key, old(incs) % U128)
      ensures Reliable() ==> ok
    {
      block := enc(key, lo + U64 * hi);
      ok := Try();
      log := log + [Use(gen, incs)];
      IncCounter();
    }

    /** generate_blocks. */
    method GenerateBlocks(n: nat) returns (ok: bool, b: seq<byte>)
      requires Disciplined() && Blocks(log, gen) + n <= MAX_BLOCKS
      modifies `tick, `lo, `hi, `incs, `log
      ensures Disciplined()
      ensures old(incs) <= incs <= old(incs) + n
      ensures log == old(log) + Row(gen, old(incs), incs - old(incs))
      ensures ok ==> incs == old(incs) + n && b == Stream(enc, key, old(incs), n)
      ensures Reliable() ==> ok
    {
      hide Row, Blocks, Sparing, Increasing, Counts;
      b := [];
      ghost var log0, at := log, incs;
      RowEmpty(log, gen, incs);
      for i := 0 to n
        invariant Counts() && incs == at + i && log == log0 + Row(gen, at, i)
        invariant b == Stream(enc, key, at, i)
      {
        var done, block := GenerateBlock();
        RowMore(log0, gen, at, i);
        if !done {
          RowIncreasing(log0, at, gen, i + 1);
          RowSparing(log0, at, gen, i + 1);
          return false, [];
        }
        b := b + block;
      }
      RowIncreasing(log0, at, gen, n);
      RowSparing(log0, at, gen, n);
      ok := true;
    }

    /** generate_random_data: whole blocks, and the head of one more. */
    method GenerateRandomData(blen: nat) returns (ok: bool, buf: seq<byte>)
      requires Disciplined() && Blocks(log, gen) + (blen + 15) / 16 <= MAX_BLOCKS
      modifies `tick, `lo, `hi, `incs, `log
      ensures Disciplined()
      ensures old(incs) <= incs <= old(incs) + (blen + 15) / 16
      ensures Blocks(log, gen) == Blocks(old(log), gen) + incs - old(incs)
      ensures ok ==> incs == old(incs) + (blen + 15) / 16
      ensures ok ==> buf == Stream(enc, key, old(incs), (blen + 15) / 16)[..blen]
      ensures Reliable() ==> ok
    {
      hide Blocks, Disciplined, Row, Stream, Reliable;
      ghost var log0, at := log, incs;
      var n, rest := blen / 16, blen % 16;
      assert (blen + 15) / 16 == if rest == 0 then n else n + 1;
      ok, buf := GenerateBlocks(n);
      RowBlocks(log0, at, gen, incs - at, gen);
      if !ok {
        return;
      }
      if rest != 0 {
        ghost var log1, at1 := log, incs;
        var block;
        ok, block := GenerateBlocks(1);
        RowBlocks(log1, at1, gen, incs - at1, gen);
        if !ok {
          return;
        }
        StreamMore(enc, key, at, n, block);
        buf := buf + block[..rest];
      }
    }

    /** fortuna_done, as far as it can be seen. */
    method Done()
      modifies `alive
      ensures !alive
    {
      alive := false;
    }

    /** A key set up anew: nothing has been encrypted under it. */
    method Rekey(k: Digest) returns (ok: bool)
      requires Disciplined()
      modifies `tick, `key, `gen
      ensures Disciplined()
      ensures ok ==> key == k && gen == old(gen) + 1 && Blocks(log, gen) == 0
      ensures !ok ==> key == old(key) && gen == old(gen)
      ensures Reliable() ==> ok
    {
      hide Blocks;
      ok := Try();
      if ok {
        key := k;
        gen := gen + 1;
        FreshKeyUnused(log, gen);
      }
    }

    /** restart_pool: the pool goes on from the digest of what it held. */
    method RestartPool(n: nat) returns (ok: bool, d: Digest)
      requires |pools| == NUM_POOLS && n < NUM_POOLS == |draws|
      modifies `tick, `pools, `draws
      ensures |pools| == NUM_POOLS
      ensures ok ==> d == hash(old(pools[n])) && pools == old(pools)[n := d]
      ensures |draws| == NUM_POOLS && (ok ==> draws == old(draws)[n := old(draws[n]) + 1])
      ensures Reliable() ==> ok
    {
      d := hash(pools[n]);
      ok := Try();
      if !ok {
        return;
      }
      ok := Try();
      if !ok {
        return;
      }
      ok := Try();
      if ok {
        pools := pools[n := d];
        draws := draws[n := draws[n] + 1];
      }
    }

    /** The loop of maybe_reseed: the digests of the pools whose turn it is. */
    method DrawPools() returns (ok: bool, drawn: seq<byte>)
      requires |pools| == NUM_POOLS == |draws|
      modifies `tick, `pools, `pool0Length, `draws
      ensures |pools| == NUM_POOLS
      ensures ok ==> drawn == Digests(hash, old(pools), Turns(reseedCount))
      ensures ok ==> Restarted(hash, old(pools), pools, Turns(reseedCount)) && pool0Length == 0
      ensures ok ==> draws == Drawn(old(draws), Turns(reseedCount))
      ensures Reliable() ==> ok
    {
      hide ReseedFromPool;
      ghost var pools0, draws0 := pools, draws;
      drawn := [];
      var k := 0;
      DividesZero(reseedCount);
      while k < NUM_POOLS && ReseedFromPool(reseedCount, k)
        invariant k <= NUM_POOLS && |pools| == NUM_POOLS == |draws|
        invariant TurnsFrom(reseedCount, 0) == TurnsFrom(reseedCount, k)
        invariant drawn == Digests(hash, pools0, k)
        invariant Restarted(hash, pools0, pools, k)
        invariant draws == Drawn(draws0, k)
        invariant k > 0 ==> pool0Length == 0
      {
        var d;
        ok, d := RestartPool(k);
        if !ok {
          return;
        }
        if k == 0 {
          pool0Length := 0;
        }
        ok := Try();
        if !ok {
          return;
        }
        drawn := drawn + d;
        k := k + 1;
      }
      ok := true;
    }

    /** maybe_reseed. */
    method MaybeReseed() returns (ok: bool)
      requires Disciplined() && |pools| == NUM_POOLS && reseedCount < U32 && Blocks(log, gen) == 0 && Scheduled()
      modifies `tick, `pools, `pool0Length, `reseedCount, `key, `gen, `lo, `hi, `incs, `reseeds, `draws
      ensures Disciplined() && |pools| == NUM_POOLS && reseedCount < U32
      ensures ok ==> Blocks(log, gen) == 0 && Scheduled()
      ensures ok ==> key == old(KeyToUse()) && incs == old(CounterToUse())
      ensures ok && old(Reseeding()) ==>
        && reseeds == old(reseeds) + 1 && gen == old(gen) + 1 && pool0Length == 0
        && Restarted(hash, old(pools), pools, Turns(reseedCount))
      ensures ok && !old(Reseeding()) ==> pools == old(pools) && reseeds == old(reseeds) && draws == old(draws)
      ensures ok && old(pool0Length) >= 64 && !limited(old(tick)) ==>
        && reseeds == old(reseeds) + 1 && reseedCount == (old(reseedCount) + 1) % U32 && incs == old(incs) + 1
        && key == ReseedKey(hash, old(pools), reseedCount)
      ensures ok && (old(pool0Length) < 64 || limited(old(tick))) ==>
        reseeds == old(reseeds) && reseedCount == old(reseedCount) && incs == old(incs) && key == old(key)
      ensures Reliable() ==> ok
    {
      hide Blocks, Disciplined, Scheduled, Restarted, Turns, Reliable, ReseedKey;
      if pool0Length < MIN_POOL_SIZE || limited(tick) {
        return true;
      }
      ok := Reseed();
    }

    /** The digests of the pools whose turn it is, hashed. */
    method ReseedDigest() returns (ok: bool, digest: Digest)
      requires |pools| == NUM_POOLS == |draws|
      modifies `tick, `pools, `pool0Length, `draws
      ensures |pools| == NUM_POOLS
      ensures ok ==> digest == ReseedKey(hash, old(pools), reseedCount) && pool0Length == 0
      ensures ok ==> Restarted(hash, old(pools), pools, Turns(reseedCount))
      ensures ok ==> draws == Drawn(old(draws), Turns(reseedCount))
      ensures Reliable() ==> ok
    {
      hide Restarted, Turns, Digests, Drawn, Reliable;
      digest := Zeros(32);
      ok := Try();
      if !ok {
        return;
      }
      var drawn;
      ok, drawn := DrawPools();
      if !ok {
        return;
      }
      ok := Try();
      digest := hash(drawn);
    }

    method Reseed() returns (ok: bool)
      requires Disciplined() && |pools| == NUM_POOLS && Scheduled()
      modifies `tick, `pools, `pool0Length, `reseedCount, `key, `gen, `lo, `hi, `incs, `reseeds, `draws
      ensures Disciplined() && |pools| == NUM_POOLS && reseedCount == (old(reseedCount) + 1) % U32
      ensures ok ==> Blocks(log, gen) == 0 && Scheduled() && gen == old(gen) + 1 && pool0Length == 0
      ensures ok ==> key == ReseedKey(hash, old(pools), reseedCount) && incs == old(incs) + 1
      ensures ok ==> reseeds == old(reseeds) + 1 && Restarted(hash, old(pools), pools, Turns(reseedCount))
      ensures Reliable() ==> ok
    {
      hide Blocks, Disciplined, InTurn, Restarted, Turns, Drawn, Reliable, ReseedKey;
      TurnsLength(draws, reseeds);
      CountWraps(reseeds);
      NextInTurn(draws, reseeds);
      reseedCount := (reseedCount + 1) % U32;
      reseeds := reseeds + 1;
      var digest;
      ok, digest := ReseedDigest();
      if !ok {
        return;
      }
      ok := Rekey(digest);
      if !ok {
        return;
      }
      StepCounter();
    }

    /** add_event. */
    method AddEvent(e: Event) returns (ok: bool)
      requires |pools| == NUM_POOLS
      modifies `tick, `pools, `pool0Length
      ensures |pools| == NUM_POOLS
      ensures e.pnum >= NUM_POOLS ==> !ok
      ensures ok ==> pools == old(pools)[e.pnum := old(pools)[e.pnum] + Encoded(e)]
      ensures ok ==> var dl := if |e.data| < 32 then |e.data| else 32;
                     pools[e.pnum] == old(pools)[e.pnum] + [e.snum, dl] + e.data[..dl]
      ensures Reliable() && e.pnum < NUM_POOLS ==> ok
      ensures ok ==> pool0Length == Grown(old(pool0Length), e)
      ensures ok ==> var more := old(pool0Length) + if |e.data| < 32 then |e.data| else 32;
                     pool0Length == if e.pnum == 0 && more < U32 then more else old(pool0Length)
    {
      var dl := if |e.data| < MAX_EVENT_DATA_LEN then |e.data| else MAX_EVENT_DATA_LEN;
      if e.pnum >= NUM_POOLS {
        return false;
      }
      ok := Try();
      if !ok {
        return;
      }
      ghost var was := pools[e.pnum];
      pools := pools[e.pnum := pools[e.pnum] + [e.snum, dl]];
      ok := Try();
      if !ok {
        return;
      }
      pools := pools[e.pnum := pools[e.pnum] + e.data[..dl]];
      assert was + [e.snum, dl] + e.data[..dl] == was + Encoded(e);
      if e.pnum == 0 && pool0Length + dl < U32 {
        pool0Length := pool0Length + dl;
      }
    }

    /** pop_ring_buffer: the next element, if the ring is not empty. */
    method PopRingBuffer() returns (e: Option<Event>)
      requires taken <= |ring|
      modifies `tick, `taken
      ensures e.None? ==> taken == old(taken)
      ensures e.Some? ==> old(taken) < |ring| && taken == old(taken) + 1 && e.value == ring[old(taken)]
    {
      if taken == |ring| || empty(tick) {
        tick := tick + 1;
        return None;
      }
      e := Some(ring[taken]);
      tick, taken := tick + 1, taken + 1;
    }

    /** One turn of drain_ring_buffer; an event that does not reach its pool is lost. */
    method DrainOne() returns (fate: Fate)
      requires |pools| == NUM_POOLS && Drained()
      modifies `tick, `pools, `pool0Length, `taken, `drained, `fed
      ensures |pools| == NUM_POOLS && Drained() && old(taken) <= taken
      ensures fate.Over? ==> drained == old(drained) && fed == old(fed) && pools == old(pools)
      ensures fate.Kept? ==>
        && old(taken) < taken && fate.event.pnum < NUM_POOLS && pools == Fed(old(pools), [fate.event])
        && drained == old(drained) + [fate.event] && fed == old(fed) + [fate.event]
      ensures Reliable() ==> !fate.Lost?
    {
      hide Encoded, Fed, DrainedAt, Reliable;
      ghost var k := taken;
      TakenFits(ring, taken, drained, fed, Reliable());
      var next := PopRingBuffer();
      if next.None? {
        return Over;
      }
      var e := next.value;
      DrainedNext(ring, k, drained, fed, Reliable());
      if e.data == [] {
        return Over;
      }
      ReliablePool(k);
      var ok := AddEvent(e);
      drained := drained + [e];
      if !ok {
        return Lost;
      }
      fed := fed + [e];
      FedOne(old(pools), e);
      return Kept(e);
    }

    lemma ReliablePool(k: nat)
      requires k < |ring|
      ensures Reliable() ==> ring[k].pnum < NUM_POOLS
    {
    }

    /** drain_ring_buffer; an element without data ends it. */
    method DrainRingBuffer() returns (ok: bool, ghost more: seq<Event>)
      requires |pools| == NUM_POOLS && Drained()
      modifies `tick, `pools, `pool0Length, `taken, `drained, `fed
      ensures |pools| == NUM_POOLS && Drained()
      ensures ok ==> drained == old(drained) + more && fed == old(fed) + more && pools == Fed(old(pools), more)
      ensures Reliable() ==> ok
    {
      hide Fed, Reliable, DrainedAt;
      ghost var drained0, fed0, pools0 := drained, fed, pools;
      more := [];
      FedMore(pools, [], []);
      while true
        invariant |pools| == NUM_POOLS && Drained()
        invariant drained == drained0 + more && fed == fed0 + more && pools == Fed(pools0, more)
        decreases |ring| - taken
      {
        TakenFits(ring, taken, drained, fed, Reliable());
        var fate := DrainOne();
        TakenFits(ring, taken, drained, fed, Reliable());
        match fate {
          case Over => return true, more;
          case Lost => return false, more;
          case Kept(e) =>
            FedMore(pools0, more, [e]);
            assert drained0 + more + [e] == drained0 + (more + [e]) && fed0 + more + [e] == fed0 + (more + [e]);
            more := more + [e];
        }
      }
    }

    /** The part of fortuna_read that uses the key: the data asked for, and two blocks for the next key. */
    method DrawAndRekey(blen: nat) returns (ok: bool, buf: seq<byte>)
      requires Disciplined() && Blocks(log, gen) == 0 && blen <= SIZE_1M
      modifies `tick, `lo, `hi, `incs, `log, `key, `gen
      ensures Disciplined()
      ensures ok ==> Blocks(log, gen) == 0
      ensures ok ==> var p := Piece(old(key), old(incs), blen);
                     buf == PieceBytes(enc, p) && key == NextKey(enc, p) && incs == p.End()
      ensures Reliable() ==> ok
    {
      hide Blocks, Sparing, Increasing, Counts, Row, Stream;
      ok, buf := GenerateRandomData(blen);
      if !ok {
        return;
      }
      var newKey;
      ok, newKey := GenerateBlocks(2);
      if !ok {
        return;
      }
      ok := Rekey(newKey);
    }

    /** fortuna_read of at most one mebibyte: the key, the counter it starts from, and what both are afterwards. */
    method FortunaRead(blen: nat) returns (ok: bool, buf: seq<byte>)
      requires Valid() && blen <= SIZE_1M
      modifies `tick, `lo, `hi, `incs, `log, `key, `gen, `pools, `pool0Length, `reseedCount, `alive, `reseeds, `draws,
               `taken, `drained, `fed
      ensures Valid()
      ensures ok ==> old(alive) && alive && |buf| == blen
      ensures !ok ==> !alive
      ensures Reliable() && old(alive) ==> ok
      ensures ok && blen > 0 ==> var p := Piece(old(KeyToUse()), old(CounterToUse()), blen);
                                 buf == PieceBytes(enc, p) && key == NextKey(enc, p) && incs == p.End()
      ensures ok && blen == 0 ==> key == old(KeyToUse()) && incs == old(CounterToUse())
      ensures ok ==> forall k :: 0 <= k < blen ==>
        buf[k] == enc(old(KeyToUse()), (old(CounterToUse()) + k / 16) % U128)[k % 16]
      ensures ok && blen > 0 ==> forall k :: 0 <= k < 32 ==>
        key[k] == enc(old(KeyToUse()), (old(CounterToUse()) + (blen + 15) / 16 + k / 16) % U128)[k % 16]
      ensures ok ==> reseeds == if old(Reseeding()) then old(reseeds) + 1 else old(reseeds)
    {
      hide Blocks, Disciplined, KeyToUse, CounterToUse, Reseeding, PieceBytes, NextKey, Scheduled, Reliable, Drained;
      buf := [];
      if !alive {
        return false, [];
      }
      ghost var p := Piece(KeyToUse(), CounterToUse(), blen);
      ok, buf := ReadLocked(blen);
      if !ok {
        Done();
        return;
      }
      forall k | 0 <= k < blen
        ensures buf[k] == enc(p.key, (p.at + k / 16) % U128)[k % 16]
      {
        PieceAt(enc, p, k);
      }
      NextKeyIs(enc, p);
    }

    /** The part of fortuna_read under the mutex, up to the handling of errors. */
    method ReadLocked(blen: nat) returns (ok: bool, buf: seq<byte>)
      requires Valid() && alive && blen <= SIZE_1M
      modifies `tick, `lo, `hi, `incs, `log, `key, `gen, `pools, `pool0Length, `reseedCount, `reseeds, `draws,
               `taken, `drained, `fed
      ensures Disciplined() && |pools| == NUM_POOLS && reseedCount < U32 && Drained()
      ensures ok ==> Blocks(log, gen) == 0 && Scheduled() && |buf| == blen
      ensures ok && blen > 0 ==> var p := Piece(old(KeyToUse()), old(CounterToUse()), blen);
                                 buf == PieceBytes(enc, p) && key == NextKey(enc, p) && incs == p.End()
      ensures ok && blen == 0 ==> key == old(KeyToUse()) && incs == old(CounterToUse())
      ensures ok ==> reseeds == if old(Reseeding()) then old(reseeds) + 1 else old(reseeds)
      ensures Reliable() ==> ok
    {
      hide Blocks, Disciplined, KeyToUse, CounterToUse, Reseeding, PieceBytes, NextKey, Scheduled, Reliable, Drained,
           ReseedKey, Restarted, Turns, Fed;
      buf := [];
      ok := MaybeReseed();
      if !ok {
        return;
      }
      if blen > 0 {
        ok, buf := DrawAndRekey(blen);
        if !ok {
          return;
        }
      }
      ghost var more;
      ok, more := DrainRingBuffer();
    }

    /** crypto_rng_read: at most one mebibyte from each key, the keys one after another. */
    method CryptoRngRead(blen: nat) returns (ok: bool, buf: seq<byte>, ghost pieces: seq<Piece>)
      requires Valid()
      modifies this
      ensures Valid()
      ensures ok ==> |buf| == blen
      ensures ok && blen > 0 ==> alive && Mebibytes(pieces)
      ensures ok && blen > 0 ==> Produced(enc, hash, old(KeyToUse()), old(CounterToUse()), key, incs, pieces, buf)
      ensures ok && blen > 0 ==> |pieces| == (blen - 1) / SIZE_1M + 1
      ensures ok && blen > 0 ==> forall k :: 0 <= k < blen ==>
        && k / SIZE_1M < |pieces|
        && var p := pieces[k / SIZE_1M]; buf[k] == enc(p.key, (p.at + k % SIZE_1M / 16) % U128)[k % 16]
      ensures ok && blen > 0 ==> KeyAfter(enc, pieces[|pieces| - 1], key)
      ensures ok ==> forall i :: 0 < i < |pieces| ==> Successive(enc, hash, pieces[i - 1], pieces[i])
      ensures Reliable() && old(alive) ==> ok
    {
      hide Disciplined, Drained, Scheduled, Blocks, Mebibytes, KeyToUse, CounterToUse, Produced, Successive, KeyAfter,
           Reliable;
      ok, buf, pieces := ReadPieces(blen);
      if ok && blen > 0 {
        ReadBytes(old(KeyToUse()), old(CounterToUse()), pieces, buf);
      }
    }

    /** Its loop. */
    method ReadPieces(blen: nat) returns (ok: bool, buf: seq<byte>, ghost pieces: seq<Piece>)
      requires Valid()
      modifies this
      ensures Valid()
      ensures ok ==> |buf| == blen && (blen == 0 ==> pieces == [])
      ensures ok && blen > 0 ==> alive && Mebibytes(pieces)
      ensures ok && blen > 0 ==> Produced(enc, hash, old(KeyToUse()), old(CounterToUse()), key, incs, pieces, buf)
      ensures Reliable() && old(alive) ==> ok
    {
      hide Blocks, Sparing, Increasing, Counts, Scheduled, KeyToUse, CounterToUse, Produced, PieceBytes, NextKey;
      buf, pieces := [], [];
      ghost var key0, at0 := KeyToUse(), CounterToUse();
      while |buf| < blen
        invariant Valid() && |buf| <= blen
        invariant |buf| > 0 || old(alive) ==> alive
        invariant buf == [] ==> KeyToUse() == key0 && CounterToUse() == at0 && pieces == []
        invariant buf != [] ==> Produced(enc, hash, key0, at0, key, incs, pieces, buf)
        invariant |buf| < blen ==> forall i :: 0 <= i < |pieces| ==> pieces[i].len == SIZE_1M
        invariant |buf| == blen ==> Mebibytes(pieces)
      {
        var n := if blen - |buf| < SIZE_1M then blen - |buf| else SIZE_1M;
        ghost var p := Piece(KeyToUse(), CounterToUse(), n);
        GoesOn(key0, at0, pieces, buf, p);
        var part;
        ok, part := FortunaRead(n);
        if !ok {
          return;
        }
        ProducedMore(enc, hash, key0, at0, pieces, buf, p, key, incs, part);
        buf, pieces := buf + part, pieces + [p];
      }
      ok := true;
    }

    /** What was read, byte by byte. */
    lemma ReadBytes(key0: Digest, at0: nat, pieces: seq<Piece>, buf: seq<byte>)
      requires Produced(enc, hash, key0, at0, key, incs, pieces, buf) && Mebibytes(pieces)
      ensures |pieces| == (|buf| - 1) / SIZE_1M + 1 && KeyAfter(enc, pieces[|pieces| - 1], key)
      ensures forall i :: 0 < i < |pieces| ==> Successive(enc, hash, pieces[i - 1], pieces[i])
      ensures forall k :: 0 <= k < |buf| ==>
        && k / SIZE_1M < |pieces|
        && var p := pieces[k / SIZE_1M]; buf[k] == enc(p.key, (p.at + k % SIZE_1M / 16) % U128)[k % 16]
    {
      hide AllBytes, NextKey, Mebibytes, Follows, Successive, KeyAfter;
      PieceCount(enc, pieces, |buf|);
      NextKeyIs(enc, pieces[|pieces| - 1]);
      forall i | 0 < i < |pieces|
        ensures Successive(enc, hash, pieces[i - 1], pieces[i])
      {
        FollowsSpelledOut(enc, hash, pieces[i - 1], pieces[i]);
      }
      forall k | 0 <= k < |buf|
        ensures k / SIZE_1M < |pieces|
        ensures var p := pieces[k / SIZE_1M]; buf[k] == enc(p.key, (p.at + k % SIZE_1M / 16) % U128)[k % 16]
      {
        AllBytesAt(enc, pieces, k);
      }
    }

    /** What the next read uses, after the pieces so far. */
    lemma GoesOn(key0: Digest, at0: nat, pieces: seq<Piece>, buf: seq<byte>, p: Piece)
      requires |pools| == NUM_POOLS && p.key == KeyToUse() && p.at == CounterToUse()
      requires if buf == [] then pieces == [] else Produced(enc, hash, key0, at0, key, incs, pieces, buf)
      ensures buf == AllBytes(enc, pieces) && Chained(enc, hash, pieces) && (pieces == [] <==> buf == [])
      ensures pieces != [] ==>
        pieces[0].key == key0 && pieces[0].at == at0 && Follows(enc, hash, pieces[|pieces| - 1], p)
    {
      hide ReseedKey, NextKey;
    }

    /** crypto_rng_init: a new initialisation starts counting at one, and its history is empty. */
    method CryptoRngInit(data: seq<byte>) returns (ok: bool)
      requires Valid()
      modifies this
      ensures Valid()
      ensures old(alive) ==> !ok && log == old(log) && incs == old(incs)
      ensures ok ==> alive && log == [] && incs == 1 && key == hash(data) && pools == EmptyPools()
      ensures Reliable() && !old(alive) ==> ok
    {
      hide Blocks, Disciplined, Reliable, EmptyPools, Scheduled, Drained;
      if alive {
        return false;
      }
      Clear();
      ok := AllocContexts();
      if !ok {
        return;
      }
      ok := Rekey(hash(data));
      if !ok {
        return;
      }
      StepCounter();
      alive := true;
    }

    /** The memset of crypto_rng_init. */
    method Clear()
      requires !alive && Drained()
      modifies `pool0Length, `reseedCount, `lo, `hi, `pools, `log, `incs, `reseeds, `draws
      ensures Valid() && Scheduled() && log == [] && incs == 0 && pools == EmptyPools()
    {
      hide Blocks, Sparing, Increasing, EmptyPools, NoDraws, InTurn, DrainedAt, Reliable;
      NothingEncrypted(gen);
      NoneDrawn();
      pool0Length, reseedCount, lo, hi, pools := 0, 0, 0, 0, EmptyPools();
      log, incs, reseeds, draws := [], 0, 0, NoDraws();
    }

    /** The hash contexts of the pools and of the reseed, and the cipher context. */
    method AllocContexts() returns (ok: bool)
      modifies `tick
      ensures Reliable() ==> ok
    {
      for n := 0 to NUM_POOLS + 2
      {
        ok := Try();
        if !ok {
          return;
        }
      }
      ok := true;
    }

    /** The slow path of crypto_rng_add_event; failures are not reported. */
    method CryptoRngAddEvent(e: Event)
      requires Valid()
      modifies this
      ensures Valid() && log == old(log) && alive == old(alive) && incs == old(incs)
    {
      hide Disciplined, DrainedAt, Fed, Reliable, Scheduled, Blocks;
      var ok := AddEvent(e);
      ghost var more;
      ok, more := DrainRingBuffer();
    }
  }

  datatype Op = Read(blen: nat) | Add(event: Event)

  /**
   * Any initialisation followed by any calls, whatever fails: within it, counters are encrypted at most once
   * before they wrap, and no key encrypts more than 2^16 + 2 blocks. While it lasts, pool n has been drawn from
   * once for every 2^n reseeds.
   */
  method Run(s: State, data: seq<byte>, ops: seq<Op>)
    requires s.Valid()
    modifies s
    ensures s.Valid()
    ensures forall g: nat :: Blocks(s.log, g) <= MAX_BLOCKS
    ensures s.incs <= U128 ==> forall i, j :: 0 <= i < j < |s.log| ==> s.log[i].Counter() != s.log[j].Counter()
    ensures s.alive ==> |s.draws| == NUM_POOLS
    ensures s.alive ==> forall n :: 0 <= n < NUM_POOLS ==> s.draws[n] == s.reseeds / Power(2, n)
  {
    hide Blocks, Power, Uses;
    var ok := s.CryptoRngInit(data);
    for i := 0 to |ops|
      invariant s.Valid()
    {
      match ops[i] {
        case Read(n) =>
          var done, buf, _ := s.CryptoRngRead(n);
        case Add(e) =>
          s.CryptoRngAddEvent(e);
      }
    }
    if s.incs <= U128 {
      forall i, j | 0 <= i < j < |s.log|
        ensures s.log[i].Counter() != s.log[j].Counter()
      {
        NeverTwice(s.log, s.incs, i, j);
      }
    }
    if s.alive {
      forall n | 0 <= n < NUM_POOLS
        ensures s.draws[n] == s.reseeds / Power(2, n)
      {
        UsesExactly(n, s.reseeds);
      }
    }
  }

  /** The count of data bytes in pool 0 after an event, unless it would overflow. */
  function Grown(length: nat, e: Event): nat {
    var dl := if |e.data| < MAX_EVENT_DATA_LEN then |e.data| else MAX_EVENT_DATA_LEN;
    if e.pnum == 0 && length + dl < U32 then length + dl else length
  }

  /** The pools after some events. */
  function Fed(pools: seq<seq<byte>>, events: seq<Event>): (r: seq<seq<byte>>)
    ensures |r| == |pools|
    decreases |events|
  {
    if events == [] then pools
    else
      var r, e := Fed(pools, events[..|events| - 1]), events[|events| - 1];
      if e.pnum >= |r| then r else r[e.pnum := r[e.pnum] + Encoded(e)]
  }

  lemma FedOne(pools: seq<seq<byte>>, e: Event)
    requires e.pnum < |pools|
    ensures Fed(pools, [e]) == pools[e.pnum := pools[e.pnum] + Encoded(e)]
  {
    hide Encoded;
    assert [e][..0] == [] && Fed(pools, []) == pools;
  }

  lemma {:induction false} FedMore(pools: seq<seq<byte>>, a: seq<Event>, b: seq<Event>)
    ensures Fed(pools, []) == pools && Fed(pools, a + b) == Fed(Fed(pools, a), b)
    decreases |b|
  {
    hide Encoded;
    if b == [] {
      assert a + b == a;
    } else {
      assert (a + b)[..|a + b| - 1] == a + b[..|b| - 1];
      FedMore(pools, a, b[..|b| - 1]);
    }
  }

  /** Those events that carry data. */
  function WithData(events: seq<Event>): seq<Event>
    decreases |events|
  {
    if events == [] then []
    else
      var r, e := WithData(events[..|events| - 1]), events[|events| - 1];
      if e.data == [] then r else r + [e]
  }

  lemma WithDataNext(events: seq<Event>, k: nat)
    requires k < |events|
    ensures var r, e := WithData(events[..k]), events[k];
            WithData(events[..k + 1]) == if e.data == [] then r else r + [e]
  {
    assert events[..k + 1][..k] == events[..k];
  }

  /** The first k elements of the ring are out; what was fed is what they carried, with losses unless all is sure. */
  predicate DrainedAt(ring: seq<Event>, k: nat, drained: seq<Event>, fed: seq<Event>, sure: bool) {
    k <= |ring| && drained == WithData(ring[..k]) && Subsequence(fed, drained) && (sure ==> fed == drained)
  }

  lemma DrainedNext(ring: seq<Event>, k: nat, drained: seq<Event>, fed: seq<Event>, sure: bool)
    requires DrainedAt(ring, k, drained, fed, sure) && k < |ring|
    ensures ring[k].data == [] ==> DrainedAt(ring, k + 1, drained, fed, sure)
    ensures ring[k].data != [] ==> DrainedAt(ring, k + 1, drained + [ring[k]], fed + [ring[k]], sure)
    ensures ring[k].data != [] && !sure ==> DrainedAt(ring, k + 1, drained + [ring[k]], fed, sure)
  {
    hide WithData, Subsequence;
    WithDataNext(ring, k);
    SubsequenceMore(fed, drained, ring[k]);
  }

  lemma TakenFits(ring: seq<Event>, k: nat, drained: seq<Event>, fed: seq<Event>, sure: bool)
    requires DrainedAt(ring, k, drained, fed, sure)
    ensures k <= |ring|
  {
  }

  /** a in the order of b, with gaps. */
  predicate Subsequence(a: seq<Event>, b: seq<Event>)
    decreases |b|
  {
    if a == [] then true else if b == [] then false
    else
      || (a[|a| - 1] == b[|b| - 1] && Subsequence(a[..|a| - 1], b[..|b| - 1]))
      || Subsequence(a, b[..|b| - 1])
  }

  lemma SubsequenceMore(a: seq<Event>, b: seq<Event>, e: Event)
    requires Subsequence(a, b)
    ensures Subsequence(a, b + [e]) && Subsequence(a + [e], b + [e])
  {
    assert (a + [e])[..|a|] == a && (b + [e])[..|b|] == b;
  }

  /** What add_event feeds a pool: source, length, and at most 32 bytes. */
  function Encoded(e: Event): seq<byte> {
    var dl := if |e.data| < MAX_EVENT_DATA_LEN then |e.data| else MAX_EVENT_DATA_LEN;
    [e.snum, dl] + e.data[..dl]
  }

  lemma StreamMore(enc: Cipher, key: Digest, at: nat, n: nat, block: seq<byte>)
    requires block == Stream(enc, key, at + n, 1)
    ensures Stream(enc, key, at, n + 1) == Stream(enc, key, at, n) + block
  {
    assert Stream(enc, key, at + n, 0) == [];
  }

  lemma NothingEncrypted(gen: nat)
    ensures Increasing([], 0) && Increasing([], 1) && Sparing([], gen)
  {
  }

  lemma RowEmpty(log: seq<Use>, gen: nat, at: nat)
    ensures log + Row(gen, at, 0) == log
  {
  }

  lemma RowMore(log: seq<Use>, gen: nat, at: nat, n: nat)
    ensures log + Row(gen, at, n) + [Use(gen, at + n)] == log + Row(gen, at, n + 1)
  {
  }

  lemma TurnsLength(draws: seq<nat>, reseeds: nat)
    requires InTurn(draws, reseeds)
    ensures |draws| == NUM_POOLS
  {
  }

  lemma CountWraps(reseeds: nat)
    ensures (reseeds % U32 + 1) % U32 == (reseeds + 1) % U32
  {
  }
}
