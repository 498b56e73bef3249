/**
 * The load-then-relocate driver of ldelf/main.c and ldelf/ta_elf.c: a queue of ELFs that grows while it is
 * walked. What an ELF needs is a function of its UUID; a run that calls err() or panic() ends there and
 * is not a run of this model.
 */
module ElfLoader {
  import opened Bytes

  type Uuid = nat

  type Needs = Uuid -> seq<Uuid>

  datatype Event = Load(uuid: Uuid) | Relocate(uuid: Uuid)

  // -------------------------------------------------------------- dependencies

  predicate Path(needs: Needs, p: seq<Uuid>) {
    p != [] && forall i :: 0 < i < |p| ==> p[i] in needs(p[i - 1])
  }

  /** v is u or something that u needs, directly or not. */
  ghost predicate Reaches(needs: Needs, u: Uuid, v: Uuid) {
    exists p :: Path(needs, p) && p[0] == u && p[|p| - 1] == v
  }

  lemma ReachesItself(needs: Needs, u: Uuid)
    ensures Reaches(needs, u, u)
  {
    assert Path(needs, [u]);
  }

  lemma ReachesNext(needs: Needs, u: Uuid, v: Uuid, w: Uuid)
    requires Reaches(needs, u, v) && w in needs(v)
    ensures Reaches(needs, u, w)
  {
    var p :| Path(needs, p) && p[0] == u && p[|p| - 1] == v;
    var q := p + [w];
    assert Path(needs, q) && q[0] == u && q[|q| - 1] == w;
  }

  ghost predicate Closed(needs: Needs, s: seq<Uuid>) {
    forall i, v :: 0 <= i < |s| && v in needs(s[i]) ==> v in s
  }

  lemma {:induction false} ClosedHoldsPath(needs: Needs, s: seq<Uuid>, p: seq<Uuid>)
    requires Closed(needs, s) && Path(needs, p) && p[0] in s
    ensures p[|p| - 1] in s
    decreases |p|
  {
    if |p| > 1 {
      var q := p[..|p| - 1];
      assert Path(needs, q);
      ClosedHoldsPath(needs, s, q);
      assert p[|p| - 1] in needs(q[|q| - 1]);
    }
  }

  lemma ClosedReaches(needs: Needs, s: seq<Uuid>, u: Uuid, v: Uuid)
    requires Closed(needs, s) && u in s && Reaches(needs, u, v)
    ensures v in s
  {
    var p :| Path(needs, p) && p[0] == u && p[|p| - 1] == v;
    ClosedHoldsPath(needs, s, p);
  }

  /** The elements of s are reached from one of the roots. */
  ghost predicate Reached(needs: Needs, roots: set<Uuid>, s: seq<Uuid>) {
    forall v :: v in s ==> FromRoots(needs, roots, v)
  }

  ghost predicate FromRoots(needs: Needs, roots: set<Uuid>, v: Uuid) {
    exists r :: r in roots && Reaches(needs, r, v)
  }

  // ----------------------------------------------------------------- the queue

  predicate Distinct(s: seq<Uuid>) {
    forall i, j :: 0 <= i < j < |s| ==> s[i] != s[j]
  }

  /** Appending those not there yet, in order. */
  function Added(s: seq<Uuid>, more: seq<Uuid>): (r: seq<Uuid>)
    ensures s <= r
    ensures forall u :: u in r <==> u in s || u in more
    ensures Distinct(s) ==> Distinct(r)
    decreases |more|
  {
    if more == [] then s
    else
      var t := Added(s, more[..|more| - 1]);
      if more[|more| - 1] in t then t else t + [more[|more| - 1]]
  }

  lemma {:induction false} DistinctFits(s: seq<Uuid>, universe: set<Uuid>)
    requires Distinct(s) && forall u :: u in s ==> u in universe
    ensures |s| <= |universe|
    decreases |s|
  {
    if s != [] {
      var last := s[|s| - 1];
      forall u | u in s[..|s| - 1]
        ensures u in universe - {last}
      {
      }
      DistinctFits(s[..|s| - 1], universe - {last});
    }
  }

  function Loads(s: seq<Uuid>): (r: seq<Event>)
    ensures |r| == |s|
  {
    seq(|s|, i requires 0 <= i < |s| => Load(s[i]))
  }

  function Relocates(s: seq<Uuid>): (r: seq<Event>)
    ensures |r| == |s|
  {
    seq(|s|, i requires 0 <= i < |s| => Relocate(s[i]))
  }

  /** How often an event happened. */
  function Count(log: seq<Event>, e: Event): nat {
    if log == [] then 0 else Count(log[..|log| - 1], e) + if log[|log| - 1] == e then 1 else 0
  }

  /** Whatever is relocated had its whole closure loaded before. */
  ghost predicate LoadedBefore(needs: Needs, log: seq<Event>) {
    forall i, v :: 0 <= i < |log| && log[i].Relocate? && Reaches(needs, log[i].uuid, v) ==> Load(v) in log[..i]
  }

  lemma {:induction false} CountAppend(a: seq<Event>, b: seq<Event>, e: Event)
    ensures Count(a + b, e) == Count(a, e) + Count(b, e)
    decreases |b|
  {
    if b == [] {
      assert a + b == a;
    } else {
      assert (a + b)[..|a + b| - 1] == a + b[..|b| - 1];
      CountAppend(a, b[..|b| - 1], e);
    }
  }

  lemma {:induction false} CountOnce(s: seq<Uuid>, u: Uuid)
    requires Distinct(s)
    ensures Count(Loads(s), Load(u)) == Count(Relocates(s), Relocate(u)) == (if u in s then 1 else 0)
    ensures Count(Loads(s), Relocate(u)) == Count(Relocates(s), Load(u)) == 0
    decreases |s|
  {
    if s != [] {
      var t := s[..|s| - 1];
      assert Loads(s)[..|s| - 1] == Loads(t) && Relocates(s)[..|s| - 1] == Relocates(t);
      CountOnce(t, u);
      assert u in s <==> u in t || u == s[|s| - 1];
    }
  }

  lemma {:induction false} CountedIn(log: seq<Event>, e: Event)
    requires Count(log, e) > 0
    ensures e in log
    decreases |log|
  {
    if log[|log| - 1] != e {
      CountedIn(log[..|log| - 1], e);
    }
  }

  /** The members of s, and no others, were loaded and relocated once; those in `again` were loaded once more. */
  ghost predicate OnceEach(log: seq<Event>, s: seq<Uuid>, again: set<Uuid>) {
    forall u ::
      && Count(log, Load(u)) == (if u in s then 1 else 0) + (if u in again then 1 else 0)
      && Count(log, Relocate(u)) == (if u in s then 1 else 0)
  }

  /** Loading and then relocating the members of s from k on keeps the counts and the order. */
  lemma RunExtends(log: seq<Event>, s: seq<Uuid>, again: set<Uuid>, k: nat, after: seq<Event>)
    requires k <= |s| && Distinct(s) && OnceEach(log, s[..k], again)
    requires after == log + Loads(s[k..]) + Relocates(s[k..])
    ensures OnceEach(after, s, again)
  {
    hide Count;
    forall u
      ensures Count(after, Load(u)) == (if u in s then 1 else 0) + (if u in again then 1 else 0)
      ensures Count(after, Relocate(u)) == if u in s then 1 else 0
    {
      CountOnce(s[k..], u);
      CountAppend(log + Loads(s[k..]), Relocates(s[k..]), Load(u));
      CountAppend(log, Loads(s[k..]), Load(u));
      CountAppend(log + Loads(s[k..]), Relocates(s[k..]), Relocate(u));
      CountAppend(log, Loads(s[k..]), Relocate(u));
      OneSide(s, k, u);
    }
  }

  lemma OneSide(s: seq<Uuid>, k: nat, u: Uuid)
    requires k <= |s| && Distinct(s)
    ensures u in s <==> u in s[..k] || u in s[k..]
    ensures !(u in s[..k] && u in s[k..])
  {
    assert s == s[..k] + s[k..];
  }

  lemma RunOrdered(needs: Needs, log: seq<Event>, s: seq<Uuid>, again: set<Uuid>, k: nat, after: seq<Event>)
    requires k <= |s| && Closed(needs, s) && OnceEach(log, s[..k], again) && LoadedBefore(needs, log)
    requires after == log + Loads(s[k..]) + Relocates(s[k..])
    ensures LoadedBefore(needs, after)
  {
    hide Reaches, Count, Closed;
    forall i, v | 0 <= i < |after| && after[i].Relocate? && Reaches(needs, after[i].uuid, v)
      ensures Load(v) in after[..i]
    {
      if i < |log| {
        assert after[i] == log[i] && log[..i] == after[..i];
      } else {
        var mid := log + Loads(s[k..]);
        assert i >= |mid|;
        assert after[i].uuid in s;
        ClosedReaches(needs, s, after[i].uuid, v);
        LoadedIn(log, s, again, k, v);
        assert after[..i] == mid + after[|mid|..i];
      }
    }
  }

  lemma LoadedIn(log: seq<Event>, s: seq<Uuid>, again: set<Uuid>, k: nat, v: Uuid)
    requires k <= |s| && OnceEach(log, s[..k], again) && v in s
    ensures Load(v) in log + Loads(s[k..])
  {
    var j :| 0 <= j < |s| && s[j] == v;
    if j < k {
      assert s[..k][j] == v;
      CountedIn(log, Load(v));
    } else {
      assert Loads(s[k..])[j - k] == Load(v);
    }
  }

  /** No ELF outside a finite universe is ever needed. */
  ghost predicate Within(needs: Needs, universe: set<Uuid>) {
    forall u, v :: u in universe && v in needs(u) ==> v in universe
  }

  /** A queue being loaded: the ELFs before k are loaded, so what they need is queued. */
  ghost predicate Loading(needs: Needs, roots: set<Uuid>, universe: set<Uuid>, s: seq<Uuid>, k: nat) {
    && k <= |s| && Distinct(s) && Reached(needs, roots, s)
    && (forall u :: u in s ==> u in universe)
    && forall j, v :: 0 <= j < k && v in needs(s[j]) ==> v in s
  }

  lemma LoadingNext(needs: Needs, roots: set<Uuid>, universe: set<Uuid>, s: seq<Uuid>, k: nat)
    requires Within(needs, universe) && Loading(needs, roots, universe, s, k) && k < |s|
    ensures Loading(needs, roots, universe, Added(s, needs(s[k])), k + 1)
  {
    hide Reaches, FromRoots, Added;
    var t := Added(s, needs(s[k]));
    forall v | v in t
      ensures FromRoots(needs, roots, v)
    {
      if v in needs(s[k]) {
        NextFromRoots(needs, roots, s[k], v);
      }
    }
    forall j, v | 0 <= j < k + 1 && v in needs(t[j])
      ensures v in t
    {
      assert t[j] == s[j];
    }
  }

  lemma NextFromRoots(needs: Needs, roots: set<Uuid>, u: Uuid, v: Uuid)
    requires FromRoots(needs, roots, u) && v in needs(u)
    ensures FromRoots(needs, roots, v)
  {
    hide Reaches;
    var r :| r in roots && Reaches(needs, r, u);
    ReachesNext(needs, r, u, v);
  }

  lemma LoadingBounds(needs: Needs, roots: set<Uuid>, universe: set<Uuid>, s: seq<Uuid>, k: nat)
    requires Loading(needs, roots, universe, s, k)
    ensures k <= |s| <= |universe|
  {
    hide Reached;
    DistinctFits(s, universe);
  }

  lemma NothingLoaded(s: seq<Uuid>, k: nat)
    requires k <= |s|
    ensures Loads(s[k..k]) == []
  {
  }

  lemma LoadsMore(q: seq<Uuid>, s: seq<Uuid>, k: nat, i: nat)
    requires k <= i < |q| && q <= s
    ensures Loads(s[k..i + 1]) == Loads(q[k..i]) + [Load(q[i])]
  {
  }

  class Loader {
    const needs: Needs
    var queue: seq<Uuid>
    var log: seq<Event>
    ghost var roots: set<Uuid>
    /** The main ELF if it was loaded a second time. */
    ghost var again: set<Uuid>

    /** Between calls: the queue is the closure of what was asked for, each ELF loaded and relocated once. */
    ghost predicate Valid()
      reads this
    {
      && Distinct(queue) && Closed(needs, queue) && Reached(needs, roots, queue)
      && (forall r :: r in roots ==> r in queue)
      && OnceEach(log, queue, again) && LoadedBefore(needs, log)
    }

    constructor (needs: Needs)
      ensures this.needs == needs && queue == [] && log == [] && roots == {} && again == {}
      ensures Valid()
    {
      this.needs := needs;
      queue, log, roots, again := [], [], {}, {};
    }

    /** ta_elf_find_elf. */
    method FindElf(u: Uuid) returns (found: bool)
      ensures found <==> u in queue
    {
      for i := 0 to |queue|
        invariant u !in queue[..i]
      {
        if queue[i] == u {
          return true;
        }
      }
      return false;
    }

    /** queue_elf. */
    method QueueElf(u: Uuid)
      modifies `queue
      ensures queue == if u in old(queue) then old(queue) else old(queue) + [u]
    {
      var found := FindElf(u);
      if !found {
        queue := queue + [u];
      }
    }

    /** add_dependencies, one DT_NEEDED entry after another. */
    method AddDependencies(u: Uuid)
      modifies `queue
      ensures queue == Added(old(queue), needs(u))
    {
      var deps := needs(u);
      for i := 0 to |deps|
        invariant queue == Added(old(queue), deps[..i])
      {
        assert deps[..i + 1][..i] == deps[..i];
        QueueElf(deps[i]);
      }
      assert deps[..|deps|] == deps;
    }

    /** ta_elf_load_dependency of queue entry i; entry 0 is the main ELF, which is loaded already. */
    method LoadDependency(i: nat)
      requires i < |queue|
      modifies `queue, `log
      ensures i == 0 ==> queue == old(queue) && log == old(log)
      ensures i > 0 ==> queue == Added(old(queue), needs(old(queue[i]))) && log == old(log) + [Load(old(queue[i]))]
    {
      if i == 0 {
        return;
      }
      log := log + [Load(queue[i])];
      AddDependencies(queue[i]);
    }

    /** The loop that loads from entry k on, while loading appends to the queue. */
    method LoadFrom(k: nat, ghost universe: set<Uuid>)
      requires k > 0 && Within(needs, universe) && Loading(needs, roots, universe, queue, k)
      modifies `queue, `log
      ensures old(queue) <= queue && Loading(needs, roots, universe, queue, |queue|)
      ensures log == old(log) + Loads(queue[k..])
    {
      hide Loading, Within, Added, Loads;
      var i := k;
      ghost var q0 := queue;
      LoadingBounds(needs, roots, universe, queue, i);
      NothingLoaded(queue, k);
      while i < |queue|
        invariant k <= i <= |queue| && q0 <= queue
        invariant Loading(needs, roots, universe, queue, i)
        invariant log == old(log) + Loads(queue[k..i])
        decreases |universe| - i
      {
        LoadingBounds(needs, roots, universe, queue, i);
        LoadingNext(needs, roots, universe, queue, i);
        ghost var q := queue;
        LoadDependency(i);
        LoadsMore(q, queue, k, i);
        i := i + 1;
        LoadingBounds(needs, roots, universe, queue, i);
      }
      assert queue[k..i] == queue[k..];
    }

    /** The loop that relocates from entry k on. */
    method RelocateFrom(k: nat)
      requires k <= |queue|
      modifies `log
      ensures log == old(log) + Relocates(queue[k..])
    {
      var i := k;
      assert queue[k..k] == [];
      while i < |queue|
        invariant k <= i <= |queue|
        invariant log == old(log) + Relocates(queue[k..i])
      {
        assert Relocates(queue[k..i + 1]) == Relocates(queue[k..i]) + [Relocate(queue[i])];
        log := log + [Relocate(queue[i])];
        i := i + 1;
      }
      assert queue[k..i] == queue[k..];
    }

    /** After loading and relocating from entry k on, everything holds again. */
    ghost method Settle(k: nat, log0: seq<Event>, universe: set<Uuid>)
      requires k <= |queue| && Loading(needs, roots, universe, queue, |queue|)
      requires forall r :: r in roots ==> r in queue
      requires OnceEach(log0, queue[..k], again) && LoadedBefore(needs, log0)
      requires log == log0 + Loads(queue[k..]) + Relocates(queue[k..])
      ensures Valid()
    {
      hide OnceEach, LoadedBefore, Reached, Loads, Relocates;
      assert Closed(needs, queue);
      RunExtends(log0, queue, again, k, log);
      RunOrdered(needs, log0, queue, again, k, log);
    }

    /** load_main: a legacy ELF is loaded, found to be one, and loaded over again. */
    method LoadMain(main: Uuid, legacy: bool)
      modifies `queue, `log, `again
      ensures queue == Added(old(queue), needs(main))
      ensures log == old(log) + (if legacy then [Load(main)] else []) + [Load(main)]
      ensures again == if legacy then {main} else {}
    {
      hide Added;
      again := {};
      log := log + [Load(main)];
      AddDependencies(main);
      if legacy {
        AddedAgain(old(queue), needs(main));
        log := log + [Load(main)];
        AddDependencies(main);
        again := {main};
      }
    }

    /**
     * ldelf(): the main ELF, twice over if it turns out to be a legacy one, then its dependencies, then the
     * relocation of all. `universe` bounds what can be needed.
     */
    method Ldelf(main: Uuid, legacy: bool, ghost universe: set<Uuid>)
      requires Valid() && queue == [] && log == [] && roots == {}
      requires main in universe && Within(needs, universe)
      modifies this
      ensures Valid() && roots == {main} && queue != [] && queue[0] == main
      ensures log == (if legacy then [Load(main)] else []) + Loads(queue) + Relocates(queue)
      ensures again == if legacy then {main} else {}
    {
      hide OnceEach, LoadedBefore, Reached, Loads, Relocates, Within, Loading, Added, Closed, Distinct;
      roots := {main};
      QueueElf(main);
      assert queue == [main];
      MainQueued(needs, main, universe);
      LoadingNext(needs, roots, universe, queue, 0);
      ghost var first := if legacy then [Load(main)] else [];
      LoadMain(main, legacy);
      LoadDependency(0);
      assert queue == Added([main], needs(main)) && queue[0] == main;
      assert log == first + [Load(main)];
      LoadFrom(1, universe);
      MainFirst(queue, main, first);
      RelocateFrom(0);
      assert queue[0..] == queue;
      OnlyAgain(needs, queue, main, legacy);
      Settle(0, first, universe);
    }

    /**
     * ta_elf_add_library; `queued` is false when the queue entry cannot be allocated. Everything already
     * there keeps its place, and what happened before is not done again.
     */
    method AddLibrary(u: Uuid, queued: bool, ghost universe: set<Uuid>) returns (ok: bool)
      requires Valid() && queue != [] && u in universe && Within(needs, universe)
      requires forall v :: v in queue ==> v in universe
      modifies this
      ensures Valid() && old(queue) <= queue && old(log) <= log
      ensures ok <==> u in old(queue) || queued
      ensures roots == if queued then old(roots) + {u} else old(roots)
      ensures u in old(queue) || !queued ==> queue == old(queue) && log == old(log)
      ensures (forall v :: v in queue ==> v in universe) && again == old(again)
    {
      hide OnceEach, LoadedBefore, Reached, Loads, Relocates, Within, Loading;
      var found := FindElf(u);
      if found {
        if queued {
          MoreRoots(needs, roots, queue, u);
          roots := roots + {u};
        }
        return true;
      }
      if !queued {
        return false;
      }
      ghost var k, log0 := |queue|, log;
      LibraryQueued(needs, roots, universe, queue, u);
      queue := queue + [u];
      roots := roots + {u};
      var first := |queue| - 1;
      LoadFrom(first, universe);
      RelocateFrom(first);
      assert queue[..k] == old(queue) && queue[k] == u;
      assert OnceEach(log0, queue[..k], again) && LoadedBefore(needs, log0);
      forall r | r in roots
        ensures r in queue
      {
        assert r == u || r in queue[..k];
      }
      Settle(k, log0, universe);
      LoadingWithin(needs, roots, universe, queue);
      return true;
    }
  }

  lemma MainQueued(needs: Needs, main: Uuid, universe: set<Uuid>)
    requires main in universe
    ensures Loading(needs, {main}, universe, [main], 0)
  {
    ReachesItself(needs, main);
    assert FromRoots(needs, {main}, main);
  }

  lemma {:induction false} AddedAgain(s: seq<Uuid>, more: seq<Uuid>)
    ensures Added(Added(s, more), more) == Added(s, more)
  {
    NothingAdded(Added(s, more), more);
  }

  lemma {:induction false} NothingAdded(s: seq<Uuid>, more: seq<Uuid>)
    requires forall u :: u in more ==> u in s
    ensures Added(s, more) == s
    decreases |more|
  {
    if more != [] {
      NothingAdded(s, more[..|more| - 1]);
    }
  }

  lemma MainFirst(s: seq<Uuid>, main: Uuid, first: seq<Event>)
    requires s != [] && s[0] == main
    ensures first + [Load(main)] + Loads(s[1..]) == first + Loads(s)
  {
    assert [Load(main)] + Loads(s[1..]) == Loads(s);
    assert first + [Load(main)] + Loads(s[1..]) == first + ([Load(main)] + Loads(s[1..]));
  }

  lemma OnlyAgain(needs: Needs, s: seq<Uuid>, main: Uuid, legacy: bool)
    ensures var log: seq<Event> := if legacy then [Load(main)] else [];
            OnceEach(log, s[..0], if legacy then {main} else {}) && LoadedBefore(needs, log)
  {
    var log: seq<Event> := if legacy then [Load(main)] else [];
    forall u
      ensures Count(log, Load(u)) == (if legacy && u == main then 1 else 0) && Count(log, Relocate(u)) == 0
    {
      if legacy {
        assert log[..0] == [];
      }
    }
  }

  lemma MoreRoots(needs: Needs, roots: set<Uuid>, s: seq<Uuid>, u: Uuid)
    requires Reached(needs, roots, s)
    ensures Reached(needs, roots + {u}, s)
  {
    hide Reaches;
    forall v | v in s
      ensures FromRoots(needs, roots + {u}, v)
    {
      assert FromRoots(needs, roots, v);
      var r :| r in roots && Reaches(needs, r, v);
      assert r in roots + {u};
    }
  }

  lemma LibraryQueued(needs: Needs, roots: set<Uuid>, universe: set<Uuid>, s: seq<Uuid>, u: Uuid)
    requires Distinct(s) && Closed(needs, s) && Reached(needs, roots, s) && u !in s && u in universe
    requires forall v :: v in s ==> v in universe
    ensures Loading(needs, roots + {u}, universe, s + [u], |s|)
  {
    hide Reaches;
    MoreRoots(needs, roots, s, u);
    ReachesItself(needs, u);
    assert u in roots + {u};
    assert FromRoots(needs, roots + {u}, u);
  }

  lemma LoadingWithin(needs: Needs, roots: set<Uuid>, universe: set<Uuid>, s: seq<Uuid>)
    requires Loading(needs, roots, universe, s, |s|)
    ensures forall v :: v in s ==> v in universe
  {
  }

  lemma ClosureExactly(needs: Needs, roots: set<Uuid>, s: seq<Uuid>, v: Uuid)
    requires Closed(needs, s) && Reached(needs, roots, s) && forall r :: r in roots ==> r in s
    ensures v in s <==> FromRoots(needs, roots, v)
  {
    hide Reaches, Closed;
    if FromRoots(needs, roots, v) {
      var r :| r in roots && Reaches(needs, r, v);
      ClosedReaches(needs, s, r, v);
    }
  }

  /** A dlopen: the library, and whether its queue entry can be allocated. */
  datatype Open = Open(uuid: Uuid, queued: bool)

  function Asked(main: Uuid, opens: seq<Open>): set<Uuid> {
    {main} + set o | o in opens && o.queued :: o.uuid
  }

  /** ldelf() and then any sequence of dlopens, over finitely many UUIDs. */
  method Run(needs: Needs, main: Uuid, legacy: bool, opens: seq<Open>, ghost universe: set<Uuid>)
    returns (queue: seq<Uuid>, log: seq<Event>)
    requires main in universe && Within(needs, universe) && forall o :: o in opens ==> o.uuid in universe
    ensures queue != [] && queue[0] == main && Distinct(queue)
    ensures forall v :: v in queue <==> FromRoots(needs, Asked(main, opens), v)
    ensures forall v :: Count(log, Load(v)) == if v !in queue then 0 else if legacy && v == main then 2 else 1
    ensures forall v :: Count(log, Relocate(v)) == if v in queue then 1 else 0
    ensures LoadedBefore(needs, log)
  {
    hide OnceEach, LoadedBefore, Reached, FromRoots, Within, Closed, Distinct, Loads, Relocates, Count;
    var l := new Loader(needs);
    l.Ldelf(main, legacy, universe);
    RootsWithin(needs, l.roots, universe, l.queue);
    for i := 0 to |opens|
      invariant l.Valid() && l.needs == needs && l.queue != [] && l.queue[0] == main
      invariant l.roots == Asked(main, opens[..i]) && l.again == if legacy then {main} else {}
      invariant forall v :: v in l.queue ==> v in universe
      invariant fresh(l)
    {
      var ok := l.AddLibrary(opens[i].uuid, opens[i].queued, universe);
      AskedNext(main, opens, i);
    }
    assert opens[..|opens|] == opens;
    queue, log := l.queue, l.log;
    forall v
      ensures v in queue <==> FromRoots(needs, Asked(main, opens), v)
    {
      ClosureExactly(needs, l.roots, queue, v);
    }
    Counts(log, queue, main, legacy);
  }

  lemma AskedNext(main: Uuid, opens: seq<Open>, i: nat)
    requires i < |opens|
    ensures Asked(main, opens[..i + 1]) ==
            if opens[i].queued then Asked(main, opens[..i]) + {opens[i].uuid} else Asked(main, opens[..i])
  {
    assert opens[..i + 1] == opens[..i] + [opens[i]];
  }

  lemma Counts(log: seq<Event>, queue: seq<Uuid>, main: Uuid, legacy: bool)
    requires main in queue && OnceEach(log, queue, if legacy then {main} else {})
    ensures forall v :: Count(log, Load(v)) == if v !in queue then 0 else if legacy && v == main then 2 else 1
    ensures forall v :: Count(log, Relocate(v)) == if v in queue then 1 else 0
  {
    hide Count;
  }

  lemma RootsWithin(needs: Needs, roots: set<Uuid>, universe: set<Uuid>, s: seq<Uuid>)
    requires Reached(needs, roots, s) && Within(needs, universe) && forall r :: r in roots ==> r in universe
    ensures forall v :: v in s ==> v in universe
  {
    forall v | v in s
      ensures v in universe
    {
      assert FromRoots(needs, roots, v);
      var r :| r in roots && Reaches(needs, r, v);
      var p :| Path(needs, p) && p[0] == r && p[|p| - 1] == v;
      PathWithin(needs, universe, p);
    }
  }

  lemma {:induction false} PathWithin(needs: Needs, universe: set<Uuid>, p: seq<Uuid>)
    requires Within(needs, universe) && Path(needs, p) && p[0] in universe
    ensures p[|p| - 1] in universe
    decreases |p|
  {
    if |p| > 1 {
      var q := p[..|p| - 1];
      assert Path(needs, q);
      PathWithin(needs, universe, q);
      assert p[|p| - 1] in needs(q[|q| - 1]);
    }
  }

  // ------------------------------------------------------- why once and only once

  /**
   * An entry of a REL table, for the word at offset `at`. Store is any entry that writes a resolved value;
   * the others find their addend in the word.
   */
  datatype Rel =
    | Abs32(at: nat, value: nat)
    | Rel32(at: nat, value: nat)
    | Relative(at: nat)
    | Store(at: nat, value: nat)

  function Patched(w: nat, r: Rel, loadAddr: nat): nat {
    match r
    case Abs32(_, value) => (w + loadAddr + value) % U32
    case Rel32(at, value) => (w + value - at) % U32
    case Relative(_) => (w + loadAddr) % U32
    case Store(_, value) => value % U32
  }

  predicate SameMod32(a: int, b: int) {
    (a - b) % U32 == 0
  }

  /** What the word is to be, as an equation between 32-bit integers: the addend is the word before. */
  predicate IsPatched(before: nat, r: Rel, loadAddr: nat, after: nat) {
    && after < U32
    && match r
       case Abs32(_, value) => SameMod32(after, loadAddr + value + before)
       case Rel32(at, value) => SameMod32(after + at, value + before)
       case Relative(_) => SameMod32(after, loadAddr + before)
       case Store(_, value) => SameMod32(after, value)
  }

  lemma PatchedIs(w: nat, r: Rel, loadAddr: nat)
    ensures IsPatched(w, r, loadAddr, Patched(w, r, loadAddr))
  {
    hide SameMod32;
    match r
    case Abs32(_, value) => RemainderSame(w + loadAddr + value, loadAddr + value + w, 0);
    case Rel32(at, value) => RemainderSame(w + value - at, value + w, at);
    case Relative(_) => RemainderSame(w + loadAddr, loadAddr + w, 0);
    case Store(_, value) => RemainderSame(value, value, 0);
  }

  lemma RemainderSame(a: int, b: int, k: nat)
    requires a + k == b
    ensures SameMod32(a % U32 + k, b)
  {
    var q := a / U32;
    assert a == U32 * q + a % U32;
    assert a % U32 + k - b == U32 * (-q);
    MultipleOf(a % U32 + k - b, -q);
  }

  lemma MultipleOf(x: int, q: int)
    requires x == U32 * q
    ensures x % U32 == 0
  {
  }

  predicate InMemory(mem: map<nat, nat>, rels: seq<Rel>) {
    forall i :: 0 <= i < |rels| ==> rels[i].at in mem
  }

  /** e32_relocate: the entries of the table in order. */
  function Relocated(mem: map<nat, nat>, rels: seq<Rel>, loadAddr: nat): (m: map<nat, nat>)
    requires InMemory(mem, rels)
    ensures m.Keys == mem.Keys
    decreases |rels|
  {
    if rels == [] then mem
    else
      var m, r := Relocated(mem, rels[..|rels| - 1], loadAddr), rels[|rels| - 1];
      m[r.at := Patched(m[r.at], r, loadAddr)]
  }

  /** The memory of an ELF after what the log records. */
  function MemoryAfter(log: seq<Event>, u: Uuid, mem: map<nat, nat>, rels: seq<Rel>, loadAddr: nat): (m: map<nat, nat>)
    requires InMemory(mem, rels)
    ensures m.Keys == mem.Keys
    decreases |log|
  {
    if log == [] then mem
    else
      var m := MemoryAfter(log[..|log| - 1], u, mem, rels, loadAddr);
      if log[|log| - 1] == Relocate(u) then Relocated(m, rels, loadAddr) else m
  }

  lemma {:induction false} MemoryAfterCount(log: seq<Event>, u: Uuid, mem: map<nat, nat>, rels: seq<Rel>, loadAddr: nat)
    requires InMemory(mem, rels) && Count(log, Relocate(u)) <= 1
    ensures MemoryAfter(log, u, mem, rels, loadAddr) ==
            if Count(log, Relocate(u)) == 0 then mem else Relocated(mem, rels, loadAddr)
    decreases |log|
  {
    hide Relocated;
    if log != [] {
      MemoryAfterCount(log[..|log| - 1], u, mem, rels, loadAddr);
    }
  }

  lemma {:induction false} Untouched(mem: map<nat, nat>, rels: seq<Rel>, loadAddr: nat, at: nat)
    requires InMemory(mem, rels) && at in mem && forall j :: 0 <= j < |rels| ==> rels[j].at != at
    ensures Relocated(mem, rels, loadAddr)[at] == mem[at]
    decreases |rels|
  {
    hide Patched;
    if rels != [] {
      Untouched(mem, rels[..|rels| - 1], loadAddr, at);
    }
  }

  lemma {:induction false} OnlyEntry(mem: map<nat, nat>, rels: seq<Rel>, loadAddr: nat, i: nat)
    requires InMemory(mem, rels) && i < |rels|
    requires forall j :: 0 <= j < |rels| && j != i ==> rels[j].at != rels[i].at
    ensures Relocated(mem, rels, loadAddr)[rels[i].at] == Patched(mem[rels[i].at], rels[i], loadAddr)
    decreases |rels|
  {
    hide Patched;
    var before := rels[..|rels| - 1];
    if i == |rels| - 1 {
      Untouched(mem, before, loadAddr, rels[i].at);
    } else {
      OnlyEntry(mem, before, loadAddr, i);
    }
  }

  /** After any run, legacy or not, each word of a queued ELF was patched once from what its file holds there. */
  lemma RelocatedRight(log: seq<Event>, u: Uuid, mem: map<nat, nat>, rels: seq<Rel>, loadAddr: nat, i: nat)
    requires Count(log, Relocate(u)) == 1 && InMemory(mem, rels) && i < |rels|
    requires forall j :: 0 <= j < |rels| && j != i ==> rels[j].at != rels[i].at
    ensures IsPatched(mem[rels[i].at], rels[i], loadAddr, MemoryAfter(log, u, mem, rels, loadAddr)[rels[i].at])
    ensures forall at :: at in mem && (forall j :: 0 <= j < |rels| ==> rels[j].at != at) ==>
              MemoryAfter(log, u, mem, rels, loadAddr)[at] == mem[at]
  {
    hide Relocated, Patched, IsPatched, MemoryAfter;
    PatchedIs(mem[rels[i].at], rels[i], loadAddr);
    MemoryAfterCount(log, u, mem, rels, loadAddr);
    OnlyEntry(mem, rels, loadAddr, i);
    forall at | at in mem && (forall j :: 0 <= j < |rels| ==> rels[j].at != at)
      ensures Relocated(mem, rels, loadAddr)[at] == mem[at]
    {
      Untouched(mem, rels, loadAddr, at);
    }
  }
}
