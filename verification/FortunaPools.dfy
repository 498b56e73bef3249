/** Which pools Fortuna fills and which a reseed draws from: get_next_pnum and the loop of maybe_reseed. */
module FortunaPools {
  import opened Bytes

  const NUM_POOLS: nat := 32

  // ---------------------------------------------------------- the reseed loop

  /** reseed_from_pool: a test of one bit. */
  predicate ReseedFromPool(count: nat, pool: nat) {
    pool == 0 || count / Power(2, pool - 1) % 2 == 0
  }

  /** The rule it stands for: use pool n when 2^n divides the reseed count. */
  predicate Divides(pool: nat, count: nat) {
    count % Power(2, pool) == 0
  }

  lemma ModDouble(c: nat, p: nat)
    requires p > 0
    ensures c % (2 * p) == c % p + p * (c / p % 2)
  {
    var q, r := c / p, c % p;
    var h, b := q / 2, q % 2;
    assert p * q == p * (2 * h + b) == 2 * p * h + p * b;
    assert p * b <= p;
    DivModUnique(c, 2 * p, h, p * b + r);
  }

  /** Divisibility by the next power of two is one more zero bit. */
  lemma DividesNext(c: nat, n: nat)
    ensures Divides(n + 1, c) <==> Divides(n, c) && ReseedFromPool(c, n + 1)
  {
    ModDouble(c, Power(2, n));
    var p, b := Power(2, n), c / Power(2, n) % 2;
    assert b == 0 || b == 1;
    assert b == 0 ==> p * b == 0;
    assert b == 1 ==> p * b == p;
  }

  lemma {:induction false} DividesBelow(c: nat, m: nat, n: nat)
    requires m <= n && Divides(n, c)
    ensures Divides(m, c)
    decreases n
  {
    hide Divides, ReseedFromPool;
    if m < n {
      DividesNext(c, n - 1);
      DividesBelow(c, m, n - 1);
    }
  }

  lemma {:induction false} PassedDivides(count: nat, n: nat)
    requires forall i :: 0 <= i <= n ==> ReseedFromPool(count, i)
    ensures Divides(n, count)
    decreases n
  {
    hide Divides, ReseedFromPool;
    if n == 0 {
      DividesZero(count);
    } else {
      PassedDivides(count, n - 1);
      DividesNext(count, n - 1);
    }
  }

  /** A loop that stops at the first pool whose bit is set draws exactly the pools the rule names. */
  lemma DrawnExactly(count: nat, k: nat)
    requires k <= NUM_POOLS
    requires forall n :: 0 <= n < k ==> ReseedFromPool(count, n)
    requires k < NUM_POOLS ==> !ReseedFromPool(count, k)
    ensures forall n :: 0 <= n < NUM_POOLS ==> (n < k <==> Divides(n, count))
  {
    hide Divides, ReseedFromPool;
    forall n | 0 <= n < NUM_POOLS
      ensures n < k <==> Divides(n, count)
    {
      if n < k {
        PassedDivides(count, n);
      } else if Divides(n, count) {
        DividesBelow(count, k, n);
        DividesZero(count);
        DividesNext(count, k - 1);
      }
    }
  }

  /** How many pools the loop draws from, going on at pool n. */
  function TurnsFrom(count: nat, n: nat): (k: nat)
    requires n <= NUM_POOLS
    ensures n <= k <= NUM_POOLS
    decreases NUM_POOLS - n
  {
    hide ReseedFromPool;
    if n < NUM_POOLS && ReseedFromPool(count, n) then TurnsFrom(count, n + 1) else n
  }

  function Turns(count: nat): (k: nat)
    ensures k <= NUM_POOLS
  {
    TurnsFrom(count, 0)
  }

  lemma {:induction false} TurnsStop(count: nat, n: nat)
    requires n <= NUM_POOLS
    ensures var k := TurnsFrom(count, n);
            && (forall i :: n <= i < k ==> ReseedFromPool(count, i))
            && (k < NUM_POOLS ==> !ReseedFromPool(count, k))
    decreases NUM_POOLS - n
  {
    hide ReseedFromPool;
    if n < NUM_POOLS && ReseedFromPool(count, n) {
      TurnsStop(count, n + 1);
    }
  }

  /** Those are the pools the rule names. */
  lemma TurnsExactly(count: nat)
    ensures forall n :: 0 <= n < NUM_POOLS ==> (n < Turns(count) <==> Divides(n, count))
  {
    hide Divides, ReseedFromPool, TurnsFrom;
    TurnsStop(count, 0);
    DrawnExactly(count, Turns(count));
  }

  /** The count wraps at 2^32, which every power of two used divides. */
  lemma DividesWrapped(n: nat, r: nat)
    requires n < NUM_POOLS
    ensures Divides(n, r % U32) <==> Divides(n, r)
  {
    hide Power;
    var p, m := Power(2, n), Power(2, 32 - n);
    PowerSum(2, n, 32 - n);
    Power2At32();
    var q := r / U32;
    assert r == r % U32 + U32 * q;
    MulAssoc(p, m, q);
    SameRem(r, r % U32, p, m * q);
  }

  lemma DividesZero(c: nat)
    ensures Divides(0, c) && ReseedFromPool(c, 0)
  {
  }

  /** How often pool n is drawn in the first r reseeds. */
  function Uses(n: nat, r: nat): nat {
    if r == 0 then 0 else Uses(n, r - 1) + if Divides(n, r) then 1 else 0
  }

  lemma {:induction false} UsesExactly(n: nat, r: nat)
    ensures Uses(n, r) == r / Power(2, n)
    decreases r
  {
    var p := Power(2, n);
    if r == 0 {
      DivModUnique(0, p, 0, 0);
    } else {
      UsesExactly(n, r - 1);
      var q, s := (r - 1) / p, (r - 1) % p;
      assert r - 1 == p * q + s;
      if s + 1 == p {
        assert r == p * (q + 1) + 0;
        DivModUnique(r, p, q + 1, 0);
      } else {
        DivModUnique(r, p, q, s + 1);
      }
    }
  }

  // ------------------------------------------------------- the pool counter

  /** The shared pool number, what each thread in get_next_pnum last saw of it, and the numbers handed out. */
  datatype Cell = Cell(pnum: nat, seen: map<nat, nat>, handed: seq<nat>)

  datatype Step = LoadPnum(thread: nat) | CompareAndSwap(thread: nat)

  predicate Enabled(s: Cell, step: Step) {
    match step
    case LoadPnum(t) => t !in s.seen
    case CompareAndSwap(t) => t in s.seen
  }

  function Do(s: Cell, step: Step): Cell
    requires Enabled(s, step)
  {
    match step
    case LoadPnum(t) => s.(seen := s.seen[t := s.pnum])
    case CompareAndSwap(t) =>
      var nval := (s.seen[t] + 1) % NUM_POOLS;
      if s.pnum == s.seen[t]
      then Cell(nval, s.seen - {t}, s.handed + [(nval + NUM_POOLS - 1) % NUM_POOLS])
      else s.(seen := s.seen[t := s.pnum])
  }

  function After(s: Cell, steps: seq<Step>): Cell
    requires Possible(s, steps)
    decreases |steps|
  {
    if steps == [] then s else Do(After(s, steps[..|steps| - 1]), steps[|steps| - 1])
  }

  predicate Possible(s: Cell, steps: seq<Step>)
    decreases |steps|, 0
  {
    steps == [] ||
    (Possible(s, steps[..|steps| - 1]) && Enabled(After(s, steps[..|steps| - 1]), steps[|steps| - 1]))
  }

  predicate RoundRobin(s: Cell) {
    && s.pnum == |s.handed| % NUM_POOLS
    && forall i :: 0 <= i < |s.handed| ==> s.handed[i] == i % NUM_POOLS
  }

  /** However the threads interleave, updates are dealt to the pools in turn, pool 0 first. */
  lemma {:induction false} EveryInterleaving(steps: seq<Step>)
    requires Possible(Cell(0, map[], []), steps)
    ensures RoundRobin(After(Cell(0, map[], []), steps))
    decreases |steps|
  {
    if steps != [] {
      EveryInterleaving(steps[..|steps| - 1]);
    }
  }
}
