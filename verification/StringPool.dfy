/** The string-interning pool as concurrent calls take steps: a first check under the read lock, a
    second check under the write lock, counters bumped separately, and evictions in between. */
module StringPool {
  import opened Basics

  /** The memory a string value points to; two equal strings may differ in it. */
  type Ref = nat

  datatype Entry = ByIntern | ByUid | ByNamespace

  /** How far a call has come. `began`, `at` and `ended` are the numbers of evictions that had happened
      when the call began, obtained its reference, and returned. */
  datatype Call =
    | Checking(s: string, own: Ref, began: nat)  // about to look under the read lock
    | Waiting(s: string, own: Ref, began: nat)  // not found; wants the write lock
    | Locked(s: string, own: Ref, began: nat)  // holds the write lock, before the second look
    | CountingHit(s: string, began: nat, got: Ref, at: nat, locked: bool)  // found; hits not yet bumped
    | CountingMiss(s: string, began: nat, got: Ref, at: nat)  // stored; misses not yet bumped
    | Unlocking(s: string, began: nat, got: Ref, at: nat)  // counted; still holds the write lock
    | Done(s: string, began: nat, got: Ref, at: nat, ended: nat)
    | Bypassed(s: string, own: Ref)  // the pool was never consulted
  {
    predicate HoldsLock() { Locked? || (CountingHit? && locked) || CountingMiss? || Unlocking? }
    predicate HasGot() { CountingHit? || CountingMiss? || Unlocking? || Done? }
    predicate IsCounted() { Unlocking? || Done? }
  }

  /** `past` records the pool as it was at each eviction; no step depends on it. */
  datatype Pool = Pool(
    pool: map<string, Ref>, hits: nat, misses: nat,
    calls: map<nat, Call>, writer: Option<nat>,
    evicted: nat, past: seq<map<string, Ref>>)

  const FRESH_POOL := Pool(map[], 0, 0, map[], None, 0, [])

  datatype Step =
    | Enter(id: nat, entry: Entry, s: string, own: Ref)
    | FirstCheck(id: nat)
    | Acquire(id: nat)
    | SecondCheck(id: nat)
    | Count(id: nat)
    | Release(id: nat)
    | Clear
    | Cleanup(maxSize: int, kept: set<string>)

  /** Empty strings, and the default namespace when interned as one, are returned as they are. */
  predicate Bypasses(entry: Entry, s: string) {
    s == "" || (entry.ByNamespace? && s == "default")
  }

  /** How many entries Cleanup keeps when it triggers: maxSize/2, which truncates towards zero. */
  function Keep(maxSize: int): nat {
    if maxSize < 0 then 0 else maxSize / 2
  }

  ghost predicate Enabled(p: Pool, step: Step) {
    match step
    case Enter(id, _, _, _) => id !in p.calls
    case FirstCheck(id) => id in p.calls && p.calls[id].Checking? && p.writer.None?
    case Acquire(id) => id in p.calls && p.calls[id].Waiting? && p.writer.None?
    case SecondCheck(id) => id in p.calls && p.calls[id].Locked?
    case Count(id) => id in p.calls && (p.calls[id].CountingHit? || p.calls[id].CountingMiss?)
    case Release(id) => id in p.calls && p.calls[id].Unlocking?
    case Clear => p.writer.None?
    case Cleanup(maxSize, kept) => p.writer.None? && (|p.pool| > maxSize ==> kept <= p.pool.Keys && |kept| == Keep(maxSize))
  }

  /** The pool cut down to some of its entries: one more eviction. */
  function Evict(p: Pool, kept: set<string>): Pool {
    var gone := p.pool.Keys - kept;
    p.(pool := p.pool - gone, evicted := p.evicted + |gone|, past := p.past + [p.pool])
  }

  /** Where a step takes the call that makes it. */
  ghost function NewCall(p: Pool, step: Step): Call
    requires Enabled(p, step) && !step.Clear? && !step.Cleanup?
  {
    match step
    case Enter(_, entry, s, own) => if Bypasses(entry, s) then Bypassed(s, own) else Checking(s, own, |p.past|)
    case FirstCheck(id) =>
      var c := p.calls[id];
      if c.s in p.pool then CountingHit(c.s, c.began, p.pool[c.s], |p.past|, false) else Waiting(c.s, c.own, c.began)
    case Acquire(id) => var c := p.calls[id]; Locked(c.s, c.own, c.began)
    case SecondCheck(id) =>
      var c := p.calls[id];
      if c.s in p.pool then CountingHit(c.s, c.began, p.pool[c.s], |p.past|, true)
      else CountingMiss(c.s, c.began, c.own, |p.past|)
    case Count(id) =>
      var c := p.calls[id];
      if c.CountingMiss? || c.locked then Unlocking(c.s, c.began, c.got, c.at)
      else Done(c.s, c.began, c.got, c.at, |p.past|)
    case Release(id) => var c := p.calls[id]; Done(c.s, c.began, c.got, c.at, |p.past|)
  }

  ghost function Moved(p: Pool, step: Step): Pool
    requires Enabled(p, step) && !step.Clear? && !step.Cleanup?
  {
    p.(calls := p.calls[step.id := NewCall(p, step)])
  }

  ghost function Next(p: Pool, step: Step): Pool
    requires Enabled(p, step)
  {
    match step
    case Enter(_, _, _, _) => Moved(p, step)
    case FirstCheck(_) => Moved(p, step)
    case Acquire(id) => Moved(p, step).(writer := Some(id))
    case SecondCheck(id) =>
      var c := p.calls[id];
      if c.s in p.pool then Moved(p, step) else Moved(p, step).(pool := p.pool[c.s := c.own])
    case Count(id) =>
      if p.calls[id].CountingMiss? then Moved(p, step).(misses := p.misses + 1) else Moved(p, step).(hits := p.hits + 1)
    case Release(_) => Moved(p, step).(writer := None)
    case Clear => Evict(p, {})
    case Cleanup(maxSize, kept) => if |p.pool| <= maxSize then p else Evict(p, kept)
  }

  // ----- What every step keeps -----

  /** The writer is the one call that holds the lock. */
  ghost predicate LockInv(p: Pool) {
    && (forall id | id in p.calls :: p.calls[id].HoldsLock() <==> p.writer == Some(id))
    && (p.writer.Some? ==> p.writer.value in p.calls)
  }

  /** The pool between the evictions numbered e and e + 1, at its largest. */
  function PoolAt(p: Pool, e: nat): map<string, Ref>
    requires e <= |p.past|
  {
    if e < |p.past| then p.past[e] else p.pool
  }

  /** Every reference obtained is the one the pool held for the string at that time. */
  predicate CallInv(p: Pool, c: Call) {
    match c
    case Bypassed(_, _) => true
    case Checking(_, _, began) => began <= |p.past|
    case Waiting(_, _, began) => began <= |p.past|
    case Locked(_, _, began) => began <= |p.past|
    case Done(s, began, got, at, ended) =>
      began <= at <= ended <= |p.past| && s in PoolAt(p, at) && PoolAt(p, at)[s] == got
    case _ =>
      c.began <= c.at <= |p.past| && c.s in PoolAt(p, c.at) && PoolAt(p, c.at)[c.s] == c.got
  }

  ghost predicate CallsInv(p: Pool) {
    forall id | id in p.calls :: CallInv(p, p.calls[id])
  }

  ghost predicate Pending(p: Pool) {
    p.writer.Some? && p.writer.value in p.calls && p.calls[p.writer.value].CountingMiss?
  }

  function CountedCalls(calls: map<nat, Call>): set<nat> {
    set id | id in calls && calls[id].IsCounted()
  }

  /** Misses account for every entry stored or evicted, and every finished call was counted once. */
  ghost predicate CountInv(p: Pool) {
    && p.misses + (if Pending(p) then 1 else 0) == |p.pool| + p.evicted
    && p.hits + p.misses == |CountedCalls(p.calls)|
  }

  lemma EvictCount(p: Pool, kept: set<string>)
    ensures |Evict(p, kept).pool| + Evict(p, kept).evicted == |p.pool| + p.evicted
  {
    var gone := p.pool.Keys - kept;
    assert Evict(p, kept).pool.Keys == p.pool.Keys - gone;
    assert |p.pool.Keys| == |p.pool.Keys - gone| + |gone|;
  }

  lemma StepLock(p: Pool, step: Step)
    requires Enabled(p, step) && LockInv(p)
    ensures LockInv(Next(p, step))
  {}

  /** A call that takes no part in a step keeps its reference explained: between evictions the pool
      only grows, and an eviction leaves its past behind. */
  lemma OthersKeep(p: Pool, q: Pool, c: Call)
    requires CallInv(p, c)
    requires (q.past == p.past && forall s | s in p.pool :: s in q.pool && q.pool[s] == p.pool[s]) || q.past == p.past + [p.pool]
    ensures CallInv(q, c)
  {
    if c.HasGot() {
      assert forall e | 0 <= e < |p.past| :: q.past[e] == p.past[e];
      assert q.past == p.past + [p.pool] ==> q.past[|p.past|] == p.pool;
    }
  }

  lemma StepCalls(p: Pool, step: Step)
    requires Enabled(p, step) && CallsInv(p)
    ensures CallsInv(Next(p, step))
  {
    var q := Next(p, step);
    forall id | id in q.calls ensures CallInv(q, q.calls[id]) {
      if id in p.calls {
        assert CallInv(p, p.calls[id]);
        OthersKeep(p, q, p.calls[id]);
      }
    }
  }

  /** Changing one call's state changes the counted calls by at most that call. */
  lemma CountedCallsUpdate(calls: map<nat, Call>, id: nat, c: Call)
    requires id in calls && calls[id].IsCounted() ==> c.IsCounted()
    ensures CountedCalls(calls[id := c]) == CountedCalls(calls) + if c.IsCounted() then {id} else {}
  {}

  lemma NewCallCounted(p: Pool, step: Step)
    requires Enabled(p, step) && !step.Clear? && !step.Cleanup?
    ensures NewCall(p, step).IsCounted() <==> step.Count? || step.Release?
    ensures step.id in p.calls && p.calls[step.id].IsCounted() <==> step.Release?
  {}

  lemma AddCounted(calls: map<nat, Call>, id: nat, c: Call)
    requires id in calls && calls[id].IsCounted() ==> c.IsCounted()
    ensures |CountedCalls(calls[id := c])| ==
      |CountedCalls(calls)| + if c.IsCounted() && !(id in calls && calls[id].IsCounted()) then 1 else 0
  {
    CountedCallsUpdate(calls, id, c);
    assert id in CountedCalls(calls) ==> CountedCalls(calls) + {id} == CountedCalls(calls);
  }

  lemma StepCounted(p: Pool, step: Step)
    requires Enabled(p, step)
    ensures |CountedCalls(Next(p, step).calls)| == |CountedCalls(p.calls)| + if step.Count? then 1 else 0
  {
    if !step.Clear? && !step.Cleanup? {
      NewCallCounted(p, step);
      AddCounted(p.calls, step.id, NewCall(p, step));
      assert Next(p, step).calls == p.calls[step.id := NewCall(p, step)];
    }
  }

  lemma StepMisses(p: Pool, step: Step)
    requires Enabled(p, step) && LockInv(p)
    requires p.misses + (if Pending(p) then 1 else 0) == |p.pool| + p.evicted
    ensures var q := Next(p, step); q.misses + (if Pending(q) then 1 else 0) == |q.pool| + q.evicted
  {
    match step
    case Clear => EvictCount(p, {});
    case Cleanup(maxSize, kept) => if |p.pool| > maxSize { EvictCount(p, kept); }
    case _ =>
  }

  lemma StepCount(p: Pool, step: Step)
    requires Enabled(p, step) && LockInv(p) && CountInv(p)
    ensures CountInv(Next(p, step))
  {
    StepCounted(p, step);
    StepMisses(p, step);
  }

  lemma SubsetSize<T>(a: set<T>, b: set<T>)
    requires a <= b
    ensures |a| <= |b|
  {
    assert b == a + (b - a);
  }

  // ----- Runs -----

  /** The pool after the steps, if each was enabled when taken. */
  ghost function Run(steps: seq<Step>): Option<Pool> {
    if steps == [] then Some(FRESH_POOL)
    else match Run(steps[..|steps| - 1])
      case None => None
      case Some(p) => if Enabled(p, steps[|steps| - 1]) then Some(Next(p, steps[|steps| - 1])) else None
  }

  lemma {:induction false} RunInv(steps: seq<Step>)
    requires Run(steps).Some?
    ensures LockInv(Run(steps).value) && CallsInv(Run(steps).value) && CountInv(Run(steps).value)
  {
    if steps == [] {
      assert CountedCalls(map[]) == {};
    } else {
      RunInv(steps[..|steps| - 1]);
      var p, step := Run(steps[..|steps| - 1]).value, steps[|steps| - 1];
      StepLock(p, step);
      StepCalls(p, step);
      StepCount(p, step);
    }
  }

  /** In every interleaving, two finished calls for the same string that looked between the same two
      evictions returned the same reference; each looked between its beginning and its end. */
  lemma SameReference(steps: seq<Step>, i: nat, j: nat)
    requires Run(steps).Some?
    requires i in Run(steps).value.calls && j in Run(steps).value.calls
    requires Run(steps).value.calls[i].Done? && Run(steps).value.calls[j].Done?
    requires Run(steps).value.calls[i].s == Run(steps).value.calls[j].s
    ensures var c, d := Run(steps).value.calls[i], Run(steps).value.calls[j];
      && c.began <= c.at <= c.ended && d.began <= d.at <= d.ended
      && (c.at == d.at ==> c.got == d.got)
      && (c.began == c.ended == d.began == d.ended ==> c.got == d.got)
  {
    RunInv(steps);
  }

  /** In every interleaving, whenever the write lock is free the misses are the entries stored plus the
      entries ever evicted; and hits and misses together count the finished calls, once each. */
  lemma Accounting(steps: seq<Step>)
    requires Run(steps).Some?
    ensures var p := Run(steps).value;
      && (p.writer.None? ==> p.misses == |p.pool| + p.evicted)
      && p.hits + p.misses == |CountedCalls(p.calls)|
  {
    RunInv(steps);
  }

  /** The eviction loop: visits entries in any order and stops at half the limit. */
  method CleanupPool(pool: map<string, Ref>, maxSize: int) returns (newPool: map<string, Ref>, removed: nat)
    ensures |pool| <= maxSize ==> newPool == pool && removed == 0
    ensures |pool| > maxSize ==>
      && newPool.Keys <= pool.Keys && (forall s | s in newPool :: newPool[s] == pool[s])
      && |newPool| == Keep(maxSize) && removed == |pool| - |newPool|
      && (maxSize >= 0 ==> 2 * |newPool| <= maxSize < 2 * |newPool| + 2) && (maxSize < 0 ==> newPool == map[])
  {
    if |pool| <= maxSize {
      return pool, 0;
    }
    newPool := map[];
    var count := 0;
    var todo := pool.Keys;
    while todo != {} && count < Keep(maxSize)
      invariant todo <= pool.Keys && newPool.Keys == pool.Keys - todo
      invariant forall s | s in newPool :: newPool[s] == pool[s]
      invariant count == |newPool| <= Keep(maxSize)
      decreases todo
    {
      var k :| k in todo;
      newPool := newPool[k := pool[k]];
      count := count + 1;
      todo := todo - {k};
    }
    if todo == {} {
      assert newPool.Keys == pool.Keys;
    }
    SubsetSize(newPool.Keys, pool.Keys);
    removed := |pool| - |newPool|;
  }

  /** The loop is the step: what it returns is what an enabled Cleanup step makes of the pool, and the number it
      returns is how many entries that evicts. */
  lemma CleanupIsStep(p: Pool, maxSize: int, newPool: map<string, Ref>, removed: nat)
    requires p.writer.None?
    requires |p.pool| <= maxSize ==> newPool == p.pool && removed == 0
    requires |p.pool| > maxSize ==>
      && newPool.Keys <= p.pool.Keys && (forall s | s in newPool :: newPool[s] == p.pool[s])
      && |newPool| == Keep(maxSize) && removed == |p.pool| - |newPool|
    ensures var step := Cleanup(maxSize, newPool.Keys);
      Enabled(p, step) && Next(p, step).pool == newPool && Next(p, step).evicted == p.evicted + removed
  {
    if |p.pool| > maxSize {
      var gone := p.pool.Keys - newPool.Keys;
      assert p.pool - gone == newPool;
      assert |p.pool.Keys| == |newPool.Keys| + |gone| by { assert p.pool.Keys == newPool.Keys + gone; }
      assert |newPool.Keys| == |newPool|;
    }
  }

  /** Clearing leaves no entry behind, and neither does it touch counters or calls. */
  lemma ClearEmpties(p: Pool)
    requires Enabled(p, Clear)
    ensures Next(p, Clear) == p.(pool := map[], evicted := p.evicted + |p.pool|, past := p.past + [p.pool])
  {
    assert p.pool.Keys - {} == p.pool.Keys;
    assert |p.pool.Keys| == |p.pool|;
  }

  // ----- What a call is about -----

  /** The call is about the string it entered with, and skips the pool exactly for the empty string and for the
      default namespace interned as one; then it keeps the reference it came with. */
  ghost predicate IsAbout(c: Call, enter: Step) {
    && enter.Enter? && c.s == enter.s
    && (c.Bypassed? <==> enter.s == "" || (enter.s == "default" && enter.entry == ByNamespace))
    && (c.Bypassed? || c.Checking? || c.Waiting? || c.Locked? ==> c.own == enter.own)
  }

  /** Step i is where the call entered. */
  ghost predicate EnteredAt(steps: seq<Step>, i: int, id: nat, c: Call) {
    0 <= i < |steps| && IsAbout(c, steps[i]) && steps[i].id == id
  }

  ghost predicate CameIn(steps: seq<Step>, id: nat, c: Call) {
    exists i :: EnteredAt(steps, i, id, c)
  }

  /** Step i brought a reference for the string. */
  ghost predicate BringsAt(steps: seq<Step>, i: int, s: string, ref: Ref) {
    0 <= i < |steps| && steps[i].Enter? && steps[i].s == s && steps[i].own == ref
  }

  ghost predicate BroughtFor(steps: seq<Step>, s: string, ref: Ref) {
    exists i :: BringsAt(steps, i, s, ref)
  }

  ghost predicate CallsCameIn(steps: seq<Step>, calls: map<nat, Call>) {
    forall id | id in calls :: CameIn(steps, id, calls[id])
  }

  /** What the pool holds and what calls have got was brought for its string. */
  ghost predicate RefsBrought(steps: seq<Step>, p: Pool) {
    && (forall s | s in p.pool :: BroughtFor(steps, s, p.pool[s]))
    && (forall id | id in p.calls && p.calls[id].HasGot() :: BroughtFor(steps, p.calls[id].s, p.calls[id].got))
  }

  lemma BroughtLater(steps: seq<Step>, step: Step, s: string, ref: Ref)
    requires BroughtFor(steps, s, ref)
    ensures BroughtFor(steps + [step], s, ref)
  {
    var i :| BringsAt(steps, i, s, ref);
    assert BringsAt(steps + [step], i, s, ref);
  }

  /** Moving on does not change what a call is about. */
  lemma NewCallAbout(p: Pool, step: Step, enter: Step)
    requires Enabled(p, step) && !step.Clear? && !step.Cleanup? && !step.Enter?
    requires IsAbout(p.calls[step.id], enter)
    ensures IsAbout(NewCall(p, step), enter)
  {}

  lemma NextCalls(p: Pool, step: Step)
    requires Enabled(p, step)
    ensures Next(p, step).calls == if step.Clear? || step.Cleanup? then p.calls else p.calls[step.id := NewCall(p, step)]
  {}

  lemma CallStep(steps: seq<Step>, p: Pool, step: Step, id: nat)
    requires Enabled(p, step) && CallsCameIn(steps, p.calls) && id in Next(p, step).calls
    ensures CameIn(steps + [step], id, Next(p, step).calls[id])
  {
    var all := steps + [step];
    NextCalls(p, step);
    var c := Next(p, step).calls[id];
    if id in p.calls {
      var i :| EnteredAt(steps, i, id, p.calls[id]);
      if !step.Clear? && !step.Cleanup? && step.id == id {
        NewCallAbout(p, step, steps[i]);
      }
      assert EnteredAt(all, i, id, c);
    } else {
      assert EnteredAt(all, |steps|, id, c);
    }
  }

  /** What a step puts into the pool was there, or is the own reference of a call. */
  lemma NewPoolRefs(steps: seq<Step>, p: Pool, step: Step)
    requires Enabled(p, step) && CallsCameIn(steps, p.calls) && RefsBrought(steps, p)
    ensures forall s | s in Next(p, step).pool :: BroughtFor(steps, s, Next(p, step).pool[s])
  {
    if step.SecondCheck? {
      var c := p.calls[step.id];
      var i :| EnteredAt(steps, i, step.id, c);
      assert BringsAt(steps, i, c.s, c.own);
    }
  }

  /** A reference a call takes up was in the pool, or is its own. */
  lemma NewCallRef(steps: seq<Step>, p: Pool, step: Step)
    requires Enabled(p, step) && !step.Clear? && !step.Cleanup?
    requires CallsCameIn(steps, p.calls) && RefsBrought(steps, p) && NewCall(p, step).HasGot()
    ensures BroughtFor(steps, NewCall(p, step).s, NewCall(p, step).got)
  {
    if step.SecondCheck? {
      var c := p.calls[step.id];
      var i :| EnteredAt(steps, i, step.id, c);
      assert BringsAt(steps, i, c.s, c.own);
    }
  }

  lemma NewRefs(steps: seq<Step>, p: Pool, step: Step)
    requires Enabled(p, step) && CallsCameIn(steps, p.calls) && RefsBrought(steps, p)
    ensures RefsBrought(steps, Next(p, step))
  {
    NewPoolRefs(steps, p, step);
    NextCalls(p, step);
    if !step.Clear? && !step.Cleanup? && NewCall(p, step).HasGot() {
      NewCallRef(steps, p, step);
    }
  }

  lemma RefsStep(steps: seq<Step>, p: Pool, step: Step)
    requires RefsBrought(steps, p)
    ensures RefsBrought(steps + [step], p)
  {
    forall s | s in p.pool ensures BroughtFor(steps + [step], s, p.pool[s]) { BroughtLater(steps, step, s, p.pool[s]); }
    forall id | id in p.calls && p.calls[id].HasGot() ensures BroughtFor(steps + [step], p.calls[id].s, p.calls[id].got) {
      BroughtLater(steps, step, p.calls[id].s, p.calls[id].got);
    }
  }

  lemma {:induction false} RunAbout(steps: seq<Step>)
    requires Run(steps).Some?
    ensures CallsCameIn(steps, Run(steps).value.calls) && RefsBrought(steps, Run(steps).value)
  {
    if steps != [] {
      var init, last := steps[..|steps| - 1], steps[|steps| - 1];
      RunAbout(init);
      var p := Run(init).value;
      assert steps == init + [last];
      forall id | id in Next(p, last).calls ensures CameIn(steps, id, Next(p, last).calls[id]) { CallStep(init, p, last, id); }
      NewRefs(init, p, last);
      RefsStep(init, Next(p, last), last);
    }
  }

  /** Interning returns an equal string: in every interleaving the reference a finished call returns is one with
      which some call entered for the same string, and only the empty string and the default namespace, interned
      as one, come back without the pool being asked. */
  lemma ReturnsEqualString(steps: seq<Step>, id: nat)
    requires Run(steps).Some? && id in Run(steps).value.calls
    ensures CameIn(steps, id, Run(steps).value.calls[id])
    ensures var c := Run(steps).value.calls[id]; c.Done? ==> BroughtFor(steps, c.s, c.got)
  {
    RunAbout(steps);
  }
}
