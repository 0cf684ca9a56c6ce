// Concurrent accumulation of solver times, as in bin/profile.ml: calls of
// start_smt and finish_smt run in any interleaving.  They share one record of
// atomic cells through a plain reference that they read and write without
// synchronisation.
module Profile {

  const CELLS: nat := 5

  // A boxed number: atomic compare-and-set compares boxes, not values.
  datatype Box<T> = Box(id: nat, value: T)

  // The cells of a profile: one counter and five accumulators, by address.
  datatype Record = Record(calls: nat, times: seq<nat>)

  datatype Kind<T> = StartSmt | FinishSmt(deltas: seq<T>)

  // Where a call stands.  Those that have read the stack remember what they read.
  datatype Pc<T> =
    | Ready
    | Incr(stack: seq<Record>)
    | Get(stack: seq<Record>, cell: nat)
    | Cas(stack: seq<Record>, cell: nat, old_t: Box<T>, new_t: Box<T>)
    | Write(stack: seq<Record>)
    | Done

  // written holds every value assigned to profile_stack since start; commits and
  // failures record, per accumulator, which calls succeeded in order and how many
  // compare-and-sets failed.
  datatype State<T> = State(
    counters: map<nat, int>,
    accumulators: map<nat, Box<T>>,
    nextBox: nat,
    written: seq<seq<Record>>,
    pcs: seq<Pc<T>>,
    commits: seq<seq<nat>>,
    failures: seq<nat>)

  datatype Program<!T> = Program(base: Record, zero: T, op: (T, T) -> T, kinds: seq<Kind<T>>) {

    // The record made by start has six cells of its own; every finish_smt has a
    // difference for each accumulator.
    ghost predicate Valid() {
      && |base.times| == CELLS
      && (forall a, b :: 0 <= a < b < CELLS ==> base.times[a] != base.times[b])
      && (forall i :: 0 <= i < |kinds| && kinds[i].FinishSmt? ==> |kinds[i].deltas| == CELLS)
    }
  }

  // Six cells of their own and a difference for each accumulator are all it takes.
  lemma ValidPrograms<T>(p: Program<T>)
    requires |p.base.times| == 5 && forall a, b :: 0 <= a < b < 5 ==> p.base.times[a] != p.base.times[b]
    requires forall i :: 0 <= i < |p.kinds| && p.kinds[i].FinishSmt? ==> |p.kinds[i].deltas| == 5
    ensures p.Valid()
  {
  }

  // A call may read any value assigned to profile_stack since start.
  datatype Event = Read(call: nat, which: nat) | Increment(call: nat) | GetCell(call: nat)
                 | CompareAndSet(call: nat) | WriteStack(call: nat)

  // After start.
  function Init<T>(p: Program<T>): State<T>
    requires p.Valid()
  {
    State(map[p.base.calls := 0],
          map k | 0 <= k < CELLS :: p.base.times[k] := Box(k, p.zero),
          CELLS, [[p.base]], seq(|p.kinds|, _ => Ready), seq(CELLS, _ => []), seq(CELLS, _ => 0))
  }

  // The accumulator that a call works on next.
  predicate HasCell<T>(s: State<T>, stack: seq<Record>, cell: nat) {
    && stack != [] && cell < |stack[0].times| && stack[0].times[cell] in s.accumulators
    && cell < |s.commits| && cell < |s.failures|
  }

  predicate Enabled<T>(p: Program<T>, s: State<T>, e: Event) {
    && e.call < |s.pcs| && e.call < |p.kinds|
    && match e
       case Read(i, w) => s.pcs[i].Ready? && w < |s.written|
       case Increment(i) => s.pcs[i].Incr? && s.pcs[i].stack != [] && s.pcs[i].stack[0].calls in s.counters
       case GetCell(i) =>
         && s.pcs[i].Get? && HasCell(s, s.pcs[i].stack, s.pcs[i].cell)
         && p.kinds[i].FinishSmt? && s.pcs[i].cell < |p.kinds[i].deltas|
       case CompareAndSet(i) => s.pcs[i].Cas? && HasCell(s, s.pcs[i].stack, s.pcs[i].cell)
       case WriteStack(i) => s.pcs[i].Write? && s.pcs[i].stack != []
  }

  // ---------- What every state keeps ----------

  // A call that has read the stack has read the one record of start.
  ghost predicate PcOk<T>(p: Program<T>, kind: Kind<T>, pc: Pc<T>) {
    match pc
    case Ready => true
    case Incr(st) => kind.StartSmt? && st == [p.base]
    case Get(st, k) => kind.FinishSmt? && st == [p.base] && k < CELLS
    case Cas(st, k, _, _) => kind.FinishSmt? && st == [p.base] && k < CELLS
    case Write(st) => st == [p.base]
    case Done => true
  }

  ghost predicate Shape<T>(p: Program<T>, s: State<T>) {
    && p.Valid()
    && |s.pcs| == |p.kinds| && |s.commits| == CELLS && |s.failures| == CELLS
    && p.base.calls in s.counters
    && (forall k :: 0 <= k < CELLS ==> p.base.times[k] in s.accumulators)
  }

  ghost predicate Shared<T>(p: Program<T>, s: State<T>) {
    && Shape(p, s)
    && s.written != []
    && (forall w :: 0 <= w < |s.written| ==> s.written[w] == [p.base])
    && (forall i :: 0 <= i < |s.pcs| ==> PcOk(p, p.kinds[i], s.pcs[i]))
  }

  function Cell<T>(p: Program<T>, s: State<T>, k: nat): Box<T>
    requires Shape(p, s) && k < CELLS
  {
    s.accumulators[p.base.times[k]]
  }

  // The step of one call; a read of an empty stack would end the call.
  function Apply<T>(p: Program<T>, s: State<T>, e: Event): State<T>
    requires Enabled(p, s, e)
  {
    var i := e.call;
    match e
    case Read(_, w) =>
      var st := s.written[w];
      s.(pcs := s.pcs[i := if st == [] then Done
                           else if p.kinds[i].StartSmt? then Incr(st) else Get(st, 0)])
    case Increment(_) =>
      var a := s.pcs[i].stack[0].calls;
      s.(counters := s.counters[a := s.counters[a] + 1], pcs := s.pcs[i := Write(s.pcs[i].stack)])
    case GetCell(_) =>
      var pc := s.pcs[i];
      var old_t := s.accumulators[pc.stack[0].times[pc.cell]];
      var new_t := Box(s.nextBox, p.op(old_t.value, p.kinds[i].deltas[pc.cell]));
      s.(nextBox := s.nextBox + 1, pcs := s.pcs[i := Cas(pc.stack, pc.cell, old_t, new_t)])
    case CompareAndSet(_) =>
      var pc := s.pcs[i];
      var a := pc.stack[0].times[pc.cell];
      if s.accumulators[a].id == pc.old_t.id then
        s.(accumulators := s.accumulators[a := pc.new_t],
           commits := s.commits[pc.cell := s.commits[pc.cell] + [i]],
           pcs := s.pcs[i := if pc.cell + 1 < CELLS then Get(pc.stack, pc.cell + 1) else Write(pc.stack)])
      else
        s.(failures := s.failures[pc.cell := s.failures[pc.cell] + 1],
           pcs := s.pcs[i := Get(pc.stack, pc.cell)])
    case WriteStack(_) =>
      var st := s.pcs[i].stack;
      s.(written := s.written + [[st[0]] + st[1..]], pcs := s.pcs[i := Done])
  }

  // The unsynchronised reads and writes never bring in another record.
  lemma ApplyKeepsShared<T>(p: Program<T>, s: State<T>, e: Event)
    requires Shared(p, s) && Enabled(p, s, e)
    ensures Shared(p, Apply(p, s, e))
  {
    var i := e.call;
    assert PcOk(p, p.kinds[i], s.pcs[i]);
    if e.WriteStack? {
      assert [[p.base][0]] + [p.base][1..] == [p.base];
    }
  }

  lemma InitShared<T>(p: Program<T>)
    requires p.Valid()
    ensures Shared(p, Init(p))
    ensures forall k :: 0 <= k < CELLS ==> Cell(p, Init(p), k) == Box(k, p.zero)
  {
    var s := Init(p);
    forall k | 0 <= k < CELLS
      ensures p.base.times[k] in s.accumulators && s.accumulators[p.base.times[k]] == Box(k, p.zero)
    {
    }
  }

  // ---------- Boxes ----------

  ghost predicate BoxesOk<T>(p: Program<T>, s: State<T>)
    requires Shape(p, s)
  {
    && (forall k :: 0 <= k < CELLS ==> Cell(p, s, k).id < s.nextBox)
    && (forall i :: 0 <= i < |s.pcs| && s.pcs[i].Cas? ==>
          s.pcs[i].old_t.id < s.nextBox && s.pcs[i].new_t.id < s.nextBox)
    && (forall i, k :: 0 <= i < |s.pcs| && s.pcs[i].Cas? && 0 <= k < CELLS ==>
          Cell(p, s, k).id != s.pcs[i].new_t.id)
    && (forall i, j :: 0 <= i < |s.pcs| && 0 <= j < |s.pcs| && s.pcs[i].Cas? && s.pcs[j].Cas? ==>
          s.pcs[i].old_t.id != s.pcs[j].new_t.id && (i != j ==> s.pcs[i].new_t.id != s.pcs[j].new_t.id))
    // The same box holds the same value.
    && (forall i :: 0 <= i < |s.pcs| && s.pcs[i].Cas? && s.pcs[i].cell < CELLS
                    && s.pcs[i].old_t.id == Cell(p, s, s.pcs[i].cell).id ==>
          s.pcs[i].old_t == Cell(p, s, s.pcs[i].cell))
  }

  ghost predicate Commits<T>(p: Program<T>, s: State<T>, e: Event)
    requires Shared(p, s) && Enabled(p, s, e)
  {
    e.CompareAndSet? && PcOk(p, p.kinds[e.call], s.pcs[e.call])
    && Cell(p, s, s.pcs[e.call].cell).id == s.pcs[e.call].old_t.id
  }

  // Only a successful compare-and-set changes a cell, and only its own.
  lemma CellsAfter<T>(p: Program<T>, s: State<T>, e: Event)
    requires Shared(p, s) && Enabled(p, s, e)
    ensures Shared(p, Apply(p, s, e))
    ensures forall k :: 0 <= k < CELLS ==>
              Cell(p, Apply(p, s, e), k) ==
              if Commits(p, s, e) && k == s.pcs[e.call].cell then s.pcs[e.call].new_t else Cell(p, s, k)
  {
    ApplyKeepsShared(p, s, e);
    assert PcOk(p, p.kinds[e.call], s.pcs[e.call]);
  }

  lemma GetKeepsBoxes<T>(p: Program<T>, s: State<T>, e: Event)
    requires Shared(p, s) && BoxesOk(p, s) && Enabled(p, s, e) && e.GetCell?
    ensures Shared(p, Apply(p, s, e)) && BoxesOk(p, Apply(p, s, e))
  {
    CellsAfter(p, s, e);
    assert PcOk(p, p.kinds[e.call], s.pcs[e.call]);
    var s' := Apply(p, s, e);
    var k := s.pcs[e.call].cell;
    assert s'.pcs[e.call].old_t == Cell(p, s, k);
    forall i | 0 <= i < |s.pcs| && i != e.call ensures s'.pcs[i] == s.pcs[i] {
    }
  }

  lemma CasKeepsBoxes<T>(p: Program<T>, s: State<T>, e: Event)
    requires Shared(p, s) && BoxesOk(p, s) && Enabled(p, s, e) && e.CompareAndSet?
    ensures Shared(p, Apply(p, s, e)) && BoxesOk(p, Apply(p, s, e))
  {
    CellsAfter(p, s, e);
    assert PcOk(p, p.kinds[e.call], s.pcs[e.call]);
    var s' := Apply(p, s, e);
    assert !s'.pcs[e.call].Cas?;
    forall i | 0 <= i < |s.pcs| && i != e.call ensures s'.pcs[i] == s.pcs[i] {
    }
  }

  lemma ApplyKeepsBoxes<T>(p: Program<T>, s: State<T>, e: Event)
    requires Shared(p, s) && BoxesOk(p, s) && Enabled(p, s, e)
    ensures Shared(p, Apply(p, s, e)) && BoxesOk(p, Apply(p, s, e))
  {
    if e.GetCell? {
      GetKeepsBoxes(p, s, e);
    } else if e.CompareAndSet? {
      CasKeepsBoxes(p, s, e);
    } else {
      CellsAfter(p, s, e);
      assert !Apply(p, s, e).pcs[e.call].Cas?;
    }
  }

  // ---------- Linearisation ----------

  // A call is past an accumulator when its compare-and-set there has succeeded.
  predicate Past<T>(kind: Kind<T>, pc: Pc<T>, k: nat) {
    kind.FinishSmt? &&
    match pc
    case Ready => false
    case Incr(_) => false
    case Get(_, c) => c > k
    case Cas(_, c, _, _) => c > k
    case Write(_) => true
    case Done => true
  }

  ghost predicate CommitsOk<T>(p: Program<T>, s: State<T>)
    requires Shape(p, s)
  {
    && (forall k, i :: 0 <= k < CELLS && i in s.commits[k] ==> i < |p.kinds|)
    && (forall k, i :: 0 <= k < CELLS && 0 <= i < |s.pcs| ==>
          multiset(s.commits[k])[i] == if Past(p.kinds[i], s.pcs[i], k) then 1 else 0)
  }

  lemma ApplyKeepsCommits<T>(p: Program<T>, s: State<T>, e: Event)
    requires Shared(p, s) && CommitsOk(p, s) && Enabled(p, s, e)
    ensures Shared(p, Apply(p, s, e)) && CommitsOk(p, Apply(p, s, e))
  {
    CellsAfter(p, s, e);
    assert PcOk(p, p.kinds[e.call], s.pcs[e.call]);
  }

  function DeltaOf<T>(p: Program<T>, i: nat, k: nat): T
    requires p.Valid() && k < CELLS
  {
    if i < |p.kinds| && p.kinds[i].FinishSmt? then p.kinds[i].deltas[k] else p.zero
  }

  // The differences of some calls added up in order, in any arithmetic.
  function Fold<T>(p: Program<T>, calls: seq<nat>, k: nat): T
    requires p.Valid() && k < CELLS
  {
    if calls == [] then p.zero
    else p.op(Fold(p, calls[..|calls| - 1], k), DeltaOf(p, calls[|calls| - 1], k))
  }

  ghost predicate ValuesOk<T>(p: Program<T>, s: State<T>)
    requires Shape(p, s)
  {
    && (forall k :: 0 <= k < CELLS ==> Cell(p, s, k).value == Fold(p, s.commits[k], k))
    && (forall i :: 0 <= i < |s.pcs| && s.pcs[i].Cas? && s.pcs[i].cell < CELLS ==>
          s.pcs[i].new_t.value == p.op(s.pcs[i].old_t.value, DeltaOf(p, i, s.pcs[i].cell)))
  }

  lemma ApplyKeepsValues<T>(p: Program<T>, s: State<T>, e: Event)
    requires Shared(p, s) && BoxesOk(p, s) && ValuesOk(p, s) && Enabled(p, s, e)
    ensures Shared(p, Apply(p, s, e)) && ValuesOk(p, Apply(p, s, e))
  {
    CellsAfter(p, s, e);
    var i := e.call;
    assert PcOk(p, p.kinds[i], s.pcs[i]);
    if Commits(p, s, e) {
      var k := s.pcs[i].cell;
      var cs := s.commits[k] + [i];
      assert cs[..|cs| - 1] == s.commits[k];
      assert Fold(p, cs, k) == p.op(Fold(p, s.commits[k], k), DeltaOf(p, i, k));
    }
  }

  // ---------- Counting ----------

  function CountTrue(bs: seq<bool>): nat {
    if bs == [] then 0 else CountTrue(bs[..|bs| - 1]) + (if bs[|bs| - 1] then 1 else 0)
  }

  lemma {:induction false} CountUpdate(bs: seq<bool>, i: nat, b: bool)
    requires i < |bs|
    ensures CountTrue(bs[i := b]) == CountTrue(bs) - (if bs[i] then 1 else 0) + (if b then 1 else 0)
  {
    var n := |bs| - 1;
    if i < n {
      assert bs[i := b][..n] == bs[..n][i := b];
      CountUpdate(bs[..n], i, b);
    } else {
      assert bs[i := b][..n] == bs[..n];
    }
  }

  lemma {:induction false} CountMonotone(bs: seq<bool>, cs: seq<bool>)
    requires |bs| == |cs| && forall i :: 0 <= i < |bs| ==> (bs[i] ==> cs[i])
    ensures CountTrue(bs) <= CountTrue(cs)
  {
    if bs != [] {
      CountMonotone(bs[..|bs| - 1], cs[..|cs| - 1]);
    }
  }

  lemma {:induction false} CountDisjoint(bs: seq<bool>, cs: seq<bool>, all: seq<bool>)
    requires |bs| == |cs| == |all|
    requires forall i :: 0 <= i < |bs| ==> !(bs[i] && cs[i]) && (bs[i] || cs[i] ==> all[i])
    ensures CountTrue(bs) + CountTrue(cs) <= CountTrue(all)
  {
    if bs != [] {
      CountDisjoint(bs[..|bs| - 1], cs[..|cs| - 1], all[..|all| - 1]);
    }
  }

  function Finishers<T>(p: Program<T>): seq<bool> {
    seq(|p.kinds|, i requires 0 <= i < |p.kinds| => p.kinds[i].FinishSmt?)
  }

  function Passed<T>(p: Program<T>, s: State<T>, k: nat): seq<bool>
    requires |s.pcs| == |p.kinds|
  {
    seq(|s.pcs|, i requires 0 <= i < |s.pcs| => Past(p.kinds[i], s.pcs[i], k))
  }

  // Calls about to compare with a box that has been replaced meanwhile.
  predicate IsStale<T>(pc: Pc<T>, k: nat, current: nat) {
    pc.Cas? && pc.cell == k && pc.old_t.id != current
  }

  function Stale<T>(p: Program<T>, s: State<T>, k: nat): seq<bool>
    requires Shape(p, s) && k < CELLS
  {
    seq(|s.pcs|, i requires 0 <= i < |s.pcs| => IsStale(s.pcs[i], k, Cell(p, s, k).id))
  }

  // The sum n-1 + n-2 + ... of c terms.
  function Bound(n: int, c: nat): int {
    if c == 0 then 0 else Bound(n, c - 1) + n - c
  }

  ghost predicate FailuresOk<T>(p: Program<T>, s: State<T>)
    requires Shape(p, s)
  {
    forall k :: 0 <= k < CELLS ==>
      && |s.commits[k]| == CountTrue(Passed(p, s, k))
      && s.failures[k] + CountTrue(Stale(p, s, k)) <= Bound(CountTrue(Finishers(p)), |s.commits[k]|)
  }

  // How one step changes the two counts of accumulator k.
  lemma PassedAfter<T>(p: Program<T>, s: State<T>, e: Event, k: nat)
    requires Shared(p, s) && Enabled(p, s, e) && k < CELLS
    ensures Shared(p, Apply(p, s, e))
    ensures CountTrue(Passed(p, Apply(p, s, e), k))
         == CountTrue(Passed(p, s, k)) + (if Commits(p, s, e) && k == s.pcs[e.call].cell then 1 else 0)
  {
    CellsAfter(p, s, e);
    var i := e.call;
    var s' := Apply(p, s, e);
    assert PcOk(p, p.kinds[i], s.pcs[i]);
    assert Passed(p, s', k) == Passed(p, s, k)[i := Past(p.kinds[i], s'.pcs[i], k)];
    CountUpdate(Passed(p, s, k), i, Past(p.kinds[i], s'.pcs[i], k));
  }

  lemma StaleAfter<T>(p: Program<T>, s: State<T>, e: Event, k: nat)
    requires Shared(p, s) && Enabled(p, s, e) && k < CELLS && !(Commits(p, s, e) && k == s.pcs[e.call].cell)
    ensures Shared(p, Apply(p, s, e))
    ensures Apply(p, s, e).failures[k] + CountTrue(Stale(p, Apply(p, s, e), k))
         == s.failures[k] + CountTrue(Stale(p, s, k))
  {
    CellsAfter(p, s, e);
    var i := e.call;
    var s' := Apply(p, s, e);
    assert PcOk(p, p.kinds[i], s.pcs[i]);
    var b := IsStale(s'.pcs[i], k, Cell(p, s, k).id);
    assert Stale(p, s', k) == Stale(p, s, k)[i := b];
    CountUpdate(Stale(p, s, k), i, b);
  }

  // After a commit only calls that have not passed the accumulator can be stale.
  lemma StaleAfterCommit<T>(p: Program<T>, s: State<T>, e: Event)
    requires Shared(p, s) && Enabled(p, s, e) && Commits(p, s, e)
    ensures Shared(p, Apply(p, s, e))
    ensures var k := s.pcs[e.call].cell;
            CountTrue(Passed(p, Apply(p, s, e), k)) + CountTrue(Stale(p, Apply(p, s, e), k))
            <= CountTrue(Finishers(p))
  {
    CellsAfter(p, s, e);
    var k := s.pcs[e.call].cell;
    var s' := Apply(p, s, e);
    forall i | 0 <= i < |s'.pcs|
      ensures !(Passed(p, s', k)[i] && Stale(p, s', k)[i])
      ensures Passed(p, s', k)[i] || Stale(p, s', k)[i] ==> Finishers(p)[i]
    {
      assert PcOk(p, p.kinds[i], s'.pcs[i]);
    }
    CountDisjoint(Passed(p, s', k), Stale(p, s', k), Finishers(p));
  }

  lemma ApplyKeepsFailures<T>(p: Program<T>, s: State<T>, e: Event)
    requires Shared(p, s) && FailuresOk(p, s) && Enabled(p, s, e)
    ensures Shared(p, Apply(p, s, e)) && FailuresOk(p, Apply(p, s, e))
  {
    ApplyKeepsShared(p, s, e);
    var s' := Apply(p, s, e);
    assert PcOk(p, p.kinds[e.call], s.pcs[e.call]);
    forall k | 0 <= k < CELLS
      ensures |s'.commits[k]| == CountTrue(Passed(p, s', k))
      ensures s'.failures[k] + CountTrue(Stale(p, s', k)) <= Bound(CountTrue(Finishers(p)), |s'.commits[k]|)
    {
      PassedAfter(p, s, e, k);
      if Commits(p, s, e) && k == s.pcs[e.call].cell {
        StaleAfterCommit(p, s, e);
      } else {
        StaleAfter(p, s, e, k);
      }
    }
  }

  lemma {:induction false} BoundClosed(n: nat, c: nat)
    ensures 2 * Bound(n, c) == c * (2 * n - c - 1)
  {
    if c > 0 {
      BoundClosed(n, c - 1);
      assert (c - 1) * (2 * n - c) + 2 * (n - c) == c * (2 * n - c - 1);
    }
  }

  lemma BoundTriangle(n: nat, c: nat)
    requires c <= n
    ensures 2 * Bound(n, c) <= n * (n - 1)
  {
    BoundClosed(n, c);
    ConsecutiveProduct(n - c);
    assert (n - c) * (n - c - 1) == n * (n - 1) - c * (2 * n - c - 1);
  }

  lemma ConsecutiveProduct(m: nat)
    ensures m * (m - 1) >= 0
  {
  }

  // ---------- The counter ----------

  function Incremented<T>(p: Program<T>, s: State<T>): seq<bool>
    requires |s.pcs| == |p.kinds|
  {
    seq(|s.pcs|, i requires 0 <= i < |s.pcs| => p.kinds[i].StartSmt? && (s.pcs[i].Write? || s.pcs[i].Done?))
  }

  ghost predicate CounterOk<T>(p: Program<T>, s: State<T>)
    requires Shape(p, s)
  {
    s.counters[p.base.calls] == CountTrue(Incremented(p, s))
  }

  lemma ApplyKeepsCounter<T>(p: Program<T>, s: State<T>, e: Event)
    requires Shared(p, s) && CounterOk(p, s) && Enabled(p, s, e)
    ensures Shared(p, Apply(p, s, e)) && CounterOk(p, Apply(p, s, e))
  {
    ApplyKeepsShared(p, s, e);
    var i := e.call;
    var s' := Apply(p, s, e);
    assert PcOk(p, p.kinds[i], s.pcs[i]);
    var b := p.kinds[i].StartSmt? && (s'.pcs[i].Write? || s'.pcs[i].Done?);
    assert Incremented(p, s') == Incremented(p, s)[i := b];
    CountUpdate(Incremented(p, s), i, b);
  }

  // ---------- Steps ----------

  // Steps a call still has to take if no compare-and-set fails.
  function StepsLeft<T>(kind: Kind<T>, pc: Pc<T>): int {
    match pc
    case Ready => if kind.StartSmt? then 3 else 2 + 2 * CELLS
    case Incr(_) => 2
    case Get(_, k) => 1 + 2 * (CELLS - k)
    case Cas(_, k, _, _) => 2 * (CELLS - k)
    case Write(_) => 1
    case Done => 0
  }

  function TotalSteps<T>(kinds: seq<Kind<T>>, pcs: seq<Pc<T>>): int
    requires |kinds| == |pcs|
  {
    if pcs == [] then 0
    else TotalSteps(kinds[..|kinds| - 1], pcs[..|pcs| - 1]) + StepsLeft(kinds[|kinds| - 1], pcs[|pcs| - 1])
  }

  lemma {:induction false} TotalUpdate<T>(kinds: seq<Kind<T>>, pcs: seq<Pc<T>>, i: nat, pc: Pc<T>)
    requires |kinds| == |pcs| && i < |pcs|
    ensures TotalSteps(kinds, pcs[i := pc])
         == TotalSteps(kinds, pcs) - StepsLeft(kinds[i], pcs[i]) + StepsLeft(kinds[i], pc)
  {
    var n := |pcs| - 1;
    if i < n {
      assert pcs[i := pc][..n] == pcs[..n][i := pc];
      TotalUpdate(kinds[..n], pcs[..n], i, pc);
    } else {
      assert pcs[i := pc][..n] == pcs[..n];
    }
  }

  function SumOf(xs: seq<nat>): nat {
    if xs == [] then 0 else SumOf(xs[..|xs| - 1]) + xs[|xs| - 1]
  }

  lemma {:induction false} SumUpdate(xs: seq<nat>, i: nat, x: nat)
    requires i < |xs|
    ensures SumOf(xs[i := x]) == SumOf(xs) - xs[i] + x
  {
    var n := |xs| - 1;
    if i < n {
      assert xs[i := x][..n] == xs[..n][i := x];
      SumUpdate(xs[..n], i, x);
    } else {
      assert xs[i := x][..n] == xs[..n];
    }
  }

  lemma CallStep<T>(p: Program<T>, s: State<T>, e: Event)
    requires Shared(p, s) && Enabled(p, s, e)
    ensures var i := e.call;
            var s' := Apply(p, s, e);
            var failed := e.CompareAndSet? && !Commits(p, s, e);
            && s'.pcs == s.pcs[i := s'.pcs[i]]
            && StepsLeft(p.kinds[i], s'.pcs[i]) == StepsLeft(p.kinds[i], s.pcs[i]) - 1 + (if failed then 2 else 0)
            && SumOf(s'.failures) == SumOf(s.failures) + (if failed then 1 else 0)
  {
    var i := e.call;
    assert PcOk(p, p.kinds[i], s.pcs[i]);
    if e.CompareAndSet? && !Commits(p, s, e) {
      var k := s.pcs[i].cell;
      SumUpdate(s.failures, k, s.failures[k] + 1);
    }
  }

  // Every step takes one off what is left, except that a failed compare-and-set adds one.
  lemma StepTaken<T>(p: Program<T>, s: State<T>, e: Event)
    requires Shared(p, s) && Enabled(p, s, e)
    ensures Shared(p, Apply(p, s, e))
    ensures 1 + TotalSteps(p.kinds, Apply(p, s, e).pcs) - 2 * SumOf(Apply(p, s, e).failures)
         == TotalSteps(p.kinds, s.pcs) - 2 * SumOf(s.failures)
  {
    ApplyKeepsShared(p, s, e);
    CallStep(p, s, e);
    TotalUpdate(p.kinds, s.pcs, e.call, Apply(p, s, e).pcs[e.call]);
  }

  // ---------- Whole runs ----------

  ghost predicate IsRun<T>(p: Program<T>, events: seq<Event>)
    requires p.Valid()
    decreases |events|, 0
  {
    events == [] ||
    (IsRun(p, events[..|events| - 1]) && Enabled(p, After(p, events[..|events| - 1]), events[|events| - 1]))
  }

  ghost function After<T>(p: Program<T>, events: seq<Event>): State<T>
    requires p.Valid() && IsRun(p, events)
    decreases |events|, 1
  {
    if events == [] then Init(p)
    else Apply(p, After(p, events[..|events| - 1]), events[|events| - 1])
  }

  ghost predicate Inv<T>(p: Program<T>, s: State<T>) {
    Shared(p, s) && BoxesOk(p, s) && CommitsOk(p, s) && ValuesOk(p, s) && FailuresOk(p, s) && CounterOk(p, s)
  }

  lemma {:induction false} AllFalse(bs: seq<bool>)
    requires forall i :: 0 <= i < |bs| ==> !bs[i]
    ensures CountTrue(bs) == 0
  {
    if bs != [] {
      AllFalse(bs[..|bs| - 1]);
    }
  }

  lemma InitInv<T>(p: Program<T>)
    requires p.Valid()
    ensures Inv(p, Init(p))
  {
    InitShared(p);
    var s := Init(p);
    forall k | 0 <= k < CELLS
      ensures CountTrue(Passed(p, s, k)) == 0 && CountTrue(Stale(p, s, k)) == 0
    {
      AllFalse(Passed(p, s, k));
      AllFalse(Stale(p, s, k));
    }
    AllFalse(Incremented(p, s));
  }

  lemma {:induction false} RunKeepsInv<T>(p: Program<T>, events: seq<Event>)
    requires p.Valid() && IsRun(p, events)
    ensures Inv(p, After(p, events))
    decreases |events|
  {
    if events == [] {
      InitInv(p);
    } else {
      var s, e := After(p, events[..|events| - 1]), events[|events| - 1];
      RunKeepsInv(p, events[..|events| - 1]);
      ApplyKeepsBoxes(p, s, e);
      ApplyKeepsCommits(p, s, e);
      ApplyKeepsValues(p, s, e);
      ApplyKeepsFailures(p, s, e);
      ApplyKeepsCounter(p, s, e);
    }
  }

  // In every interleaving, each accumulator is the fold of the committed
  // differences in commit order, whatever the addition; a completed finish_smt
  // has contributed exactly once to each of the five accumulators, and no call
  // more than once.
  lemma Linearises<T>(p: Program<T>, events: seq<Event>, k: nat)
    requires p.Valid() && IsRun(p, events) && k < CELLS
    ensures var s := After(p, events);
            && Shape(p, s)
            && Cell(p, s, k).value == Fold(p, s.commits[k], k)
            && (forall i :: 0 <= i < |p.kinds| ==> multiset(s.commits[k])[i] <= 1)
            && (forall i :: i in s.commits[k] ==> i < |p.kinds| && p.kinds[i].FinishSmt?)
            && (forall i :: 0 <= i < |p.kinds| && p.kinds[i].FinishSmt? && s.pcs[i].Done? ==>
                  multiset(s.commits[k])[i] == 1)
  {
    RunKeepsInv(p, events);
    CommittedOnce(p, After(p, events), k);
  }

  lemma CommittedOnce<T>(p: Program<T>, s: State<T>, k: nat)
    requires Shared(p, s) && CommitsOk(p, s) && k < CELLS
    ensures forall i :: 0 <= i < |p.kinds| ==> multiset(s.commits[k])[i] <= 1
    ensures forall i :: i in s.commits[k] ==> i < |p.kinds| && p.kinds[i].FinishSmt?
    ensures forall i :: 0 <= i < |p.kinds| && p.kinds[i].FinishSmt? && s.pcs[i].Done? ==>
              multiset(s.commits[k])[i] == 1
  {
    forall i | 0 <= i < |p.kinds|
      ensures multiset(s.commits[k])[i] == if Past(p.kinds[i], s.pcs[i], k) then 1 else 0
    {
    }
    forall i | i in s.commits[k] ensures i < |p.kinds| && p.kinds[i].FinishSmt? {
      assert multiset(s.commits[k])[i] >= 1;
    }
  }

  // A call that commits adds its own difference for that accumulator to the value
  // there, and is recorded as the last one; the other accumulators do not change.
  lemma CommitAdds<T>(p: Program<T>, events: seq<Event>, i: nat, k: nat)
    requires p.Valid() && IsRun(p, events) && Enabled(p, After(p, events), CompareAndSet(i)) && k < CELLS
    ensures var s, s' := After(p, events), Apply(p, After(p, events), CompareAndSet(i));
            && Shape(p, s) && Shape(p, s') && p.kinds[i].FinishSmt?
            && (if k == s.pcs[i].cell && Cell(p, s, k).id == s.pcs[i].old_t.id then
                  && Cell(p, s', k).value == p.op(Cell(p, s, k).value, p.kinds[i].deltas[k])
                  && s'.commits[k] == s.commits[k] + [i]
                else
                  Cell(p, s', k) == Cell(p, s, k) && s'.commits[k] == s.commits[k])
  {
    RunKeepsInv(p, events);
    CommitAddsTo(p, After(p, events), i, k);
  }

  lemma CommitAddsTo<T>(p: Program<T>, s: State<T>, i: nat, k: nat)
    requires Inv(p, s) && Enabled(p, s, CompareAndSet(i)) && k < CELLS
    ensures var s' := Apply(p, s, CompareAndSet(i));
            && Shape(p, s') && p.kinds[i].FinishSmt?
            && (if k == s.pcs[i].cell && Cell(p, s, k).id == s.pcs[i].old_t.id then
                  && Cell(p, s', k).value == p.op(Cell(p, s, k).value, p.kinds[i].deltas[k])
                  && s'.commits[k] == s.commits[k] + [i]
                else
                  Cell(p, s', k) == Cell(p, s, k) && s'.commits[k] == s.commits[k])
  {
    assert PcOk(p, p.kinds[i], s.pcs[i]);
    CellsAfter(p, s, CompareAndSet(i));
  }

  // A completed call has contributed to each of the five accumulators.
  lemma ContributesToAllFive<T>(p: Program<T>, events: seq<Event>, i: nat)
    requires p.Valid() && IsRun(p, events) && i < |p.kinds| && p.kinds[i].FinishSmt?
    requires i < |After(p, events).pcs| && After(p, events).pcs[i].Done?
    ensures |p.base.times| == 5 && |p.kinds[i].deltas| == 5 && |After(p, events).commits| == 5
    ensures forall k :: 0 <= k < 5 ==> multiset(After(p, events).commits[k])[i] == 1
  {
    RunKeepsInv(p, events);
    forall k | 0 <= k < 5 ensures multiset(After(p, events).commits[k])[i] == 1 {
      Linearises(p, events, k);
    }
  }

  // Commits are only ever added at the end.
  lemma {:induction false} CommitsExtend<T>(p: Program<T>, events: seq<Event>, m: nat, k: nat)
    requires p.Valid() && IsRun(p, events) && m <= |events| && k < CELLS
    ensures IsRun(p, events[..m])
    ensures |After(p, events[..m]).commits| == |After(p, events).commits| == CELLS
    ensures After(p, events[..m]).commits[k] <= After(p, events).commits[k]
    decreases |events|
  {
    RunKeepsInv(p, events);
    if m == |events| {
      assert events[..m] == events;
    } else {
      var init := events[..|events| - 1];
      assert init[..m] == events[..m];
      CommitsExtend(p, init, m, k);
      RunKeepsInv(p, init);
      CommitAppends(p, After(p, init), events[|events| - 1], k);
    }
  }

  lemma CommitAppends<T>(p: Program<T>, s: State<T>, e: Event, k: nat)
    requires Shared(p, s) && Enabled(p, s, e) && k < CELLS
    ensures |Apply(p, s, e).commits| == CELLS && s.commits[k] <= Apply(p, s, e).commits[k]
  {
    assert PcOk(p, p.kinds[e.call], s.pcs[e.call]);
  }

  // The commit order respects real time: a call completed before another has read
  // the stack comes before it in the fold of every accumulator.
  lemma CompletedCallsComeFirst<T>(p: Program<T>, events: seq<Event>, m: nat, k: nat, a: nat, b: nat)
    requires p.Valid() && IsRun(p, events) && m <= |events| && k < CELLS
    requires IsRun(p, events[..m]) && Shape(p, After(p, events)) && Shape(p, After(p, events[..m]))
    requires a < |After(p, events).commits[k]| && b < |After(p, events).commits[k]|
    requires var s := After(p, events[..m]);
             var cs := After(p, events).commits[k];
             && cs[a] < |s.pcs| && s.pcs[cs[a]].Done?
             && cs[b] < |s.pcs| && s.pcs[cs[b]].Ready?
    ensures a < b
  {
    CommitsExtend(p, events, m, k);
    RunKeepsInv(p, events);
    RunKeepsInv(p, events[..m]);
    CommittedOnce(p, After(p, events), k);
    OrderedByPrefix(p, After(p, events[..m]), After(p, events).commits[k], k, a, b);
  }

  lemma OrderedByPrefix<T>(p: Program<T>, s: State<T>, cs: seq<nat>, k: nat, a: nat, b: nat)
    requires Shared(p, s) && CommitsOk(p, s) && k < CELLS && s.commits[k] <= cs
    requires a < |cs| && b < |cs| && cs[a] < |s.pcs| && cs[b] < |s.pcs|
    requires s.pcs[cs[a]].Done? && s.pcs[cs[b]].Ready? && p.kinds[cs[a]].FinishSmt?
    requires multiset(cs)[cs[a]] <= 1
    ensures a < b
  {
    var early := s.commits[k];
    assert multiset(early)[cs[a]] == 1 && multiset(early)[cs[b]] == 0;
    assert cs[a] in early && cs[b] !in early;
    assert forall i :: 0 <= i < |early| ==> cs[i] == early[i] && cs[i] in early;
    var i :| 0 <= i < |early| && early[i] == cs[a];
    OnlyOnce(cs, a, i);
  }

  lemma OnlyOnce(cs: seq<nat>, a: nat, i: nat)
    requires a < |cs| && i < |cs| && cs[a] == cs[i] && multiset(cs)[cs[a]] <= 1
    ensures a == i
  {
    if a < i {
      CountedTwice(cs, a, i);
    } else if i < a {
      CountedTwice(cs, i, a);
    }
  }

  lemma CountedTwice(cs: seq<nat>, i: nat, j: nat)
    requires i < j < |cs| && cs[i] == cs[j]
    ensures multiset(cs)[cs[i]] >= 2
  {
    assert cs == cs[..j] + cs[j..];
    assert cs[..j][i] == cs[i] && cs[j..][0] == cs[i];
    assert multiset(cs) == multiset(cs[..j]) + multiset(cs[j..]);
  }

  // The unsynchronised profile_stack is harmless: every value ever assigned to it
  // since start is the same single record, every call that has read it works on
  // that record's cells, and the counter is the number of increments performed.
  lemma StackRaceHarmless<T>(p: Program<T>, events: seq<Event>)
    requires p.Valid() && IsRun(p, events)
    ensures var s := After(p, events);
            && Shape(p, s)
            && (forall w :: 0 <= w < |s.written| ==> s.written[w] == [p.base])
            && (forall i :: 0 <= i < |s.pcs| && !s.pcs[i].Ready? && !s.pcs[i].Done? ==> s.pcs[i].stack == [p.base])
            && s.counters[p.base.calls] == CountTrue(Incremented(p, s))
  {
    RunKeepsInv(p, events);
    var s := After(p, events);
    forall i | 0 <= i < |s.pcs| && !s.pcs[i].Ready? && !s.pcs[i].Done? ensures s.pcs[i].stack == [p.base] {
      assert PcOk(p, p.kinds[i], s.pcs[i]);
    }
  }

  // With n calls of finish_smt, at most n(n-1)/2 compare-and-sets fail on each
  // accumulator, at every moment of every interleaving.
  lemma FailuresBounded<T>(p: Program<T>, events: seq<Event>, k: nat)
    requires p.Valid() && IsRun(p, events) && k < CELLS
    ensures var s := After(p, events);
            var n := CountTrue(Finishers(p));
            Shape(p, s) && |s.commits[k]| <= n && 2 * s.failures[k] <= n * (n - 1)
  {
    RunKeepsInv(p, events);
    StateBounded(p, After(p, events), k);
  }

  lemma StateBounded<T>(p: Program<T>, s: State<T>, k: nat)
    requires Inv(p, s) && k < CELLS
    ensures var n := CountTrue(Finishers(p));
            Shape(p, s) && |s.commits[k]| <= n && 2 * s.failures[k] <= n * (n - 1)
  {
    assert |s.commits[k]| == CountTrue(Passed(p, s, k));
    CountMonotone(Passed(p, s, k), Finishers(p));
    BoundTriangle(CountTrue(Finishers(p)), |s.commits[k]|);
  }

  lemma {:induction false} StepsAccounted<T>(p: Program<T>, events: seq<Event>)
    requires p.Valid() && IsRun(p, events)
    ensures Shape(p, After(p, events))
    ensures |events| + TotalSteps(p.kinds, After(p, events).pcs)
         == TotalSteps(p.kinds, Init(p).pcs) + 2 * SumOf(After(p, events).failures)
    decreases |events|
  {
    if events == [] {
      InitInv(p);
      SumZero(CELLS);
    } else {
      var init := events[..|events| - 1];
      StepsAccounted(p, init);
      RunKeepsInv(p, init);
      StepTaken(p, After(p, init), events[|events| - 1]);
    }
  }

  lemma {:induction false} SumZero(n: nat)
    ensures SumOf(seq(n, _ => 0)) == 0
  {
    if n > 0 {
      SumZero(n - 1);
      assert seq<nat>(n, _ => 0)[..n - 1] == seq<nat>(n - 1, _ => 0);
    }
  }

  lemma {:induction false} TotalStepsAtStart<T>(kinds: seq<Kind<T>>, pcs: seq<Pc<T>>, fs: seq<bool>)
    requires |kinds| == |pcs| == |fs|
    requires forall i :: 0 <= i < |pcs| ==> pcs[i].Ready? && fs[i] == kinds[i].FinishSmt?
    ensures TotalSteps(kinds, pcs) == 12 * CountTrue(fs) + 3 * (|kinds| - CountTrue(fs))
  {
    if pcs != [] {
      var n := |pcs| - 1;
      TotalStepsAtStart(kinds[..n], pcs[..n], fs[..n]);
    }
  }

  lemma {:induction false} TotalStepsNonNegative<T>(p: Program<T>, kinds: seq<Kind<T>>, pcs: seq<Pc<T>>)
    requires |kinds| == |pcs| && forall i :: 0 <= i < |pcs| ==> PcOk(p, kinds[i], pcs[i])
    ensures TotalSteps(kinds, pcs) >= 0
  {
    if pcs != [] {
      TotalStepsNonNegative(p, kinds[..|kinds| - 1], pcs[..|pcs| - 1]);
      assert PcOk(p, kinds[|kinds| - 1], pcs[|pcs| - 1]);
    }
  }

  lemma {:induction false} SumBelow(xs: seq<nat>, b: int)
    requires forall i :: 0 <= i < |xs| ==> 2 * xs[i] <= b
    ensures 2 * SumOf(xs) <= |xs| * b
  {
    if xs != [] {
      SumBelow(xs[..|xs| - 1], b);
      assert |xs| * b == (|xs| - 1) * b + b;
    }
  }

  // All retry loops end: with n calls of finish_smt and m of start_smt no run has
  // more than 12 n + 3 m + 5 n (n - 1) steps, and as long as some call is not
  // done, that call can take a step.
  lemma RunsAreBounded<T>(p: Program<T>, events: seq<Event>)
    requires p.Valid() && IsRun(p, events)
    ensures var n := CountTrue(Finishers(p));
            |events| <= 12 * n + 3 * (|p.kinds| - n) + 5 * (n * (n - 1))
  {
    var n: int := CountTrue(Finishers(p));
    var s := After(p, events);
    StepsAccounted(p, events);
    RunKeepsInv(p, events);
    TotalStepsAtStart(p.kinds, Init(p).pcs, Finishers(p));
    TotalStepsNonNegative(p, p.kinds, s.pcs);
    TotalFailures(p, events);
  }

  // Over all five accumulators together.
  lemma TotalFailures<T>(p: Program<T>, events: seq<Event>)
    requires p.Valid() && IsRun(p, events)
    ensures var n := CountTrue(Finishers(p));
            2 * SumOf(After(p, events).failures) <= 5 * (n * (n - 1))
  {
    RunKeepsInv(p, events);
    StateTotal(p, After(p, events));
  }

  lemma StateTotal<T>(p: Program<T>, s: State<T>)
    requires Inv(p, s)
    ensures var n := CountTrue(Finishers(p));
            2 * SumOf(s.failures) <= 5 * (n * (n - 1))
  {
    var n: int := CountTrue(Finishers(p));
    forall k | 0 <= k < |s.failures| ensures 2 * s.failures[k] <= n * (n - 1) {
      StateBounded(p, s, k);
    }
    SumBelow(s.failures, n * (n - 1));
  }

  // A call may read any value written since start, however old.
  lemma AnyValueMayBeRead<T>(p: Program<T>, events: seq<Event>, i: nat, w: nat)
    requires p.Valid() && IsRun(p, events) && i < |p.kinds|
    requires i < |After(p, events).pcs| && After(p, events).pcs[i].Ready? && w < |After(p, events).written|
    ensures IsRun(p, events + [Read(i, w)])
  {
    assert (events + [Read(i, w)])[..|events|] == events;
  }

  lemma UnfinishedCanStep<T>(p: Program<T>, events: seq<Event>, i: nat) returns (e: Event)
    requires p.Valid() && IsRun(p, events)
    requires i < |After(p, events).pcs| && !After(p, events).pcs[i].Done?
    ensures e.call == i && Enabled(p, After(p, events), e)
    ensures IsRun(p, events + [e])
  {
    RunKeepsInv(p, events);
    e := NextStep(p, After(p, events), i);
    assert (events + [e])[..|events|] == events;
  }

  lemma NextStep<T>(p: Program<T>, s: State<T>, i: nat) returns (e: Event)
    requires Inv(p, s) && i < |s.pcs| && !s.pcs[i].Done?
    ensures e.call == i && Enabled(p, s, e)
  {
    assert PcOk(p, p.kinds[i], s.pcs[i]);
    e := match s.pcs[i]
      case Ready => Read(i, 0)
      case Incr(_) => Increment(i)
      case Get(_, _) => GetCell(i)
      case Cas(_, _, _, _) => CompareAndSet(i)
      case Write(_) => WriteStack(i);
  }
}
