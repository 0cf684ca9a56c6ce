// The bound on failed compare-and-sets in bin/profile.ml is exact: calls of
// finish_smt that all read an accumulator before any of them commits, and all
// retry after each commit, fail as often as the bound allows.
module Contention {
  import opened Profile

  // Only calls of finish_smt.
  ghost predicate Contending<T>(p: Program<T>) {
    p.Valid() && forall i :: 0 <= i < |p.kinds| ==> p.kinds[i].FinishSmt?
  }

  // Where a call stands when it is past accumulator k.
  function NextPc<T>(p: Program<T>, k: nat): Pc<T> {
    if k + 1 < CELLS then Get([p.base], k + 1) else Write([p.base])
  }

  // A call about to compare accumulator k with a box that is, or is not, current.
  ghost predicate AtCas<T>(p: Program<T>, s: State<T>, k: nat, pc: Pc<T>, current: bool)
    requires Shape(p, s) && k < CELLS
  {
    pc.Cas? && pc.stack == [p.base] && pc.cell == k && (pc.old_t.id == Cell(p, s, k).id <==> current)
  }

  // Calls below done are past accumulator k; those below ready hold its current box;
  // the others hold an outdated one or have not read it.
  ghost predicate Round<T>(p: Program<T>, s: State<T>, k: nat, done: nat, ready: nat, outdated: bool) {
    && Shared(p, s) && k < CELLS && done <= ready <= |s.pcs|
    && (forall i :: 0 <= i < done ==> s.pcs[i] == NextPc(p, k))
    && (forall i :: done <= i < ready ==> AtCas(p, s, k, s.pcs[i], true))
    && (forall i :: ready <= i < |s.pcs| ==>
          if outdated then AtCas(p, s, k, s.pcs[i], false) else s.pcs[i] == Get([p.base], k))
  }

  // ---------- Single steps ----------

  lemma GetOne<T>(p: Program<T>, s: State<T>, k: nat, done: nat, m: nat)
    requires Contending(p) && Round(p, s, k, done, m, false) && m < |s.pcs|
    ensures Enabled(p, s, GetCell(m))
    ensures var s' := Apply(p, s, GetCell(m));
            Round(p, s', k, done, m + 1, false) && s'.failures == s.failures
  {
    CellsAfter(p, s, GetCell(m));
  }

  // One call commits, so that all others hold an outdated box.
  lemma CommitOne<T>(p: Program<T>, s: State<T>, k: nat, j: nat)
    requires Contending(p) && Inv(p, s) && Round(p, s, k, j, |s.pcs|, false) && j < |s.pcs|
    ensures Enabled(p, s, CompareAndSet(j))
    ensures var s' := Apply(p, s, CompareAndSet(j));
            Round(p, s', k, j + 1, j + 1, true) && s'.failures == s.failures
  {
    var e := CompareAndSet(j);
    assert AtCas(p, s, k, s.pcs[j], true);
    assert Enabled(p, s, e) && Commits(p, s, e);
    CellsAfter(p, s, e);
    var s' := Apply(p, s, e);
    forall i | j < i < |s.pcs| ensures AtCas(p, s', k, s'.pcs[i], false) {
      assert AtCas(p, s, k, s.pcs[i], true);
    }
  }

  // A call with an outdated box fails and reads again.
  lemma FailOne<T>(p: Program<T>, s: State<T>, k: nat, done: nat, m: nat)
    requires Contending(p) && Round(p, s, k, done, m, true) && m < |s.pcs|
    ensures Enabled(p, s, CompareAndSet(m))
    ensures var s1 := Apply(p, s, CompareAndSet(m));
            && Enabled(p, s1, GetCell(m))
            && Round(p, Apply(p, s1, GetCell(m)), k, done, m + 1, true)
            && Apply(p, s1, GetCell(m)).failures == s.failures[k := s.failures[k] + 1]
  {
    assert AtCas(p, s, k, s.pcs[m], false);
    CellsAfter(p, s, CompareAndSet(m));
    var s1 := Apply(p, s, CompareAndSet(m));
    assert s1.pcs[m] == Get([p.base], k);
    CellsAfter(p, s1, GetCell(m));
  }

  // ---------- One accumulator ----------

  // From before to after, accumulator k has f more failures, and no other has any.
  ghost predicate FailedBy(before: seq<nat>, after: seq<nat>, k: nat, f: int) {
    k < |before| && before[k] + f >= 0 && after == before[k := before[k] + f]
  }

  lemma FailedAgain(before: seq<nat>, between: seq<nat>, after: seq<nat>, k: nat, f: int, g: int)
    requires FailedBy(before, between, k, f) && FailedBy(between, after, k, g)
    ensures FailedBy(before, after, k, f + g)
  {
  }

  // events is a run that ends in s.
  ghost predicate Reaches<T>(p: Program<T>, events: seq<Event>, s: State<T>) {
    p.Valid() && IsRun(p, events) && s == After(p, events)
  }

  lemma Extend<T>(p: Program<T>, events: seq<Event>, s: State<T>, e: Event) returns (events': seq<Event>, s': State<T>)
    requires Reaches(p, events, s) && Enabled(p, s, e)
    ensures Reaches(p, events', s') && s' == Apply(p, s, e)
  {
    events', s' := events + [e], Apply(p, s, e);
    assert events'[..|events'| - 1] == events;
  }

  lemma ExtendByGet<T>(p: Program<T>, events: seq<Event>, s: State<T>, k: nat, m: nat)
    returns (events': seq<Event>, s': State<T>)
    requires Contending(p) && Reaches(p, events, s) && Round(p, s, k, 0, m, false) && m < |s.pcs|
    ensures Reaches(p, events', s') && Round(p, s', k, 0, m + 1, false) && s'.failures == s.failures
  {
    GetOne(p, s, k, 0, m);
    events', s' := Extend(p, events, s, GetCell(m));
  }

  lemma ExtendByCommit<T>(p: Program<T>, events: seq<Event>, s: State<T>, k: nat, j: nat)
    returns (events': seq<Event>, s': State<T>)
    requires Contending(p) && Reaches(p, events, s) && Round(p, s, k, j, |s.pcs|, false) && j < |s.pcs|
    ensures Reaches(p, events', s') && Round(p, s', k, j + 1, j + 1, true) && s'.failures == s.failures
  {
    RunKeepsInv(p, events);
    CommitOne(p, s, k, j);
    events', s' := Extend(p, events, s, CompareAndSet(j));
  }

  lemma ExtendByRetry<T>(p: Program<T>, events: seq<Event>, s: State<T>, k: nat, done: nat, m: nat)
    returns (events': seq<Event>, s': State<T>)
    requires Contending(p) && Reaches(p, events, s) && Round(p, s, k, done, m, true) && m < |s.pcs|
    ensures Reaches(p, events', s') && Round(p, s', k, done, m + 1, true)
    ensures FailedBy(s.failures, s'.failures, k, 1)
  {
    FailOne(p, s, k, done, m);
    var events1, s1 := Extend(p, events, s, CompareAndSet(m));
    events', s' := Extend(p, events1, s1, GetCell(m));
  }

  // All calls read accumulator k.
  lemma AllGet<T>(p: Program<T>, events: seq<Event>, s: State<T>, k: nat) returns (events': seq<Event>, s': State<T>)
    requires Contending(p) && Reaches(p, events, s) && Round(p, s, k, 0, 0, false)
    ensures Reaches(p, events', s') && Round(p, s', k, 0, |s'.pcs|, false) && s'.failures == s.failures
  {
    events', s' := events, s;
    for m := 0 to |p.kinds|
      invariant Reaches(p, events', s') && Round(p, s', k, 0, m, false) && s'.failures == s.failures
    {
      events', s' := ExtendByGet(p, events', s', k, m);
    }
  }

  // All calls that hold an outdated box fail once.
  lemma AllRetry<T>(p: Program<T>, events: seq<Event>, s: State<T>, k: nat, done: nat)
    returns (events': seq<Event>, s': State<T>)
    requires Contending(p) && Reaches(p, events, s) && Round(p, s, k, done, done, true)
    ensures Reaches(p, events', s') && Round(p, s', k, done, |s'.pcs|, false)
    ensures FailedBy(s.failures, s'.failures, k, |p.kinds| - done)
  {
    events', s' := events, s;
    for m := done to |p.kinds|
      invariant Reaches(p, events', s') && Round(p, s', k, done, m, true)
      invariant FailedBy(s.failures, s'.failures, k, m - done)
    {
      var before := s'.failures;
      events', s' := ExtendByRetry(p, events', s', k, done, m);
      FailedAgain(s.failures, before, s'.failures, k, m - done, 1);
    }
  }

  // The run has reached s after j rounds, which made f failures since start.
  ghost predicate RoundsDone<T>(p: Program<T>, start: seq<nat>, events: seq<Event>, s: State<T>, k: nat, j: nat,
                                f: int) {
    && Reaches(p, events, s) && Round(p, s, k, j, |s.pcs|, false)
    && FailedBy(start, s.failures, k, f) && f == Bound(|p.kinds|, j)
  }

  // Call j commits, and all later ones fail once.
  lemma OneRound<T>(p: Program<T>, start: seq<nat>, events: seq<Event>, s: State<T>, k: nat, j: nat, f: int)
    returns (events': seq<Event>, s': State<T>, f': int)
    requires Contending(p) && RoundsDone(p, start, events, s, k, j, f) && j < |p.kinds|
    ensures RoundsDone(p, start, events', s', k, j + 1, f')
  {
    var events1, s1 := ExtendByCommit(p, events, s, k, j);
    events', s' := AllRetry(p, events1, s1, k, j + 1);
    f' := f + |p.kinds| - (j + 1);
    FailedAgain(start, s.failures, s'.failures, k, f, |p.kinds| - (j + 1));
  }

  // n calls make n(n-1)/2 failures on accumulator k and none on the others.
  lemma AllRounds<T>(p: Program<T>, events: seq<Event>, s: State<T>, k: nat)
    returns (events': seq<Event>, s': State<T>, f: int)
    requires Contending(p) && Reaches(p, events, s) && Round(p, s, k, 0, 0, false)
    ensures RoundsDone(p, s.failures, events', s', k, |p.kinds|, f)
  {
    events', s' := AllGet(p, events, s, k);
    f := 0;
    for j := 0 to |p.kinds|
      invariant RoundsDone(p, s.failures, events', s', k, j, f)
    {
      events', s', f := OneRound(p, s.failures, events', s', k, j, f);
    }
  }

  // ---------- All accumulators ----------

  // Calls below m have read the stack.
  ghost predicate ReadUpTo<T>(p: Program<T>, s: State<T>, m: nat) {
    && Shared(p, s) && m <= |s.pcs|
    && (forall i :: 0 <= i < m ==> s.pcs[i] == Get([p.base], 0))
    && (forall i :: m <= i < |s.pcs| ==> s.pcs[i] == Ready)
  }

  lemma ReadOne<T>(p: Program<T>, s: State<T>, m: nat)
    requires Contending(p) && ReadUpTo(p, s, m) && m < |s.pcs|
    ensures Enabled(p, s, Read(m, 0))
    ensures ReadUpTo(p, Apply(p, s, Read(m, 0)), m + 1) && Apply(p, s, Read(m, 0)).failures == s.failures
  {
    ApplyKeepsShared(p, s, Read(m, 0));
  }

  lemma AllRead<T>(p: Program<T>) returns (events: seq<Event>, s: State<T>)
    requires Contending(p)
    ensures Reaches(p, events, s) && Round(p, s, 0, 0, 0, false) && s.failures == seq(CELLS, _ => 0)
  {
    InitShared(p);
    events, s := [], Init(p);
    for m := 0 to |p.kinds|
      invariant Reaches(p, events, s) && ReadUpTo(p, s, m) && s.failures == seq(CELLS, _ => 0)
    {
      ReadOne(p, s, m);
      events, s := Extend(p, events, s, Read(m, 0));
    }
  }

  // Accumulators below k have f failures each, the others none.
  ghost predicate FailuresUpTo(fs: seq<nat>, k: nat, f: nat) {
    && |fs| == CELLS
    && (forall c :: 0 <= c < CELLS ==> fs[c] == if c < k then f else 0)
  }

  // The bound is attained on every accumulator at once: some run of n calls of
  // finish_smt has n(n-1)/2 failures on each.
  lemma BoundAttained<T>(p: Program<T>) returns (events: seq<Event>)
    requires Contending(p)
    ensures IsRun(p, events)
    ensures var n := |p.kinds|;
            && CountTrue(Finishers(p)) == n
            && |After(p, events).failures| == CELLS
            && forall k :: 0 <= k < CELLS ==> 2 * After(p, events).failures[k] == n * (n - 1)
  {
    var s;
    events, s := AllRead(p);
    BoundClosed(|p.kinds|, |p.kinds|);
    ghost var total := Bound(|p.kinds|, |p.kinds|);
    ConsecutiveProduct(|p.kinds|);
    assert total >= 0;
    for k := 0 to CELLS
      invariant Reaches(p, events, s) && FailuresUpTo(s.failures, k, total)
      invariant k < CELLS ==> Round(p, s, k, 0, 0, false)
    {
      var f;
      events, s, f := AllRounds(p, events, s, k);
    }
    AllTrue(Finishers(p));
  }

  lemma {:induction false} AllTrue(bs: seq<bool>)
    requires forall i :: 0 <= i < |bs| ==> bs[i]
    ensures CountTrue(bs) == |bs|
  {
    if bs != [] {
      AllTrue(bs[..|bs| - 1]);
    }
  }
}
