// When rebindings share `replaced` cells: exactly which saved bindings can point
// where in some run, and exactly when they always point to older rebindings.
module SharedCells {
  import opened Common
  import opened Rebindings
  import opened Precedence
  import opened SavedOriginals

  ghost predicate DistinctInLog(log: seq<Batch>) {
    forall p, q :: ValidPosition(log, p) && ValidPosition(log, q) && p != q ==>
      At(log, p).replacement != At(log, q).replacement
  }

  // A run that hands over exactly these batches, in disjoint memory, with
  // replacements told apart from what images were loaded with.
  ghost predicate ProperRun(events: seq<Event>, protects: nat -> bool, log: seq<Batch>) {
    var s := Run(events, protects);
    s.log == log && Layout(s.images, s.log) && DistinctReplacements(TrailOf(s))
  }

  ghost predicate PointsIn(events: seq<Event>, protects: nat -> bool, log: seq<Batch>, p: Position, q: Position) {
    ProperRun(events, protects, log) && Next(TrailOf(Run(events, protects)), p, q)
  }

  // ---------- One slot through a sequence of calls ----------

  function Calls(log: seq<Batch>): seq<Event> {
    if log == [] then [] else Calls(log[..|log| - 1]) + [Rebind(log[|log| - 1])]
  }

  // The words after each batch in turn has been handed over, for one slot.
  function Sweeps(log: seq<Batch>, protects: nat -> bool, slot: Slot, w: World): World {
    if log == [] then w
    else SlotStep(log, protects, Sweeps(log[..|log| - 1], protects, slot, w), slot)
  }

  lemma OneSlotPass(log: seq<Batch>, protects: nat -> bool, w: World, slot: Slot)
    ensures Pass(log, protects, w, [slot]) == SlotStep(log, protects, w, slot)
  {
    assert [slot][..0] == [];
    assert Pass(log, protects, w, []) == w;
  }

  lemma {:induction false} RunIsSweeps(img: Image, slot: Slot, log: seq<Batch>, protects: nat -> bool)
    returns (s: State)
    requires TargetSlots(img) == [slot]
    ensures s == Run([Load(img)] + Calls(log), protects)
    ensures s.log == log && s.images == [img] && s.world == Sweeps(log, protects, slot, World(img.initial, 0))
  {
    if log == [] {
      s := LoadOne(img, protects);
    } else {
      var init, batch := log[..|log| - 1], log[|log| - 1];
      var s1 := RunIsSweeps(img, slot, init, protects);
      s := SweepOneImage(img, slot, s1, batch, protects);
      Unsnoc(log);
      LastSweep(log, protects, slot, World(img.initial, 0), s1.world);
      LastCall([Load(img)], log, protects, s1);
    }
  }

  lemma LoadOne(img: Image, protects: nat -> bool) returns (s: State)
    ensures s == Run([Load(img)] + Calls([]), protects)
    ensures s.log == [] && s.images == [img] && s.world == World(img.initial, 0)
  {
    assert [Load(img)] + Calls([]) == [Load(img)] == [] + [Load(img)];
    EventSnoc([], Load(img));
    assert map[] + img.initial == img.initial;
    s := Step(Initial, Load(img), protects);
  }

  lemma LastSweep(log: seq<Batch>, protects: nat -> bool, slot: Slot, start: World, w: World)
    requires log != [] && w == Sweeps(log[..|log| - 1], protects, slot, start)
    ensures Sweeps(log, protects, slot, start) == SlotStep(log, protects, w, slot)
  {
  }

  lemma LastCall(before: seq<Event>, log: seq<Batch>, protects: nat -> bool, s: State)
    requires log != [] && s == Run(before + Calls(log[..|log| - 1]), protects)
    ensures Run(before + Calls(log), protects) == Step(s, Rebind(log[|log| - 1]), protects)
  {
    var init, last := Calls(log[..|log| - 1]), Rebind(log[|log| - 1]);
    EventSnoc(before + init, last);
    Assoc(before, init, [last]);
  }

  lemma SweepOneImage(img: Image, slot: Slot, s: State, batch: Batch, protects: nat -> bool) returns (s': State)
    requires s.images == [img] && TargetSlots(img) == [slot]
    ensures s' == Step(s, Rebind(batch), protects) && s'.log == s.log + [batch] && s'.images == [img]
    ensures s'.world == SlotStep(s.log + [batch], protects, s.world, slot)
  {
    assert [img][..0] == [];
    assert AllTargets([]) == [];
    assert AllTargets([img]) == [slot];
    OneSlotPass(s.log + [batch], protects, s.world, slot);
    s' := Step(s, Rebind(batch), protects);
  }

  // ---------- Granting one call only ----------

  // How many calls make a request for a slot of this name.
  function Requested(log: seq<Batch>, name: string): nat {
    if log == [] then 0
    else Requested(log[..|log| - 1], name) + (if Lookup(log, name).Some? then 1 else 0)
  }

  lemma {:induction false} RequestedGrows(log: seq<Batch>, m: nat, name: string)
    requires m <= |log|
    ensures Requested(log[..m], name) <= Requested(log, name)
  {
    if m < |log| {
      assert log[..|log| - 1][..m] == log[..m];
      RequestedGrows(log[..|log| - 1], m, name);
    } else {
      assert log[..m] == log;
    }
  }

  // After m calls of which only call k is granted, the slot at a holds v if that call
  // was made, and the word it was loaded with before; from call l on so does the cell c.
  ghost predicate Lent(w: World, m: nat, calls: nat, a: int, word: int, k: nat, v: int, l: nat, c: int) {
    && w.calls == calls
    && a in w.mem && w.mem[a] == (if m <= k then word else v)
    && (l < m ==> c in w.mem && w.mem[c] == v)
  }

  // Call m, if it makes a request for the rebinding x.
  lemma RewrittenLends(w: World, m: nat, calls: nat, a: int, word: int, k: nat, v: int, l: nat, c: int,
                       protects: nat -> bool, x: Rebinding)
    requires Lent(w, m, calls, a, word, k, v, l, c) && k < l && c != a && x.replaced != Some(a)
    requires protects(calls) <==> m == k
    requires m == k ==> x.replacement == v
    requires m == l ==> x.replaced == Some(c) && x.replacement != v
    ensures Lent(Rewritten(protects, w, a, x), m + 1, calls + 1, a, word, k, v, l, c)
  {
  }

  // The rebinding q of the slot's symbol is granted, r comes later.
  ghost predicate LendingSlot(all: seq<Batch>, slot: Slot, q: Position, r: Position) {
    && FirstOf(all, q) && FirstOf(all, r) && q.batch < r.batch
    && slot.name == Some(At(all, q).name) == Some(At(all, r).name)
    && !IsCell(all, slot.addr) && DistinctInLog(all)
  }

  ghost function OnlyCall(all: seq<Batch>, m: nat, name: string): nat -> bool
    requires m <= |all|
  {
    k => k == Requested(all[..m], name)
  }

  lemma FirstDecidesItsCall(all: seq<Batch>, q: Position, m: nat, name: string)
    requires FirstOf(all, q) && m == q.batch + 1 && name == At(all, q).name
    ensures Lookup(all[..m], name) == Some(q)
  {
    assert all[..m][q.batch] == all[q.batch];
  }

  lemma LookupInPrefix(all: seq<Batch>, m: nat, name: string)
    requires m <= |all| && Lookup(all[..m], name).Some?
    ensures var p := Lookup(all[..m], name).value;
            ValidPosition(all, p) && At(all, p) == At(all[..m], p) && p.batch < m
  {
  }

  // What decides call m, the number of its request, and whether that is granted.
  lemma CallDecision(all: seq<Batch>, m: nat, name: string, calls: nat, q: Position, r: Position)
    returns (d: Option<Position>, next: nat)
    requires m < |all| && FirstOf(all, q) && FirstOf(all, r) && At(all, q).name == At(all, r).name == name
    requires calls == Requested(all[..m], name)
    ensures d == Lookup(all[..m + 1], name)
    ensures next == Requested(all[..m + 1], name) == calls + (if d.Some? then 1 else 0)
    ensures (m == q.batch ==> d == Some(q)) && (m == r.batch ==> d == Some(r))
    ensures d.Some? ==> ValidPosition(all, d.value) && At(all, d.value) == At(all[..m + 1], d.value)
    ensures d.Some? ==> (OnlyCall(all, q.batch, name)(calls) <==> m == q.batch)
  {
    d, next := Lookup(all[..m + 1], name), Requested(all[..m + 1], name);
    RequestedNext(all, m, name);
    FirstDecidesItsCall(all, q, q.batch + 1, name);
    FirstDecidesItsCall(all, r, r.batch + 1, name);
    if d.Some? {
      LookupInPrefix(all, m + 1, name);
      OnlyGranted(all, m, q.batch, name);
    }
  }

  lemma RequestedNext(all: seq<Batch>, m: nat, name: string)
    requires m < |all|
    ensures Requested(all[..m + 1], name)
         == Requested(all[..m], name) + (if Lookup(all[..m + 1], name).Some? then 1 else 0)
  {
    assert all[..m + 1][..m] == all[..m];
  }

  lemma OnlyGranted(all: seq<Batch>, m: nat, k: nat, name: string)
    requires m < |all| && k < |all| && Lookup(all[..m + 1], name).Some? && Lookup(all[..k + 1], name).Some?
    ensures OnlyCall(all, k, name)(Requested(all[..m], name)) <==> m == k
  {
    if m < k {
      BeforeCall(all, m, k, name);
    } else if k < m {
      BeforeCall(all, k, m, name);
    }
  }

  // w is what the first m calls make of start, with calls requests; see Lent.
  ghost predicate SweptTo(all: seq<Batch>, m: nat, slot: Slot, start: World, q: Position, r: Position, c: int,
                          w: World, calls: nat) {
    && LendingSlot(all, slot, q, r) && m <= |all| && slot.addr in start.mem
    && w == Sweeps(all[..m], OnlyCall(all, q.batch, slot.name.value), slot, start)
    && calls == Requested(all[..m], slot.name.value)
    && Lent(w, m, calls, slot.addr, start.mem[slot.addr], q.batch, At(all, q).replacement, r.batch, c)
  }

  lemma NoSweepYet(all: seq<Batch>, slot: Slot, start: World, q: Position, r: Position, c: int)
    requires LendingSlot(all, slot, q, r) && slot.addr in start.mem && start.calls == 0
    ensures SweptTo(all, 0, slot, start, q, r, c, start, 0)
  {
  }

  // The words after the first m calls.
  lemma SweepsLend(all: seq<Batch>, m: nat, slot: Slot, start: World, q: Position, r: Position, c: int)
    returns (w: World, calls: nat)
    requires LendingSlot(all, slot, q, r) && m <= |all| && At(all, r).replaced == Some(c)
    requires slot.addr in start.mem && start.calls == 0
    ensures SweptTo(all, m, slot, start, q, r, c, w, calls)
  {
    w, calls := start, 0;
    NoSweepYet(all, slot, start, q, r, c);
    for i := 0 to m
      invariant SweptTo(all, i, slot, start, q, r, c, w, calls)
    {
      w, calls := NextSweepLends(all, i, w, calls, slot, start, q, r, c);
    }
  }

  lemma NextSweepLends(all: seq<Batch>, m: nat, w: World, calls: nat, slot: Slot, start: World,
                       q: Position, r: Position, c: int) returns (w': World, calls': nat)
    requires SweptTo(all, m, slot, start, q, r, c, w, calls) && m < |all| && At(all, r).replaced == Some(c)
    ensures SweptTo(all, m + 1, slot, start, q, r, c, w', calls')
  {
    NextSweep(all, m, OnlyCall(all, q.batch, slot.name.value), slot, start, w);
    w', calls' := CallLends(all, m, w, calls, slot, start.mem[slot.addr], q, r, c);
  }

  lemma NextSweep(all: seq<Batch>, m: nat, protects: nat -> bool, slot: Slot, start: World, w: World)
    requires m < |all| && w == Sweeps(all[..m], protects, slot, start)
    ensures Sweeps(all[..m + 1], protects, slot, start) == SlotStep(all[..m + 1], protects, w, slot)
  {
    assert all[..m + 1][..m] == all[..m];
  }

  lemma CallLends(all: seq<Batch>, m: nat, w: World, calls: nat, slot: Slot, word: int,
                  q: Position, r: Position, c: int) returns (w': World, calls': nat)
    requires LendingSlot(all, slot, q, r) && m < |all| && At(all, r).replaced == Some(c)
    requires calls == Requested(all[..m], slot.name.value)
    requires Lent(w, m, calls, slot.addr, word, q.batch, At(all, q).replacement, r.batch, c)
    ensures w' == SlotStep(all[..m + 1], OnlyCall(all, q.batch, slot.name.value), w, slot)
    ensures calls' == Requested(all[..m + 1], slot.name.value)
    ensures Lent(w', m + 1, calls', slot.addr, word, q.batch, At(all, q).replacement, r.batch, c)
  {
    var protects := OnlyCall(all, q.batch, slot.name.value);
    var d;
    d, calls' := CallDecision(all, m, slot.name.value, calls, q, r);
    w' := SlotStep(all[..m + 1], protects, w, slot);
    NotItsCell(all, slot.addr, r);
    if d.Some? {
      NotItsCell(all, slot.addr, d.value);
      RewrittenLends(w, m, calls, slot.addr, word, q.batch, At(all, q).replacement, r.batch, c,
                     protects, At(all, d.value));
    }
  }

  lemma NotItsCell(log: seq<Batch>, a: int, p: Position)
    requires !IsCell(log, a) && ValidPosition(log, p)
    ensures At(log, p).replaced != Some(a)
  {
  }

  // A request made in an earlier call has a smaller number.
  lemma BeforeCall(all: seq<Batch>, m: nat, k: nat, name: string)
    requires m < k < |all| && Lookup(all[..m + 1], name).Some?
    ensures Requested(all[..m], name) < Requested(all[..k], name)
  {
    RequestedNext(all, m, name);
    assert all[..k][..m + 1] == all[..m + 1];
    RequestedGrows(all[..k], m + 1, name);
  }

  // ---------- Exactly what can point where ----------

  // Some word is above all replaced cells and all replacements.
  lemma {:induction false} FreshWord(log: seq<Batch>) returns (a: int)
    ensures forall p :: ValidPosition(log, p) ==>
              At(log, p).replacement < a && (At(log, p).replaced.Some? ==> At(log, p).replaced.value < a)
  {
    if log == [] {
      a := 0;
    } else {
      var n := |log| - 1;
      var b := FreshWord(log[..n]);
      a := FreshInBatch(log[n], b);
      forall p | ValidPosition(log, p)
        ensures At(log, p).replacement < a && (At(log, p).replaced.Some? ==> At(log, p).replaced.value < a)
      {
        if p.batch < n {
          assert ValidPosition(log[..n], p) && At(log[..n], p) == At(log, p);
        }
      }
    }
  }

  // Load one image with one slot, hand over the batches in order, and grant only
  // the request for q: then r saves the replacement of q in the cell it shares with p.
  lemma LendingRun(log: seq<Batch>, p: Position, q: Position, r: Position)
    returns (events: seq<Event>, protects: nat -> bool)
    requires DistinctInLog(log) && Lends(log, p, q, r)
    ensures PointsIn(events, protects, log, p, q)
  {
    var a := FreshWord(log);
    var name := At(log, q).name;
    OneSlotTargets(a, name, a);
    events, protects := ImageLends(log, OneSlotImage(a, name, a), Slot(a, Some(name)), p, q, r);
  }

  lemma ImageLends(log: seq<Batch>, img: Image, slot: Slot, p: Position, q: Position, r: Position)
    returns (events: seq<Event>, protects: nat -> bool)
    requires DistinctInLog(log) && Lends(log, p, q, r) && slot.name == Some(At(log, q).name)
    requires TargetSlots(img) == [slot] && img.initial.Keys == {slot.addr}
    requires forall x :: ValidPosition(log, x) ==>
               At(log, x).replacement != img.initial[slot.addr] && At(log, x).replaced != Some(slot.addr)
    ensures PointsIn(events, protects, log, p, q)
  {
    events, protects := [Load(img)] + Calls(log), OnlyCall(log, q.batch, slot.name.value);
    var s := LendingState(log, img, slot, q, r, At(log, p).replaced.value);
    OneSlotProper(log, img, slot, s);
  }

  // What that run ends with.
  lemma LendingState(log: seq<Batch>, img: Image, slot: Slot, q: Position, r: Position, c: int) returns (s: State)
    requires LendingSlot(log, slot, q, r) && At(log, r).replaced == Some(c)
    requires TargetSlots(img) == [slot] && slot.addr in img.initial
    ensures s == Run([Load(img)] + Calls(log), OnlyCall(log, q.batch, slot.name.value))
    ensures s.log == log && s.images == [img]
    ensures c in s.world.mem && s.world.mem[c] == At(log, q).replacement
  {
    var protects := OnlyCall(log, q.batch, slot.name.value);
    s := RunIsSweeps(img, slot, log, protects);
    assert log[..|log|] == log;
    var w, calls := SweepsLend(log, |log|, slot, World(img.initial, 0), q, r, c);
  }

  lemma OneSlotProper(log: seq<Batch>, img: Image, slot: Slot, s: State)
    requires s.log == log && s.images == [img] && TargetSlots(img) == [slot]
    requires img.initial.Keys == {slot.addr} && DistinctInLog(log)
    requires forall p :: ValidPosition(log, p) ==>
               At(log, p).replacement != img.initial[slot.addr] && At(log, p).replaced != Some(slot.addr)
    ensures Layout(s.images, s.log) && DistinctReplacements(TrailOf(s))
  {
    assert Original([img]) == img.initial by {
      assert [img][..0] == [];
      assert Original([]) == map[];
    }
  }

  // For replacements told apart: the saved binding of p is the replacement of q in
  // some run that hands over these batches, if and only if some rebinding of q's
  // symbol in a later batch than q's shares the cell of p, and both come first for
  // that symbol in their batches.
  lemma PointsExactly(log: seq<Batch>, p: Position, q: Position)
    requires DistinctInLog(log)
    ensures (exists events, protects :: PointsIn(events, protects, log, p, q)) <==> exists r :: Lends(log, p, q, r)
  {
    if r :| Lends(log, p, q, r) {
      var events, protects := LendingRun(log, p, q, r);
    }
    if events, protects :| PointsIn(events, protects, log, p, q) {
      EveryCellHasAWriter(events, protects);
      StateApart(Run(events, protects));
      var r := NextIsLent(TrailOf(Run(events, protects)), p, q);
    }
  }

  // ---------- Exactly when saved bindings descend ----------

  ghost predicate Descends(events: seq<Event>, protects: nat -> bool, log: seq<Batch>) {
    forall p, q :: PointsIn(events, protects, log, p, q) ==> q.batch < p.batch
  }

  // The caller can tell beforehand: in every run that hands over these batches each
  // saved binding leads to a strictly older rebinding, if and only if no rebinding
  // saves in the cell of another one a replacement that is not older than that one.
  lemma DescentExactly(log: seq<Batch>)
    requires DistinctInLog(log)
    ensures (forall events, protects :: Descends(events, protects, log)) <==> Uncrossed(log)
  {
    if Uncrossed(log) {
      forall events, protects ensures Descends(events, protects, log) {
        forall p, q | PointsIn(events, protects, log, p, q) ensures q.batch < p.batch {
          NextIsOlder(events, protects, p, q);
        }
      }
    } else {
      var p, q, r :| Lends(log, p, q, r) && q.batch >= p.batch;
      var events, protects := LendingRun(log, p, q, r);
      assert !Descends(events, protects, log);
    }
  }

  // Two calls that rebind one symbol and share a cell: in some run the saved
  // binding of the first is its own replacement.
  lemma SharedCellCycles(name: string, cell: int, first: int, second: int)
    returns (events: seq<Event>, protects: nat -> bool)
    requires name != "" && first != second
    ensures var log := [[Rebinding(name, first, Some(cell))], [Rebinding(name, second, Some(cell))]];
            PointsIn(events, protects, log, Position(0, 0), Position(0, 0))
  {
    var log := [[Rebinding(name, first, Some(cell))], [Rebinding(name, second, Some(cell))]];
    assert FindName(log[0], name) == Some(0) && FindName(log[1], name) == Some(0);
    events, protects := LendingRun(log, Position(0, 0), Position(0, 0), Position(1, 0));
  }

  // Two symbols may share a cell: saved bindings still descend.
  lemma SharedCellMayDescend(a: string, b: string, cell: int, first: int, second: int)
    requires a != b
    ensures var log := [[Rebinding(a, first, Some(cell))], [Rebinding(b, second, Some(cell))]];
            !DistinctCells(log) && Uncrossed(log)
  {
    var log := [[Rebinding(a, first, Some(cell))], [Rebinding(b, second, Some(cell))]];
    var p, q := Position(0, 0), Position(1, 0);
    assert ValidPosition(log, p) && ValidPosition(log, q) && At(log, p).replaced == At(log, q).replaced;
  }
}
