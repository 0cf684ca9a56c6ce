// The bindings saved through `replaced`: in every run, whichever requests fail and
// whoever shares a cell, each saved binding was written by some rebinding and is an
// original binding of its symbol or the replacement of an older one.  Where cells
// are not shared, following saved bindings moves to older rebindings of the same
// symbol and ends at a binding that an image was loaded with.
module SavedOriginals {
  import opened Common
  import opened Rebindings
  import opened Passes
  import opened Requests
  import opened Precedence

  // What a chain of saved bindings is judged by.
  datatype Trail = Trail(log: seq<Batch>, slots: seq<Slot>, orig: map<int, int>, mem: map<int, int>)

  function TrailOf(s: State): Trail {
    Trail(s.log, AllTargets(s.images), Original(s.images), s.world.mem)
  }

  // v is the binding some slot of this name was loaded with.
  ghost predicate IsOriginal(t: Trail, name: string, v: int) {
    exists i :: 0 <= i < |t.slots| && t.slots[i].name == Some(name)
                && t.slots[i].addr in t.orig && t.orig[t.slots[i].addr] == v
  }

  // ---------- Who wrote a cell ----------

  // q is the first rebinding of its symbol in its batch, so it can decide slots.
  ghost predicate FirstOf(log: seq<Batch>, q: Position) {
    ValidPosition(log, q) && FindName(log[q.batch], At(log, q).name) == Some(q.index)
  }

  // v is the replacement of q, whose own cell, if it has one, has been written.
  ghost predicate Replaced(t: Trail, name: string, v: int, limit: nat, q: Position) {
    && FirstOf(t.log, q) && q.batch < limit
    && At(t.log, q).name == name && At(t.log, q).replacement == v
    && (At(t.log, q).replaced.Some? ==> At(t.log, q).replaced.value in t.mem)
  }

  // v is an original binding of name, or was put in its place by a batch below limit.
  ghost predicate Held(t: Trail, name: string, v: int, limit: nat) {
    IsOriginal(t, name, v) || exists q :: Replaced(t, name, v, limit, q)
  }

  // The cell a holds what r saved there: something that r's slots held before r.
  ghost predicate WrittenBy(t: Trail, a: int, r: Position) {
    && a in t.mem && FirstOf(t.log, r) && At(t.log, r).replaced == Some(a) && At(t.log, r).name != ""
    && Held(t, At(t.log, r).name, t.mem[a], r.batch)
  }

  ghost predicate SlotHeld(t: Trail, slot: Slot) {
    slot.addr in t.mem && (slot.name.Some? ==> Held(t, slot.name.value, t.mem[slot.addr], |t.log|))
  }

  ghost predicate Kept(t: Trail) {
    && (forall i :: 0 <= i < |t.slots| ==> SlotHeld(t, t.slots[i]))
    && (forall a :: a in t.mem ==> a in t.orig || exists r :: WrittenBy(t, a, r))
  }

  ghost predicate Apart(t: Trail) {
    && CellsApart(t.log, t.slots)
    && (forall i :: 0 <= i < |t.slots| ==> t.slots[i].addr in t.orig && t.slots[i].name != Some(""))
    && (forall a :: a in t.orig ==> !IsCell(t.log, a))
  }

  // ---------- What was held stays explained ----------

  // From t to t' batches and slots are added, and no cell becomes unwritten.
  ghost predicate Later(t: Trail, t': Trail) {
    && t.log <= t'.log && t.slots <= t'.slots && t.mem.Keys <= t'.mem.Keys
    && (forall i :: 0 <= i < |t.slots| && t.slots[i].addr in t.orig ==>
          t.slots[i].addr in t'.orig && t'.orig[t.slots[i].addr] == t.orig[t.slots[i].addr])
  }

  lemma HeldLater(t: Trail, t': Trail, name: string, v: int, limit: nat, wider: nat)
    requires Later(t, t') && Held(t, name, v, limit) && limit <= wider
    ensures Held(t', name, v, wider)
  {
    if IsOriginal(t, name, v) {
      var i :| 0 <= i < |t.slots| && t.slots[i].name == Some(name)
               && t.slots[i].addr in t.orig && t.orig[t.slots[i].addr] == v;
      assert t'.slots[i] == t.slots[i];
    } else {
      var q :| Replaced(t, name, v, limit, q);
      assert t'.log[q.batch] == t.log[q.batch];
      assert Replaced(t', name, v, wider, q);
    }
  }

  lemma SlotHeldLater(t: Trail, t': Trail, slot: Slot)
    requires Later(t, t') && SlotHeld(t, slot) && slot.addr in t'.mem && t'.mem[slot.addr] == t.mem[slot.addr]
    ensures SlotHeld(t', slot)
  {
    if slot.name.Some? {
      HeldLater(t, t', slot.name.value, t.mem[slot.addr], |t.log|, |t'.log|);
    }
  }

  lemma WrittenLater(t: Trail, t': Trail, a: int, r: Position)
    requires Later(t, t') && WrittenBy(t, a, r) && a in t'.mem && t'.mem[a] == t.mem[a]
    ensures WrittenBy(t', a, r)
  {
    assert t'.log[r.batch] == t.log[r.batch];
    HeldLater(t, t', At(t.log, r).name, t.mem[a], r.batch, r.batch);
  }

  // A word that was there before and has not changed.
  lemma WordKept(t: Trail, t': Trail, a: int)
    requires Kept(t) && Later(t, t') && a in t.mem && t'.mem[a] == t.mem[a] && (a in t.orig ==> a in t'.orig)
    ensures a in t'.orig || exists r :: WrittenBy(t', a, r)
  {
    if a !in t.orig {
      var r :| WrittenBy(t, a, r);
      WrittenLater(t, t', a, r);
    }
  }

  // ---------- One slot ----------

  // What a slot holds is older than the rebinding that decides it, unless it is
  // that rebinding's own replacement.
  lemma OlderThanDecider(t: Trail, slot: Slot, p: Position)
    requires SlotHeld(t, slot) && Decide(t.log, slot) == Some(p)
    requires t.mem[slot.addr] != At(t.log, p).replacement
    ensures FirstOf(t.log, p) && Held(t, slot.name.value, t.mem[slot.addr], p.batch)
  {
    var name, v := slot.name.value, t.mem[slot.addr];
    assert Held(t, name, v, |t.log|);
    if !IsOriginal(t, name, v) {
      var q :| Replaced(t, name, v, |t.log|, q);
      assert q.batch <= p.batch;
      assert q.batch == p.batch ==> q == p;
      assert Replaced(t, name, v, p.batch, q);
    }
  }

  lemma SaveKeepsWriters(t: Trail, slot: Slot, p: Position)
    requires Kept(t) && Apart(t) && slot in t.slots
    requires Decide(t.log, slot) == Some(p) && At(t.log, p).replaced.Some?
    requires slot.addr in t.mem && t.mem[slot.addr] != At(t.log, p).replacement
    ensures Kept(t.(mem := t.mem[At(t.log, p).replaced.value := t.mem[slot.addr]]))
  {
    var c := At(t.log, p).replaced.value;
    var t' := t.(mem := t.mem[c := t.mem[slot.addr]]);
    assert IsCell(t.log, c);
    var n :| 0 <= n < |t.slots| && t.slots[n] == slot;
    assert SlotHeld(t, slot);
    OlderThanDecider(t, slot, p);
    HeldLater(t, t', slot.name.value, t.mem[slot.addr], p.batch, p.batch);
    assert WrittenBy(t', c, p);
    forall a | a in t'.mem ensures a in t'.orig || exists r :: WrittenBy(t', a, r) {
      if a != c {
        WordKept(t, t', a);
      }
    }
    forall i | 0 <= i < |t.slots| ensures SlotHeld(t', t.slots[i]) {
      assert t.slots[i].addr != c;
      SlotHeldLater(t, t', t.slots[i]);
    }
  }

  // Writing the replacement of p into the slot it decides.
  lemma WriteKeepsWriters(t: Trail, slot: Slot, p: Position)
    requires Kept(t) && Apart(t) && slot in t.slots
    requires Decide(t.log, slot) == Some(p) && slot.addr in t.mem
    requires var r := At(t.log, p);
             t.mem[slot.addr] == r.replacement || r.replaced.None? || r.replaced.value in t.mem
    ensures Kept(t.(mem := t.mem[slot.addr := At(t.log, p).replacement]))
  {
    var v := At(t.log, p).replacement;
    var t' := t.(mem := t.mem[slot.addr := v]);
    if t.mem[slot.addr] == v {
      assert t'.mem == t.mem && t' == t;
      return;
    }
    var n :| 0 <= n < |t.slots| && t.slots[n] == slot;
    assert Replaced(t', slot.name.value, v, |t.log|, p);
    forall a | a in t'.mem ensures a in t'.orig || exists r :: WrittenBy(t', a, r) {
      if a != slot.addr {
        WordKept(t, t', a);
      }
    }
    forall i | 0 <= i < |t.slots| ensures SlotHeld(t', t.slots[i]) {
      if i != n {
        assert t.slots[i].addr != slot.addr;
        SlotHeldLater(t, t', t.slots[i]);
      }
    }
  }

  lemma StepKeepsWriters(t: Trail, protects: nat -> bool, calls: nat, slot: Slot)
    requires Kept(t) && Apart(t) && slot in t.slots
    ensures Kept(t.(mem := SlotStep(t.log, protects, World(t.mem, calls), slot).mem))
  {
    var d := Decide(t.log, slot);
    if d.Some? && slot.addr in t.mem {
      var r := At(t.log, d.value);
      var t1 := t;
      if r.replaced.Some? && t.mem[slot.addr] != r.replacement {
        SaveKeepsWriters(t, slot, d.value);
        assert IsCell(t.log, r.replaced.value);
        t1 := t.(mem := t.mem[r.replaced.value := t.mem[slot.addr]]);
      }
      if protects(calls) {
        WriteKeepsWriters(t1, slot, d.value);
      }
    } else {
      assert t.(mem := t.mem) == t;
    }
  }

  lemma {:induction false} PassKeepsWriters(t: Trail, protects: nat -> bool, calls: nat, slots: seq<Slot>)
    requires Kept(t) && Apart(t)
    requires forall i :: 0 <= i < |slots| ==> slots[i] in t.slots
    ensures Kept(t.(mem := Pass(t.log, protects, World(t.mem, calls), slots).mem))
  {
    if slots == [] {
      assert t.(mem := t.mem) == t;
    } else {
      var n := |slots| - 1;
      PassKeepsWriters(t, protects, calls, slots[..n]);
      var w := Pass(t.log, protects, World(t.mem, calls), slots[..n]);
      StepKeepsWriters(t.(mem := w.mem), protects, w.calls, slots[n]);
    }
  }

  // ---------- Whole runs ----------

  lemma StateApart(s: State)
    requires Layout(s.images, s.log)
    ensures Apart(TrailOf(s))
  {
    TargetsLayout(s.images, s.log);
    OriginalWords(s.images);
    forall i | 0 <= i < |AllTargets(s.images)| ensures AllTargets(s.images)[i].name != Some("") {
      var n, j := TargetImage(s.images, i);
      NamesNonEmpty(s.images[n], j);
    }
  }

  lemma RebindKeepsWriters(s: State, batch: Batch, protects: nat -> bool)
    requires Kept(TrailOf(s)) && Layout(s.images, s.log + [batch])
    ensures Kept(TrailOf(Step(s, Rebind(batch), protects)))
  {
    var t := TrailOf(s).(log := s.log + [batch]);
    BatchKeepsWriters(TrailOf(s), t);
    StateApart(s.(log := s.log + [batch]));
    PassKeepsWriters(t, protects, s.world.calls, t.slots);
  }

  // Adding a batch alone changes no word.
  lemma BatchKeepsWriters(t: Trail, t': Trail)
    requires Kept(t) && t.log <= t'.log && t' == t.(log := t'.log)
    ensures Kept(t')
  {
    forall i | 0 <= i < |t.slots| ensures SlotHeld(t', t.slots[i]) {
      SlotHeldLater(t, t', t.slots[i]);
    }
    forall a | a in t.mem ensures a in t'.orig || exists r :: WrittenBy(t', a, r) {
      WordKept(t, t', a);
    }
  }

  lemma LoadKeepsWriters(s: State, img: Image, protects: nat -> bool)
    requires Kept(TrailOf(s)) && Layout(s.images + [img], s.log)
    ensures Kept(TrailOf(Step(s, Load(img), protects)))
  {
    var images := s.images + [img];
    var t := Trail(s.log, AllTargets(images), Original(images), s.world.mem + img.initial);
    ImageKeepsWriters(s, img);
    StateApart(State(s.log, images, s.world, 0));
    NewImageApart(s, img);
    assert t.(mem := s.world.mem + img.initial) == t;
    var w := CallbacksKeepWriters(t, protects, s.registrations, World(s.world.mem + img.initial, s.world.calls),
                                  TargetSlots(img));
  }

  // The words of a new image are original bindings.
  lemma ImageKeepsWriters(s: State, img: Image)
    requires Kept(TrailOf(s)) && Layout(s.images + [img], s.log)
    ensures var images := s.images + [img];
            Kept(Trail(s.log, AllTargets(images), Original(images), s.world.mem + img.initial))
  {
    var images := s.images + [img];
    var t := TrailOf(s);
    var t' := Trail(s.log, AllTargets(images), Original(images), s.world.mem + img.initial);
    NewImageApart(s, img);
    LayoutPrefix(s.images, s.log, Load(img));
    TargetsLayout(s.images, s.log);
    assert Later(t, t');
    forall i | 0 <= i < |t'.slots| ensures SlotHeld(t', t'.slots[i]) {
      if i < |t.slots| {
        assert SlotHeld(t, t.slots[i]);
        SlotHeldLater(t, t', t.slots[i]);
      } else {
        assert t'.slots[i] == TargetSlots(img)[i - |t.slots|];
        assert t'.slots[i].name.Some? ==> IsOriginal(t', t'.slots[i].name.value, t'.mem[t'.slots[i].addr]);
      }
    }
    forall a | a in t'.mem ensures a in t'.orig || exists r :: WrittenBy(t', a, r) {
      if a !in img.initial {
        WordKept(t, t', a);
      }
    }
  }

  lemma {:induction false} CallbacksKeepWriters(t: Trail, protects: nat -> bool, n: nat, start: World, slots: seq<Slot>)
    returns (w: World)
    requires Kept(t.(mem := start.mem)) && Apart(t)
    requires forall i :: 0 <= i < |slots| ==> slots[i] in t.slots
    ensures w == Callbacks(n, t.log, protects, start, slots) && Kept(t.(mem := w.mem))
  {
    if n == 0 {
      w := start;
    } else {
      var before := CallbacksKeepWriters(t, protects, n - 1, start, slots);
      NextCallbackKeeps(t, protects, before, slots);
      w := Pass(t.log, protects, before, slots);
    }
  }

  lemma NextCallbackKeeps(t: Trail, protects: nat -> bool, w: World, slots: seq<Slot>)
    requires Kept(t.(mem := w.mem)) && Apart(t)
    requires forall i :: 0 <= i < |slots| ==> slots[i] in t.slots
    ensures Kept(t.(mem := Pass(t.log, protects, w, slots).mem))
  {
    assert World(w.mem, w.calls) == w;
    PassKeepsWriters(t.(mem := w.mem), protects, w.calls, slots);
  }

  // In every run, whichever requests fail and whatever cells are shared, each
  // saved binding is what its writer's slots held before it: an original binding
  // of that symbol, or the replacement of an older rebinding of it.
  lemma {:induction false} EveryCellHasAWriter(events: seq<Event>, protects: nat -> bool)
    requires var s := Run(events, protects); Layout(s.images, s.log)
    ensures Kept(TrailOf(Run(events, protects)))
  {
    if events != [] {
      var n := |events| - 1;
      var s := Run(events[..n], protects);
      LayoutPrefix(s.images, s.log, events[n]);
      EveryCellHasAWriter(events[..n], protects);
      match events[n]
      case Rebind(batch) => RebindKeepsWriters(s, batch, protects);
      case Load(img) => LoadKeepsWriters(s, img, protects);
    }
  }

  // ---------- Cells that are not shared ----------

  // v is an original binding of name, or the replacement of a rebinding in a
  // batch below limit whose own saved binding is good in turn.
  ghost predicate Good(t: Trail, name: string, v: int, limit: nat)
    decreases limit, 0
  {
    IsOriginal(t, name, v) || exists k :: 0 <= k < limit && Link(t, name, v, k)
  }

  ghost predicate Link(t: Trail, name: string, v: int, k: nat)
    decreases k, 1
  {
    k < |t.log| && FindName(t.log[k], name).Some? &&
    var r := t.log[k][FindName(t.log[k], name).value];
    && r.replacement == v
    && (r.replaced.Some? ==> r.replaced.value in t.mem && Good(t, name, t.mem[r.replaced.value], k))
  }

  // A saved binding: the replaced cell of p has been written.
  ghost predicate Saved(t: Trail, p: Position) {
    ValidPosition(t.log, p) && At(t.log, p).replaced.Some? && At(t.log, p).replaced.value in t.mem
  }

  function SavedValue(t: Trail, p: Position): int
    requires Saved(t, p)
  {
    t.mem[At(t.log, p).replaced.value]
  }

  ghost predicate CellGood(t: Trail, p: Position)
    requires Saved(t, p)
  {
    Good(t, At(t.log, p).name, SavedValue(t, p), p.batch)
  }

  ghost predicate SlotGood(t: Trail, slot: Slot) {
    slot.addr in t.mem && (slot.name.Some? ==> Good(t, slot.name.value, t.mem[slot.addr], |t.log|))
  }

  ghost predicate Trailing(t: Trail) {
    && (forall i :: 0 <= i < |t.slots| ==> SlotGood(t, t.slots[i]))
    && (forall p :: Saved(t, p) ==> CellGood(t, p))
    && (forall a :: a in t.mem ==> a in t.orig || IsCell(t.log, a))
  }

  ghost predicate DistinctCells(log: seq<Batch>) {
    forall p, q :: ValidPosition(log, p) && ValidPosition(log, q) && p != q && At(log, p).replaced.Some? ==>
      At(log, p).replaced != At(log, q).replaced
  }

  // A cell of its own was written by its own rebinding.
  lemma OwnWriter(t: Trail, p: Position)
    requires Kept(t) && Apart(t) && DistinctCells(t.log) && Saved(t, p)
    ensures WrittenBy(t, At(t.log, p).replaced.value, p)
  {
    var c := At(t.log, p).replaced.value;
    assert IsCell(t.log, c);
    var r :| WrittenBy(t, c, r);
    assert r == p;
  }

  lemma {:induction false} HeldIsGood(t: Trail, name: string, v: int, limit: nat)
    requires Kept(t) && Apart(t) && DistinctCells(t.log) && Held(t, name, v, limit)
    ensures Good(t, name, v, limit)
    decreases limit
  {
    if !IsOriginal(t, name, v) {
      var q :| Replaced(t, name, v, limit, q);
      var r := At(t.log, q);
      if r.replaced.Some? {
        OwnWriter(t, q);
        HeldIsGood(t, name, t.mem[r.replaced.value], q.batch);
      }
      assert Link(t, name, v, q.batch);
    }
  }

  // In every run, whichever requests fail, every saved binding leads back to an
  // original binding of the same symbol through strictly older rebindings.
  lemma SavedBindingsAreGood(events: seq<Event>, protects: nat -> bool)
    requires var s := Run(events, protects); Layout(s.images, s.log) && DistinctCells(s.log)
    ensures Trailing(TrailOf(Run(events, protects)))
  {
    EveryCellHasAWriter(events, protects);
    StateApart(Run(events, protects));
    KeptIsTrailing(TrailOf(Run(events, protects)));
  }

  lemma KeptIsTrailing(t: Trail)
    requires Kept(t) && Apart(t) && DistinctCells(t.log)
    ensures Trailing(t)
  {
    forall i | 0 <= i < |t.slots| ensures SlotGood(t, t.slots[i]) {
      assert SlotHeld(t, t.slots[i]);
      if t.slots[i].name.Some? {
        HeldIsGood(t, t.slots[i].name.value, t.mem[t.slots[i].addr], |t.log|);
      }
    }
    forall p | Saved(t, p) ensures CellGood(t, p) {
      OwnWriter(t, p);
      HeldIsGood(t, At(t.log, p).name, SavedValue(t, p), p.batch);
    }
    forall a | a in t.mem ensures a in t.orig || IsCell(t.log, a) {
      if a !in t.orig {
        var r :| WrittenBy(t, a, r);
      }
    }
  }

  // ---------- Following saved bindings ----------

  // The cell of p holds the replacement of q.
  ghost predicate Next(t: Trail, p: Position, q: Position) {
    Saved(t, p) && ValidPosition(t.log, q) && SavedValue(t, p) == At(t.log, q).replacement
  }

  ghost predicate IsChain(t: Trail, ps: seq<Position>) {
    forall i :: 0 <= i < |ps| - 1 ==> Next(t, ps[i], ps[i + 1])
  }

  // Replacements are told apart from each other and from what images were loaded with.
  ghost predicate DistinctReplacements(t: Trail) {
    && (forall p, q :: ValidPosition(t.log, p) && ValidPosition(t.log, q) && p != q ==>
          At(t.log, p).replacement != At(t.log, q).replacement)
    && (forall p, a :: ValidPosition(t.log, p) && a in t.orig ==> At(t.log, p).replacement != t.orig[a])
  }

  // r shares the cell of p, and q is an older rebinding of r's symbol: what r saves,
  // and p's cell then holds, may be the replacement of q.
  ghost predicate Lends(log: seq<Batch>, p: Position, q: Position, r: Position) {
    && ValidPosition(log, p) && FirstOf(log, q) && FirstOf(log, r)
    && At(log, q).name == At(log, r).name != "" && q.batch < r.batch
    && At(log, p).replaced.Some? && At(log, p).replaced == At(log, r).replaced
  }

  // No cell of a rebinding is lent for saving one that is not older.
  ghost predicate Uncrossed(log: seq<Batch>) {
    forall p, q, r :: Lends(log, p, q, r) ==> q.batch < p.batch
  }

  lemma DistinctCellsUncrossed(log: seq<Batch>)
    requires DistinctCells(log)
    ensures Uncrossed(log)
  {
  }

  // A saved binding that is a replacement was lent by some rebinding.
  lemma NextIsLent(t: Trail, p: Position, q: Position) returns (r: Position)
    requires Kept(t) && Apart(t) && DistinctReplacements(t) && Next(t, p, q)
    ensures Lends(t.log, p, q, r)
  {
    var c := At(t.log, p).replaced.value;
    assert IsCell(t.log, c);
    r :| WrittenBy(t, c, r);
    assert !IsOriginal(t, At(t.log, r).name, t.mem[c]);
    var q' :| Replaced(t, At(t.log, r).name, t.mem[c], r.batch, q');
    assert q' == q;
  }

  // Each step goes to a strictly older rebinding.
  lemma NextIsOlder(events: seq<Event>, protects: nat -> bool, p: Position, q: Position)
    requires var s := Run(events, protects); Layout(s.images, s.log) && Uncrossed(s.log)
    requires DistinctReplacements(TrailOf(Run(events, protects)))
    requires Next(TrailOf(Run(events, protects)), p, q)
    ensures q.batch < p.batch
  {
    EveryCellHasAWriter(events, protects);
    StateApart(Run(events, protects));
    var r := NextIsLent(TrailOf(Run(events, protects)), p, q);
  }

  // Where cells are not shared, it is a rebinding of the same symbol.
  lemma NextIsSameSymbol(events: seq<Event>, protects: nat -> bool, p: Position, q: Position)
    requires var s := Run(events, protects); Layout(s.images, s.log) && DistinctCells(s.log)
    requires DistinctReplacements(TrailOf(Run(events, protects)))
    requires Next(TrailOf(Run(events, protects)), p, q)
    ensures q.batch < p.batch
    ensures At(Run(events, protects).log, q).name == At(Run(events, protects).log, p).name
  {
    EveryCellHasAWriter(events, protects);
    StateApart(Run(events, protects));
    var r := NextIsLent(TrailOf(Run(events, protects)), p, q);
    assert r == p;
  }

  // So a chain never returns to a rebinding, and is no longer than the list of batches.
  lemma ChainsDescend(events: seq<Event>, protects: nat -> bool, ps: seq<Position>)
    requires var s := Run(events, protects); Layout(s.images, s.log) && Uncrossed(s.log)
    requires DistinctReplacements(TrailOf(Run(events, protects)))
    requires IsChain(TrailOf(Run(events, protects)), ps)
    requires ps != [] && ValidPosition(Run(events, protects).log, ps[0])
    ensures forall i, j :: 0 <= i < j < |ps| ==> ps[j].batch < ps[i].batch
    ensures |ps| <= |Run(events, protects).log|
  {
    BatchesDescend(events, protects, ps, |ps| - 1);
  }

  lemma {:induction false} BatchesDescend(events: seq<Event>, protects: nat -> bool, ps: seq<Position>, m: nat)
    requires var s := Run(events, protects); Layout(s.images, s.log) && Uncrossed(s.log)
    requires DistinctReplacements(TrailOf(Run(events, protects)))
    requires IsChain(TrailOf(Run(events, protects)), ps) && m < |ps|
    ensures forall i, j :: 0 <= i < j <= m ==> ps[j].batch < ps[i].batch
    ensures ps[m].batch + m <= ps[0].batch
  {
    if m > 0 {
      BatchesDescend(events, protects, ps, m - 1);
      NextIsOlder(events, protects, ps[m - 1], ps[m]);
    }
  }

  // And it can be followed to an original binding of some symbol, unless it
  // reaches a rebinding that asked for no saved binding.
  lemma UncrossedChainEnds(events: seq<Event>, protects: nat -> bool, p: Position) returns (ps: seq<Position>)
    requires var s := Run(events, protects); Layout(s.images, s.log) && Uncrossed(s.log)
    requires Saved(TrailOf(Run(events, protects)), p)
    ensures Descent(TrailOf(Run(events, protects)), p, ps)
  {
    EveryCellHasAWriter(events, protects);
    StateApart(Run(events, protects));
    ps := DescentFrom(TrailOf(Run(events, protects)), p);
  }

  ghost predicate Descent(t: Trail, p: Position, ps: seq<Position>) {
    && ps != [] && ps[0] == p && IsChain(t, ps)
    && (forall i :: 0 <= i < |ps| ==> ValidPosition(t.log, ps[i]))
    && (forall i :: 0 <= i < |ps| - 1 ==> ps[i + 1].batch < ps[i].batch)
    && var last := ps[|ps| - 1];
       At(t.log, last).replaced.None? || (Saved(t, last) && exists name :: IsOriginal(t, name, SavedValue(t, last)))
  }

  lemma {:induction false} DescentFrom(t: Trail, p: Position) returns (ps: seq<Position>)
    requires Kept(t) && Apart(t) && Uncrossed(t.log) && Saved(t, p)
    ensures Descent(t, p, ps)
    decreases p.batch
  {
    var c := At(t.log, p).replaced.value;
    assert IsCell(t.log, c);
    var r :| WrittenBy(t, c, r);
    if IsOriginal(t, At(t.log, r).name, t.mem[c]) {
      assert IsOriginal(t, At(t.log, r).name, SavedValue(t, p));
      ps := [p];
    } else {
      var q :| Replaced(t, At(t.log, r).name, t.mem[c], r.batch, q);
      assert Lends(t.log, p, q, r);
      var rest := [q];
      if At(t.log, q).replaced.Some? {
        rest := DescentFrom(t, q);
      }
      DescentExtends(t, p, q, rest);
      ps := [p] + rest;
    }
  }

  lemma DescentExtends(t: Trail, p: Position, q: Position, rest: seq<Position>)
    requires Next(t, p, q) && q.batch < p.batch && Descent(t, q, rest)
    ensures Descent(t, p, [p] + rest)
  {
    var ps := [p] + rest;
    forall i | 0 <= i < |ps| - 1 ensures Next(t, ps[i], ps[i + 1]) && ps[i + 1].batch < ps[i].batch {
      assert i > 0 ==> ps[i] == rest[i - 1];
    }
    assert ps[|ps| - 1] == rest[|rest| - 1];
  }

  // From every saved binding there is a chain to an original binding of its
  // symbol, unless it reaches a rebinding that asked for no saved binding.
  lemma ChainToOriginal(events: seq<Event>, protects: nat -> bool, p: Position) returns (ps: seq<Position>)
    requires var s := Run(events, protects); Layout(s.images, s.log) && DistinctCells(s.log)
    requires Saved(TrailOf(Run(events, protects)), p)
    ensures var t := TrailOf(Run(events, protects));
            && ps != [] && ps[0] == p && IsChain(t, ps)
            && (forall i :: 0 <= i < |ps| ==> ValidPosition(t.log, ps[i]) && At(t.log, ps[i]).name == At(t.log, p).name)
            && (forall i :: 0 <= i < |ps| - 1 ==> ps[i + 1].batch < ps[i].batch)
            && (var last := ps[|ps| - 1];
                At(t.log, last).replaced.None? ||
                (Saved(t, last) && IsOriginal(t, At(t.log, p).name, SavedValue(t, last))))
  {
    SavedBindingsAreGood(events, protects);
    ps := ChainFrom(TrailOf(Run(events, protects)), p);
  }

  lemma {:induction false} ChainFrom(t: Trail, p: Position) returns (ps: seq<Position>)
    requires Saved(t, p) && CellGood(t, p)
    ensures ps != [] && ps[0] == p && IsChain(t, ps)
    ensures forall i :: 0 <= i < |ps| ==> ValidPosition(t.log, ps[i]) && At(t.log, ps[i]).name == At(t.log, p).name
    ensures forall i :: 0 <= i < |ps| - 1 ==> ps[i + 1].batch < ps[i].batch
    ensures var last := ps[|ps| - 1];
            At(t.log, last).replaced.None? ||
            (Saved(t, last) && IsOriginal(t, At(t.log, p).name, SavedValue(t, last)))
    decreases p.batch
  {
    var name, v := At(t.log, p).name, SavedValue(t, p);
    assert Good(t, name, v, p.batch);
    if IsOriginal(t, name, v) {
      return [p];
    }
    var k: nat :| k < p.batch && Link(t, name, v, k);
    var q := Position(k, FindName(t.log[k], name).value);
    assert Next(t, p, q);
    if At(t.log, q).replaced.None? {
      return [p, q];
    }
    var rest := ChainFrom(t, q);
    ps := [p] + rest;
    forall i | 0 <= i < |ps| - 1 ensures Next(t, ps[i], ps[i + 1]) && ps[i + 1].batch < ps[i].batch {
      assert i > 0 ==> ps[i] == rest[i - 1];
    }
  }
}
