// Which word a `replaced` cell holds: the one that was in the last slot at which
// the rebinding of that cell decided while the slot held something else.
module SavedWords {
  import opened Common
  import opened Rebindings
  import opened Passes
  import opened Requests

  // ---------- One slot ----------

  // The rebinding that decides the slot has the cell c, and the slot holds
  // something other than its replacement.
  ghost predicate Saves(log: seq<Batch>, w: World, slot: Slot, c: int) {
    && slot.addr in w.mem
    && exists p :: Decide(log, slot) == Some(p) && At(log, p).replaced == Some(c)
                   && w.mem[slot.addr] != At(log, p).replacement
  }

  // The word of the slot is saved, whether or not the request succeeds, and
  // whatever the cell held before.
  lemma StepSaves(log: seq<Batch>, protects: nat -> bool, w: World, slot: Slot, p: Position, c: int)
    requires Decide(log, slot) == Some(p) && At(log, p).replaced == Some(c) && c != slot.addr
    requires slot.addr in w.mem && w.mem[slot.addr] != At(log, p).replacement
    ensures var mem := SlotStep(log, protects, w, slot).mem;
            c in mem && mem[c] == w.mem[slot.addr]
  {
  }

  // No other step changes the cell.
  lemma StepSavesNothing(log: seq<Batch>, protects: nat -> bool, w: World, slot: Slot, c: int)
    requires !Saves(log, w, slot, c) && c != slot.addr
    ensures SameAt(w.mem, SlotStep(log, protects, w, slot).mem, c)
  {
    var d := Decide(log, slot);
    assert d.Some? ==> Decide(log, slot) == Some(d.value);
  }

  ghost predicate SameAt(mem: map<int, int>, mem': map<int, int>, c: int) {
    (c in mem' <==> c in mem) && (c in mem ==> mem'[c] == mem[c])
  }

  // ---------- One pass ----------

  ghost predicate LastSave(log: seq<Batch>, w: World, slots: seq<Slot>, c: int, i: int) {
    0 <= i < |slots| && Saves(log, w, slots[i], c) && forall j :: i < j < |slots| ==> !Saves(log, w, slots[j], c)
  }

  ghost predicate NoSave(log: seq<Batch>, w: World, slots: seq<Slot>, c: int) {
    forall i :: 0 <= i < |slots| ==> !Saves(log, w, slots[i], c)
  }

  // What the cell holds after a pass that starts with w and ends with mem.
  ghost predicate CellAfter(log: seq<Batch>, w: World, slots: seq<Slot>, mem: map<int, int>, c: int) {
    && (forall i :: LastSave(log, w, slots, c, i) ==> c in mem && mem[c] == w.mem[slots[i].addr])
    && (NoSave(log, w, slots, c) ==> SameAt(w.mem, mem, c))
  }

  lemma {:induction false} PassSaves(log: seq<Batch>, protects: nat -> bool, w: World, slots: seq<Slot>, c: int)
    requires CellsApart(log, slots) && MappedIn(slots, w.mem) && !IsSlot(slots, c)
    ensures CellAfter(log, w, slots, Pass(log, protects, w, slots).mem, c)
  {
    if slots != [] {
      var init, slot := slots[..|slots| - 1], slots[|slots| - 1];
      var w1 := Pass(log, protects, w, init);
      LastApart(slots, c);
      PassSaves(log, protects, w, init, c);
      PassFrame(log, protects, w, init);
      SameSave(log, w, w1, slot, c);
      NextSave(log, protects, w, w1, init, slot, c);
      Unsnoc(slots);
    }
  }

  lemma LastApart(slots: seq<Slot>, c: int)
    requires DistinctSlots(slots) && slots != [] && !IsSlot(slots, c)
    ensures var init, slot := slots[..|slots| - 1], slots[|slots| - 1];
            DistinctSlots(init) && !IsSlot(init, slot.addr) && !IsSlot(init, c) && c != slot.addr
  {
    assert slots[|slots| - 1].addr != c;
  }

  lemma SameSave(log: seq<Batch>, w: World, w1: World, slot: Slot, c: int)
    requires SameAt(w.mem, w1.mem, slot.addr)
    ensures Saves(log, w, slot, c) <==> Saves(log, w1, slot, c)
  {
  }

  lemma NextSave(log: seq<Batch>, protects: nat -> bool, w: World, w1: World, init: seq<Slot>, slot: Slot, c: int)
    requires CellAfter(log, w, init, w1.mem, c) && c != slot.addr && slot.addr in w.mem
    requires SameAt(w.mem, w1.mem, slot.addr) && (Saves(log, w, slot, c) <==> Saves(log, w1, slot, c))
    ensures CellAfter(log, w, init + [slot], SlotStep(log, protects, w1, slot).mem, c)
  {
    if Saves(log, w, slot, c) {
      StepSaves(log, protects, w1, slot, Decide(log, slot).value, c);
      SavedLast(log, w, init, slot, SlotStep(log, protects, w1, slot).mem, c);
    } else {
      StepSavesNothing(log, protects, w1, slot, c);
      SavedEarlier(log, w, init, slot, w1.mem, SlotStep(log, protects, w1, slot).mem, c);
    }
  }

  lemma SavedLast(log: seq<Batch>, w: World, init: seq<Slot>, slot: Slot, mem: map<int, int>, c: int)
    requires Saves(log, w, slot, c) && c in mem && mem[c] == w.mem[slot.addr]
    ensures CellAfter(log, w, init + [slot], mem, c)
  {
    assert (init + [slot])[|init|] == slot;
  }

  lemma SavedEarlier(log: seq<Batch>, w: World, init: seq<Slot>, slot: Slot,
                     mem1: map<int, int>, mem: map<int, int>, c: int)
    requires CellAfter(log, w, init, mem1, c) && !Saves(log, w, slot, c) && SameAt(mem1, mem, c)
    ensures CellAfter(log, w, init + [slot], mem, c)
  {
    var slots := init + [slot];
    forall i | LastSave(log, w, slots, c, i) ensures c in mem && mem[c] == w.mem[slots[i].addr] {
      LastSaveEarlier(log, w, init, slot, c, i);
      assert slots[i] == init[i];
    }
    if NoSave(log, w, slots, c) {
      NoSaveEarlier(log, w, init, slot, c);
    }
  }

  lemma LastSaveEarlier(log: seq<Batch>, w: World, init: seq<Slot>, slot: Slot, c: int, i: int)
    requires LastSave(log, w, init + [slot], c, i) && !Saves(log, w, slot, c)
    ensures LastSave(log, w, init, c, i)
  {
    var slots := init + [slot];
    assert slots[|init|] == slot;
    forall j | i < j < |init| ensures !Saves(log, w, init[j], c) {
      assert slots[j] == init[j];
    }
  }

  lemma NoSaveEarlier(log: seq<Batch>, w: World, init: seq<Slot>, slot: Slot, c: int)
    requires NoSave(log, w, init + [slot], c)
    ensures NoSave(log, w, init, c)
  {
    forall j | 0 <= j < |init| ensures !Saves(log, w, init[j], c) {
      assert (init + [slot])[j] == init[j];
    }
  }

  // ---------- Whole runs ----------

  // The pass that event m makes: its log, its slots and the words it starts with.
  ghost function LogAt(events: seq<Event>, m: nat): seq<Batch>
    requires m < |events|
  {
    Batches(events[..m + 1])
  }

  ghost function SlotsAt(events: seq<Event>, m: nat): seq<Slot>
    requires m < |events|
  {
    match events[m]
    case Rebind(_) => AllTargets(Loaded(events[..m]))
    case Load(img) => TargetSlots(img)
  }

  ghost function WordsAt(events: seq<Event>, protects: nat -> bool, m: nat): World
    requires m < |events|
  {
    var w := Run(events[..m], protects).world;
    match events[m]
    case Rebind(_) => w
    case Load(img) => World(w.mem + img.initial, w.calls)
  }

  // In event m the word of its slot i is saved in the cell c.
  ghost predicate SavesAt(events: seq<Event>, protects: nat -> bool, m: int, i: int, c: int) {
    && 0 <= m < |events| && 0 <= i < |SlotsAt(events, m)|
    && Saves(LogAt(events, m), WordsAt(events, protects, m), SlotsAt(events, m)[i], c)
  }

  ghost predicate LastSaveAt(events: seq<Event>, protects: nat -> bool, m: int, i: int, c: int) {
    && SavesAt(events, protects, m, i, c)
    && forall m', i' :: m < m' || (m == m' && i < i') ==> !SavesAt(events, protects, m', i', c)
  }

  // The words after a run are those after the pass of its last event.
  lemma LastPass(events: seq<Event>, protects: nat -> bool)
    requires events != [] && Layout(Loaded(events), Batches(events))
    ensures var n := |events| - 1;
            var log, w, slots := LogAt(events, n), WordsAt(events, protects, n), SlotsAt(events, n);
            && Run(events, protects).world == Pass(log, protects, w, slots)
            && CellsApart(log, slots) && MappedIn(slots, w.mem)
            && forall a :: IsSlot(slots, a) ==> a in Original(Loaded(events))
  {
    var n := |events| - 1;
    var init, e := events[..n], events[n];
    assert events[..n + 1] == events;
    LastEvent(events);
    RunShape(init, protects);
    LayoutPrefix(Loaded(init), Batches(init), e);
    RunFollows(init, protects);
    match e
    case Rebind(batch) =>
      RunTargetsMapped(Run(init, protects), Batches(events));
      TargetsLayout(Loaded(events), Batches(events));
    case Load(img) =>
      NewImageApart(Run(init, protects), img);
      CallbackIsPass(Run(init, protects), img, protects);
  }

  lemma PrefixSaves(events: seq<Event>, protects: nat -> bool, m: int, i: int, c: int)
    requires events != [] && m < |events| - 1
    ensures SavesAt(events, protects, m, i, c) <==> SavesAt(events[..|events| - 1], protects, m, i, c)
  {
    if 0 <= m {
      var init := events[..|events| - 1];
      assert init[..m] == events[..m] && init[..m + 1] == events[..m + 1];
    }
  }

  // What the cell holds after a run.
  ghost predicate CellOfRun(events: seq<Event>, protects: nat -> bool, c: int) {
    var mem := Run(events, protects).world.mem;
    && (forall m, i :: LastSaveAt(events, protects, m, i, c) ==>
          c in mem && mem[c] == WordsAt(events, protects, m).mem[SlotsAt(events, m)[i].addr])
    && ((forall m, i :: !SavesAt(events, protects, m, i, c)) ==> c !in mem)
  }

  // In every run, whichever requests succeed and however many rebindings share
  // the cell, it holds the word that was in the slot of the last save, as it was
  // before that pass; without any save it has never been written.
  lemma {:induction false} CellHoldsLastSave(events: seq<Event>, protects: nat -> bool, c: int)
    requires Layout(Loaded(events), Batches(events)) && c !in Original(Loaded(events))
    ensures CellOfRun(events, protects, c)
  {
    if events == [] {
      return;
    }
    var n := |events| - 1;
    var init := events[..n];
    LastEvent(events);
    LayoutPrefix(Loaded(init), Batches(init), events[n]);
    EarlierWords(events, c);
    CellHoldsLastSave(init, protects, c);
    LastPass(events, protects);
    var log, w, slots := LogAt(events, n), WordsAt(events, protects, n), SlotsAt(events, n);
    PassSaves(log, protects, w, slots, c);
    WordBeforePass(events, protects, c);
    LastEventSaves(events, protects, c);
  }

  lemma EarlierWords(events: seq<Event>, c: int)
    requires events != [] && c !in Original(Loaded(events))
    ensures c !in Original(Loaded(events[..|events| - 1]))
    ensures match events[|events| - 1] case Load(img) => c !in img.initial case Rebind(_) => true
  {
    LastEvent(events);
    match events[|events| - 1]
    case Rebind(_) =>
    case Load(img) =>
      var before := Loaded(events[..|events| - 1]);
      assert (before + [img])[..|before|] == before;
  }

  // Loading an image does not touch the cell.
  lemma WordBeforePass(events: seq<Event>, protects: nat -> bool, c: int)
    requires events != [] && match events[|events| - 1] case Load(img) => c !in img.initial case Rebind(_) => true
    ensures var n := |events| - 1;
            SameAt(Run(events[..n], protects).world.mem, WordsAt(events, protects, n).mem, c)
  {
  }

  // The last event of a run ends with mem, its pass starts with w.
  ghost predicate Continues(events: seq<Event>, protects: nat -> bool, c: int) {
    events != [] &&
    var n := |events| - 1;
    && CellOfRun(events[..n], protects, c)
    && SameAt(Run(events[..n], protects).world.mem, WordsAt(events, protects, n).mem, c)
    && CellAfter(LogAt(events, n), WordsAt(events, protects, n), SlotsAt(events, n),
                 Run(events, protects).world.mem, c)
  }

  lemma LastEventSaves(events: seq<Event>, protects: nat -> bool, c: int)
    requires Continues(events, protects, c)
    ensures CellOfRun(events, protects, c)
  {
    forall m, i | LastSaveAt(events, protects, m, i, c)
      ensures c in Run(events, protects).world.mem
      ensures Run(events, protects).world.mem[c] == WordsAt(events, protects, m).mem[SlotsAt(events, m)[i].addr]
    {
      if m == |events| - 1 {
        SavedByLastEvent(events, protects, i, c);
      } else {
        SavedBefore(events, protects, m, i, c);
      }
    }
    if forall m, i :: !SavesAt(events, protects, m, i, c) {
      NeverSaved(events, protects, c);
    }
  }

  lemma SavedByLastEvent(events: seq<Event>, protects: nat -> bool, i: nat, c: int)
    requires Continues(events, protects, c) && LastSaveAt(events, protects, |events| - 1, i, c)
    ensures var mem := Run(events, protects).world.mem;
            var n := |events| - 1;
            c in mem && mem[c] == WordsAt(events, protects, n).mem[SlotsAt(events, n)[i].addr]
  {
    var n := |events| - 1;
    var log, w, slots := LogAt(events, n), WordsAt(events, protects, n), SlotsAt(events, n);
    forall j | i < j < |slots| ensures !Saves(log, w, slots[j], c) {
      assert !SavesAt(events, protects, n, j, c);
    }
    assert LastSave(log, w, slots, c, i);
  }

  lemma SavedBefore(events: seq<Event>, protects: nat -> bool, m: nat, i: nat, c: int)
    requires Continues(events, protects, c) && m < |events| - 1 && LastSaveAt(events, protects, m, i, c)
    ensures var mem := Run(events, protects).world.mem;
            c in mem && mem[c] == WordsAt(events, protects, m).mem[SlotsAt(events, m)[i].addr]
  {
    var v := WordOfPrefix(events, protects, m, i, c);
    NothingLater(events, protects, m, i, c, |events| - 1);
    KeptByLastEvent(events, protects, c);
  }

  lemma WordOfPrefix(events: seq<Event>, protects: nat -> bool, m: nat, i: nat, c: int) returns (v: int)
    requires Continues(events, protects, c) && m < |events| - 1 && LastSaveAt(events, protects, m, i, c)
    ensures v == WordsAt(events, protects, m).mem[SlotsAt(events, m)[i].addr]
    ensures var mem := Run(events[..|events| - 1], protects).world.mem;
            c in mem && mem[c] == v
  {
    LastSaveOfPrefix(events, protects, m, i, c);
    SameBefore(events, protects, m);
    v := WordsAt(events, protects, m).mem[SlotsAt(events, m)[i].addr];
  }

  ghost predicate NothingSaved(events: seq<Event>, protects: nat -> bool, n: nat, c: int) {
    forall j :: !SavesAt(events, protects, n, j, c)
  }

  lemma NothingLater(events: seq<Event>, protects: nat -> bool, m: nat, i: nat, c: int, n: nat)
    requires LastSaveAt(events, protects, m, i, c) && m < n
    ensures NothingSaved(events, protects, n, c)
  {
  }

  lemma KeptByLastEvent(events: seq<Event>, protects: nat -> bool, c: int)
    requires Continues(events, protects, c) && NothingSaved(events, protects, |events| - 1, c)
    ensures SameAt(Run(events[..|events| - 1], protects).world.mem, Run(events, protects).world.mem, c)
  {
    NoSaveInEvent(events, protects, |events| - 1, c);
  }

  lemma SameBefore(events: seq<Event>, protects: nat -> bool, m: nat)
    requires m < |events| - 1
    ensures WordsAt(events, protects, m) == WordsAt(events[..|events| - 1], protects, m)
    ensures SlotsAt(events, m) == SlotsAt(events[..|events| - 1], m)
  {
    assert events[..|events| - 1][..m] == events[..m];
  }

  lemma NoSaveInEvent(events: seq<Event>, protects: nat -> bool, n: nat, c: int)
    requires n < |events| && NothingSaved(events, protects, n, c)
    ensures NoSave(LogAt(events, n), WordsAt(events, protects, n), SlotsAt(events, n), c)
  {
    var log, w, slots := LogAt(events, n), WordsAt(events, protects, n), SlotsAt(events, n);
    forall j | 0 <= j < |slots| ensures !Saves(log, w, slots[j], c) {
      assert !SavesAt(events, protects, n, j, c);
    }
  }

  lemma NeverSaved(events: seq<Event>, protects: nat -> bool, c: int)
    requires Continues(events, protects, c) && forall m, i :: !SavesAt(events, protects, m, i, c)
    ensures c !in Run(events, protects).world.mem
  {
    var n := |events| - 1;
    KeptByLastEvent(events, protects, c);
    forall m, i ensures !SavesAt(events[..n], protects, m, i, c) {
      if m < n {
        PrefixSaves(events, protects, m, i, c);
      }
    }
  }

  lemma LastSaveOfPrefix(events: seq<Event>, protects: nat -> bool, m: int, i: int, c: int)
    requires events != [] && m < |events| - 1 && LastSaveAt(events, protects, m, i, c)
    ensures LastSaveAt(events[..|events| - 1], protects, m, i, c)
  {
    var init := events[..|events| - 1];
    PrefixSaves(events, protects, m, i, c);
    forall m', i' | m < m' || (m == m' && i < i') ensures !SavesAt(init, protects, m', i', c) {
      if m' < |init| {
        PrefixSaves(events, protects, m', i', c);
      }
    }
  }
}
