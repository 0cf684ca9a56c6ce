// What one pass over a sequence of slots does: the requests it makes, the word
// every slot ends with, and what it leaves alone.
module Passes {
  import opened Common
  import opened Rebindings

  // ---------- The exact effect of one pass ----------

  ghost predicate CellsApart(log: seq<Batch>, slots: seq<Slot>) {
    && DistinctSlots(slots)
    && forall i :: 0 <= i < |slots| ==> !IsCell(log, slots[i].addr)
  }

  // A request to make the page of a slot writable, for the replacement that
  // decides the slot.
  datatype Request = Request(addr: int, replacement: int)

  function StepRequests(log: seq<Batch>, slot: Slot): seq<Request> {
    match Decide(log, slot)
    case None => []
    case Some(p) => [Request(slot.addr, At(log, p).replacement)]
  }

  // The requests of a pass: one for each slot that some rebinding decides.
  function PassRequests(log: seq<Batch>, slots: seq<Slot>): seq<Request> {
    if slots == [] then []
    else PassRequests(log, slots[..|slots| - 1]) + StepRequests(log, slots[|slots| - 1])
  }

  // The word in a slot that held word, after its step made request number k if it
  // makes one: the deciding replacement if the request succeeded, otherwise word.
  function AfterStep(log: seq<Batch>, protects: nat -> bool, k: nat, slot: Slot, word: int): int {
    var p := Decide(log, slot);
    if p.Some? && protects(k) then At(log, p.value).replacement else word
  }

  // The word in slot i, which held word, after a pass that starts when calls
  // requests have been made: its request follows those of the slots before it.
  function AfterPass(log: seq<Batch>, protects: nat -> bool, calls: nat, slots: seq<Slot>, i: nat, word: int): int
    requires i < |slots|
  {
    AfterStep(log, protects, calls + |PassRequests(log, slots[..i])|, slots[i], word)
  }

  ghost predicate IsSlot(slots: seq<Slot>, a: int) {
    exists i :: 0 <= i < |slots| && slots[i].addr == a
  }

  lemma IsSlotPrefix(a: seq<Slot>, b: seq<Slot>, x: int)
    ensures IsSlot(a + b, x) <==> IsSlot(a, x) || IsSlot(b, x)
  {
    if i :| 0 <= i < |a| && a[i].addr == x {
      assert (a + b)[i].addr == x;
    }
    if i :| 0 <= i < |b| && b[i].addr == x {
      assert (a + b)[|a| + i].addr == x;
    }
  }

  // A pass makes one request per decided slot, loses no word, and changes only
  // slots and replaced cells.
  lemma {:induction false} PassFrame(log: seq<Batch>, protects: nat -> bool, w: World, slots: seq<Slot>)
    requires MappedIn(slots, w.mem)
    ensures var w' := Pass(log, protects, w, slots);
            && w'.calls == w.calls + |PassRequests(log, slots)|
            && (forall a :: a in w.mem ==> a in w'.mem)
            && (forall a :: !IsSlot(slots, a) && !IsCell(log, a) ==>
                  (a in w'.mem <==> a in w.mem) && (a in w.mem ==> w'.mem[a] == w.mem[a]))
  {
    if slots != [] {
      var n := |slots| - 1;
      var init, slot := slots[..n], slots[n];
      assert slots == init + [slot];
      PassFrame(log, protects, w, init);
      StepFrame(log, protects, Pass(log, protects, w, init), slot);
      forall a | !IsSlot(slots, a) ensures !IsSlot(init, a) && slot.addr != a {
        IsSlotPrefix(init, [slot], a);
        assert slots[n].addr == a ==> IsSlot(slots, a);
      }
    }
  }

  lemma StepFrame(log: seq<Batch>, protects: nat -> bool, w: World, slot: Slot)
    requires slot.addr in w.mem
    ensures var w' := SlotStep(log, protects, w, slot);
            && w'.calls == w.calls + (if Decide(log, slot).Some? then 1 else 0)
            && (forall a :: a in w.mem ==> a in w'.mem)
            && (forall a :: a != slot.addr && !IsCell(log, a) ==>
                  (a in w'.mem <==> a in w.mem) && (a in w.mem ==> w'.mem[a] == w.mem[a]))
  {
    var p := Decide(log, slot);
    if p.Some? && At(log, p.value).replaced.Some? {
      assert IsCell(log, At(log, p.value).replaced.value);
    }
  }

  ghost predicate AllForSlots(reqs: seq<Request>, slots: seq<Slot>) {
    forall k :: 0 <= k < |reqs| ==> IsSlot(slots, reqs[k].addr)
  }

  lemma ForMoreSlots(r1: seq<Request>, s1: seq<Slot>, r2: seq<Request>, s2: seq<Slot>)
    requires AllForSlots(r1, s1) && AllForSlots(r2, s2)
    ensures AllForSlots(r1 + r2, s1 + s2)
  {
    forall k | 0 <= k < |r1 + r2| ensures IsSlot(s1 + s2, (r1 + r2)[k].addr) {
      IsSlotPrefix(s1, s2, (r1 + r2)[k].addr);
    }
  }

  lemma {:induction false} PassRequestsForSlots(log: seq<Batch>, slots: seq<Slot>)
    ensures AllForSlots(PassRequests(log, slots), slots)
  {
    if slots != [] {
      var init, slot := slots[..|slots| - 1], slots[|slots| - 1];
      PassRequestsForSlots(log, init);
      assert slots == init + [slot];
      assert IsSlot([slot], slot.addr) by { assert [slot][0] == slot; }
      ForMoreSlots(PassRequests(log, init), init, StepRequests(log, slot), [slot]);
    }
  }

  ghost predicate NoRequest(reqs: seq<Request>, a: int) {
    forall k :: 0 <= k < |reqs| ==> reqs[k].addr != a
  }

  lemma NotRequested(log: seq<Batch>, slots: seq<Slot>, a: int)
    requires !IsSlot(slots, a)
    ensures NoRequest(PassRequests(log, slots), a)
  {
    PassRequestsForSlots(log, slots);
  }

  lemma StepWrites(log: seq<Batch>, protects: nat -> bool, w: World, slot: Slot)
    requires slot.addr in w.mem && !IsCell(log, slot.addr)
    ensures SlotStep(log, protects, w, slot).mem[slot.addr]
         == AfterStep(log, protects, w.calls, slot, w.mem[slot.addr])
  {
  }

  // ---------- The word at an address after some requests ----------

  // The word at a after the first n requests, which are numbered from first; word
  // is what was there before.
  function LatestOf(reqs: seq<Request>, n: nat, first: nat, protects: nat -> bool, a: int, word: int): int
    requires n <= |reqs|
  {
    if n == 0 then word
    else if reqs[n - 1].addr == a && protects(first + n - 1) then reqs[n - 1].replacement
    else LatestOf(reqs, n - 1, first, protects, a, word)
  }

  function Latest(reqs: seq<Request>, first: nat, protects: nat -> bool, a: int, word: int): int {
    LatestOf(reqs, |reqs|, first, protects, a, word)
  }

  lemma {:induction false} LatestPrefix(r1: seq<Request>, r2: seq<Request>, n: nat, first: nat, protects: nat -> bool,
                                        a: int, word: int)
    requires n <= |r1|
    ensures LatestOf(r1 + r2, n, first, protects, a, word) == LatestOf(r1, n, first, protects, a, word)
  {
    if n > 0 {
      LatestPrefix(r1, r2, n - 1, first, protects, a, word);
    }
  }

  lemma {:induction false} LatestSuffix(r1: seq<Request>, r2: seq<Request>, n: nat, first: nat, protects: nat -> bool,
                                        a: int, word: int)
    requires n <= |r2|
    ensures LatestOf(r1 + r2, |r1| + n, first, protects, a, word)
         == LatestOf(r2, n, first + |r1|, protects, a, Latest(r1, first, protects, a, word))
  {
    if n == 0 {
      LatestPrefix(r1, r2, |r1|, first, protects, a, word);
    } else {
      assert (r1 + r2)[|r1| + n - 1] == r2[n - 1];
      LatestSuffix(r1, r2, n - 1, first, protects, a, word);
    }
  }

  lemma LatestAppend(r1: seq<Request>, r2: seq<Request>, first: nat, protects: nat -> bool, a: int, word: int)
    ensures Latest(r1 + r2, first, protects, a, word)
         == Latest(r2, first + |r1|, protects, a, Latest(r1, first, protects, a, word))
  {
    LatestSuffix(r1, r2, |r2|, first, protects, a, word);
  }

  lemma {:induction false} LatestUntouched(reqs: seq<Request>, n: nat, first: nat, protects: nat -> bool,
                                           a: int, word: int)
    requires n <= |reqs| && NoRequest(reqs, a)
    ensures LatestOf(reqs, n, first, protects, a, word) == word
  {
    if n > 0 {
      LatestUntouched(reqs, n - 1, first, protects, a, word);
    }
  }

  lemma LatestOfStep(log: seq<Batch>, slot: Slot, first: nat, protects: nat -> bool, a: int, word: int)
    ensures Latest(StepRequests(log, slot), first, protects, a, word)
         == if slot.addr == a then AfterStep(log, protects, first, slot, word) else word
  {
    var reqs := StepRequests(log, slot);
    assert LatestOf(reqs, 0, first, protects, a, word) == word;
  }

  // The word at a after the requests reqs, numbered from first.
  ghost predicate Holds(w: World, a: int, reqs: seq<Request>, first: nat, protects: nat -> bool, word: int) {
    a in w.mem && w.mem[a] == Latest(reqs, first, protects, a, word)
  }

  lemma HoldsAppend(w1: World, w2: World, a: int, r1: seq<Request>, r2: seq<Request>, first: nat,
                    protects: nat -> bool, word: int)
    requires Holds(w1, a, r1, first, protects, word)
    requires Holds(w2, a, r2, first + |r1|, protects, w1.mem[a])
    ensures Holds(w2, a, r1 + r2, first, protects, word)
  {
    LatestAppend(r1, r2, first, protects, a, word);
  }

  lemma {:induction false} PassHolds(log: seq<Batch>, protects: nat -> bool, w: World, slots: seq<Slot>, a: int)
    requires MappedIn(slots, w.mem) && a in w.mem && !IsCell(log, a)
    ensures Holds(Pass(log, protects, w, slots), a, PassRequests(log, slots), w.calls, protects, w.mem[a])
  {
    if slots != [] {
      var init, slot := slots[..|slots| - 1], slots[|slots| - 1];
      PassHolds(log, protects, w, init, a);
      PassCounts(log, protects, w, init);
      NextHolds(log, protects, Pass(log, protects, w, init), slot, a, PassRequests(log, init), w.calls, w.mem[a]);
    }
  }

  lemma NextHolds(log: seq<Batch>, protects: nat -> bool, w: World, slot: Slot, a: int,
                  reqs: seq<Request>, calls: nat, word: int)
    requires Holds(w, a, reqs, calls, protects, word) && w.calls == calls + |reqs|
    requires slot.addr in w.mem && !IsCell(log, a)
    ensures Holds(SlotStep(log, protects, w, slot), a, reqs + StepRequests(log, slot), calls, protects, word)
  {
    StepHolds(log, protects, w, slot, a);
    HoldsAppend(w, SlotStep(log, protects, w, slot), a, reqs, StepRequests(log, slot), calls, protects, word);
  }

  lemma PassCounts(log: seq<Batch>, protects: nat -> bool, w: World, slots: seq<Slot>)
    requires MappedIn(slots, w.mem)
    ensures w.mem.Keys <= Pass(log, protects, w, slots).mem.Keys
    ensures Pass(log, protects, w, slots).calls == w.calls + |PassRequests(log, slots)|
  {
    PassFrame(log, protects, w, slots);
  }

  lemma StepHolds(log: seq<Batch>, protects: nat -> bool, w: World, slot: Slot, a: int)
    requires slot.addr in w.mem && a in w.mem && !IsCell(log, a)
    ensures Holds(SlotStep(log, protects, w, slot), a, StepRequests(log, slot), w.calls, protects, w.mem[a])
  {
    StepFrame(log, protects, w, slot);
    LatestOfStep(log, slot, w.calls, protects, a, w.mem[a]);
    if a == slot.addr {
      StepWrites(log, protects, w, slot);
    }
  }

  // ---------- What every slot holds after a pass ----------

  // The other slots of the pass make no request for the address of slot i.
  ghost predicate OwnRequestOnly(log: seq<Batch>, slots: seq<Slot>, i: nat)
    requires i < |slots|
  {
    && NoRequest(PassRequests(log, slots[..i]), slots[i].addr)
    && NoRequest(PassRequests(log, slots[i + 1..]), slots[i].addr)
  }

  lemma DistinctRequests(log: seq<Batch>, slots: seq<Slot>, i: nat)
    requires DistinctSlots(slots) && i < |slots|
    ensures OwnRequestOnly(log, slots, i)
  {
    NotRequested(log, slots[..i], slots[i].addr);
    NotRequested(log, slots[i + 1..], slots[i].addr);
  }

  lemma LatestStep(reqs: seq<Request>, log: seq<Batch>, protects: nat -> bool, calls: nat, slot: Slot,
                   a: int, word: int)
    ensures Latest(reqs + StepRequests(log, slot), calls, protects, a, word)
         == if slot.addr == a
            then AfterStep(log, protects, calls + |reqs|, slot, Latest(reqs, calls, protects, a, word))
            else Latest(reqs, calls, protects, a, word)
  {
    LatestAppend(reqs, StepRequests(log, slot), calls, protects, a, word);
    LatestOfStep(log, slot, calls + |reqs|, protects, a, Latest(reqs, calls, protects, a, word));
  }

  // Requests for other addresses before and after the step of a slot do not matter.
  lemma OnlyOwnRequest(w: World, reqs: seq<Request>, r1: seq<Request>, log: seq<Batch>, slot: Slot, r2: seq<Request>,
                       protects: nat -> bool, calls: nat, word: int)
    requires NoRequest(r1, slot.addr) && NoRequest(r2, slot.addr) && reqs == r1 + StepRequests(log, slot) + r2
    requires Holds(w, slot.addr, reqs, calls, protects, word)
    ensures w.mem[slot.addr] == AfterStep(log, protects, calls + |r1|, slot, word)
  {
    var r := r1 + StepRequests(log, slot);
    LatestUntouched(r1, |r1|, calls, protects, slot.addr, word);
    LatestStep(r1, log, protects, calls, slot, slot.addr, word);
    LatestAppend(r, r2, calls, protects, slot.addr, word);
    LatestUntouched(r2, |r2|, calls + |r|, protects, slot.addr, Latest(r, calls, protects, slot.addr, word));
  }

  lemma {:induction false} PassRequestsAppend(log: seq<Batch>, a: seq<Slot>, b: seq<Slot>)
    ensures PassRequests(log, a + b) == PassRequests(log, a) + PassRequests(log, b)
  {
    if b == [] {
      assert a + b == a;
    } else {
      var init, slot := b[..|b| - 1], b[|b| - 1];
      assert (a + b)[..|a + b| - 1] == a + init && (a + b)[|a + b| - 1] == slot;
      PassRequestsAppend(log, a, init);
      Assoc(PassRequests(log, a), PassRequests(log, init), StepRequests(log, slot));
    }
  }

  lemma RequestsSplit(log: seq<Batch>, slots: seq<Slot>, i: nat)
    requires i < |slots|
    ensures PassRequests(log, slots)
         == PassRequests(log, slots[..i]) + StepRequests(log, slots[i]) + PassRequests(log, slots[i + 1..])
  {
    assert slots == slots[..i + 1] + slots[i + 1..];
    assert slots[..i + 1][..i] == slots[..i];
    PassRequestsAppend(log, slots[..i + 1], slots[i + 1..]);
  }

  // What the pass leaves at slot i, by its requests before and after that slot.
  lemma PassAround(log: seq<Batch>, protects: nat -> bool, w: World, slots: seq<Slot>, i: nat)
    returns (reqs: seq<Request>, r1: seq<Request>, r2: seq<Request>)
    requires DistinctSlots(slots) && MappedIn(slots, w.mem) && i < |slots| && !IsCell(log, slots[i].addr)
    ensures Holds(Pass(log, protects, w, slots), slots[i].addr, reqs, w.calls, protects, w.mem[slots[i].addr])
    ensures reqs == r1 + StepRequests(log, slots[i]) + r2 && |r1| == |PassRequests(log, slots[..i])|
    ensures NoRequest(r1, slots[i].addr) && NoRequest(r2, slots[i].addr)
  {
    PassHolds(log, protects, w, slots, slots[i].addr);
    RequestsSplit(log, slots, i);
    DistinctRequests(log, slots, i);
    reqs, r1, r2 := PassRequests(log, slots), PassRequests(log, slots[..i]), PassRequests(log, slots[i + 1..]);
  }

  lemma SlotExactly(log: seq<Batch>, protects: nat -> bool, w: World, slots: seq<Slot>, i: nat)
    requires DistinctSlots(slots) && MappedIn(slots, w.mem) && i < |slots| && !IsCell(log, slots[i].addr)
    ensures slots[i].addr in Pass(log, protects, w, slots).mem
    ensures Pass(log, protects, w, slots).mem[slots[i].addr]
                == AfterPass(log, protects, w.calls, slots, i, w.mem[slots[i].addr])
  {
    var reqs, r1, r2 := PassAround(log, protects, w, slots, i);
    OnlyOwnRequest(Pass(log, protects, w, slots), reqs, r1, log, slots[i], r2, protects, w.calls, w.mem[slots[i].addr]);
  }

  // After a pass over distinct slots every slot holds the word described above.
  lemma PassExactly(log: seq<Batch>, protects: nat -> bool, w: World, slots: seq<Slot>)
    requires CellsApart(log, slots) && MappedIn(slots, w.mem)
    ensures MappedIn(slots, Pass(log, protects, w, slots).mem)
    ensures forall i :: 0 <= i < |slots| ==>
              Pass(log, protects, w, slots).mem[slots[i].addr]
                == AfterPass(log, protects, w.calls, slots, i, w.mem[slots[i].addr])
  {
    forall i | 0 <= i < |slots|
      ensures slots[i].addr in Pass(log, protects, w, slots).mem
      ensures Pass(log, protects, w, slots).mem[slots[i].addr]
                == AfterPass(log, protects, w.calls, slots, i, w.mem[slots[i].addr])
    {
      SlotExactly(log, protects, w, slots, i);
    }
  }

  // ---------- Running a pass again ----------

  ghost predicate Settled(log: seq<Batch>, mem: map<int, int>, slot: Slot) {
    Decide(log, slot).Some? && slot.addr in mem ==> mem[slot.addr] == At(log, Decide(log, slot).value).replacement
  }

  // A pass over settled slots changes no word, even if some request fails.
  lemma {:induction false} PassOverSettled(log: seq<Batch>, protects: nat -> bool, w: World, slots: seq<Slot>)
    requires forall i :: 0 <= i < |slots| ==> Settled(log, w.mem, slots[i])
    ensures Pass(log, protects, w, slots).mem == w.mem
  {
    if slots != [] {
      var n := |slots| - 1;
      PassOverSettled(log, protects, w, slots[..n]);
      assert Settled(log, w.mem, slots[n]);
    }
  }

  // Repeating a pass after one whose requests all succeeded changes no slot and no replaced cell.
  lemma PassIdempotent(log: seq<Batch>, protects: nat -> bool, w: World, slots: seq<Slot>)
    requires CellsApart(log, slots) && MappedIn(slots, w.mem)
    requires forall k :: w.calls <= k < w.calls + |PassRequests(log, slots)| ==> protects(k)
    ensures var w' := Pass(log, protects, w, slots);
            Pass(log, protects, w', slots).mem == w'.mem
  {
    var w' := Pass(log, protects, w, slots);
    PassExactly(log, protects, w, slots);
    forall i | 0 <= i < |slots| ensures Settled(log, w'.mem, slots[i]) {
      if Decide(log, slots[i]).Some? {
        RequestedBefore(log, slots, i);
      }
    }
    PassOverSettled(log, protects, w', slots);
  }

  lemma RequestedBefore(log: seq<Batch>, slots: seq<Slot>, i: nat)
    requires i < |slots| && Decide(log, slots[i]).Some?
    ensures |PassRequests(log, slots[..i])| < |PassRequests(log, slots)|
  {
    assert slots[..i + 1][..i] == slots[..i];
    RequestsGrow(log, slots, i + 1);
  }

  lemma {:induction false} RequestsGrow(log: seq<Batch>, slots: seq<Slot>, i: nat)
    requires i <= |slots|
    ensures |PassRequests(log, slots[..i])| <= |PassRequests(log, slots)|
  {
    if i == |slots| {
      assert slots[..i] == slots;
    } else {
      assert slots[..|slots| - 1][..i] == slots[..i];
      RequestsGrow(log, slots[..|slots| - 1], i);
    }
  }
}
