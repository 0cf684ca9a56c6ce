// Whole executions of the rebinding engine: any sequence of calls and image
// loads, carried out by one process, is the corresponding run on values.
module Execution {
  import opened Common
  import opened Rebindings
  import opened Passes
  import opened Precedence
  import opened Fishhook

  // An event of a run, or a call that rebinds the n-th loaded image from a private list.
  datatype Call = Global(event: Event) | Private(image: nat, batch: Batch)

  function CallStep(s: State, c: Call, protects: nat -> bool): State {
    match c
    case Global(e) => Step(s, e, protects)
    case Private(n, batch) =>
      if n < |s.images| then s.(world := Pass([batch], protects, s.world, TargetSlots(s.images[n]))) else s
  }

  function RunCalls(calls: seq<Call>, protects: nat -> bool): State {
    if calls == [] then Initial
    else CallStep(RunCalls(calls[..|calls| - 1], protects), calls[|calls| - 1], protects)
  }

  function GlobalEvents(calls: seq<Call>): seq<Event> {
    if calls == [] then []
    else
      var c := calls[|calls| - 1];
      GlobalEvents(calls[..|calls| - 1]) + (if c.Global? then [c.event] else [])
  }

  // Private lists change neither the global log nor the images nor the registration.
  lemma {:induction false} PrivateCallsKeepLog(calls: seq<Call>, protects: nat -> bool)
    ensures RunCalls(calls, protects).log == Batches(GlobalEvents(calls))
    ensures RunCalls(calls, protects).images == Loaded(GlobalEvents(calls))
    ensures RunCalls(calls, protects).registrations == if Batches(GlobalEvents(calls)) == [] then 0 else 1
  {
    if calls != [] {
      var init, c := calls[..|calls| - 1], calls[|calls| - 1];
      PrivateCallsKeepLog(init, protects);
      if c.Global? {
        EventSnoc(GlobalEvents(init), c.event);
      } else {
        assert GlobalEvents(init) + [] == GlobalEvents(init);
      }
    }
  }

  // The slot follows the first rebinding of its symbol in the batch, and stays if
  // the batch does not name it.
  ghost predicate FollowsBatch(batch: Batch, slot: Slot, mem: map<int, int>, mem': map<int, int>) {
    && slot.addr in mem && slot.addr in mem'
    && (forall j :: FirstNaming(batch, slot.name, j) ==> mem'[slot.addr] == batch[j].replacement)
    && ((forall j :: 0 <= j < |batch| ==> slot.name != Some(batch[j].name)) ==> mem'[slot.addr] == mem[slot.addr])
  }

  // What a private list does when the requests of the call succeed, whatever the
  // global list says: the slots of that image follow its batch, and all other
  // words but its replaced cells stay.
  lemma PrivateCallEffect(s: State, n: nat, batch: Batch, protects: nat -> bool)
    requires n < |s.images| && CellsApart([batch], TargetSlots(s.images[n]))
    requires MappedIn(TargetSlots(s.images[n]), s.world.mem)
    requires forall k: nat :: s.world.calls <= k ==> protects(k)
    ensures var slots, s' := TargetSlots(s.images[n]), CallStep(s, Private(n, batch), protects);
            && (forall i :: 0 <= i < |slots| ==> FollowsBatch(batch, slots[i], s.world.mem, s'.world.mem))
            && (forall a :: a in s.world.mem && !IsSlot(slots, a) && !IsCell([batch], a) ==>
                  a in s'.world.mem && s'.world.mem[a] == s.world.mem[a])
            && s'.log == s.log && s'.images == s.images && s'.registrations == s.registrations
  {
    var slots := TargetSlots(s.images[n]);
    PassFrame([batch], protects, s.world, slots);
    forall i | 0 <= i < |slots|
      ensures FollowsBatch(batch, slots[i], s.world.mem, Pass([batch], protects, s.world, slots).mem)
    {
      SlotFollowsBatch(batch, protects, s.world, slots, i);
    }
  }

  lemma SlotFollowsBatch(batch: Batch, protects: nat -> bool, w: World, slots: seq<Slot>, i: nat)
    requires CellsApart([batch], slots) && MappedIn(slots, w.mem) && i < |slots|
    requires forall k: nat :: w.calls <= k ==> protects(k)
    ensures FollowsBatch(batch, slots[i], w.mem, Pass([batch], protects, w, slots).mem)
  {
    SlotExactly([batch], protects, w, slots, i);
    BatchDecides(batch, slots[i]);
  }

  lemma BatchDecides(batch: Batch, slot: Slot)
    ensures forall j :: FirstNaming(batch, slot.name, j) ==> Decide([batch], slot) == Some(Position(0, j))
    ensures (forall j :: 0 <= j < |batch| ==> slot.name != Some(batch[j].name)) ==> Decide([batch], slot) == None
  {
    forall j | FirstNaming(batch, slot.name, j) ensures Decide([batch], slot) == Some(Position(0, j)) {
      NewestDecides([batch], slot.name.value, 0, j);
    }
  }

  ghost predicate OnlyGlobal(calls: seq<Call>) {
    forall k :: 0 <= k < |calls| ==> calls[k].Global?
  }

  // Without private lists a sequence of calls is a run.
  lemma {:induction false} GlobalCallsAreRun(calls: seq<Call>, protects: nat -> bool)
    requires OnlyGlobal(calls)
    ensures RunCalls(calls, protects) == Run(GlobalEvents(calls), protects)
  {
    if calls != [] {
      var init, c := calls[..|calls| - 1], calls[|calls| - 1];
      GlobalCallsAreRun(init, protects);
      EventSnoc(GlobalEvents(init), c.event);
    }
  }

  // ---------- What callers provide ----------

  ghost predicate LoadOk(img: Image) {
    ImageOk(img) && MappedIn(TargetSlots(img), img.initial)
  }

  // A call that can be made when n images have been loaded.
  ghost predicate CallOk(n: nat, c: Call) {
    match c
    case Global(Rebind(_)) => true
    case Global(Load(img)) => LoadOk(img)
    case Private(image, _) => image < n
  }

  ghost predicate CallsOk(calls: seq<Call>) {
    forall k :: 0 <= k < |calls| ==> CallOk(|Loaded(GlobalEvents(calls[..k]))|, calls[k])
  }

  // ---------- Heap use ----------

  // The blocks that a call allocates: a list entry and a copy of the array.
  function CallSizes(c: Call): seq<nat> {
    match c
    case Global(Load(_)) => []
    case Global(Rebind(batch)) => [ENTRY_BYTES, REBINDING_BYTES * |batch|]
    case Private(_, batch) => [ENTRY_BYTES, REBINDING_BYTES * |batch|]
  }

  function Sizes(calls: seq<Call>): seq<nat> {
    if calls == [] then [] else Sizes(calls[..|calls| - 1]) + CallSizes(calls[|calls| - 1])
  }

  lemma {:induction false} SumAppend(a: seq<nat>, b: seq<nat>)
    ensures Sum(a + b) == Sum(a) + Sum(b)
  {
    if a == [] {
      assert a + b == b;
    } else {
      assert (a + b)[1..] == a[1..] + b;
      SumAppend(a[1..], b);
    }
  }

  lemma CallSum(c: Call)
    ensures Sum(CallSizes(c))
         == match c
            case Global(Load(_)) => 0
            case Global(Rebind(batch)) => ENTRY_BYTES + REBINDING_BYTES * |batch|
            case Private(_, batch) => ENTRY_BYTES + REBINDING_BYTES * |batch|
  {
    var s := CallSizes(c);
    if s != [] {
      assert s[1..] == [s[1]] && s[1..][1..] == [];
      assert Sum([s[1]]) == s[1];
    }
  }

  lemma {:induction false} SizesGrow(calls: seq<Call>, k: nat)
    requires k <= |calls|
    ensures Sum(Sizes(calls[..k])) <= Sum(Sizes(calls))
  {
    if k == |calls| {
      assert calls[..k] == calls;
    } else {
      var init := calls[..|calls| - 1];
      assert init[..k] == calls[..k];
      SizesGrow(init, k);
      SumAppend(Sizes(init), CallSizes(calls[|calls| - 1]));
    }
  }

  // s is the state after the first k calls, and used what they take from the heap.
  ghost predicate Reached(calls: seq<Call>, k: nat, protects: nat -> bool, s: State, used: nat) {
    k <= |calls| && s == RunCalls(calls[..k], protects) && used == Sum(Sizes(calls[..k]))
  }

  ghost predicate TooLarge(calls: seq<Call>, k: nat) {
    k < |calls| && Sum(Sizes(calls[..k + 1])) > HEAP_BYTES
  }

  lemma NextCall(calls: seq<Call>, k: nat, protects: nat -> bool, s: State, used: nat) returns (s': State, used': nat)
    requires CallsOk(calls) && k < |calls| && Reached(calls, k, protects, s, used)
    ensures CallOk(|s.images|, calls[k])
    ensures s' == CallStep(s, calls[k], protects) && used' == used + Sum(CallSizes(calls[k]))
    ensures Reached(calls, k + 1, protects, s', used')
    ensures used' > HEAP_BYTES ==> TooLarge(calls, k)
  {
    assert calls[..k + 1][..k] == calls[..k];
    SumAppend(Sizes(calls[..k]), CallSizes(calls[k]));
    PrivateCallsKeepLog(calls[..k], protects);
    s', used' := RunCalls(calls[..k + 1], protects), Sum(Sizes(calls[..k + 1]));
  }

  // ---------- Executions ----------

  // One call on a process; it does not fit exactly when its blocks do not.
  method Perform(p: Process, c: Call) returns (fits: bool)
    requires p.Valid() && CallOk(|p.images|, c)
    modifies p
    ensures p.Valid()
    ensures fits <==> old(p.cur) + Sum(CallSizes(c)) <= HEAP_BYTES
    ensures fits ==> p.cur == old(p.cur) + Sum(CallSizes(c))
    ensures fits ==> p.Abs() == CallStep(old(p.Abs()), c, p.protects)
    ensures !fits ==> p.Abs() == old(p.Abs())
  {
    CallSum(c);
    match c
    case Global(Rebind(batch)) =>
      var r := p.RebindSymbols(batch);
      fits := r.Some?;
    case Global(Load(img)) =>
      p.LoadImage(img);
      fits := true;
    case Private(n, batch) =>
      assert p.SlotsMapped(p.images[n]);
      var r := p.RebindSymbolsImage(p.images[n], batch);
      fits := r.Some?;
  }

  // A new process carries out the calls in order, until one aborts.  Its state is
  // that of the run on values; the global list holds exactly the batches of the
  // global calls; and it gets to the end exactly when all blocks fit.
  method Execute(calls: seq<Call>, protection: nat -> bool) returns (p: Process, done: nat)
    requires CallsOk(calls)
    ensures fresh(p) && p.Valid() && done <= |calls|
    ensures p.Abs() == RunCalls(calls[..done], protection)
    ensures p.Log() == Batches(GlobalEvents(calls[..done]))
    ensures OnlyGlobal(calls[..done]) ==>
              p.Abs() == Run(GlobalEvents(calls[..done]), protection)
    ensures done == |calls| <==> Sum(Sizes(calls)) <= HEAP_BYTES
    ensures done == |calls| <==> Allocate(Sizes(calls), 0).Some?
  {
    p := new Process(protection);
    done := 0;
    var fits := true;
    ghost var s, used := Initial, 0;
    while done < |calls| && fits
      invariant fresh(p) && p.Valid() && p.protects == protection
      invariant p.Abs() == s && Reached(calls, done, protection, s, used)
      invariant if fits then p.cur == used else TooLarge(calls, done)
      decreases |calls| - done, fits
    {
      ghost var s', used' := NextCall(calls, done, protection, s, used);
      fits := Perform(p, calls[done]);
      if fits {
        done, s, used := done + 1, s', used';
      }
    }
    StateAfter(calls[..done], protection);
    AllocationFits(Sizes(calls), 0);
    if fits {
      assert calls[..done] == calls;
    } else {
      TooLargeInAll(calls, done);
    }
  }

  lemma StateAfter(calls: seq<Call>, protects: nat -> bool)
    ensures RunCalls(calls, protects).log == Batches(GlobalEvents(calls))
    ensures OnlyGlobal(calls) ==> RunCalls(calls, protects) == Run(GlobalEvents(calls), protects)
  {
    PrivateCallsKeepLog(calls, protects);
    if OnlyGlobal(calls) {
      GlobalCallsAreRun(calls, protects);
    }
  }

  lemma TooLargeInAll(calls: seq<Call>, k: nat)
    requires TooLarge(calls, k)
    ensures Sum(Sizes(calls)) > HEAP_BYTES
  {
    SizesGrow(calls, k + 1);
  }
}
