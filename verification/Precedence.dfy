// Later rebindings take precedence in every image, loaded before or after.
module Precedence {
  import opened Common
  import opened Rebindings
  import opened Passes
  import opened Requests

  // ---------- The last request for a slot ----------

  ghost predicate LastRequest(reqs: seq<Request>, a: int, k: int) {
    0 <= k < |reqs| && reqs[k].addr == a && forall k' :: k < k' < |reqs| ==> reqs[k'].addr != a
  }

  // The last request for the slot is for the replacement that decides it by this
  // log; there is none if nothing does.
  ghost predicate Reflects(reqs: seq<Request>, log: seq<Batch>, slot: Slot) {
    match Decide(log, slot)
    case None => NoRequest(reqs, slot.addr)
    case Some(p) =>
      exists k :: LastRequest(reqs, slot.addr, k) && reqs[k].replacement == At(log, p).replacement
  }

  lemma ReflectsBefore(r1: seq<Request>, r2: seq<Request>, log: seq<Batch>, slot: Slot)
    requires Reflects(r1, log, slot) && NoRequest(r2, slot.addr)
    ensures Reflects(r1 + r2, log, slot)
  {
    if Decide(log, slot).Some? {
      var replacement := At(log, Decide(log, slot).value).replacement;
      var k :| LastRequest(r1, slot.addr, k) && r1[k].replacement == replacement;
      assert LastRequest(r1 + r2, slot.addr, k);
    }
  }

  lemma ReflectsAfter(r1: seq<Request>, r2: seq<Request>, log: seq<Batch>, slot: Slot)
    requires Reflects(r2, log, slot)
    requires Decide(log, slot).None? ==> NoRequest(r1, slot.addr)
    ensures Reflects(r1 + r2, log, slot)
  {
    if Decide(log, slot).Some? {
      var replacement := At(log, Decide(log, slot).value).replacement;
      var k :| LastRequest(r2, slot.addr, k) && r2[k].replacement == replacement;
      assert LastRequest(r1 + r2, slot.addr, |r1| + k);
    }
  }

  lemma PassReflects(log: seq<Batch>, slots: seq<Slot>, i: nat)
    requires i < |slots| && OwnRequestOnly(log, slots, i)
    ensures Reflects(PassRequests(log, slots), log, slots[i])
  {
    var r1, r2 := PassRequests(log, slots[..i]), PassRequests(log, slots[i + 1..]);
    RequestsSplit(log, slots, i);
    OwnRequestReflects(r1, r2, log, slots[i]);
  }

  lemma OwnRequestReflects(r1: seq<Request>, r2: seq<Request>, log: seq<Batch>, slot: Slot)
    requires NoRequest(r1, slot.addr) && NoRequest(r2, slot.addr)
    ensures Reflects(r1 + StepRequests(log, slot) + r2, log, slot)
  {
    StepReflects(log, slot);
    ReflectsAfter(r1, StepRequests(log, slot), log, slot);
    ReflectsBefore(r1 + StepRequests(log, slot), r2, log, slot);
  }

  lemma StepReflects(log: seq<Batch>, slot: Slot)
    ensures Reflects(StepRequests(log, slot), log, slot)
  {
    if Decide(log, slot).Some? {
      assert LastRequest(StepRequests(log, slot), slot.addr, 0);
    }
  }

  lemma RebindReflects(log: seq<Batch>, batch: Batch, slots: seq<Slot>, reqs: seq<Request>, i: nat)
    requires DistinctSlots(slots) && i < |slots| && Reflects(reqs, log, slots[i])
    ensures Reflects(reqs + PassRequests(log + [batch], slots), log + [batch], slots[i])
  {
    DistinctRequests(log + [batch], slots, i);
    PassReflects(log + [batch], slots, i);
    if Decide(log + [batch], slots[i]).None? && slots[i].name.Some? {
      LookupExtend(log, batch, slots[i].name.value);
    }
    ReflectsAfter(reqs, PassRequests(log + [batch], slots), log + [batch], slots[i]);
  }

  lemma LoadReflects(log: seq<Batch>, before: seq<Slot>, after: seq<Slot>, reqs: seq<Request>, i: nat)
    requires DistinctSlots(before + after) && AllForSlots(reqs, before) && i < |before + after|
    requires i < |before| ==> Reflects(reqs, log, before[i])
    ensures Reflects(reqs + PassRequests(log, after), log, (before + after)[i])
  {
    var slot := (before + after)[i];
    forall j, k | 0 <= j < |before| && 0 <= k < |after| ensures before[j].addr != after[k].addr {
      assert (before + after)[j] == before[j] && (before + after)[|before| + k] == after[k];
    }
    if i < |before| {
      NotRequested(log, after, slot.addr);
      ReflectsBefore(reqs, PassRequests(log, after), log, slot);
    } else {
      DistinctPart(before, after);
      DistinctRequests(log, after, i - |before|);
      PassReflects(log, after, i - |before|);
      ReflectsAfter(reqs, PassRequests(log, after), log, slot);
    }
  }

  lemma DistinctPart(before: seq<Slot>, after: seq<Slot>)
    requires DistinctSlots(before + after)
    ensures DistinctSlots(after)
  {
    forall i, j | 0 <= i < j < |after| ensures after[i].addr != after[j].addr {
      assert (before + after)[|before| + i] == after[i] && (before + after)[|before| + j] == after[j];
    }
  }

  // In every run the last request for a slot is for the newest rebinding of its symbol.
  lemma {:induction false} LastRequestIsForNewest(events: seq<Event>, i: nat)
    requires Layout(Loaded(events), Batches(events)) && i < |AllTargets(Loaded(events))|
    ensures Reflects(RunRequests(events), Batches(events), AllTargets(Loaded(events))[i])
  {
    if events != [] {
      var init, e := events[..|events| - 1], events[|events| - 1];
      LastEvent(events);
      LayoutPrefix(Loaded(init), Batches(init), e);
      TargetsLayout(Loaded(events), Batches(events));
      match e
      case Rebind(batch) =>
        LastRequestIsForNewest(init, i);
        RebindReflects(Batches(init), batch, AllTargets(Loaded(init)), RunRequests(init), i);
      case Load(img) =>
        RequestsForSlots(init);
        if i < |AllTargets(Loaded(init))| {
          LastRequestIsForNewest(init, i);
        }
        LoadReflects(Batches(init), AllTargets(Loaded(init)), TargetSlots(img), RunRequests(init), i);
    }
  }

  // ---------- Precedence over whole runs ----------

  // The slot holds the replacement of the position that decides its symbol, or
  // the word it was loaded with when no rebinding names that symbol.
  ghost predicate HoldsExpected(orig: map<int, int>, log: seq<Batch>, mem: map<int, int>, slot: Slot) {
    && slot.addr in orig && slot.addr in mem
    && mem[slot.addr] == (match Decide(log, slot)
                          case Some(p) => At(log, p).replacement
                          case None => orig[slot.addr])
  }

  ghost predicate Precedes(s: State) {
    && s.registrations == (if s.log == [] then 0 else 1)
    && (forall i :: 0 <= i < |AllTargets(s.images)| ==>
          HoldsExpected(Original(s.images), s.log, s.world.mem, AllTargets(s.images)[i]))
    && (forall a :: a in Original(s.images) ==> a in s.world.mem)
    && (forall a :: a in Original(s.images) && !IsSlot(AllTargets(s.images), a) ==>
          s.world.mem[a] == Original(s.images)[a])
  }

  // Every request made so far has succeeded.
  ghost predicate AllGranted(s: State, protects: nat -> bool) {
    forall k: nat :: k < s.world.calls ==> protects(k)
  }

  // The last request for an address, if there is one, succeeded.
  ghost predicate LastGrantedAt(reqs: seq<Request>, protects: nat -> bool, a: int) {
    forall k: nat :: LastRequest(reqs, a, k) ==> protects(k)
  }

  // Whatever happened to other requests: if the last one for a slot succeeded, or
  // there was none, the slot follows the newest rebinding of its symbol.
  lemma LastRequestGranted(events: seq<Event>, protects: nat -> bool, i: nat)
    requires Layout(Loaded(events), Batches(events)) && i < |AllTargets(Loaded(events))|
    requires LastGrantedAt(RunRequests(events), protects, AllTargets(Loaded(events))[i].addr)
    ensures HoldsExpected(Original(Loaded(events)), Batches(events), Run(events, protects).world.mem,
                          AllTargets(Loaded(events))[i])
  {
    var slot := AllTargets(Loaded(events))[i];
    var reqs := RunRequests(events);
    TargetsLayout(Loaded(events), Batches(events));
    LastRequestIsForNewest(events, i);
    WordsFollowRequests(events, protects, slot.addr);
    match Decide(Batches(events), slot)
    case None =>
      assert forall k :: !Granted(reqs, protects, slot.addr, k);
    case Some(p) =>
      var k: nat :| LastRequest(reqs, slot.addr, k) && reqs[k].replacement == At(Batches(events), p).replacement;
      assert LastGranted(reqs, protects, slot.addr, k);
  }

  // In every run whose requests succeed, the callback is registered exactly once
  // by the first batch; every slot of every image that is not skipped holds the
  // replacement of the newest batch naming its symbol, lowest index first; and
  // every other word of an image is as it was loaded.
  lemma LaterRebindingsTakePrecedence(events: seq<Event>, protects: nat -> bool)
    requires AllGranted(Run(events, protects), protects)
    requires Layout(Run(events, protects).images, Run(events, protects).log)
    ensures Precedes(Run(events, protects))
  {
    RunShape(events, protects);
    RunFollows(events, protects);
    var s := Run(events, protects);
    var slots, orig := AllTargets(s.images), Original(s.images);
    forall i | 0 <= i < |slots| ensures HoldsExpected(orig, s.log, s.world.mem, slots[i]) {
      LastRequestGranted(events, protects, i);
    }
    RequestsForSlots(events);
    forall a | a in orig ensures a in s.world.mem && (!IsSlot(slots, a) ==> s.world.mem[a] == orig[a]) {
      WordsFollowRequests(events, protects, a);
      if !IsSlot(slots, a) {
        assert forall k :: !Granted(RunRequests(events), protects, a, k);
      }
    }
  }

  lemma {:induction false} TargetOfImage(images: seq<Image>, n: nat, i: nat) returns (k: nat)
    requires n < |images| && i < |TargetSlots(images[n])|
    ensures k < |AllTargets(images)| && AllTargets(images)[k] == TargetSlots(images[n])[i]
  {
    var last := |images| - 1;
    var before, own := AllTargets(images[..last]), TargetSlots(images[last]);
    assert AllTargets(images) == before + own;
    if n < last {
      k := TargetOfImage(images[..last], n, i);
      assert (before + own)[k] == before[k];
    } else {
      k := |before| + i;
      assert (before + own)[k] == own[i];
    }
  }

  lemma {:induction false} TargetImage(images: seq<Image>, k: nat) returns (n: nat, i: nat)
    requires k < |AllTargets(images)|
    ensures n < |images| && i < |TargetSlots(images[n])| && AllTargets(images)[k] == TargetSlots(images[n])[i]
  {
    var last := |images| - 1;
    var before := |AllTargets(images[..last])|;
    if k < before {
      n, i := TargetImage(images[..last], k);
    } else {
      n, i := last, k - before;
    }
  }

  // The same for one slot of one image, spelled out, and whatever happened to the
  // requests for other slots: if some batch names its symbol, the slot holds the
  // replacement at the lowest naming index of the newest such batch; otherwise it
  // holds what it was loaded with.
  lemma SlotHoldsNewest(events: seq<Event>, protects: nat -> bool, n: nat, i: nat)
    requires Layout(Loaded(events), Batches(events))
    requires n < |Loaded(events)| && i < |TargetSlots(Loaded(events)[n])|
    requires LastGrantedAt(RunRequests(events), protects, TargetSlots(Loaded(events)[n])[i].addr)
    ensures var mem, log := Run(events, protects).world.mem, Batches(events);
            var img := Loaded(events)[n];
            var slot := TargetSlots(img)[i];
            && slot.addr in mem && slot.addr in img.initial
            && (forall k, j :: NewestNaming(log, slot.name, k, j) ==> mem[slot.addr] == log[k][j].replacement)
            && (NeverNamed(log, slot.name) ==> mem[slot.addr] == img.initial[slot.addr])
  {
    var images, log := Loaded(events), Batches(events);
    var slot := TargetSlots(images[n])[i];
    var m := TargetOfImage(images, n, i);
    LastRequestGranted(events, protects, m);
    assert ImageLayout(images[n]);
    OriginalAt(images, n, slot.addr);
    forall k, j | NewestNaming(log, slot.name, k, j) ensures Decide(log, slot) == Some(Position(k, j)) {
      NewestDecides(log, slot.name.value, k, j);
    }
    if NeverNamed(log, slot.name) {
      assert Decide(log, slot) == None;
    }
  }

  // Index j of batch k names the symbol; no newer batch and no lower index does.
  ghost predicate NewestNaming(log: seq<Batch>, name: Option<string>, k: int, j: int) {
    && 0 <= k < |log| && 0 <= j < |log[k]| && name == Some(log[k][j].name)
    && (forall k', j' :: k < k' < |log| && 0 <= j' < |log[k']| ==> name != Some(log[k'][j'].name))
    && (forall j' :: 0 <= j' < j ==> name != Some(log[k][j'].name))
  }

  ghost predicate NeverNamed(log: seq<Batch>, name: Option<string>) {
    forall k, j :: 0 <= k < |log| && 0 <= j < |log[k]| ==> name != Some(log[k][j].name)
  }

  lemma NewestDecides(log: seq<Batch>, name: string, k: nat, j: nat)
    requires NewestNaming(log, Some(name), k, j)
    ensures Lookup(log, name) == Some(Position(k, j))
  {
    assert FindName(log[k], name) == Some(j);
    var p := Lookup(log, name).value;
    assert log[p.batch][p.index].name == name;
  }

  // Words of an image that are not among its target slots, and so every word of a
  // skipped image, are left as they were loaded, whichever requests succeed.
  lemma OtherWordsUntouched(events: seq<Event>, protects: nat -> bool, n: nat, a: int)
    requires Layout(Loaded(events), Batches(events))
    requires n < |Loaded(events)| && a in Loaded(events)[n].initial
    requires !IsSlot(TargetSlots(Loaded(events)[n]), a)
    ensures var mem := Run(events, protects).world.mem;
            a in mem && mem[a] == Loaded(events)[n].initial[a]
  {
    var images := Loaded(events);
    OriginalAt(images, n, a);
    NoTargetAt(images, n, a);
    RequestsForSlots(events);
    WordsFollowRequests(events, protects, a);
    assert forall k :: !Granted(RunRequests(events), protects, a, k);
  }

  lemma NoTargetAt(images: seq<Image>, n: nat, a: int)
    requires DisjointImages(images) && forall k :: 0 <= k < |images| ==> ImageLayout(images[k])
    requires n < |images| && a in images[n].initial && !IsSlot(TargetSlots(images[n]), a)
    ensures !IsSlot(AllTargets(images), a)
  {
    forall k | 0 <= k < |AllTargets(images)| ensures AllTargets(images)[k].addr != a {
      var n', i := TargetImage(images, k);
      assert ImageLayout(images[n']);
      if TargetSlots(images[n'])[i].addr == a {
        SameImage(images, n, n', a);
      }
    }
  }

  lemma SameImage(images: seq<Image>, n: nat, m: nat, a: int)
    requires DisjointImages(images) && n < |images| && m < |images|
    requires a in images[n].initial && a in images[m].initial
    ensures n == m
  {
  }

  // ---------- Duplicates within one call ----------

  ghost predicate FirstNaming(batch: Batch, name: Option<string>, j: int) {
    && 0 <= j < |batch| && name == Some(batch[j].name)
    && forall i :: 0 <= i < j ==> name != Some(batch[i].name)
  }

  ghost predicate LastNaming(batch: Batch, name: Option<string>, j: int) {
    && 0 <= j < |batch| && name == Some(batch[j].name)
    && forall i :: j < i < |batch| ==> name != Some(batch[i].name)
  }

  // "Later takes precedence" for duplicates in the newest batch that names a
  // symbol: if the last request for a slot succeeded, it holds the replacement
  // registered last if and only if that one equals the replacement registered
  // first, because the first decides.
  lemma LastRegisteredDecides(events: seq<Event>, protects: nat -> bool, n: nat, i: nat, k: nat, j: nat, j': nat)
    requires Layout(Loaded(events), Batches(events))
    requires n < |Loaded(events)| && i < |TargetSlots(Loaded(events)[n])|
    requires LastGrantedAt(RunRequests(events), protects, TargetSlots(Loaded(events)[n])[i].addr)
    requires var log, name := Batches(events), TargetSlots(Loaded(events)[n])[i].name;
             NewestNaming(log, name, k, j) && LastNaming(log[k], name, j')
    ensures var mem, batch := Run(events, protects).world.mem, Batches(events)[k];
            var addr := TargetSlots(Loaded(events)[n])[i].addr;
            && addr in mem
            && (mem[addr] == batch[j'].replacement <==> batch[j].replacement == batch[j'].replacement)
  {
    SlotHoldsNewest(events, protects, n, i);
  }

  ghost predicate HoldsThe(mem: map<int, int>, a: int, v: int) {
    a in mem && mem[a] == v
  }

  // If the batch names the slot's symbol, the slot holds the replacement registered last in it.
  ghost predicate HoldsLast(mem: map<int, int>, batch: Batch, slot: Slot) {
    forall j :: LastNaming(batch, slot.name, j) ==> HoldsThe(mem, slot.addr, batch[j].replacement)
  }

  ghost predicate LastWins(s: State, batch: Batch) {
    forall n, i :: 0 <= n < |s.images| && 0 <= i < |TargetSlots(s.images[n])| ==>
      HoldsLast(s.world.mem, batch, TargetSlots(s.images[n])[i])
  }

  // The requests made by one call after a run succeed; earlier ones may have failed.
  ghost predicate CallGranted(events: seq<Event>, batch: Batch, protects: nat -> bool) {
    forall k: nat :: |RunRequests(events)| <= k < |RunRequests(events + [Rebind(batch)])| ==> protects(k)
  }

  // The documented promise for one call after any run.
  ghost predicate Promise(events: seq<Event>, batch: Batch, protects: nat -> bool) {
    var s := Run(events + [Rebind(batch)], protects);
    CallGranted(events, batch, protects) && Layout(s.images, s.log) ==> LastWins(s, batch)
  }

  // The first and the last rebinding of a symbol differ.  An empty name matches no symbol.
  ghost predicate Disagree(batch: Batch, name: Option<string>, j: int, j': int) {
    && name != Some("") && FirstNaming(batch, name, j) && LastNaming(batch, name, j')
    && batch[j].replacement != batch[j'].replacement
  }

  ghost predicate DuplicatesAgree(batch: Batch) {
    forall name, j, j' :: !Disagree(batch, name, j, j')
  }

  // The caller can tell beforehand: the promise is kept in every run if and only
  // if the first and last rebindings of each symbol in the batch agree.
  lemma PromiseKeptExactly(batch: Batch)
    ensures (forall events, protects :: Promise(events, batch, protects)) <==> DuplicatesAgree(batch)
  {
    if DuplicatesAgree(batch) {
      PromiseAlwaysKept(batch);
    } else {
      var name, j, j' :| Disagree(batch, name, j, j');
      var events := PromiseBroken(batch, name.value, j, j');
    }
  }

  lemma PromiseAlwaysKept(batch: Batch)
    requires DuplicatesAgree(batch)
    ensures forall events, protects :: Promise(events, batch, protects)
  {
    forall events, protects ensures Promise(events, batch, protects) {
      PromiseKept(events, batch, protects);
    }
  }

  lemma PromiseKept(events: seq<Event>, batch: Batch, protects: nat -> bool)
    requires DuplicatesAgree(batch)
    ensures Promise(events, batch, protects)
  {
    var all := events + [Rebind(batch)];
    RunShape(all, protects);
    if CallGranted(events, batch, protects) && Layout(Loaded(all), Batches(all)) {
      LastWinsAfter(events, batch, protects);
    }
  }

  lemma LastWinsAfter(events: seq<Event>, batch: Batch, protects: nat -> bool)
    requires CallGranted(events, batch, protects) && DuplicatesAgree(batch)
    requires Layout(Loaded(events + [Rebind(batch)]), Batches(events + [Rebind(batch)]))
    ensures LastWins(Run(events + [Rebind(batch)], protects), batch)
  {
    var all := events + [Rebind(batch)];
    RunShape(all, protects);
    var images := Loaded(all);
    forall n, i | 0 <= n < |images| && 0 <= i < |TargetSlots(images[n])|
      ensures HoldsLast(Run(all, protects).world.mem, batch, TargetSlots(images[n])[i])
    {
      SlotHoldsLast(events, batch, protects, n, i);
    }
  }

  lemma SlotHoldsLast(events: seq<Event>, batch: Batch, protects: nat -> bool, n: nat, i: nat)
    requires CallGranted(events, batch, protects) && DuplicatesAgree(batch)
    requires Layout(Loaded(events + [Rebind(batch)]), Batches(events + [Rebind(batch)]))
    requires n < |Loaded(events + [Rebind(batch)])| && i < |TargetSlots(Loaded(events + [Rebind(batch)])[n])|
    ensures HoldsLast(Run(events + [Rebind(batch)], protects).world.mem, batch,
                      TargetSlots(Loaded(events + [Rebind(batch)])[n])[i])
  {
    var all := events + [Rebind(batch)];
    var img := Loaded(all)[n];
    var slot := TargetSlots(img)[i];
    NamesNonEmpty(img, i);
    BatchIsNewest(events, batch);
    forall j' | LastNaming(batch, slot.name, j')
      ensures HoldsThe(Run(all, protects).world.mem, slot.addr, batch[j'].replacement)
    {
      var j := NewestIsFirst(Batches(all), batch, slot.name, j');
      assert !Disagree(batch, slot.name, j, j');
      LastRequestInCall(events, batch, protects, n, i, j);
      SlotHoldsThe(all, protects, n, i, |Batches(all)| - 1, j, batch[j'].replacement);
    }
  }

  lemma BatchIsNewest(events: seq<Event>, batch: Batch)
    ensures EndsWith(Batches(events + [Rebind(batch)]), batch)
  {
    assert (events + [Rebind(batch)])[..|events|] == events;
  }

  // A call makes the last request for every slot whose symbol its batch names.
  lemma LastRequestInCall(events: seq<Event>, batch: Batch, protects: nat -> bool, n: nat, i: nat, j: nat)
    requires CallGranted(events, batch, protects)
    requires Layout(Loaded(events + [Rebind(batch)]), Batches(events + [Rebind(batch)]))
    requires n < |Loaded(events + [Rebind(batch)])| && i < |TargetSlots(Loaded(events + [Rebind(batch)])[n])|
    requires FirstNaming(batch, TargetSlots(Loaded(events + [Rebind(batch)])[n])[i].name, j)
    ensures LastGrantedAt(RunRequests(events + [Rebind(batch)]), protects,
                          TargetSlots(Loaded(events + [Rebind(batch)])[n])[i].addr)
  {
    var all := events + [Rebind(batch)];
    var log, slots := Batches(all), AllTargets(Loaded(all));
    var slot := TargetSlots(Loaded(all)[n])[i];
    assert all[..|all| - 1] == events;
    LastEvent(all);
    var m := TargetOfImage(Loaded(all), n, i);
    TargetsDistinct(Loaded(all));
    DistinctRequests(log, slots, m);
    PassReflects(log, slots, m);
    LookupExtend(Batches(events), batch, slot.name.value);
    assert batch[j].name == slot.name.value;
    LaterRequestLast(RunRequests(events), PassRequests(log, slots), log, slot);
  }

  lemma LaterRequestLast(r1: seq<Request>, r2: seq<Request>, log: seq<Batch>, slot: Slot)
    requires Decide(log, slot).Some? && Reflects(r2, log, slot)
    ensures forall k :: LastRequest(r1 + r2, slot.addr, k) ==> |r1| <= k
  {
    var replacement := At(log, Decide(log, slot).value).replacement;
    var m :| LastRequest(r2, slot.addr, m) && r2[m].replacement == replacement;
    assert (r1 + r2)[|r1| + m] == r2[m];
  }

  lemma SlotHoldsThe(events: seq<Event>, protects: nat -> bool, n: nat, i: nat, k: nat, j: nat, v: int)
    requires Layout(Loaded(events), Batches(events))
    requires n < |Loaded(events)| && i < |TargetSlots(Loaded(events)[n])|
    requires LastGrantedAt(RunRequests(events), protects, TargetSlots(Loaded(events)[n])[i].addr)
    requires NewestNaming(Batches(events), TargetSlots(Loaded(events)[n])[i].name, k, j)
    requires v == Batches(events)[k][j].replacement
    ensures HoldsThe(Run(events, protects).world.mem, TargetSlots(Loaded(events)[n])[i].addr, v)
  {
    SlotHoldsNewest(events, protects, n, i);
  }

  ghost predicate EndsWith(log: seq<Batch>, batch: Batch) {
    log != [] && log[|log| - 1] == batch
  }

  lemma NewestIsFirst(log: seq<Batch>, batch: Batch, name: Option<string>, j': nat) returns (j: nat)
    requires EndsWith(log, batch) && LastNaming(batch, name, j')
    ensures FirstNaming(batch, name, j) && NewestNaming(log, name, |log| - 1, j)
  {
    j := FindName(batch, name.value).value;
  }

  lemma PromiseBroken(batch: Batch, name: string, j: nat, j': nat) returns (events: seq<Event>)
    requires Disagree(batch, Some(name), j, j')
    ensures !Promise(events, batch, _ => true)
  {
    var a := FreshInBatch(batch, 0);
    OneSlotTargets(a, name, 0);
    OneSlotLayout(a, name, 0, batch);
    events := BrokenByImage(OneSlotImage(a, name, 0), batch, 0, j, j');
  }

  lemma BrokenByImage(img: Image, batch: Batch, i: nat, j: nat, j': nat) returns (events: seq<Event>)
    requires Layout([img], [batch]) && i < |TargetSlots(img)|
    requires Disagree(batch, TargetSlots(img)[i].name, j, j')
    ensures !Promise(events, batch, _ => true)
  {
    events := [Load(img)];
    BrokenAfterLoad(img, batch, i, j, j');
    assert events + [Rebind(batch)] == [Load(img), Rebind(batch)];
  }

  lemma BrokenAfterLoad(img: Image, batch: Batch, i: nat, j: nat, j': nat)
    requires Layout([img], [batch]) && i < |TargetSlots(img)|
    requires Disagree(batch, TargetSlots(img)[i].name, j, j')
    ensures var s := Run([Load(img), Rebind(batch)], _ => true);
            s.log == [batch] && s.images == [img] && !LastWins(s, batch)
  {
    FirstDecides(img, batch, i, j);
    var s := Run([Load(img), Rebind(batch)], _ => true);
    assert !HoldsLast(s.world.mem, batch, TargetSlots(s.images[0])[i]);
  }

  // No target slot has an empty name.
  lemma NamesNonEmpty(img: Image, i: nat)
    requires i < |TargetSlots(img)|
    ensures TargetSlots(img)[i].name != Some("")
  {
    var slot := TargetSlots(img)[i];
    CommandsSlotsExact(img, img.commands, slot);
    var c, j, k :| SlotOfSection(img, img.commands, c, j, k, slot);
  }

  // ---------- A run in which the first of two rebindings wins ----------

  // An image with one pointer at a, in a section of this type of a segment of this
  // name, bound by the symbol of this name.
  function SlotImage(segname: string, flags: nat, a: int, name: string, word: int): Image {
    Image(Some("a.out"),
          [Segment("__LINKEDIT", [], 1), Symtab(1), Dysymtab(1, 1),
           Segment(segname, [Section(flags, a, POINTER_SIZE, 0)], 1)],
          [0], ["_" + name], map[a := word])
  }

  function OneSlotImage(a: int, name: string, word: int): Image {
    SlotImage("__DATA", S_LAZY_SYMBOL_POINTERS, a, name, word)
  }

  lemma OneSlotTargets(a: int, name: string, word: int)
    requires name != ""
    ensures TargetSlots(OneSlotImage(a, name, word)) == [Slot(a, Some(name))]
  {
    SlotImageTargets("__DATA", S_LAZY_SYMBOL_POINTERS, a, name, word);
  }

  lemma SlotImageTargets(segname: string, flags: nat, a: int, name: string, word: int)
    requires name != "" && (segname == "__DATA" || segname == "__DATA_CONST")
    requires flags % 0x100 == 6 || flags % 0x100 == 7
    ensures TargetSlots(SlotImage(segname, flags, a, name, word)) == [Slot(a, Some(name))]
  {
    var img := SlotImage(segname, flags, a, name, word);
    SlotImageTables(segname, flags, a, name, word);
    OnlySection(img, img.commands[3].sections[0]);
    NoDataNoSlots(img, img.commands[..3]);
    assert ("_" + name)[1..] == name;
  }

  lemma SlotImageTables(segname: string, flags: nat, a: int, name: string, word: int)
    ensures HasTables(SlotImage(segname, flags, a, name, word).commands)
  {
    var cmds := SlotImage(segname, flags, a, name, word).commands;
    LinkeditExact(cmds);
    SymtabExact(cmds);
    assert IsLinkedit(cmds[0]) && cmds[1].Symtab?;
    LastDysymtabCounts(cmds, 2);
  }

  lemma OnlySection(img: Image, sec: Section)
    requires IsPointerSection(sec) && sec.size == POINTER_SIZE
    ensures SectionsSlots(img, [sec]) == [SlotAt(img, sec, 0)]
  {
    assert [sec][..0] == [];
    assert SectionSlots(img, sec) == [SlotAt(img, sec, 0)];
  }

  lemma {:induction false} NoDataNoSlots(img: Image, cmds: seq<LoadCommand>)
    requires forall i :: 0 <= i < |cmds| ==> !IsDataSegment(cmds[i])
    ensures CommandsSlots(img, cmds) == []
  {
    if cmds != [] {
      NoDataNoSlots(img, cmds[..|cmds| - 1]);
    }
  }

  lemma OneSlotLayout(a: int, name: string, word: int, batch: Batch)
    requires name != "" && !IsCell([batch], a)
    ensures Layout([OneSlotImage(a, name, word)], [batch])
  {
    OneSlotTargets(a, name, word);
  }

  // A batch handed over after one image is loaded decides by its first naming.
  lemma FirstDecides(img: Image, batch: Batch, i: nat, j: nat)
    requires Layout([img], [batch]) && i < |TargetSlots(img)|
    requires FirstNaming(batch, TargetSlots(img)[i].name, j)
    ensures var s := Run([Load(img), Rebind(batch)], _ => true);
            && s.log == [batch] && s.images == [img]
            && TargetSlots(img)[i].addr in s.world.mem
            && s.world.mem[TargetSlots(img)[i].addr] == batch[j].replacement
  {
    LoadThenRebind(img, batch, _ => true);
    RunShape([Load(img), Rebind(batch)], _ => true);
    assert NewestNaming([batch], TargetSlots(img)[i].name, 0, j);
    SlotHoldsNewest([Load(img), Rebind(batch)], _ => true, 0, i);
  }

  lemma LoadThenRebind(img: Image, batch: Batch, protects: nat -> bool)
    ensures Run([Load(img), Rebind(batch)], protects).log == [batch]
    ensures Run([Load(img), Rebind(batch)], protects).images == [img]
  {
    assert [Load(img), Rebind(batch)][..1] == [Load(img)] && [Load(img)][..0] == [];
    assert Run([Load(img)], protects) == Step(Initial, Load(img), protects);
  }

  // Some word from b on is above all replacements and replaced cells of a batch.
  lemma {:induction false} FreshInBatch(batch: Batch, b: int) returns (a: int)
    ensures b <= a
    ensures forall j :: 0 <= j < |batch| ==>
              batch[j].replacement < a && (batch[j].replaced.Some? ==> batch[j].replaced.value < a)
  {
    if batch == [] {
      a := b;
    } else {
      var last := batch[|batch| - 1];
      a := FreshInBatch(batch[..|batch| - 1], b);
      if last.replacement >= a {
        a := last.replacement + 1;
      }
      if last.replaced.Some? && last.replaced.value >= a {
        a := last.replaced.value + 1;
      }
    }
  }

  // One call that names a symbol twice: the earlier rebinding wins.
  lemma DuplicateInOneCall(a: int, b: int, word: int)
    ensures var img := OneSlotImage(0, "malloc", word);
            var batch := [Rebinding("malloc", a, None), Rebinding("malloc", b, None)];
            var s := Run([Load(img), Rebind(batch)], _ => true);
            && TargetSlots(img) == [Slot(0, Some("malloc"))]
            && 0 in s.world.mem && s.world.mem[0] == a
  {
    var batch := [Rebinding("malloc", a, None), Rebinding("malloc", b, None)];
    OneSlotTargets(0, "malloc", word);
    OneSlotLayout(0, "malloc", word, batch);
    FirstDecides(OneSlotImage(0, "malloc", word), batch, 0, 0);
  }
}
