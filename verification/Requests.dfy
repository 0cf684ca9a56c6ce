// A run as the sequence of requests it makes: every word of an image is given by
// the requests for its address that succeeded, whichever those are.
module Requests {
  import opened Rebindings
  import opened Passes

  // The requests of a run, in order; they do not depend on which of them succeed.
  function RunRequests(events: seq<Event>): seq<Request> {
    if events == [] then []
    else
      var init := events[..|events| - 1];
      RunRequests(init) +
      match events[|events| - 1]
      case Rebind(batch) => PassRequests(Batches(init) + [batch], AllTargets(Loaded(init)))
      case Load(img) => PassRequests(Batches(init), TargetSlots(img))
  }

  ghost predicate Granted(reqs: seq<Request>, protects: nat -> bool, a: int, k: int) {
    0 <= k < |reqs| && reqs[k].addr == a && protects(k)
  }

  ghost predicate LastGranted(reqs: seq<Request>, protects: nat -> bool, a: int, k: int) {
    Granted(reqs, protects, a, k) && forall k' :: k < k' < |reqs| ==> !Granted(reqs, protects, a, k')
  }

  lemma {:induction false} LatestGranted(reqs: seq<Request>, n: nat, protects: nat -> bool, a: int, word: int, k: nat)
    requires LastGranted(reqs, protects, a, k) && k < n <= |reqs|
    ensures LatestOf(reqs, n, 0, protects, a, word) == reqs[k].replacement
  {
    if k < n - 1 {
      assert !Granted(reqs, protects, a, n - 1);
      LatestGranted(reqs, n - 1, protects, a, word, k);
    }
  }

  lemma {:induction false} NoneGranted(reqs: seq<Request>, n: nat, protects: nat -> bool, a: int, word: int)
    requires n <= |reqs| && forall k :: !Granted(reqs, protects, a, k)
    ensures LatestOf(reqs, n, 0, protects, a, word) == word
  {
    if n > 0 {
      assert !Granted(reqs, protects, a, n - 1);
      NoneGranted(reqs, n - 1, protects, a, word);
    }
  }

  // ---------- The words of a run ----------

  // What the last event of a run adds.
  lemma LastEvent(events: seq<Event>)
    requires events != []
    ensures var init, e := events[..|events| - 1], events[|events| - 1];
            match e
            case Rebind(batch) =>
              && Batches(events) == Batches(init) + [batch] && Loaded(events) == Loaded(init)
              && RunRequests(events) == RunRequests(init) + PassRequests(Batches(events), AllTargets(Loaded(events)))
            case Load(img) =>
              && Batches(events) == Batches(init) && Loaded(events) == Loaded(init) + [img]
              && RunRequests(events) == RunRequests(init) + PassRequests(Batches(events), TargetSlots(img))
              && AllTargets(Loaded(events)) == AllTargets(Loaded(init)) + TargetSlots(img)
  {
    var init, e := events[..|events| - 1], events[|events| - 1];
    match e
    case Rebind(batch) =>
      assert Loaded(init) + [] == Loaded(init);
    case Load(img) =>
      assert Batches(init) + [] == Batches(init);
      assert (Loaded(init) + [img])[..|Loaded(init)|] == Loaded(init);
  }

  // Each request is for a target slot of some image loaded before.
  lemma {:induction false} RequestsForSlots(events: seq<Event>)
    ensures AllForSlots(RunRequests(events), AllTargets(Loaded(events)))
  {
    if events != [] {
      var init := events[..|events| - 1];
      LastEvent(events);
      RequestsForSlots(init);
      match events[|events| - 1]
      case Rebind(batch) =>
        PassRequestsForSlots(Batches(events), AllTargets(Loaded(init)));
      case Load(img) =>
        var slots := TargetSlots(img);
        PassRequestsForSlots(Batches(events), slots);
        ForMoreSlots(RunRequests(init), AllTargets(Loaded(init)), PassRequests(Batches(events), slots), slots);
    }
  }

  // Requests are counted, and every recorded word is the latest granted for it.
  ghost predicate Accounts(w: World, orig: map<int, int>, reqs: seq<Request>, protects: nat -> bool) {
    && w.calls == |reqs|
    && forall a :: a in orig ==> Holds(w, a, reqs, 0, protects, orig[a])
  }

  lemma PassAccounts(log: seq<Batch>, protects: nat -> bool, w: World, slots: seq<Slot>,
                     orig: map<int, int>, reqs: seq<Request>)
    requires Accounts(w, orig, reqs, protects) && MappedIn(slots, w.mem)
    requires forall a :: a in orig ==> !IsCell(log, a)
    ensures Accounts(Pass(log, protects, w, slots), orig, reqs + PassRequests(log, slots), protects)
  {
    PassCounts(log, protects, w, slots);
    forall a | a in orig
      ensures Holds(Pass(log, protects, w, slots), a, reqs + PassRequests(log, slots), 0, protects, orig[a])
    {
      WordAfterPass(log, protects, w, slots, orig[a], reqs, a);
    }
  }

  lemma WordAfterPass(log: seq<Batch>, protects: nat -> bool, w: World, slots: seq<Slot>,
                      word: int, reqs: seq<Request>, a: int)
    requires w.calls == |reqs| && Holds(w, a, reqs, 0, protects, word)
    requires MappedIn(slots, w.mem) && !IsCell(log, a)
    ensures Holds(Pass(log, protects, w, slots), a, reqs + PassRequests(log, slots), 0, protects, word)
  {
    PassHolds(log, protects, w, slots, a);
    HoldsAppend(w, Pass(log, protects, w, slots), a, reqs, PassRequests(log, slots), 0, protects, word);
  }

  // What every step of a run keeps.
  ghost predicate Follows(s: State, reqs: seq<Request>, protects: nat -> bool) {
    Accounts(s.world, Original(s.images), reqs, protects)
  }

  lemma RebindFollows(s: State, batch: Batch, reqs: seq<Request>, protects: nat -> bool)
    requires Follows(s, reqs, protects) && Layout(s.images, s.log + [batch])
    ensures Follows(Step(s, Rebind(batch), protects),
                    reqs + PassRequests(s.log + [batch], AllTargets(s.images)), protects)
  {
    RunTargetsMapped(s, s.log + [batch]);
    PassAccounts(s.log + [batch], protects, s.world, AllTargets(s.images), Original(s.images), reqs);
  }

  lemma RunTargetsMapped(s: State, log: seq<Batch>)
    requires Layout(s.images, log) && forall a :: a in Original(s.images) ==> a in s.world.mem
    ensures MappedIn(AllTargets(s.images), s.world.mem)
    ensures forall a :: a in Original(s.images) ==> !IsCell(log, a)
  {
    TargetsLayout(s.images, log);
    OriginalWords(s.images);
  }

  lemma LoadFollows(s: State, img: Image, reqs: seq<Request>, protects: nat -> bool)
    requires Follows(s, reqs, protects) && Layout(s.images + [img], s.log)
    requires AllForSlots(reqs, AllTargets(s.images))
    requires s.registrations == if s.log == [] then 0 else 1
    ensures Follows(Step(s, Load(img), protects), reqs + PassRequests(s.log, TargetSlots(img)), protects)
  {
    var w := World(s.world.mem + img.initial, s.world.calls);
    NewImageApart(s, img);
    CallbackIsPass(s, img, protects);
    LoadAccounts(s, img, reqs, protects);
    PassAccounts(s.log, protects, w, TargetSlots(img), Original(s.images) + img.initial, reqs);
  }

  // Nothing has been requested for a new image yet.
  lemma LoadAccounts(s: State, img: Image, reqs: seq<Request>, protects: nat -> bool)
    requires Follows(s, reqs, protects) && Layout(s.images + [img], s.log)
    requires AllForSlots(reqs, AllTargets(s.images))
    ensures Accounts(World(s.world.mem + img.initial, s.world.calls), Original(s.images) + img.initial, reqs, protects)
  {
    NewImageApart(s, img);
    LayoutPrefix(s.images, s.log, Load(img));
    TargetsLayout(s.images, s.log);
    var w := World(s.world.mem + img.initial, s.world.calls);
    var orig := Original(s.images) + img.initial;
    forall a | a in orig ensures Holds(w, a, reqs, 0, protects, orig[a]) {
      if a in img.initial {
        LatestUntouched(reqs, |reqs|, 0, protects, a, img.initial[a]);
      } else {
        assert Holds(s.world, a, reqs, 0, protects, Original(s.images)[a]);
      }
    }
  }

  // The callback for a new image is one pass, also when it is not registered yet.
  lemma CallbackIsPass(s: State, img: Image, protects: nat -> bool)
    requires s.registrations == if s.log == [] then 0 else 1
    ensures var w := World(s.world.mem + img.initial, s.world.calls);
            Step(s, Load(img), protects).world == Pass(s.log, protects, w, TargetSlots(img))
  {
    var w := World(s.world.mem + img.initial, s.world.calls);
    if s.log == [] {
      EmptyPass(protects, w, TargetSlots(img));
    } else {
      assert Callbacks(0, s.log, protects, w, TargetSlots(img)) == w;
    }
  }

  lemma {:induction false} EmptyPass(protects: nat -> bool, w: World, slots: seq<Slot>)
    ensures Pass([], protects, w, slots) == w
  {
    if slots != [] {
      EmptyPass(protects, w, slots[..|slots| - 1]);
    }
  }

  lemma {:induction false} RunFollows(events: seq<Event>, protects: nat -> bool)
    requires Layout(Loaded(events), Batches(events))
    ensures Follows(Run(events, protects), RunRequests(events), protects)
  {
    if events != [] {
      var init, e := events[..|events| - 1], events[|events| - 1];
      var s := Run(init, protects);
      LastEvent(events);
      RunShape(init, protects);
      LayoutPrefix(Loaded(init), Batches(init), e);
      RunFollows(init, protects);
      match e
      case Rebind(batch) =>
        RebindFollows(s, batch, RunRequests(init), protects);
      case Load(img) =>
        RequestsForSlots(init);
        LoadFollows(s, img, RunRequests(init), protects);
    }
  }

  // In every run, whichever requests succeed: one request is made for every slot
  // decided in a pass, and each word of an image is the replacement of the last
  // request for its address that succeeded, or the word it was loaded with when
  // none did.
  lemma WordsFollowRequests(events: seq<Event>, protects: nat -> bool, a: int)
    requires Layout(Loaded(events), Batches(events)) && a in Original(Loaded(events))
    ensures var w := Run(events, protects).world;
            var reqs := RunRequests(events);
            && w.calls == |reqs|
            && a in w.mem
            && (forall k: nat :: LastGranted(reqs, protects, a, k) ==> w.mem[a] == reqs[k].replacement)
            && ((forall k :: !Granted(reqs, protects, a, k)) ==> w.mem[a] == Original(Loaded(events))[a])
  {
    var reqs, word := RunRequests(events), Original(Loaded(events))[a];
    RunShape(events, protects);
    RunFollows(events, protects);
    assert Holds(Run(events, protects).world, a, reqs, 0, protects, word);
    forall k: nat | LastGranted(reqs, protects, a, k)
      ensures Latest(reqs, 0, protects, a, word) == reqs[k].replacement
    {
      LatestGranted(reqs, |reqs|, protects, a, word, k);
    }
    if forall k :: !Granted(reqs, protects, a, k) {
      NoneGranted(reqs, |reqs|, protects, a, word);
    }
  }

  lemma NewImageApart(s: State, img: Image)
    requires Layout(s.images + [img], s.log)
    ensures forall a :: a in img.initial ==> a !in Original(s.images) && !IsCell(s.log, a)
    ensures forall a :: a in Original(s.images) ==> !IsCell(s.log, a)
    ensures CellsApart(s.log, TargetSlots(img)) && ImageLayout(img)
    ensures CellsApart(s.log, AllTargets(s.images))
    ensures AllTargets(s.images + [img]) == AllTargets(s.images) + TargetSlots(img)
    ensures Original(s.images + [img]) == Original(s.images) + img.initial
  {
    var images := s.images + [img];
    assert images[..|s.images|] == s.images && images[|s.images|] == img;
    assert forall i :: 0 <= i < |s.images| ==> images[i] == s.images[i];
    LayoutPrefix(s.images, s.log, Load(img));
    OriginalWords(s.images);
    TargetsLayout(s.images, s.log);
  }
}
