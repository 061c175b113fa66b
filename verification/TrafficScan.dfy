/**
 Whom a scan takes: over every run, a scan sees each user that is listed all along, and takes
 exactly those whose loaded counters are above the threshold.
 */
module TrafficScan {
  import opened Results
  import opened Traffic

  /** The next state is in the same scan, and what the lock guards is as it was. */
  predicate SameScan(s: State, next: State) {
    && HoldsLock(next.pc) && next.minimum == s.minimum && next.scanned == s.scanned && next.uids == s.uids
    && next.delivered == s.delivered && next.leaving <= s.leaving
  }

  lemma CountHolding(s: State, step: Step)
    requires Enabled(s, step) && HoldsLock(s.pc) && CountStep(step)
    ensures SameScan(s, Next(s, step))
  {
    hide At, AddTo, Without, TableOf, Enter, UidOf;
  }

  lemma ScanHolding(s: State, step: Step)
    requires Enabled(s, step) && HoldsLock(s.pc) && ScanStep(step) && !step.FinishScan?
    ensures SameScan(s, Next(s, step)) && !step.StartScan?
  {
    hide At, AddTo, Without, TableOf, Enter, UidOf;
  }

  lemma SettleHolding(s: State, step: Step)
    requires Enabled(s, step) && HoldsLock(s.pc) && !CountStep(step) && !ScanStep(step)
    ensures SameScan(s, Next(s, step)) && step.Settle?
  {
    hide At, AddTo, Without, TableOf, Enter, UidOf;
  }

  /** Only the report task's own step ends a scan, and what its lock guards stays meanwhile. */
  lemma StepHolding(s: State, step: Step)
    requires Enabled(s, step) && HoldsLock(s.pc) && !step.FinishScan?
    ensures SameScan(s, Next(s, step)) && !step.StartScan?
  {
    hide Next, Enabled, HoldsLock, SameScan;
    if CountStep(step) {
      CountHolding(s, step);
    } else if ScanStep(step) {
      ScanHolding(s, step);
    } else {
      SettleHolding(s, step);
    }
  }

  /** States from after the start of a scan, step `a`, to before its end. */
  ghost predicate Scans(states: seq<State>, steps: seq<Step>, a: nat, b: nat) {
    && Trace(states, steps) && a < b < |states| && Initial(states[0]) && steps[a].StartScan?
    && forall k | a < k < b :: !steps[k].FinishScan?
  }

  lemma ScanStarts(states: seq<State>, steps: seq<Step>, a: nat)
    requires Trace(states, steps) && a < |steps| && Initial(states[0]) && steps[a].StartScan?
    ensures var s, next := states[a], states[a + 1];
            && s.pc.Idle? && s.items == []
            && next == s.(pc := Scanning, minimum := steps[a].minimum, visited := {},
                          due := TableOf(s, s.current).Keys, scanned := s.current)
  {
    RunKeepsItems(states, steps, a);
  }

  lemma {:induction false} ScanHolds(states: seq<State>, steps: seq<Step>, a: nat, b: nat)
    requires Scans(states, steps, a, b)
    ensures var s, t := states[a], states[b];
            && HoldsLock(t.pc) && t.minimum == steps[a].minimum && t.scanned == s.current && t.uids == s.uids
            && t.delivered == s.delivered && t.leaving <= s.leaving
  {
    hide Next, Enabled, Initial;
    if b == a + 1 {
      ScanStarts(states, steps, a);
    } else {
      ScanHolds(states, steps, a, b - 1);
      assert states[b - 1 + 1] == Next(states[b - 1], steps[b - 1]);
      StepHolding(states[b - 1], steps[b - 1]);
    }
  }

  // ---------- users with an id ----------

  /** Users that are being taken away have lost their id. */
  predicate LeavingWithoutId(s: State) { forall user <- s.leaving :: user !in s.uids }

  lemma InitialScanForm(s: State)
    requires Initial(s)
    ensures LeavingWithoutId(s) && DueListed(s)
  {}

  lemma StepKeepsIds(s: State, step: Step)
    requires LeavingWithoutId(s) && Enabled(s, step)
    ensures LeavingWithoutId(Next(s, step))
  {}

  lemma {:induction false} RunKeepsIds(states: seq<State>, steps: seq<Step>, n: nat)
    requires Trace(states, steps) && n < |states| && Initial(states[0])
    ensures LeavingWithoutId(states[n])
  {
    hide Next, Enabled, LeavingWithoutId;
    if n > 0 {
      RunKeepsIds(states, steps, n - 1);
      assert states[n - 1 + 1] == Next(states[n - 1], steps[n - 1]);
      StepKeepsIds(states[n - 1], steps[n - 1]);
    } else {
      InitialScanForm(states[0]);
    }
  }

  /** A user with an id when a scan starts is registered throughout the scan. */
  lemma RegisteredThroughout(states: seq<State>, steps: seq<Step>, a: nat, b: nat, user: string)
    requires Scans(states, steps, a, b) && UidOf(states[a], user) != 0
    ensures forall k | a <= k <= b :: Registered(states[k], user) && UidOf(states[k], user) == UidOf(states[a], user)
  {
    RunKeepsIds(states, steps, a);
    assert user !in states[a].leaving;
    hide Next, Enabled, Initial;
    forall k | a < k <= b
      ensures Registered(states[k], user) && UidOf(states[k], user) == UidOf(states[a], user)
    {
      ScanHolds(states, steps, a, k);
    }
  }

  // ---------- every listed user is seen ----------

  /** What is still due is listed, and not seen yet. */
  predicate DueListed(s: State) {
    HoldsLock(s.pc) ==> s.due <= TableOf(s, s.scanned).Keys && s.due !! s.visited
  }

  lemma CountKeepsDue(s: State, step: Step)
    requires DueListed(s) && WellFormed(s) && Enabled(s, step) && CountStep(step)
    ensures DueListed(Next(s, step))
  {
    hide ItemsOwned, AllFile, At, AddTo;
  }

  lemma ReportKeepsDue(s: State, step: Step)
    requires DueListed(s) && ItemsCurrent(s) && Enabled(s, step) && !CountStep(step)
    ensures DueListed(Next(s, step))
  {
    hide DistinctUsers, At, AddTo;
  }

  lemma StepKeepsDue(s: State, step: Step)
    requires DueListed(s) && ItemsCurrent(s) && WellFormed(s) && Enabled(s, step)
    ensures DueListed(Next(s, step))
  {
    hide DueListed, ItemsCurrent, WellFormed, Enabled, Next;
    if CountStep(step) {
      CountKeepsDue(s, step);
    } else {
      ReportKeepsDue(s, step);
    }
  }

  lemma {:induction false} RunKeepsDue(states: seq<State>, steps: seq<Step>, n: nat)
    requires Trace(states, steps) && n < |states| && Initial(states[0])
    ensures WellFormed(states[n]) && ItemsCurrent(states[n]) && DueListed(states[n])
  {
    hide Next, Enabled, WellFormed, ItemsCurrent, DueListed;
    RunKeepsItems(states, steps, n);
    if n > 0 {
      RunKeepsDue(states, steps, n - 1);
      assert states[n - 1 + 1] == Next(states[n - 1], steps[n - 1]);
      StepKeepsDue(states[n - 1], steps[n - 1]);
    } else {
      InitialScanForm(states[0]);
    }
  }

  /** In every reachable state the report task has a step to take: no scan, report or rollback gets stuck. */
  lemma ReportCanStep(states: seq<State>, steps: seq<Step>, n: nat) returns (step: Step)
    requires Trace(states, steps) && n < |states| && Initial(states[0])
    ensures !CountStep(step) && Enabled(states[n], step)
  {
    RunKeepsDue(states, steps, n);
    var s := states[n];
    match s.pc
    case Idle => step := StartScan(0);
    case Scanning =>
      if s.due == {} {
        step := FinishScan;
      } else {
        var user :| user in s.due;
        step := LoadUp(user);
      }
    case LoadedUp(_, _, _) => step := LoadDown;
    case LoadedBoth(_, _, up, down) => step := if up + down > s.minimum * 1000 then SwapUp else SkipUser;
    case SwappedUp(_, _, _) => step := SwapDown;
    case SwappedBoth(_, _, _, _) => step := Settle;
    case Holding => step := Deliver;
    case RollingBack =>
      step := if s.items == [] then FinishRollback else if s.items[0].bytes.up != 0 then RestoreUp else RestoreDown;
  }

  // ---------- what becomes of a user during a scan ----------

  /** How far a scan has come with a user. */
  datatype View = Unseen | SeenUp(up: int) | SeenBoth(up: int, down: int) | Taking | Taken | Passed

  ghost predicate HasItem(s: State, user: string) { exists i :: 0 <= i < |s.items| && s.items[i].user == user }

  ghost function ViewOf(s: State, user: string): View {
    if user !in s.visited then Unseen
    else if s.pc.LoadedUp? && s.pc.user == user then SeenUp(s.pc.up)
    else if s.pc.LoadedBoth? && s.pc.user == user then SeenBoth(s.pc.up, s.pc.down)
    else if (s.pc.SwappedUp? || s.pc.SwappedBoth?) && s.pc.user == user then Taking
    else if HasItem(s, user) then Taken
    else Passed
  }

  /** The scan knows the user by this storage. */
  predicate Knows(s: State, user: string, ref: Ref) {
    && HoldsLock(s.pc) && s.scanned.Some? && Has(s, s.scanned.value, user, ref) && UidOf(s, user) != 0
    && UsesOnly(s, user, ref)
  }

  /** What the report task holds of the user is of this storage. */
  predicate UsesOnly(s: State, user: string, ref: Ref) {
    && (AtUser(s.pc) && s.pc.user == user ==> s.pc.ref == ref)
    && forall i | 0 <= i < |s.items| :: s.items[i].user == user ==> s.items[i].ref == ref
  }

  /** How a step moves a scan on with a user. */
  ghost predicate Moves(s: State, step: Step, next: State, user: string, ref: Ref) {
    match ViewOf(s, user)
    case Unseen => ViewOf(next, user) == if step == LoadUp(user) then SeenUp(At(s.storage, ref).up) else Unseen
    case SeenUp(up) =>
      ViewOf(next, user) == if step == LoadDown then SeenBoth(up, At(s.storage, ref).down) else SeenUp(up)
    case SeenBoth(up, down) =>
      ViewOf(next, user) == (if step == SwapUp then Taking else if step == SkipUser then Passed else SeenBoth(up, down))
      && (step == SwapUp ==> up + down > s.minimum * 1000) && (step == SkipUser ==> up + down <= s.minimum * 1000)
    case Taking => ViewOf(next, user) == if step == Settle then Taken else Taking
    case Taken => ViewOf(next, user) == Taken
    case Passed => ViewOf(next, user) == Passed
  }

  lemma ScanMoves(s: State, step: Step, user: string, ref: Ref)
    requires ItemsCurrent(s) && Enabled(s, step) && ScanStep(step) && !step.FinishScan? && Knows(s, user, ref)
    ensures Moves(s, step, Next(s, step), user, ref)
    ensures UsesOnly(Next(s, step), user, ref)
  {
    hide DistinctUsers;
    assert Next(s, step).items == s.items;
    assert HasItem(Next(s, step), user) == HasItem(s, user);
  }

  lemma SettleGives(s: State)
    requires Enabled(s, Settle)
    ensures var next := Next(s, Settle);
            && s.pc.SwappedBoth? && next.pc == Scanning && next.visited == s.visited
            && next.items ==
               if UidOf(s, s.pc.user) == 0 then s.items
               else s.items + [Item(s.pc.user, s.pc.ref, UidOf(s, s.pc.user), Bytes(s.pc.up, s.pc.down))]
  {
    hide Without, AddTo, UidOf;
  }

  lemma SettleMoves(s: State, user: string, ref: Ref)
    requires ItemsCurrent(s) && Enabled(s, Settle) && Knows(s, user, ref)
    ensures Moves(s, Settle, Next(s, Settle), user, ref) && UsesOnly(Next(s, Settle), user, ref)
  {
    SettleGives(s);
    hide DistinctUsers, Has, Next, Enabled, UidOf, At;
    var next := Next(s, Settle);
    if s.pc.user == user {
      assert next.items[|s.items|].user == user;
    } else {
      assert HasItem(next, user) == HasItem(s, user) by {
        assert forall i | 0 <= i < |s.items| :: next.items[i] == s.items[i];
      }
    }
  }

  lemma CountMoves(s: State, step: Step, user: string, ref: Ref)
    requires Enabled(s, step) && CountStep(step) && Knows(s, user, ref)
    ensures Moves(s, step, Next(s, step), user, ref)
    ensures UsesOnly(Next(s, step), user, ref)
  {
    hide ViewOf, Has;
    CountLeaves(s, step);
    SameView(s, Next(s, step), user);
  }

  lemma CountLeaves(s: State, step: Step)
    requires Enabled(s, step) && CountStep(step)
    ensures var next := Next(s, step); next.pc == s.pc && next.visited == s.visited && next.items == s.items
  {}

  lemma SameView(s: State, next: State, user: string)
    requires next.pc == s.pc && next.visited == s.visited && next.items == s.items
    ensures ViewOf(next, user) == ViewOf(s, user)
  {}

  /** A step leaves a storage to its connections unless it takes the user's counters. */
  lemma StorageStays(s: State, step: Step, user: string, ref: Ref, side: Side)
    requires WellFormed(s) && ItemsCurrent(s) && Enabled(s, step) && !step.FinishScan? && Knows(s, user, ref)
    requires !ViewOf(s, user).Taking? && !(step.SwapUp? && ViewOf(s, user).SeenBoth?)
    ensures Stays(s, Next(s, step), ref, side)
  {
    assert Owns(s.owner, ref, user) by { FiledIn(s, s.scanned, user); }
    if CountStep(step) {
      CountingStays(s, step, ref, side);
    } else {
      hide AllFile, ItemsOwned, DistinctUsers, Has;
    }
  }

  // ---------- the run of a scan ----------

  /** Steps `l` and `m` load the two counters of the user. */
  ghost predicate Loads(steps: seq<Step>, a: nat, l: nat, m: nat, k: nat, user: string) {
    && a < l < m < k <= |steps| && steps[l] == LoadUp(user) && steps[m].LoadDown?
    && forall j | l < j < m :: !steps[j].LoadDown?
  }

  /** What the loads of the user's two counters add up to. */
  ghost function LoadedSum(states: seq<State>, l: nat, m: nat, ref: Ref): int
    requires l < |states| && m < |states|
  {
    At(states[l].storage, ref).up + At(states[m].storage, ref).down
  }

  /** How far the scan has come with the user by state `k`, said of the loads. */
  ghost predicate Watched(states: seq<State>, steps: seq<Step>, a: nat, k: nat, l: nat, m: nat, user: string, ref: Ref)
    requires a < k < |states| == |steps| + 1 && steps[a].StartScan?
  {
    match ViewOf(states[k], user)
    case Unseen => true
    case SeenUp(up) =>
      && a < l < k && steps[l] == LoadUp(user) && up == At(states[l].storage, ref).up
      && forall j | l < j < k :: !steps[j].LoadDown?
    case SeenBoth(up, down) =>
      && Loads(steps, a, l, m, k, user)
      && up == At(states[l].storage, ref).up && down == At(states[m].storage, ref).down
    case Taking => Loads(steps, a, l, m, k, user) && LoadedSum(states, l, m, ref) > steps[a].minimum * 1000
    case Taken => Loads(steps, a, l, m, k, user) && LoadedSum(states, l, m, ref) > steps[a].minimum * 1000
    case Passed => Loads(steps, a, l, m, k, user) && LoadedSum(states, l, m, ref) <= steps[a].minimum * 1000
  }

  /** A user that the scan is to see: it has an id, and the table in use lists it. */
  ghost predicate Watchable(states: seq<State>, a: nat, user: string, ref: Ref)
    requires a < |states|
  {
    UidOf(states[a], user) != 0 && states[a].current.Some? && Has(states[a], states[a].current.value, user, ref)
  }

  /** The scan lists the user throughout. */
  lemma ListedThroughout(states: seq<State>, steps: seq<Step>, a: nat, b: nat, user: string, ref: Ref)
    requires Scans(states, steps, a, b) && Watchable(states, a, user, ref)
    ensures forall k | a < k <= b ::
              && HoldsLock(states[k].pc) && states[k].scanned == states[a].current && states[k].scanned.Some?
              && Has(states[k], states[k].scanned.value, user, ref) && Registered(states[k], user)
              && UidOf(states[k], user) != 0 && states[k].minimum == steps[a].minimum
              && states[k].delivered == states[a].delivered
  {
    RegisteredThroughout(states, steps, a, b, user);
    hide Next, Enabled, Initial, Has;
    forall k | a < k <= b
      ensures HoldsLock(states[k].pc) && states[k].scanned == states[a].current && states[k].scanned.Some?
      ensures Has(states[k], states[k].scanned.value, user, ref) && states[k].minimum == steps[a].minimum
      ensures states[k].delivered == states[a].delivered
    {
      ScanHolds(states, steps, a, k);
      RunKeepsUser(states, steps, states[a].current.value, user, ref, a, k);
    }
  }

  /** What is counted in a storage stays in it, in both directions. */
  predicate StaysBoth(s: State, next: State, ref: Ref) { Stays(s, next, ref, Up) && Stays(s, next, ref, Down) }

  lemma StaysOn(s: State, t: State, u: State, ref: Ref)
    requires StaysBoth(s, t, ref) && StaysBoth(t, u, ref)
    ensures StaysBoth(s, u, ref)
  {
    hide At;
  }

  lemma DueStays(s: State, step: Step, user: string)
    requires Enabled(s, step) && HoldsLock(s.pc) && Registered(s, user) && user in s.due && step != LoadUp(user)
    ensures user in Next(s, step).due
  {}

  lemma WatchStart(states: seq<State>, steps: seq<Step>, a: nat, user: string, ref: Ref)
    requires Scans(states, steps, a, a + 1) && Watchable(states, a, user, ref)
    ensures ViewOf(states[a + 1], user) == Unseen && user in states[a + 1].due && UsesOnly(states[a + 1], user, ref)
    ensures StaysBoth(states[a], states[a + 1], ref)
  {
    ScanStarts(states, steps, a);
  }

  /** What is known of the loads moves on with the scan. */
  lemma WatchMoves(states: seq<State>, steps: seq<Step>, a: nat, k: nat, l: nat, m: nat, user: string, ref: Ref)
    requires a < k < k + 1 < |states| == |steps| + 1 && steps[a].StartScan?
    requires Moves(states[k], steps[k], states[k + 1], user, ref) && states[k].minimum == steps[a].minimum
    requires Watched(states, steps, a, k, l, m, user, ref)
    ensures var l' := if steps[k] == LoadUp(user) && ViewOf(states[k], user).Unseen? then k else l;
            var m' := if steps[k] == LoadDown && ViewOf(states[k], user).SeenUp? then k else m;
            Watched(states, steps, a, k + 1, l', m', user, ref)
  {
    hide ViewOf, At;
  }

  /** One step more of the scan. */
  lemma WatchStep(states: seq<State>, steps: seq<Step>, a: nat, k: nat, l: nat, m: nat, user: string, ref: Ref)
    returns (l': nat, m': nat)
    requires a < k < k + 1 < |states| == |steps| + 1 && steps[a].StartScan? && Enabled(states[k], steps[k])
    requires states[k + 1] == Next(states[k], steps[k]) && !steps[k].FinishScan?
    requires WellFormed(states[k]) && ItemsCurrent(states[k]) && Knows(states[k], user, ref)
    requires Registered(states[k], user) && states[k].minimum == steps[a].minimum
    requires Watched(states, steps, a, k, l, m, user, ref)
    ensures Watched(states, steps, a, k + 1, l', m', user, ref)
    ensures UsesOnly(states[k + 1], user, ref)
    ensures l' == (if steps[k] == LoadUp(user) && ViewOf(states[k], user).Unseen? then k else l)
    ensures m' == (if steps[k] == LoadDown && ViewOf(states[k], user).SeenUp? then k else m)
    ensures ViewOf(states[k + 1], user).Unseen? && user in states[k].due ==> user in states[k + 1].due
  {
    var s, step, next := states[k], steps[k], states[k + 1];
    KnowsHolds(s, user, ref);
    StepMoves(s, step, user, ref);
    hide Next, Enabled, ViewOf, WellFormed, ItemsCurrent, Registered, Knows, UsesOnly, HoldsLock, Watched, Moves;
    l' := if step == LoadUp(user) && ViewOf(s, user).Unseen? then k else l;
    m' := if step == LoadDown && ViewOf(s, user).SeenUp? then k else m;
    WatchMoves(states, steps, a, k, l, m, user, ref);
    if ViewOf(next, user).Unseen? && user in s.due {
      DueStays(s, step, user);
    }
  }

  /** Until the scan takes the user, what is counted for it stays in its storage. */
  lemma StepStays(s: State, step: Step, user: string, ref: Ref)
    requires WellFormed(s) && ItemsCurrent(s) && Enabled(s, step) && !step.FinishScan? && Knows(s, user, ref)
    requires !ViewOf(Next(s, step), user).Taking? && !ViewOf(Next(s, step), user).Taken?
    ensures StaysBoth(s, Next(s, step), ref) && !ViewOf(s, user).Taking? && !ViewOf(s, user).Taken?
  {
    StepMoves(s, step, user, ref);
    hide Next, Enabled, ViewOf, WellFormed, ItemsCurrent, Knows, Stays, At;
    StorageStays(s, step, user, ref, Up);
    StorageStays(s, step, user, ref, Down);
  }

  lemma KnowsHolds(s: State, user: string, ref: Ref)
    requires Knows(s, user, ref)
    ensures HoldsLock(s.pc)
  {}

  lemma KnowsWhen(s: State, user: string, ref: Ref)
    requires HoldsLock(s.pc) && s.scanned.Some? && Has(s, s.scanned.value, user, ref) && UidOf(s, user) != 0
    requires UsesOnly(s, user, ref)
    ensures Knows(s, user, ref)
  {}

  lemma StepMoves(s: State, step: Step, user: string, ref: Ref)
    requires ItemsCurrent(s) && Enabled(s, step) && !step.FinishScan? && Knows(s, user, ref)
    ensures Moves(s, step, Next(s, step), user, ref)
    ensures UsesOnly(Next(s, step), user, ref)
  {
    if CountStep(step) {
      CountMoves(s, step, user, ref);
    } else if ScanStep(step) {
      ScanMoves(s, step, user, ref);
    } else {
      assert step.Settle?;
      SettleMoves(s, user, ref);
    }
  }

  /** What is known of the user by state `k`. */
  ghost predicate WatchedTo(states: seq<State>, steps: seq<Step>, a: nat, k: nat, l: nat, m: nat, user: string,
                            ref: Ref)
    requires a < k < |states| == |steps| + 1 && steps[a].StartScan?
  {
    var v := ViewOf(states[k], user);
    && Knows(states[k], user, ref) && Watched(states, steps, a, k, l, m, user, ref)
    && (v.Unseen? ==> user in states[k].due)
    && (!v.Taking? && !v.Taken? ==> StaysBoth(states[a], states[k], ref))
    && (!v.Unseen? ==> l < |states| && StaysBoth(states[a], states[l], ref))
    && (!v.Unseen? && !v.SeenUp? ==> m < |states| && StaysBoth(states[a], states[m], ref))
  }

  /** The scan of step `a` lists the user in state `k`. */
  predicate ListedIn(states: seq<State>, steps: seq<Step>, a: nat, k: nat, user: string, ref: Ref)
    requires a < k < |states| == |steps| + 1 && steps[a].StartScan?
  {
    var s := states[k];
    && HoldsLock(s.pc) && s.scanned.Some? && Has(s, s.scanned.value, user, ref) && UidOf(s, user) != 0
    && Registered(s, user) && s.minimum == steps[a].minimum
  }

  lemma WatchOneMore(states: seq<State>, steps: seq<Step>, a: nat, k: nat, l: nat, m: nat, user: string, ref: Ref)
    returns (l': nat, m': nat)
    requires a < k < k + 1 < |states| == |steps| + 1 && steps[a].StartScan? && Enabled(states[k], steps[k])
    requires states[k + 1] == Next(states[k], steps[k]) && !steps[k].FinishScan?
    requires WellFormed(states[k]) && ItemsCurrent(states[k])
    requires ListedIn(states, steps, a, k, user, ref) && ListedIn(states, steps, a, k + 1, user, ref)
    requires WatchedTo(states, steps, a, k, l, m, user, ref)
    ensures WatchedTo(states, steps, a, k + 1, l', m', user, ref)
  {
    hide Next, Enabled, Has, ViewOf, Registered, UidOf, WellFormed, ItemsCurrent, Watched, StaysBoth, Knows;
    l', m' := WatchStep(states, steps, a, k, l, m, user, ref);
    var v := ViewOf(states[k + 1], user);
    if !v.Taking? && !v.Taken? {
      StepStays(states[k], steps[k], user, ref);
      StaysOn(states[a], states[k], states[k + 1], ref);
    }
    StillUnseen(states[k], steps[k], user, ref);
    StepMoves(states[k], steps[k], user, ref);
    KnowsWhen(states[k + 1], user, ref);
  }

  lemma StillUnseen(s: State, step: Step, user: string, ref: Ref)
    requires ItemsCurrent(s) && Enabled(s, step) && !step.FinishScan? && Knows(s, user, ref)
    ensures ViewOf(Next(s, step), user).Unseen? ==> ViewOf(s, user).Unseen?
  {
    StepMoves(s, step, user, ref);
    hide Next, Enabled, ViewOf, ItemsCurrent, Knows, At;
  }

  lemma ScansLess(states: seq<State>, steps: seq<Step>, a: nat, k: nat)
    requires Scans(states, steps, a, k)
    ensures a < k < |states| == |steps| + 1 && steps[a].StartScan?
    ensures Enabled(states[k - 1], steps[k - 1]) && states[k] == Next(states[k - 1], steps[k - 1])
    ensures WellFormed(states[k - 1]) && ItemsCurrent(states[k - 1])
    ensures k > a + 1 ==> Scans(states, steps, a, k - 1) && !steps[k - 1].FinishScan?
  {
    hide Next, Enabled, Initial, WellFormed, ItemsCurrent;
    RunKeepsItems(states, steps, k - 1);
    assert states[k - 1 + 1] == Next(states[k - 1], steps[k - 1]);
  }

  lemma ListedNow(states: seq<State>, steps: seq<Step>, a: nat, k: nat, user: string, ref: Ref)
    requires Scans(states, steps, a, k) && Watchable(states, a, user, ref)
    ensures ListedIn(states, steps, a, k, user, ref)
  {
    ListedThroughout(states, steps, a, k, user, ref);
    hide Next, Enabled, Initial, Has, Registered, UidOf;
  }

  lemma {:induction false} Watch(states: seq<State>, steps: seq<Step>, a: nat, k: nat, user: string, ref: Ref)
    returns (l: nat, m: nat)
    requires Scans(states, steps, a, k) && Watchable(states, a, user, ref)
    ensures a < k < |states| == |steps| + 1 && steps[a].StartScan?
    ensures WatchedTo(states, steps, a, k, l, m, user, ref)
  {
    hide Next, Enabled, ViewOf, WellFormed, ItemsCurrent, Watchable, ListedIn, Scans;
    ScansLess(states, steps, a, k);
    ListedNow(states, steps, a, k, user, ref);
    if k == a + 1 {
      WatchStart(states, steps, a, user, ref);
      l, m := 0, 0;
      WatchedAtStart(states, steps, a, l, m, user, ref);
    } else {
      hide WatchedTo;
      l, m := Watch(states, steps, a, k - 1, user, ref);
      ListedNow(states, steps, a, k - 1, user, ref);
      l, m := WatchOneMore(states, steps, a, k - 1, l, m, user, ref);
    }
  }

  lemma WatchedAtStart(states: seq<State>, steps: seq<Step>, a: nat, l: nat, m: nat, user: string, ref: Ref)
    requires a + 1 < |states| == |steps| + 1 && steps[a].StartScan?
    requires ListedIn(states, steps, a, a + 1, user, ref) && StaysBoth(states[a], states[a + 1], ref)
    requires ViewOf(states[a + 1], user) == Unseen && user in states[a + 1].due && UsesOnly(states[a + 1], user, ref)
    ensures WatchedTo(states, steps, a, a + 1, l, m, user, ref)
  {
    hide Has, Registered, UidOf, ViewOf, StaysBoth;
    KnowsWhen(states[a + 1], user, ref);
  }

  // ---------- whom a scan takes ----------

  /** A scan that ends has seen the user, and has taken it or passed it over. */
  lemma ScanEndsWith(states: seq<State>, steps: seq<Step>, a: nat, b: nat, user: string, ref: Ref)
    returns (l: nat, m: nat)
    requires Scans(states, steps, a, b) && Watchable(states, a, user, ref) && b < |steps| && steps[b].FinishScan?
    ensures |states| == |steps| + 1 && steps[a].StartScan? && states[b].pc.Scanning?
    ensures WatchedTo(states, steps, a, b, l, m, user, ref)
    ensures ViewOf(states[b], user).Taken? || ViewOf(states[b], user).Passed?
    ensures ViewOf(states[b], user).Taken? <==> HasItem(states[b], user)
  {
    l, m := Watch(states, steps, a, b, user, ref);
    FinishEnabled(states, steps, b);
    hide Trace, Next, Enabled, Initial, Scans, Watched, Knows, Watchable;
  }

  lemma FinishEnabled(states: seq<State>, steps: seq<Step>, b: nat)
    requires Trace(states, steps) && b < |steps| && steps[b].FinishScan?
    ensures states[b].pc.Scanning? && states[b].due == {}
  {
    assert Enabled(states[b], steps[b]);
  }

  /**
   A user with an id that the table lists when a scan starts is among the items at its end exactly
   when the two amounts loaded for it add up to more than the threshold. If it is not, its storage
   was only added to.
   */
  lemma ScanTakes(states: seq<State>, steps: seq<Step>, a: nat, b: nat, user: string, ref: Ref)
    returns (l: nat, m: nat)
    requires Scans(states, steps, a, b) && b < |steps| && steps[b].FinishScan?
    requires user in states[a].uids && states[a].uids[user] != 0
    requires states[a].current.Some? && Has(states[a], states[a].current.value, user, ref)
    ensures a < l < m < b < |steps| < |states| && steps[a].StartScan?
    ensures steps[l] == LoadUp(user) && steps[m] == LoadDown && forall j | l < j < m :: steps[j] != LoadDown
    ensures (exists i :: 0 <= i < |states[b].items| && states[b].items[i].user == user) <==>
            At(states[l].storage, ref).up + At(states[m].storage, ref).down > steps[a].minimum * 1000
    ensures (forall i | 0 <= i < |states[b].items| :: states[b].items[i].user != user) ==>
              Stays(states[a], states[b], ref, Up) && Stays(states[a], states[b], ref, Down)
    ensures StaysBoth(states[a], states[l], ref) && StaysBoth(states[a], states[m], ref)
  {
    l, m := ScanEndsWith(states, steps, a, b, user, ref);
    hide Next, Enabled, Initial, Scans, Knows, Stays, At, Has, ViewOf;
  }

  lemma {:induction false} TotalOfOther(items: seq<Item>, ref: Ref, side: Side)
    requires forall i | 0 <= i < |items| :: items[i].ref != ref
    ensures Total(items, ref, side) == 0
  {
    if items != [] {
      TotalOfOther(items[1..], ref, side);
    }
  }

  /** Of different users with storages of their own, one item holds all of a storage. */
  lemma {:induction false} TotalOfItem(items: seq<Item>, owner: Owner, i: nat, side: Side)
    requires i < |items| && DistinctUsers(items) && ItemsOwned(items, owner)
    ensures Total(items, items[i].ref, side) == Of(items[i].bytes, side)
  {
    hide Of;
    if i > 0 {
      assert items[0].user != items[i].user;
      assert Owns(owner, items[0].ref, items[0].user) && Owns(owner, items[i].ref, items[i].user);
      TotalOfItem(items[1..], owner, i - 1, side);
    } else {
      forall j | 0 <= j < |items[1..]| ensures items[1..][j].ref != items[0].ref {
        assert items[1..][j] == items[j + 1] && items[0].user != items[j + 1].user;
        assert Owns(owner, items[0].ref, items[0].user) && Owns(owner, items[j + 1].ref, items[j + 1].user);
      }
      TotalOfOther(items[1..], items[0].ref, side);
    }
  }

  /** What of a storage is in the counter and swapped out is what was there and what was counted since. */
  lemma SwappedOut(states: seq<State>, steps: seq<Step>, a: nat, b: nat, user: string, ref: Ref, side: Side)
    requires Scans(states, steps, a, b) && Watchable(states, a, user, ref) && states[b].pc.Scanning?
    ensures Of(At(states[b].storage, ref), side) + Total(states[b].items, ref, side) ==
            Of(At(states[a].storage, ref), side)
            + Of(At(states[b].counted, ref), side) - Of(At(states[a].counted, ref), side)
  {
    InitialWellFormed(states[0], ref);
    RunConserves(states, steps, ref, a);
    RunConserves(states, steps, ref, b);
    ScanStarts(states, steps, a);
    RegisteredThroughout(states, steps, a, b, user);
    ListedThroughout(states, steps, a, b, user, ref);
    hide Next, Enabled, Initial;
    FiledIn(states[b], states[b].scanned, user);
    RunDropsNothing(states, steps, user, ref, a, b);
    hide Trace, Registered, UidOf, Has, AllFile, ItemsOwned;
  }

  /** The item of a user is of its storage, under its id, and holds what is no longer in the counter. */
  lemma ItemContent(states: seq<State>, steps: seq<Step>, a: nat, b: nat, user: string, ref: Ref, i: nat)
    requires Scans(states, steps, a, b) && b < |steps| && steps[b].FinishScan?
    requires user in states[a].uids && states[a].uids[user] != 0
    requires states[a].current.Some? && Has(states[a], states[a].current.value, user, ref)
    requires i < |states[b].items| && states[b].items[i].user == user
    ensures states[b].items[i].ref == ref && states[b].items[i].uid == states[a].uids[user]
    ensures states[b].items[i].bytes.up == At(states[a].storage, ref).up - At(states[b].storage, ref).up
            + At(states[b].counted, ref).up - At(states[a].counted, ref).up
    ensures states[b].items[i].bytes.down == At(states[a].storage, ref).down - At(states[b].storage, ref).down
            + At(states[b].counted, ref).down - At(states[a].counted, ref).down
  {
    var l, m := ScanEndsWith(states, steps, a, b, user, ref);
    SwappedOut(states, steps, a, b, user, ref, Up);
    SwappedOut(states, steps, a, b, user, ref, Down);
    RunKeepsItems(states, steps, b);
    RegisteredThroughout(states, steps, a, b, user);
    hide Trace, Next, Enabled, Initial, Watched, ViewOf, Has, Total, At, WatchedTo;
    assert Knows(states[b], user, ref) by { WatchedKnows(states, steps, a, b, l, m, user, ref); }
    TotalOfItem(states[b].items, states[b].owner, i, Up);
    TotalOfItem(states[b].items, states[b].owner, i, Down);
  }

  lemma WatchedKnows(states: seq<State>, steps: seq<Step>, a: nat, k: nat, l: nat, m: nat, user: string, ref: Ref)
    requires a < k < |states| == |steps| + 1 && steps[a].StartScan?
    requires WatchedTo(states, steps, a, k, l, m, user, ref)
    ensures Knows(states[k], user, ref)
  {}

  // ---------- busy and quiet users ----------

  /** Connections count no negative amounts from state `a` on. */
  ghost predicate CountsUp(steps: seq<Step>, a: nat, b: nat)
    requires a <= b <= |steps|
  {
    forall k | a <= k < b && steps[k].Count? :: steps[k].bytes.up >= 0 && steps[k].bytes.down >= 0
  }

  lemma CountedStep(s: State, step: Step, ref: Ref)
    requires Enabled(s, step) && (step.Count? ==> step.bytes.up >= 0 && step.bytes.down >= 0)
    ensures At(Next(s, step).counted, ref).up >= At(s.counted, ref).up
    ensures At(Next(s, step).counted, ref).down >= At(s.counted, ref).down
  {}

  lemma {:induction false} CountedGrows(states: seq<State>, steps: seq<Step>, a: nat, b: nat, ref: Ref)
    requires Trace(states, steps) && a <= b < |states| && CountsUp(steps, a, b)
    ensures At(states[b].counted, ref).up >= At(states[a].counted, ref).up
    ensures At(states[b].counted, ref).down >= At(states[a].counted, ref).down
  {
    hide Next, Enabled, At;
    if a < b {
      CountedGrows(states, steps, a, b - 1, ref);
      assert states[b - 1 + 1] == Next(states[b - 1], steps[b - 1]);
      CountedStep(states[b - 1], steps[b - 1], ref);
    }
  }

  /**
   A user above the threshold when the scan starts is reported, and a user that is reported is above
   it with what is counted during the scan.
   */
  lemma BusyUsersReported(states: seq<State>, steps: seq<Step>, a: nat, b: nat, user: string, ref: Ref)
    requires Scans(states, steps, a, b) && b < |steps| && steps[b].FinishScan? && CountsUp(steps, a, b)
    requires user in states[a].uids && states[a].uids[user] != 0
    requires states[a].current.Some? && Has(states[a], states[a].current.value, user, ref)
    ensures steps[a].StartScan?
    ensures At(states[a].storage, ref).up + At(states[a].storage, ref).down > steps[a].minimum * 1000 ==>
              exists i :: 0 <= i < |states[b].items| && states[b].items[i].user == user
    ensures (exists i :: 0 <= i < |states[b].items| && states[b].items[i].user == user) ==>
              At(states[a].storage, ref).up + At(states[a].storage, ref).down
              + (At(states[b].counted, ref).up - At(states[a].counted, ref).up)
              + (At(states[b].counted, ref).down - At(states[a].counted, ref).down) > steps[a].minimum * 1000
  {
    var l, m := ScanTakes(states, steps, a, b, user, ref);
    hide Next, Enabled, Initial, Has, At;
    CountedGrows(states, steps, a, l, ref);
    CountedGrows(states, steps, l, b, ref);
    CountedGrows(states, steps, a, m, ref);
    CountedGrows(states, steps, m, b, ref);
  }
}
