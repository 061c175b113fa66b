/**
 The machine reconciler: it brings the running controllers to the desired nodes, under any mix of
 fetch, start, close and replace failures.

 `running` is the set of controllers that hold resources. Closing a controller stops it even when
 closing reports an error; activating one can fail after it has started to hold resources.
 */
module Machine {
  import opened Results
  import opened Sets
  import opened MachinePlan
  import opened MachineFate

  /** The controllers of the current nodes with one of these keys. */
  ghost function Owned(current: Slots, keys: set<string>): set<Controller> {
    set key | key in current && key in keys :: current[key].controller
  }

  ghost predicate SeparateControllers(current: Slots) {
    forall key, key' | key in current && key' in current && key != key' ::
        current[key].controller != current[key'].controller
  }

  /** Closing the unwanted nodes reports no error. */
  predicate AllClose(current: Slots, keys: seq<string>, closes: string -> bool) {
    forall key <- current :: key in keys || closes(key)
  }

  /** The slot carries out the placement. */
  ghost predicate PlacedAs(p: Placed, placed: Option<Slot>) {
    match p
    case Gone => placed.None?
    case Kept(slot) => placed == Some(slot)
    case New(candidate) =>
      && placed.Some? && placed.value.config == candidate.config && placed.value.info == candidate.info
      && placed.value.controller.config == candidate.config && placed.value.controller.info == candidate.info
  }

  lemma NothingCarried()
    ensures Carries([], [], [], []) && DistinctControllers([]) && Members([]) == {}
    ensures forall before :: NewAreNot(before, [], [])
  {}

  lemma CarryOne(controllers: seq<Controller>, infos: seq<Info>, configs: seq<Config>, r: seq<Placed>, p: Placed,
                 placed: Option<Slot>)
    requires Carries(controllers, infos, configs, r) && PlacedAs(p, placed)
    ensures p.Gone? <==> placed.None?
    ensures placed.Some? ==>
              Carries(controllers + [placed.value.controller], infos + [placed.value.info],
                      configs + [placed.value.config], r + [p])
    ensures r + [] == r
  {}

  lemma CarryOneNew(before: seq<Controller>, controllers: seq<Controller>, r: seq<Placed>, p: Placed,
                    placed: Option<Slot>)
    requires NewAreNot(before, controllers, r) && PlacedAs(p, placed)
    requires p.New? ==> placed.Some? && placed.value.controller !in before
    ensures placed.Some? ==> NewAreNot(before, controllers + [placed.value.controller], r + [p])
  {}

  lemma AddMember(controllers: seq<Controller>, c: Controller)
    requires DistinctControllers(controllers)
    ensures c !in Members(controllers) ==> DistinctControllers(controllers + [c])
    ensures Members(controllers + [c]) == Members(controllers) + {c}
  {}

  /** When a reconcile returns no error. */
  ghost predicate Succeeds(was: Slices, desired: seq<Config>, fetch: seq<Fetch>, outcomes: string -> Outcome,
                           closes: string -> bool, continueOnError: bool)
    requires |desired| == |fetch|
  {
    && was.InStep() && (forall i | 0 <= i < |was.configs| :: Key(was.configs[i]) != "")
    && var keys, candidates := OrderedKeys(desired, |desired|), CandidatesOf(desired, fetch, |desired|);
       var refresh := RefreshFailures(was.Current(), desired, fetch, |desired|);
       && (continueOnError || refresh == [])
       && ((candidates == map[] && refresh != []) || NeedsFullReload(was.Current(), keys, candidates)
           || (AllClose(was.Current(), keys, closes)
               && (continueOnError || Count(was.Current(), candidates, outcomes, keys).failures == [])))
  }

  /**
   What a reconcile without error does: nothing when no desired node could be refreshed or when a
   full reload is required, and otherwise exactly the placements of the wanted nodes.
   */
  ghost predicate Reconciled(was: Slices, next: Slices, desired: seq<Config>, fetch: seq<Fetch>,
                             outcomes: string -> Outcome, result: ReconcileResult)
    requires |desired| == |fetch|
  {
    && was.InStep()
    && var keys, candidates := OrderedKeys(desired, |desired|), CandidatesOf(desired, fetch, |desired|);
       var refresh := RefreshFailures(was.Current(), desired, fetch, |desired|);
       var skipped := RefreshSkips(was.Current(), desired, fetch, |desired|);
       var tally := Count(was.Current(), candidates, outcomes, keys);
       if candidates == map[] && refresh != [] then
         !result.fullReloadRequired && next == was && result.failures == refresh && result.skipped == skipped
       else if NeedsFullReload(was.Current(), keys, candidates) then
         result.fullReloadRequired && next == was && result.failures == refresh && result.skipped == skipped
       else
         && !result.fullReloadRequired
         && Carries(next.controllers, next.infos, next.configs, Placements(was.Current(), candidates, outcomes, keys))
         && NewAreNot(was.controllers, next.controllers, Placements(was.Current(), candidates, outcomes, keys))
         && result.tally == tally && result.failures == refresh + tally.failures
         && result.removed == |was.Current().Keys - KeySet(keys)| && result.skipped == skipped + |tally.failures|
  }

  /** The two reconciles without error that leave the nodes alone. */
  lemma LeftAlone(was: Slices, desired: seq<Config>, fetch: seq<Fetch>, outcomes: string -> Outcome,
                  closes: string -> bool, continueOnError: bool, result: ReconcileResult)
    requires |desired| == |fetch| && was.InStep() && DistinctKeys(was.configs) && DistinctControllers(was.controllers)
    requires forall k | 0 <= k < |was.configs| :: Key(was.configs[k]) != ""
    requires result.failures == RefreshFailures(was.Current(), desired, fetch, |desired|)
             && result.skipped == RefreshSkips(was.Current(), desired, fetch, |desired|)
             && (continueOnError || result.failures == [])
    requires var keys, candidates := OrderedKeys(desired, |desired|), CandidatesOf(desired, fetch, |desired|);
             if result.fullReloadRequired then
               (candidates == map[] ==> result.failures == []) && NeedsFullReload(was.Current(), keys, candidates)
             else candidates == map[] && result.failures != []
    ensures Succeeds(was, desired, fetch, outcomes, closes, continueOnError)
    ensures Reconciled(was, was, desired, fetch, outcomes, result)
            && Answered(was, was, desired, fetch, outcomes, result)
  {
    hide Key, Placements, Count, RefreshFailures, RefreshSkips, NeedsFullReload, Carries, NewAreNot, DistinctKeys,
         DistinctControllers, OrderedKeys, CandidatesOf, SlotsOf, KeySet, Answered, AllClose;
    ReconciledMeans(was, was, desired, fetch, outcomes, result);
  }

  /** The reconcile without error that carries out the placements. */
  lemma CarriedThrough(was: Slices, next: Slices, desired: seq<Config>, fetch: seq<Fetch>, outcomes: string -> Outcome,
                       result: ReconcileResult)
    requires |desired| == |fetch| && was.InStep() && DistinctKeys(was.configs) && DistinctControllers(was.controllers)
    requires forall k | 0 <= k < |was.configs| :: Key(was.configs[k]) != ""
    requires var keys, candidates := OrderedKeys(desired, |desired|), CandidatesOf(desired, fetch, |desired|);
             var refresh := RefreshFailures(was.Current(), desired, fetch, |desired|);
             var r := Placements(was.Current(), candidates, outcomes, keys);
             && (candidates == map[] ==> refresh == []) && !NeedsFullReload(was.Current(), keys, candidates)
             && Carries(next.controllers, next.infos, next.configs, r)
             && NewAreNot(was.controllers, next.controllers, r) && !result.fullReloadRequired
             && result.tally == Count(was.Current(), candidates, outcomes, keys)
             && result.failures == refresh + result.tally.failures
             && result.removed == |was.Current().Keys - KeySet(keys)|
             && result.skipped ==
                RefreshSkips(was.Current(), desired, fetch, |desired|) + |result.tally.failures|
    ensures Reconciled(was, next, desired, fetch, outcomes, result)
            && Answered(was, next, desired, fetch, outcomes, result)
  {
    hide Key, Placements, Count, RefreshFailures, RefreshSkips, NeedsFullReload, Carries, NewAreNot, DistinctKeys,
         DistinctControllers, OrderedKeys, CandidatesOf, SlotsOf, KeySet, Answered;
    ReconciledMeans(was, next, desired, fetch, outcomes, result);
  }

  class Node {
    var controllers: seq<Controller>
    var infos: seq<Info>
    var configs: seq<Config>
    var failures: seq<Config>
    ghost var running: set<Controller>

    /** Exactly the listed controllers run, and configured nodes have distinct keys. */
    ghost predicate Valid()
      reads this
    {
      && DistinctControllers(controllers) && running == Members(controllers)
      && (|configs| == |controllers| ==> DistinctKeys(configs))
    }

    ghost predicate InStep()
      reads this
    {
      |controllers| == |infos| == |configs|
    }

    ghost function Now(): Slices
      reads this
    {
      Slices(controllers, infos, configs)
    }

    /** The slices as a node manager for these nodes has them before it starts any. */
    constructor ()
      ensures Valid() && InStep() && controllers == [] && failures == []
    {
      controllers, infos, configs, failures, running := [], [], [], [], {};
    }

    // ---------- controllers ----------

    method CloseController(c: Controller, closes: bool) returns (ok: bool)
      modifies this`running
      ensures running == old(running) - {c} && ok == closes
    {
      running := running - {c};
      ok := closes;
    }

    method StartController(c: Controller, o: Outcome) returns (ok: bool)
      modifies this`running
      ensures running == old(running) + if o.prepared then {c} else {}
      ensures ok == (o.prepared && o.activates)
    {
      if !o.prepared {
        return false;
      }
      running := running + {c};
      ok := o.activates;
    }

    /** Prepares the new controller, closes the old one, then activates the new one. */
    method ReplaceController(oldC: Controller, newC: Controller, o: Outcome) returns (oldStillActive: bool, ok: bool)
      requires newC !in running && oldC != newC
      modifies this`running
      ensures oldStillActive == !o.prepared && ok == (o.prepared && o.oldCloses && o.activates)
      ensures running == if oldStillActive then old(running) else old(running) - {oldC} + if ok then {newC} else {}
    {
      if !o.prepared {
        return true, false;
      }
      var closed := CloseController(oldC, o.oldCloses);
      if !closed {
        return false, false;
      }
      running := running + {newC};
      if !o.activates {
        var _ := CloseController(newC, true);
        return false, false;
      }
      return false, true;
    }

    // ---------- reconciling ----------

    method CurrentMachineSlots() returns (r: Option<Slots>)
      ensures r.Some? ==> InStep() && r.value == SlotsOf(configs, infos, controllers)
      ensures r.None? <==> !InStep() || exists i | 0 <= i < |configs| :: Key(configs[i]) == ""
    {
      hide Key;
      var active := if |configs| > 0 || |controllers| == 0 then configs else [];
      if |active| != |controllers| || |infos| != |controllers| {
        return None;
      }
      var current: Slots := map[];
      for i := 0 to |controllers|
        invariant forall k | 0 <= k < i :: Key(configs[k]) != ""
        invariant current == SlotsOf(configs[..i], infos[..i], controllers[..i])
      {
        var key := Key(active[i]);
        if key == "" {
          return None;
        }
        SlotsOfStep(configs, infos, controllers, i);
        current := current[key := Slot(active[i], infos[i], controllers[i])];
      }
      assert configs[..|configs|] == configs && infos[..|infos|] == infos
             && controllers[..|controllers|] == controllers;
      return Some(current);
    }

    /** Asks for the description of one desired node. */
    method Ask(current: Slots, cfg: Config, answer: Fetch, keys: seq<string>, candidates: Candidates)
      returns (keys': seq<string>, candidates': Candidates, fails: bool, keeps: bool)
      ensures var key := Key(cfg);
              var known := key == "" || key in keys;
              && keys' == (if known then keys else keys + [key])
              && candidates' == (if known || !answer.Fetched? then candidates
                                 else candidates[key := Candidate(cfg, answer.info)])
              && fails == (known || answer.FactoryFails? || answer.FetchFails? || (answer.NoChange? && key !in current))
              && keeps == (!fails && answer.NoChange?)
    {
      var key := Key(cfg);
      if key == "" || key in keys {
        return keys, candidates, true, false;
      }
      keys', candidates' := keys + [key], candidates;
      match answer
      case FactoryFails => fails, keeps := true, false;
      case FetchFails => fails, keeps := true, false;
      case NoChange => fails, keeps := key !in current, key in current;
      case Fetched(info) =>
        candidates' := candidates[key := Candidate(cfg, info)];
        fails, keeps := false, false;
    }

    /** Asks for the description of every desired node. */
    method Refresh(current: Slots, desired: seq<Config>, fetch: seq<Fetch>, continueOnError: bool)
      returns (ok: bool, keys: seq<string>, candidates: Candidates, failed: seq<Config>, skipped: nat)
      requires |desired| == |fetch|
      ensures ok <==> continueOnError || RefreshFailures(current, desired, fetch, |desired|) == []
      ensures ok ==>
                && keys == OrderedKeys(desired, |desired|) && candidates == CandidatesOf(desired, fetch, |desired|)
                && failed == RefreshFailures(current, desired, fetch, |desired|)
                && skipped == RefreshSkips(current, desired, fetch, |desired|)
    {
      hide Key, OrderedKeys, CandidatesOf, RefreshFailures, RefreshSkips, FailsToRefresh;
      keys, candidates, failed, skipped := [], map[], [], 0;
      NothingAsked(current, desired, fetch);
      for i := 0 to |desired|
        invariant keys == OrderedKeys(desired, i) && candidates == CandidatesOf(desired, fetch, i)
        invariant failed == RefreshFailures(current, desired, fetch, i)
                  && skipped == RefreshSkips(current, desired, fetch, i)
        invariant continueOnError || failed == []
      {
        var cfg := desired[i];
        var fails, keeps;
        AskedOne(current, desired, fetch, i);
        keys, candidates, fails, keeps := Ask(current, cfg, fetch[i], keys, candidates);
        if keeps {
          skipped := skipped + 1;
        }
        if fails {
          failed, skipped := failed + [cfg], skipped + 1;
          if !continueOnError {
            FailuresGrow(current, desired, fetch, i + 1, |desired|);
            return false, keys, candidates, failed, skipped;
          }
        }
      }
      return true, keys, candidates, failed, skipped;
    }

    /** Closes the current nodes that are no longer wanted. */
    method CloseRemoved(current: Slots, keys: seq<string>, closes: string -> bool) returns (ok: bool, removed: nat)
      requires SeparateControllers(current) && running == Owned(current, current.Keys)
      modifies this`running
      ensures ok <==> AllClose(current, keys, closes)
      ensures ok ==> running == Owned(current, KeySet(keys)) && removed == |current.Keys - KeySet(keys)|
    {
      hide Owned, SeparateControllers, KeySet, Visited;
      OwnedAtEnds(current, keys);
      VisitNone(current.Keys, KeySet(keys));
      removed := 0;
      var left := current.Keys;
      while left != {}
        invariant left <= current.Keys
        invariant running == Owned(current, left + KeySet(keys))
        invariant removed == |Visited(current.Keys, left, KeySet(keys))|
        invariant forall key <- current :: key in left || key in keys || closes(key)
        decreases |left|
      {
        ghost var some := Inhabited(left);
        var key :| key in left;
        OwnedLeft(current, keys, left, key);
        VisitStep(current.Keys, left, KeySet(keys), key);
        left := left - {key};
        if key in keys {
          continue;
        }
        ok := CloseController(current[key].controller, closes(key));
        if !ok {
          return false, removed;
        }
        removed := removed + 1;
      }
      ok := true;
    }

    /** Brings one wanted node to what becomes of it. */
    method BringUp(current: Slots, candidates: Candidates, outcomes: string -> Outcome, key: string, before: Tally)
      returns (placed: Option<Slot>, fails: bool, tally: Tally)
      modifies this`running
      ensures PlacedAs(Place(current, candidates, outcomes, key), placed)
      ensures placed.Some? ==> (key in current && placed.value == current[key]) || fresh(placed.value.controller)
      ensures Place(current, candidates, outcomes, key).New? ==> placed.Some? && fresh(placed.value.controller)
      ensures var o := outcomes(key);
              var same := key in current && key in candidates
                  && current[key].config == candidates[key].config && current[key].info == candidates[key].info;
              if key in current && (key !in candidates || same || !o.prepared) then placed == Some(current[key])
              else if key in candidates && o.prepared && o.activates && (key in current ==> o.oldCloses) then
                && placed.Some? && fresh(placed.value.controller) && !fails
                && placed.value.config == candidates[key].config && placed.value.info == candidates[key].info
                && placed.value.controller.config == candidates[key].config
                && placed.value.controller.info == candidates[key].info
              else placed.None? && (fails <==> key in candidates)
      ensures key in current && key in candidates && !outcomes(key).prepared ==>
                (fails <==> current[key].config != candidates[key].config || current[key].info != candidates[key].info)
      ensures tally == CountOne(current, candidates, outcomes, key, before)
              && fails == (|tally.failures| > |before.failures|)
      ensures var own := if key in current then {current[key].controller} else {};
              own <= old(running) ==>
                running == old(running) - own + if placed.Some? then {placed.value.controller} else {}
    {
      if key !in candidates {
        return if key in current then Some(current[key]) else None, false,
               if key in current then before.(kept := before.kept + 1) else before;
      }
      var candidate := candidates[key];
      if key in current && SameNode(current[key], candidate) {
        return Some(current[key]), false, before.(kept := before.kept + 1);
      }
      var controller := new Controller(candidate.config, candidate.info);
      var failed := before.(failures := before.failures + [candidate.config]);
      if key in current {
        var oldStillActive, ok := ReplaceController(current[key].controller, controller, outcomes(key));
        if !ok {
          return if oldStillActive then Some(current[key]) else None, true, failed;
        }
        tally := before.(restarted := before.restarted + 1);
      } else {
        var o := outcomes(key);
        var ok := StartController(controller, o);
        if !ok {
          var _ := CloseController(controller, true);
          return None, true, failed;
        }
        tally := before.(added := before.added + 1);
      }
      return Some(Slot(candidate.config, candidate.info, controller)), false, tally;
    }

    /** Builds the next slices from the wanted nodes, in order. */
    method Rebuild(current: Slots, candidates: Candidates, outcomes: string -> Outcome, keys: seq<string>,
                   continueOnError: bool, ghost before: seq<Controller>)
      returns (ok: bool, nextControllers: seq<Controller>, nextInfos: seq<Info>, nextConfigs: seq<Config>, tally: Tally)
      requires SeparateControllers(current) && running == Owned(current, KeySet(keys))
      requires forall i, j | 0 <= i < j < |keys| :: keys[i] != keys[j]
      modifies this`running
      ensures ok <==> continueOnError || Count(current, candidates, outcomes, keys).failures == []
      ensures ok ==>
                && Carries(nextControllers, nextInfos, nextConfigs, Placements(current, candidates, outcomes, keys))
                && NewAreNot(before, nextControllers, Placements(current, candidates, outcomes, keys))
                && tally == Count(current, candidates, outcomes, keys)
                && DistinctControllers(nextControllers) && running == Members(nextControllers)
    {
      hide Place, SameNode, Owned, SeparateControllers, KeySet, CountOne, PlacedAs, Carries, DistinctControllers,
           NewAreNot;
      nextControllers, nextInfos, nextConfigs, tally := [], [], [], Tally(0, 0, 0, []);
      OwnedStart(current, keys);
      NothingCarried();
      for i := 0 to |keys|
        invariant Carries(nextControllers, nextInfos, nextConfigs, Placements(current, candidates, outcomes, keys[..i]))
        invariant NewAreNot(before, nextControllers, Placements(current, candidates, outcomes, keys[..i]))
        invariant tally == Count(current, candidates, outcomes, keys[..i])
        invariant continueOnError || tally.failures == []
        invariant DistinctControllers(nextControllers)
        invariant running == Members(nextControllers) + Owned(current, KeySet(keys[i..]))
        invariant Members(nextControllers) !! Owned(current, KeySet(keys[i..]))
      {
        var key := keys[i];
        assert keys[..i + 1][..i] == keys[..i];
        OwnedStep(current, keys, i);
        var placed, fails;
        placed, fails, tally := BringUp(current, candidates, outcomes, key, tally);
        if fails && !continueOnError {
          CountGrows(current, candidates, outcomes, keys, i + 1);
          return false, nextControllers, nextInfos, nextConfigs, tally;
        }
        CarryOne(nextControllers, nextInfos, nextConfigs, Placements(current, candidates, outcomes, keys[..i]),
                 Place(current, candidates, outcomes, key), placed);
        CarryOneNew(before, nextControllers, Placements(current, candidates, outcomes, keys[..i]),
                    Place(current, candidates, outcomes, key), placed);
        if placed.Some? {
          AddMember(nextControllers, placed.value.controller);
          nextControllers := nextControllers + [placed.value.controller];
          nextInfos := nextInfos + [placed.value.info];
          nextConfigs := nextConfigs + [placed.value.config];
        }
      }
      assert keys[..|keys|] == keys;
      return true, nextControllers, nextInfos, nextConfigs, tally;
    }

    /**
     One reconcile. The result is missing on an error, and then the slices are as they were.
     Otherwise they list exactly the running controllers, under distinct keys; they are unchanged
     when a full reload is asked for, or when no desired node could be refreshed; and in the other
     cases they carry out the placements of the wanted nodes.
     */
    method Reconcile(desired: seq<Config>, fetch: seq<Fetch>, outcomes: string -> Outcome, closes: string -> bool,
                     continueOnError: bool)
      returns (result: Option<ReconcileResult>)
      requires Valid() && |desired| == |fetch|
      modifies this
      ensures result.Some? <==> Succeeds(old(Now()), desired, fetch, outcomes, closes, continueOnError)
      ensures result.None? <==> Errs(old(Now()), desired, fetch, outcomes, closes, continueOnError)
      ensures result.None? ==> Now() == old(Now())
      ensures result.Some? ==> Answered(old(Now()), Now(), desired, fetch, outcomes, result.value)
      ensures result.Some? ==>
                && Valid() && InStep()
                && Reconciled(old(Now()), Now(), desired, fetch, outcomes, result.value)
                && (continueOnError || result.value.failures == [])
                && (!result.value.fullReloadRequired ==> failures == result.value.failures)
                && RoutedPairs(configs, infos) == old(if InStep() then RoutedPairs(configs, infos) else {})
    {
      hide Key, Placements, Count, RefreshFailures, NeedsFullReload, RoutedPairs, Carries, NewAreNot,
           DistinctKeys, DistinctControllers, Fates, FatesCounted, RoutesChange, NothingRefreshed;
      hide OrderedKeys, CandidatesOf, SlotsOf, Owned, Members, SeparateControllers, KeySet, Errs, Answered,
           AllClose, RefreshSkips, FailsToRefresh, Reconciled;
      ghost var was := Now();
      SucceedsMeans(was, desired, fetch, outcomes, closes, continueOnError);
      var slots := CurrentMachineSlots();
      if slots.None? {
        return None;
      }
      var current := slots.value;
      var ok, keys, candidates, failed, skipped := Refresh(current, desired, fetch, continueOnError);
      if !ok {
        return None;
      }
      if |candidates| == 0 && |failed| > 0 && continueOnError {
        failures := failed;
        result := Some(ReconcileResult(Tally(0, 0, 0, []), 0, skipped, false, failed));
        LeftAlone(was, desired, fetch, outcomes, closes, continueOnError, result.value);
        return;
      }
      assert candidates == map[] ==> failed == [];
      if NeedsFullReload(current, keys, candidates) {
        result := Some(ReconcileResult(Tally(0, 0, 0, []), 0, skipped, true, failed));
        LeftAlone(was, desired, fetch, outcomes, closes, continueOnError, result.value);
        return;
      }
      var tally, removed;
      ok, tally, removed := Apply(current, keys, candidates, outcomes, closes, continueOnError, desired, fetch);
      if !ok {
        return None;
      }
      failures := failed + tally.failures;
      result := Some(ReconcileResult(tally, removed, skipped + |tally.failures|, false, failures));
      CarriedThrough(was, Now(), desired, fetch, outcomes, result.value);
    }

    /** The incremental part of a reconcile. */
    method Apply(current: Slots, keys: seq<string>, candidates: Candidates, outcomes: string -> Outcome,
                 closes: string -> bool, continueOnError: bool, ghost desired: seq<Config>, ghost fetch: seq<Fetch>)
      returns (ok: bool, tally: Tally, removed: nat)
      requires Valid() && InStep() && |desired| == |fetch| && current == SlotsOf(configs, infos, controllers)
      requires keys == OrderedKeys(desired, |desired|) && candidates == CandidatesOf(desired, fetch, |desired|)
      requires !NeedsFullReload(current, keys, candidates)
      modifies this
      ensures !ok ==> Now() == old(Now())
      ensures ok <==>
                && AllClose(current, keys, closes)
                && (continueOnError || Count(current, candidates, outcomes, keys).failures == [])
      ensures ok ==>
                && Valid() && InStep() && RoutedPairs(configs, infos) == old(RoutedPairs(configs, infos))
                && Carries(controllers, infos, configs, Placements(current, candidates, outcomes, keys))
                && NewAreNot(old(controllers), controllers, Placements(current, candidates, outcomes, keys))
                && tally == Count(current, candidates, outcomes, keys) && (continueOnError || tally.failures == [])
                && removed == |current.Keys - KeySet(keys)|
    {
      hide Key, Placements, Count, NeedsFullReload, RoutedPairs, Carries, NewAreNot, DistinctKeys, DistinctControllers;
      hide OrderedKeys, CandidatesOf, SlotsOf, Owned, Members, SeparateControllers, KeySet, RoutedSlots;
      CurrentFacts(configs, infos, controllers);
      OrderedKeysFacts(desired, |desired|);
      CandidatesFacts(desired, fetch, |desired|);
      tally := Tally(0, 0, 0, []);
      ok, removed := CloseRemoved(current, keys, closes);
      if !ok {
        return;
      }
      var nextControllers, nextInfos, nextConfigs;
      ok, nextControllers, nextInfos, nextConfigs, tally :=
        Rebuild(current, candidates, outcomes, keys, continueOnError, controllers);
      if !ok {
        return;
      }
      NextFacts(current, candidates, outcomes, keys, nextControllers, nextInfos, nextConfigs);
      CarriesLength(nextControllers, nextInfos, nextConfigs, Placements(current, candidates, outcomes, keys));
      controllers, infos, configs := nextControllers, nextInfos, nextConfigs;
    }

    // ---------- starting and closing ----------

    /** `newWithFactory`: one controller for every node that could be described. */
    method Prepare(nodes: seq<Config>, fetch: seq<Fetch>, continueOnError: bool) returns (ok: bool)
      requires |nodes| == |fetch| && controllers == [] && infos == [] && configs == [] && failures == []
               && running == {}
      modifies this
      ensures running == {} && DistinctControllers(controllers) && InStep()
      ensures ok ==> configs == Described(nodes, fetch, |nodes|) && infos == Descriptions(nodes, fetch, |nodes|)
      ensures ok <==> continueOnError || Described(nodes, fetch, |nodes|) == nodes
      ensures ok ==> failures == Undescribed(nodes, fetch, |nodes|)
      ensures ok ==> |controllers| == |Described(nodes, fetch, |nodes|)|
      ensures ok && DistinctKeys(nodes) ==> DistinctKeys(configs)
      ensures ok ==> |configs| + |failures| == |nodes|
      ensures ok ==> Runs(Now(), nodes, fetch, |nodes|)
    {
      hide Runs, Described, Undescribed, Descriptions, DistinctKeys;
      NoneRuns(Now(), nodes, fetch);
      DescribedStep(nodes, fetch, 0);
      for i := 0 to |nodes|
        invariant running == {} && DistinctControllers(controllers) && InStep()
        invariant configs == Described(nodes, fetch, i) && infos == Descriptions(nodes, fetch, i)
        invariant failures == Undescribed(nodes, fetch, i)
        invariant continueOnError || configs == nodes[..i]
        invariant |configs| + |failures| == i
        invariant Runs(Now(), nodes, fetch, i)
      {
        DescribedStep(nodes, fetch, i);
        if !fetch[i].Fetched? {
          if !continueOnError {
            DescribedShort(nodes, fetch, i, |nodes|);
            return false;
          }
          failures := failures + [nodes[i]];
          RunsStill(Now(), nodes, fetch, i);
          continue;
        }
        var controller := new Controller(nodes[i], fetch[i].info);
        RunsOneMore(Now(), nodes, fetch, i, controller);
        controllers := controllers + [controller];
        infos := infos + [fetch[i].info];
        configs := configs + [nodes[i]];
      }
      DescribedAll(nodes, fetch, |nodes|);
      DescribedDistinct(nodes, fetch, |nodes|);
      return true;
    }

    /** Starts the prepared controllers, dropping those that fail if errors are tolerated. */
    method Start(outcomes: seq<Outcome>, continueOnError: bool) returns (ok: bool)
      requires InStep() && |outcomes| == |controllers| && DistinctControllers(controllers) && running == {}
      modifies this
      ensures ok ==> running == Members(controllers) && DistinctControllers(controllers) && InStep()
      ensures ok <==> continueOnError || forall i | 0 <= i < |outcomes| :: Starts(outcomes[i])
      ensures continueOnError ==>
                && controllers == Started(old(controllers), outcomes) && infos == Started(old(infos), outcomes)
                && configs == Started(old(configs), outcomes)
                && failures == old(failures) + Unstarted(old(configs), outcomes)
      ensures !continueOnError ==> Now() == old(Now()) && failures == old(failures)
      ensures ok ==> forall i | 0 <= i < |outcomes| ::
                old(controllers)[i] in running <==> outcomes[i].prepared && outcomes[i].activates
      ensures ok && DistinctKeys(old(configs)) ==> Valid()
    {
      hide DistinctKeys;
      hide Starts, Members, DistinctControllers, Started, Unstarted;
      var nextControllers: seq<Controller>, nextInfos: seq<Info>, nextConfigs: seq<Config> := [], [], [];
      StartedNone(controllers, outcomes);
      StartedNone(infos, outcomes);
      StartedNone(configs, outcomes);
      for i := 0 to |controllers|
        invariant unchanged(`controllers) && unchanged(`infos) && unchanged(`configs)
        invariant running == Members(nextControllers)
        invariant nextControllers == Started(controllers[..i], outcomes[..i])
        invariant nextInfos == Started(infos[..i], outcomes[..i]) && nextConfigs == Started(configs[..i], outcomes[..i])
        invariant failures == old(failures) + if continueOnError then Unstarted(configs[..i], outcomes[..i]) else []
        invariant continueOnError || forall k | 0 <= k < i :: Starts(outcomes[k])
      {
        UnstartedStep(configs, outcomes, i);
        StartedStep(controllers, outcomes, i);
        StartedStep(infos, outcomes, i);
        StartedStep(configs, outcomes, i);
        StartedController(controllers, outcomes, i);
        ok := StartController(controllers[i], outcomes[i]);
        StartsMeans(outcomes[i]);
        if !ok {
          if !continueOnError {
            return;
          }
          failures := failures + [configs[i]];
          var _ := CloseController(controllers[i], true);
          continue;
        }
        nextControllers := nextControllers + [controllers[i]];
        nextInfos := nextInfos + [infos[i]];
        nextConfigs := nextConfigs + [configs[i]];
      }
      assert controllers[..|controllers|] == controllers && infos[..|infos|] == infos && configs[..|configs|] == configs
             && outcomes[..|outcomes|] == outcomes;
      DistinctStarted(controllers, outcomes);
      StartedIn(controllers, outcomes);
      StartedLength(controllers, infos, outcomes);
      StartedLength(controllers, configs, outcomes);
      StartedDistinctKeys(configs, outcomes);
      ok := true;
      if continueOnError {
        controllers, infos, configs := nextControllers, nextInfos, nextConfigs;
      } else {
        StartedWhole(controllers, outcomes);
      }
    }

    /** Closes every controller, stopping at the first error. The configurations are kept. */
    method Close(closes: Controller -> bool) returns (ok: bool)
      requires Valid()
      modifies this
      ensures ok <==> forall c <- old(controllers) :: closes(c)
      ensures ok ==> Valid() && running == {} && controllers == [] && infos == [] && configs == old(configs)
      ensures !ok ==> Now() == old(Now())
    {
      for i := 0 to |controllers|
        invariant unchanged(`controllers) && unchanged(`infos) && unchanged(`configs)
        invariant running == Members(controllers[i..])
        invariant forall c <- controllers[..i] :: closes(c)
      {
        assert controllers[i..] == [controllers[i]] + controllers[i + 1..] && controllers[i] !in controllers[i + 1..];
        assert controllers[..i + 1] == controllers[..i] + [controllers[i]];
        ok := CloseController(controllers[i], closes(controllers[i]));
        if !ok {
          return;
        }
      }
      assert controllers[..|controllers|] == controllers;
      controllers, infos := [], [];
      ok := true;
    }
  }

  // ---------- startup ----------

  /** The nodes among the first `n` that were described. */
  function Described(nodes: seq<Config>, fetch: seq<Fetch>, n: nat): seq<Config>
    requires n <= |nodes| == |fetch|
  {
    if n == 0 then [] else Described(nodes, fetch, n - 1) + if fetch[n - 1].Fetched? then [nodes[n - 1]] else []
  }

  function Undescribed(nodes: seq<Config>, fetch: seq<Fetch>, n: nat): seq<Config>
    requires n <= |nodes| == |fetch|
  {
    if n == 0 then [] else Undescribed(nodes, fetch, n - 1) + if fetch[n - 1].Fetched? then [] else [nodes[n - 1]]
  }

  function Descriptions(nodes: seq<Config>, fetch: seq<Fetch>, n: nat): seq<Info>
    requires n <= |nodes| == |fetch|
  {
    if n == 0 then [] else Descriptions(nodes, fetch, n - 1) + if fetch[n - 1].Fetched? then [fetch[n - 1].info] else []
  }

  /** One of the first `n` nodes has this configuration, and was described so. */
  ghost predicate DescribedAs(nodes: seq<Config>, fetch: seq<Fetch>, n: nat, config: Config, info: Info)
    requires n <= |nodes| == |fetch|
  {
    exists i | 0 <= i < n :: nodes[i] == config && fetch[i] == Fetched(info)
  }

  /** Every controller is there for one of the first `n` nodes, and runs it as it was described. */
  ghost predicate Runs(now: Slices, nodes: seq<Config>, fetch: seq<Fetch>, n: nat)
    requires n <= |nodes| == |fetch|
  {
    && now.InStep()
    && forall k | 0 <= k < |now.configs| ::
         && now.controllers[k].config == now.configs[k] && now.controllers[k].info == now.infos[k]
         && DescribedAs(nodes, fetch, n, now.configs[k], now.infos[k])
  }

  lemma NoneRuns(now: Slices, nodes: seq<Config>, fetch: seq<Fetch>)
    requires |nodes| == |fetch| && now == Slices([], [], [])
    ensures Runs(now, nodes, fetch, 0)
  {}

  lemma RunsStill(now: Slices, nodes: seq<Config>, fetch: seq<Fetch>, n: nat)
    requires n < |nodes| == |fetch| && Runs(now, nodes, fetch, n)
    ensures Runs(now, nodes, fetch, n + 1)
  {
    forall k | 0 <= k < |now.configs|
      ensures now.controllers[k].config == now.configs[k] && now.controllers[k].info == now.infos[k]
      ensures DescribedAs(nodes, fetch, n + 1, now.configs[k], now.infos[k])
    {
      assert DescribedAs(nodes, fetch, n, now.configs[k], now.infos[k]);
    }
  }

  lemma DescribedStep(nodes: seq<Config>, fetch: seq<Fetch>, n: nat)
    requires n <= |nodes| == |fetch|
    ensures n == 0 ==> Described(nodes, fetch, n) == [] && Undescribed(nodes, fetch, n) == []
                       && Descriptions(nodes, fetch, n) == [] && nodes[..n] == []
    ensures n < |nodes| ==>
              var news := fetch[n].Fetched?;
              && Described(nodes, fetch, n + 1) == Described(nodes, fetch, n) + (if news then [nodes[n]] else [])
              && Undescribed(nodes, fetch, n + 1) == Undescribed(nodes, fetch, n) + (if news then [] else [nodes[n]])
              && Descriptions(nodes, fetch, n + 1) ==
                 Descriptions(nodes, fetch, n) + (if news then [fetch[n].info] else [])
              && nodes[..n + 1] == nodes[..n] + [nodes[n]]
    ensures forall s: seq<Config> :: s + [] == s
    ensures forall s: seq<Info> :: s + [] == s
  {}

  lemma RunsOneMore(now: Slices, nodes: seq<Config>, fetch: seq<Fetch>, n: nat, c: Controller)
    requires n < |nodes| == |fetch| && Runs(now, nodes, fetch, n) && fetch[n].Fetched?
    requires c.config == nodes[n] && c.info == fetch[n].info
    ensures Runs(Slices(now.controllers + [c], now.infos + [c.info], now.configs + [c.config]), nodes, fetch, n + 1)
  {
    var next := Slices(now.controllers + [c], now.infos + [c.info], now.configs + [c.config]);
    forall k | 0 <= k < |next.configs|
      ensures next.controllers[k].config == next.configs[k] && next.controllers[k].info == next.infos[k]
      ensures DescribedAs(nodes, fetch, n + 1, next.configs[k], next.infos[k])
    {
      if k == |now.configs| {
        assert nodes[n] == next.configs[k] && fetch[n] == Fetched(next.infos[k]);
      } else {
        assert DescribedAs(nodes, fetch, n, now.configs[k], now.infos[k]);
      }
    }
  }

  lemma {:induction false} DescribedShort(nodes: seq<Config>, fetch: seq<Fetch>, i: nat, n: nat)
    requires i < n <= |nodes| == |fetch| && !fetch[i].Fetched?
    ensures |Described(nodes, fetch, n)| < n
  {
    if i < n - 1 {
      DescribedShort(nodes, fetch, i, n - 1);
    } else {
      DescribedAtMost(nodes, fetch, i);
    }
  }

  lemma {:induction false} DescribedAtMost(nodes: seq<Config>, fetch: seq<Fetch>, n: nat)
    requires n <= |nodes| == |fetch|
    ensures |Described(nodes, fetch, n)| <= n
  {
    if n > 0 {
      DescribedAtMost(nodes, fetch, n - 1);
    }
  }

  lemma {:induction false} DescribedAll(nodes: seq<Config>, fetch: seq<Fetch>, n: nat)
    requires n <= |nodes| == |fetch|
    ensures nodes[..|nodes|] == nodes
    ensures |Described(nodes, fetch, n)| == |Descriptions(nodes, fetch, n)|
  {
    if n > 0 {
      DescribedAll(nodes, fetch, n - 1);
    }
  }

  lemma AppendDistinct(configs: seq<Config>, c: Config)
    requires DistinctKeys(configs) && forall d <- configs :: Key(d) != Key(c)
    ensures DistinctKeys(configs + [c])
  {
    hide Key;
  }

  lemma {:induction false} DescribedDistinct(nodes: seq<Config>, fetch: seq<Fetch>, n: nat)
    requires n <= |nodes| == |fetch|
    ensures forall c <- Described(nodes, fetch, n) :: exists i | 0 <= i < n :: nodes[i] == c
    ensures DistinctKeys(nodes) ==> DistinctKeys(Described(nodes, fetch, n))
  {
    hide Key;
    if n > 0 {
      DescribedDistinct(nodes, fetch, n - 1);
      var before, c := Described(nodes, fetch, n - 1), nodes[n - 1];
      if DistinctKeys(nodes) && fetch[n - 1].Fetched? {
        forall d | d in before ensures Key(d) != Key(c) {
          var i :| 0 <= i < n - 1 && nodes[i] == d;
        }
        AppendDistinct(before, c);
      }
    }
  }

  predicate Starts(o: Outcome) { o.prepared && o.activates }

  /** The elements whose controller starts. */
  function Started<T>(s: seq<T>, outcomes: seq<Outcome>): seq<T>
    requires |s| == |outcomes|
  {
    if s == [] then []
    else
      var n := |s| - 1;
      Started(s[..n], outcomes[..n]) + if Starts(outcomes[n]) then [s[n]] else []
  }

  /** The elements whose controller does not start. */
  function Unstarted<T>(s: seq<T>, outcomes: seq<Outcome>): seq<T>
    requires |s| == |outcomes|
  {
    if s == [] then []
    else
      var n := |s| - 1;
      Unstarted(s[..n], outcomes[..n]) + if Starts(outcomes[n]) then [] else [s[n]]
  }

  lemma UnstartedStep<T>(s: seq<T>, outcomes: seq<Outcome>, i: nat)
    requires i < |s| == |outcomes|
    ensures Unstarted(s[..i + 1], outcomes[..i + 1]) ==
            Unstarted(s[..i], outcomes[..i]) + if Starts(outcomes[i]) then [] else [s[i]]
  {
    assert s[..i + 1][..i] == s[..i] && outcomes[..i + 1][..i] == outcomes[..i];
  }

  lemma StartedStep<T>(s: seq<T>, outcomes: seq<Outcome>, i: nat)
    requires i < |s| == |outcomes|
    ensures Started(s[..i + 1], outcomes[..i + 1]) ==
            Started(s[..i], outcomes[..i]) + if Starts(outcomes[i]) then [s[i]] else []
    ensures s[..i + 1] == s[..i] + [s[i]]
  {
    assert s[..i + 1][..i] == s[..i] && outcomes[..i + 1][..i] == outcomes[..i];
  }

  lemma StartsMeans(o: Outcome)
    ensures Starts(o) <==> o.prepared && o.activates
  {}

  lemma StartedNone<T>(s: seq<T>, outcomes: seq<Outcome>)
    requires |s| == |outcomes|
    ensures Started(s[..0], outcomes[..0]) == [] && Unstarted(s[..0], outcomes[..0]) == [] && Members([]) == {}
  {}

  lemma {:induction false} DistinctStarted(s: seq<Controller>, outcomes: seq<Outcome>)
    requires |s| == |outcomes| && DistinctControllers(s)
    ensures DistinctControllers(Started(s, outcomes)) && forall c <- Started(s, outcomes) :: c in s
  {
    if s != [] {
      var n := |s| - 1;
      DistinctStarted(s[..n], outcomes[..n]);
      assert s[n] !in s[..n] && DistinctControllers(s[..n]);
    }
  }

  lemma {:induction false} StartedIn(s: seq<Controller>, outcomes: seq<Outcome>)
    requires |s| == |outcomes| && DistinctControllers(s)
    ensures forall i | 0 <= i < |outcomes| ::
              s[i] in Members(Started(s, outcomes)) <==> outcomes[i].prepared && outcomes[i].activates
  {
    if s != [] {
      var n := |s| - 1;
      StartedIn(s[..n], outcomes[..n]);
      DistinctStarted(s[..n], outcomes[..n]);
    }
  }

  lemma {:induction false} StartedDistinctKeys(configs: seq<Config>, outcomes: seq<Outcome>)
    requires |configs| == |outcomes|
    ensures forall c <- Started(configs, outcomes) :: c in configs
    ensures DistinctKeys(configs) ==> DistinctKeys(Started(configs, outcomes))
  {
    hide Key, Starts;
    if configs != [] {
      var n := |configs| - 1;
      StartedDistinctKeys(configs[..n], outcomes[..n]);
      assert configs == configs[..n] + [configs[n]];
      var before, c := Started(configs[..n], outcomes[..n]), configs[n];
      if DistinctKeys(configs) {
        forall d | d in before ensures Key(d) != Key(c) {
          var i :| 0 <= i < n && configs[i] == d;
        }
        AppendDistinct(before, c);
      }
    }
  }

  lemma StartedController(s: seq<Controller>, outcomes: seq<Outcome>, i: nat)
    requires i < |s| == |outcomes| && DistinctControllers(s)
    ensures var before := Started(s[..i], outcomes[..i]);
            Members(before + [s[i]]) == Members(before) + {s[i]} && s[i] !in Members(before) && before + [] == before
  {
    DistinctStarted(s[..i], outcomes[..i]);
  }

  lemma {:induction false} StartedLength<T, U>(s: seq<T>, t: seq<U>, outcomes: seq<Outcome>)
    requires |s| == |t| == |outcomes|
    ensures |Started(s, outcomes)| == |Started(t, outcomes)|
  {
    if s != [] {
      var n := |s| - 1;
      StartedLength(s[..n], t[..n], outcomes[..n]);
    }
  }

  lemma {:induction false} StartedWhole<T>(s: seq<T>, outcomes: seq<Outcome>)
    requires |s| == |outcomes| && forall i | 0 <= i < |outcomes| :: Starts(outcomes[i])
    ensures Started(s, outcomes) == s
  {
    hide Starts;
    if s != [] {
      var n := |s| - 1;
      StartedWhole(s[..n], outcomes[..n]);
      assert s == s[..n] + [s[n]];
    }
  }

  /** The slots show every listed controller exactly when the configured nodes have distinct keys. */
  lemma SlotsShowAllWhenDistinct(configs: seq<Config>, infos: seq<Info>, controllers: seq<Controller>)
    requires |configs| == |infos| == |controllers| && DistinctControllers(controllers)
    ensures var current := SlotsOf(configs, infos, controllers);
            Owned(current, current.Keys) == Members(controllers) <==> DistinctKeys(configs)
  {
    hide Key, RoutedSlots, RoutedPairs, SlotsOf, SeparateControllers;
    var current := SlotsOf(configs, infos, controllers);
    if DistinctKeys(configs) {
      CurrentFacts(configs, infos, controllers);
    } else {
      var i, j :| 0 <= i < j < |configs| && Key(configs[i]) == Key(configs[j]);
      forall key | key in current ensures current[key].controller != controllers[i] {
        var l := LastWithKey(configs, infos, controllers, key);
      }
      assert controllers[i] in Members(controllers);
    }
  }

  lemma {:induction false} LastWithKey(configs: seq<Config>, infos: seq<Info>, controllers: seq<Controller>,
                                       key: string) returns (l: nat)
    requires |configs| == |infos| == |controllers| && key in SlotsOf(configs, infos, controllers)
    ensures l < |configs| && Key(configs[l]) == key
            && SlotsOf(configs, infos, controllers)[key].controller == controllers[l]
    ensures forall k | l < k < |configs| :: Key(configs[k]) != key
  {
    hide Key;
    var n := |configs| - 1;
    if Key(configs[n]) == key {
      l := n;
    } else {
      l := LastWithKey(configs[..n], infos[..n], controllers[..n], key);
    }
  }

  lemma CurrentFacts(configs: seq<Config>, infos: seq<Info>, controllers: seq<Controller>)
    requires |configs| == |infos| == |controllers| && DistinctKeys(configs) && DistinctControllers(controllers)
    ensures var current := SlotsOf(configs, infos, controllers);
            && SeparateControllers(current) && Owned(current, current.Keys) == Members(controllers)
            && RoutedSlots(current) == RoutedPairs(configs, infos)
            && forall key <- current :: Key(current[key].config) == key
  {
    hide Key, HasCustomRoutes, SlotsOf, RoutedSlots, RoutedPairs;
    var current := SlotsOf(configs, infos, controllers);
    SlotsOfDistinct(configs, infos, controllers);
    SlotsOwn(configs, infos, controllers, current);
    SlotsRoute(configs, infos, controllers, current);
  }

  /** The slots of nodes with distinct keys. */
  ghost predicate SlotsShow(configs: seq<Config>, infos: seq<Info>, controllers: seq<Controller>, current: Slots) {
    && |configs| == |infos| == |controllers|
    && (forall key :: key in current <==> exists i | 0 <= i < |configs| :: key == Key(configs[i]))
    && (forall i | 0 <= i < |configs| ::
          Key(configs[i]) in current && current[Key(configs[i])] == Slot(configs[i], infos[i], controllers[i]))
  }

  lemma SlotsOwn(configs: seq<Config>, infos: seq<Info>, controllers: seq<Controller>, current: Slots)
    requires SlotsShow(configs, infos, controllers, current) && DistinctControllers(controllers)
    ensures SeparateControllers(current) && Owned(current, current.Keys) == Members(controllers)
  {
    hide Key;
    forall c | c in controllers ensures c in Owned(current, current.Keys) {
      var i :| 0 <= i < |controllers| && controllers[i] == c;
      assert current[Key(configs[i])].controller == c;
    }
  }

  lemma SlotsRoute(configs: seq<Config>, infos: seq<Info>, controllers: seq<Controller>, current: Slots)
    requires SlotsShow(configs, infos, controllers, current)
    ensures RoutedSlots(current) == RoutedPairs(configs, infos)
  {
    hide Key, HasCustomRoutes;
    forall pair | pair in RoutedPairs(configs, infos) ensures pair in RoutedSlots(current) {
      var i :| 0 <= i < |configs| && HasCustomRoutes(infos[i]) && pair == (Key(configs[i]), infos[i]);
      assert current[Key(configs[i])].info == infos[i];
    }
  }

  lemma CarriesLength(controllers: seq<Controller>, infos: seq<Info>, configs: seq<Config>, r: seq<Placed>)
    requires Carries(controllers, infos, configs, r)
    ensures |controllers| == |infos| == |configs| == |r|
  {}

  lemma CarriedFacts(controllers: seq<Controller>, infos: seq<Info>, configs: seq<Config>, r: seq<Placed>)
    requires Carries(controllers, infos, configs, r)
    requires DistinctPlaced(r)
    ensures DistinctKeys(configs) && RoutedPairs(configs, infos) == RoutedPlacements(r)
  {
    hide Key, HasCustomRoutes;
  }

  /** The next slices have distinct keys and the routing of the current ones. */
  lemma NextFacts(current: Slots, candidates: Candidates, outcomes: string -> Outcome, keys: seq<string>,
                  controllers: seq<Controller>, infos: seq<Info>, configs: seq<Config>)
    requires Filed(current, candidates) && forall i, j | 0 <= i < j < |keys| :: keys[i] != keys[j]
    requires !NeedsFullReload(current, keys, candidates)
    requires Carries(controllers, infos, configs, Placements(current, candidates, outcomes, keys))
    ensures DistinctKeys(configs) && RoutedPairs(configs, infos) == RoutedSlots(current)
  {
    hide Key, Place, NeedsFullReload, RoutedSlots, SameNode, Carries, RoutedPairs, RoutedPlacements, DistinctKeys,
         Filed, Places, DistinctPlaced;
    PlacementKeys(current, candidates, outcomes, keys);
    RoutingKept(current, candidates, outcomes, keys);
    CarriedFacts(controllers, infos, configs, Placements(current, candidates, outcomes, keys));
  }

  lemma SlotsOfStep(configs: seq<Config>, infos: seq<Info>, controllers: seq<Controller>, i: nat)
    requires i < |configs| == |infos| == |controllers|
    ensures SlotsOf(configs[..i + 1], infos[..i + 1], controllers[..i + 1]) ==
            SlotsOf(configs[..i], infos[..i], controllers[..i])
            [Key(configs[i]) := Slot(configs[i], infos[i], controllers[i])]
  {
    hide Key;
    assert configs[..i + 1][..i] == configs[..i] && infos[..i + 1][..i] == infos[..i]
           && controllers[..i + 1][..i] == controllers[..i];
  }

  lemma OwnedAtEnds(current: Slots, keys: seq<string>)
    ensures Owned(current, current.Keys + KeySet(keys)) == Owned(current, current.Keys)
    ensures {} + KeySet(keys) == KeySet(keys)
  {}

  lemma OwnedLeft(current: Slots, keys: seq<string>, left: set<string>, key: string)
    requires SeparateControllers(current) && left <= current.Keys && key in left
    ensures Owned(current, left - {key} + KeySet(keys)) ==
            Owned(current, left + KeySet(keys)) - if key in keys then {} else {current[key].controller}
    ensures key in KeySet(keys) <==> key in keys
  {
    hide Owned, SeparateControllers;
    if key in keys {
      assert left - {key} + KeySet(keys) == left + KeySet(keys);
    } else {
      assert left - {key} + KeySet(keys) == left + KeySet(keys) - {key};
      OwnedWithout(current, left + KeySet(keys), key);
    }
  }

  lemma NothingAsked(current: Slots, desired: seq<Config>, fetch: seq<Fetch>)
    requires |desired| == |fetch|
    ensures OrderedKeys(desired, 0) == [] && CandidatesOf(desired, fetch, 0) == map[]
    ensures RefreshFailures(current, desired, fetch, 0) == [] && RefreshSkips(current, desired, fetch, 0) == 0
  {}

  /** What asking for one more node adds. */
  lemma AskedOne(current: Slots, desired: seq<Config>, fetch: seq<Fetch>, i: nat)
    requires i < |desired| == |fetch|
    ensures var key, keys, m := Key(desired[i]), OrderedKeys(desired, i), CandidatesOf(desired, fetch, i);
            var known := key == "" || key in keys;
            var fails := known || fetch[i].FactoryFails? || fetch[i].FetchFails?
                || (fetch[i].NoChange? && key !in current);
            && OrderedKeys(desired, i + 1) == (if known then keys else keys + [key])
            && CandidatesOf(desired, fetch, i + 1) ==
               (if known || !fetch[i].Fetched? then m else m[key := Candidate(desired[i], fetch[i].info)])
            && RefreshFailures(current, desired, fetch, i + 1) ==
               RefreshFailures(current, desired, fetch, i) + (if fails then [desired[i]] else [])
            && RefreshSkips(current, desired, fetch, i + 1) ==
               RefreshSkips(current, desired, fetch, i) + if fails || fetch[i].NoChange? then 1 else 0
  {
    hide Key;
  }

  lemma {:induction false} FailuresGrow(current: Slots, desired: seq<Config>, fetch: seq<Fetch>, m: nat, n: nat)
    requires m <= n <= |desired| == |fetch|
    ensures RefreshFailures(current, desired, fetch, m) <= RefreshFailures(current, desired, fetch, n)
  {
    hide FailsToRefresh;
    if m < n {
      FailuresGrow(current, desired, fetch, m, n - 1);
    }
  }

  lemma OwnedWithout(current: Slots, keys: set<string>, key: string)
    requires SeparateControllers(current) && key in current && key in keys
    ensures Owned(current, keys - {key}) == Owned(current, keys) - {current[key].controller}
  {}

  lemma OwnedStart(current: Slots, keys: seq<string>)
    ensures Owned(current, KeySet(keys[0..])) == Owned(current, KeySet(keys))
    ensures Owned(current, KeySet(keys[|keys|..])) == {}
  {
    assert keys[0..] == keys;
  }

  lemma OwnedStep(current: Slots, keys: seq<string>, i: nat)
    requires i < |keys| && SeparateControllers(current)
    requires forall i, j | 0 <= i < j < |keys| :: keys[i] != keys[j]
    ensures var own := if keys[i] in current then {current[keys[i]].controller} else {};
            Owned(current, KeySet(keys[i + 1..])) == Owned(current, KeySet(keys[i..])) - own
                && own <= Owned(current, KeySet(keys[i..]))
  {
    assert keys[i..] == [keys[i]] + keys[i + 1..];
    assert keys[i] !in keys[i + 1..];
  }

  lemma {:induction false} CountGrows(current: Slots, candidates: Candidates, outcomes: string -> Outcome,
                                      keys: seq<string>, m: nat)
    requires m <= |keys|
    ensures |Count(current, candidates, outcomes, keys[..m]).failures|
            <= |Count(current, candidates, outcomes, keys).failures|
  {
    if m < |keys| {
      var rest := keys[..|keys| - 1];
      assert rest[..m] == keys[..m];
      CountGrows(current, candidates, outcomes, rest, m);
    } else {
      assert keys[..m] == keys;
    }
  }

  // ---------- a reconcile, said of the nodes ----------

  lemma AllCloseMeans(was: Slices, desired: seq<Config>, fetch: seq<Fetch>, current: Slots, keys: seq<string>,
                      candidates: Candidates, closes: string -> bool)
    requires |desired| == |fetch| && Knows(was, desired, fetch, current, keys, candidates)
    requires forall k | 0 <= k < |was.configs| :: Key(was.configs[k]) != ""
    ensures AllClose(current, keys, closes) <==>
            forall k | 0 <= k < |was.configs| ::
              Named(desired, Key(was.configs[k])) || closes(Key(was.configs[k]))
  {
    hide Key, Named, Wanted;
    if key :| key in current && key !in keys && !closes(key) {
      var k: nat :| was.At(k, key);
    }
  }

  /** When a reconcile ends in an error. */
  lemma SucceedsMeans(was: Slices, desired: seq<Config>, fetch: seq<Fetch>, outcomes: string -> Outcome,
                      closes: string -> bool, continueOnError: bool)
    requires |desired| == |fetch| && (was.InStep() ==> DistinctKeys(was.configs))
    ensures Succeeds(was, desired, fetch, outcomes, closes, continueOnError) <==>
            !Errs(was, desired, fetch, outcomes, closes, continueOnError)
  {
    hide Key, OrderedKeys, CandidatesOf, SlotsOf, Knows, RefreshCounted, RefreshFails, NothingRefreshed, RoutesChange,
         NeedsFullReload, AllClose, Count, ChangeFails, Named, DistinctKeys, RefreshFailures, RefreshSkips;
    if was.InStep() && forall k | 0 <= k < |was.configs| :: Key(was.configs[k]) != "" {
      var current, keys, candidates := was.Current(), OrderedKeys(desired, |desired|),
          CandidatesOf(desired, fetch, |desired|);
      RoundMeans(was, desired, fetch, outcomes);
      KnowsAll(was, desired, fetch);
      AllCloseMeans(was, desired, fetch, current, keys, candidates, closes);
    }
  }

  /** What refreshing gives, whether a full reload is needed, and which changes fail. */
  lemma RoundMeans(was: Slices, desired: seq<Config>, fetch: seq<Fetch>, outcomes: string -> Outcome)
    requires |desired| == |fetch| && was.InStep() && DistinctKeys(was.configs)
    requires forall k | 0 <= k < |was.configs| :: Key(was.configs[k]) != ""
    ensures var keys, candidates := OrderedKeys(desired, |desired|), CandidatesOf(desired, fetch, |desired|);
            var refresh := RefreshFailures(was.Current(), desired, fetch, |desired|);
            var tally := Count(was.Current(), candidates, outcomes, keys);
            && (NeedsFullReload(was.Current(), keys, candidates) <==> RoutesChange(was, desired, fetch))
            && (candidates == map[] && refresh != [] <==> NothingRefreshed(was, desired, fetch))
            && (refresh == [] <==> forall i: nat | i < |desired| :: !RefreshFails(was, desired, fetch, i))
            && RefreshCounted(was, desired, fetch, |desired|, refresh,
                              RefreshSkips(was.Current(), desired, fetch, |desired|))
            && FatesCounted(was, desired, fetch, outcomes, tally, |was.Current().Keys - KeySet(keys)|)
            && (tally.failures == [] <==>
                forall i: nat | i < |desired| :: !ChangeFails(was, desired, fetch, outcomes, i))
  {
    hide Key, OrderedKeys, CandidatesOf, SlotsOf, Knows, RefreshCounted, RefreshFails, NothingRefreshed, RoutesChange,
         NeedsFullReload, Count, ChangeFails, Named, DistinctKeys, RefreshFailures, RefreshSkips, KeySet, Slices.Has;
    hide AddedKeys, RestartedKeys, UnchangedKeys, FailedKeys, RemovedKeys;
    var current, keys, candidates := was.Current(), OrderedKeys(desired, |desired|),
        CandidatesOf(desired, fetch, |desired|);
    KnowsAll(was, desired, fetch);
    SlotsKnown(was);
    OrderedKeysFacts(desired, |desired|);
    RefreshCounts(was, desired, fetch, |desired|);
    NothingRefreshedMeans(was, desired, fetch, current, keys, candidates,
                          RefreshFailures(current, desired, fetch, |desired|),
                          RefreshSkips(current, desired, fetch, |desired|));
    RoutesChangeMeans(was, desired, fetch, current, keys, candidates);
    TallyMeans(was, desired, fetch, current, keys, candidates, outcomes);
    RemovedKeysAre(was, desired, fetch, current, keys, candidates);
  }

  /** What a reconcile without error does, said of the nodes. */
  lemma ReconciledMeans(was: Slices, next: Slices, desired: seq<Config>, fetch: seq<Fetch>,
                        outcomes: string -> Outcome, result: ReconcileResult)
    requires |desired| == |fetch| && Reconciled(was, next, desired, fetch, outcomes, result)
    requires DistinctKeys(was.configs) && DistinctControllers(was.controllers)
    requires forall k | 0 <= k < |was.configs| :: Key(was.configs[k]) != ""
    ensures Answered(was, next, desired, fetch, outcomes, result)
  {
    hide Key, OrderedKeys, CandidatesOf, SlotsOf, Knows, RefreshFails, NothingRefreshed, RoutesChange, Filed, Carries,
         NeedsFullReload, Count, ChangeFails, Named, DistinctKeys, DistinctControllers, RefreshFailures, RefreshSkips,
         KeySet, Fates, FatesCounted, FailingNodes, SkippedNodes, FailedKeys, ListsNodes, Placements, NewAreNot;
    var current, keys, candidates := was.Current(), OrderedKeys(desired, |desired|),
        CandidatesOf(desired, fetch, |desired|);
    RoundMeans(was, desired, fetch, outcomes);
    if !NothingRefreshed(was, desired, fetch) && !RoutesChange(was, desired, fetch) {
      KnowsAll(was, desired, fetch);
      FiledOf(was, desired, fetch);
      FatesOf(was, next, desired, fetch, outcomes, current, keys, candidates);
      FailuresTogether(was, desired, fetch, outcomes, RefreshFailures(current, desired, fetch, |desired|),
                       RefreshSkips(current, desired, fetch, |desired|),
                       Count(current, candidates, outcomes, keys), result.removed);
    }
  }

  lemma FailuresTogether(was: Slices, desired: seq<Config>, fetch: seq<Fetch>, outcomes: string -> Outcome,
                         refresh: seq<Config>, skipped: nat, tally: Tally, removed: nat)
    requires |desired| == |fetch| && RefreshCounted(was, desired, fetch, |desired|, refresh, skipped)
    requires FatesCounted(was, desired, fetch, outcomes, tally, removed)
    ensures |refresh + tally.failures| ==
            |FailingNodes(was, desired, fetch, |desired|)| + |FailedKeys(was, desired, fetch, outcomes)|
    ensures |tally.failures| == |FailedKeys(was, desired, fetch, outcomes)|
    ensures forall c :: c in refresh + tally.failures <==>
              exists i: nat | i < |desired| ::
                (RefreshFails(was, desired, fetch, i) || ChangeFails(was, desired, fetch, outcomes, i))
                && c == desired[i]
  {
    hide RefreshFails, ChangeFails, FailedKeys, AddedKeys, RestartedKeys, UnchangedKeys, RemovedKeys;
    var failing := FailingNodes(was, desired, fetch, |desired|);
    assert forall i: nat | i < |desired| :: RefreshFails(was, desired, fetch, i) <==> i in failing;
    assert forall c :: c in refresh + tally.failures <==> c in refresh || c in tally.failures;
    forall c | c in refresh
      ensures exists i: nat | i < |desired| :: RefreshFails(was, desired, fetch, i) && c == desired[i]
    {
      var i :| i in failing && i < |desired| && c == desired[i];
    }
  }

  // ---------- after a reconcile without failures ----------

  /** The slices describe desired node `i`: as it was described, or as the current slot has it. */
  ghost predicate Settled(current: Slots, desired: seq<Config>, fetch: seq<Fetch>, infos: seq<Info>,
                          configs: seq<Config>, i: nat)
    requires i < |desired| == |fetch|
  {
    && i < |infos| && i < |configs| && Key(configs[i]) == Key(desired[i])
    && (fetch[i].Fetched? ==> configs[i] == desired[i] && infos[i] == fetch[i].info)
    && (!fetch[i].Fetched? ==>
          && Key(desired[i]) in current
          && configs[i] == current[Key(desired[i])].config && infos[i] == current[Key(desired[i])].info)
  }

  /** Without failures the list is the desired nodes, in order. */
  lemma NoFailureSettles(current: Slots, desired: seq<Config>, fetch: seq<Fetch>, outcomes: string -> Outcome,
                         controllers: seq<Controller>, infos: seq<Info>, configs: seq<Config>)
    requires |desired| == |fetch| && forall key <- current :: Key(current[key].config) == key
    requires var keys, candidates := OrderedKeys(desired, |desired|), CandidatesOf(desired, fetch, |desired|);
             && RefreshFailures(current, desired, fetch, |desired|) == []
             && Count(current, candidates, outcomes, keys).failures == []
             && Carries(controllers, infos, configs, Placements(current, candidates, outcomes, keys))
    ensures |controllers| == |infos| == |configs| == |desired|
    ensures forall i | 0 <= i < |desired| :: Settled(current, desired, fetch, infos, configs, i)
    ensures configs == desired <==>
            forall i | 0 <= i < |desired| && !fetch[i].Fetched? ::
              Key(desired[i]) in current && current[Key(desired[i])].config == desired[i]
  {
    hide Key, Placements, Count, RefreshFailures, OrderedKeys, CandidatesOf;
    var keys, candidates := OrderedKeys(desired, |desired|), CandidatesOf(desired, fetch, |desired|);
    RefreshedKeys(current, desired, fetch, |desired|);
    forall i | 0 <= i < |desired| ensures keys[i] in current || keys[i] in candidates {
      assert Refreshed(current, keys, candidates, desired, fetch, i);
    }
    NoFailurePlacements(current, candidates, outcomes, keys);
    forall i | 0 <= i < |desired| ensures Settled(current, desired, fetch, infos, configs, i) {
      assert Refreshed(current, keys, candidates, desired, fetch, i);
    }
    SettledAsDesired(current, desired, fetch, infos, configs);
  }

  /** Settled nodes are configured as desired exactly when the nodes without news already were. */
  lemma SettledAsDesired(current: Slots, desired: seq<Config>, fetch: seq<Fetch>, infos: seq<Info>,
                         configs: seq<Config>)
    requires |infos| == |configs| == |desired| == |fetch|
    requires forall i | 0 <= i < |desired| :: Settled(current, desired, fetch, infos, configs, i)
    ensures configs == desired <==>
            forall i | 0 <= i < |desired| && !fetch[i].Fetched? ::
              Key(desired[i]) in current && current[Key(desired[i])].config == desired[i]
  {
    hide Key;
    forall i | 0 <= i < |desired| && !fetch[i].Fetched?
      ensures Key(desired[i]) in current && current[Key(desired[i])].config == configs[i]
    {
      assert Settled(current, desired, fetch, infos, configs, i);
    }
    forall i | 0 <= i < |desired| && fetch[i].Fetched? ensures configs[i] == desired[i] {
      assert Settled(current, desired, fetch, infos, configs, i);
    }
  }

  /** Every wanted node runs as described, and no other. */
  ghost predicate UpToDate(current: Slots, candidates: Candidates, keys: seq<string>,
                           controllers: seq<Controller>, infos: seq<Info>, configs: seq<Config>) {
    && |keys| == |controllers| == |infos| == |configs| && current.Keys == KeySet(keys)
    && forall i | 0 <= i < |keys| ::
         && keys[i] in current && current[keys[i]] == Slot(configs[i], infos[i], controllers[i])
         && (keys[i] in candidates ==> SameNode(current[keys[i]], candidates[keys[i]]))
  }

  lemma UpToDateFits(current: Slots, candidates: Candidates, keys: seq<string>, closes: string -> bool,
                     controllers: seq<Controller>, infos: seq<Info>, configs: seq<Config>)
    requires UpToDate(current, candidates, keys, controllers, infos, configs)
    requires forall key <- candidates :: key in keys
    ensures !NeedsFullReload(current, keys, candidates) && AllClose(current, keys, closes)
            && |current.Keys - KeySet(keys)| == 0
    ensures forall key <- keys :: key in current && (key in candidates ==> SameNode(current[key], candidates[key]))
  {
    hide SameNode, HasCustomRoutes;
    assert current.Keys - KeySet(keys) == {};
  }

  lemma SettledIsUpToDate(current: Slots, current': Slots, keys: seq<string>, candidates: Candidates,
                          desired: seq<Config>, fetch: seq<Fetch>,
                          controllers: seq<Controller>, infos: seq<Info>, configs: seq<Config>)
    requires |desired| == |fetch| == |keys| == |controllers| == |infos| == |configs|
    requires forall i | 0 <= i < |desired| :: Settled(current, desired, fetch, infos, configs, i)
    requires forall i | 0 <= i < |desired| :: Refreshed(current, keys, candidates, desired, fetch, i)
    requires forall key :: key in current' <==> exists i | 0 <= i < |configs| :: key == Key(configs[i])
    requires forall i | 0 <= i < |configs| ::
               Key(configs[i]) in current' && current'[Key(configs[i])] == Slot(configs[i], infos[i], controllers[i])
    ensures UpToDate(current', candidates, keys, controllers, infos, configs)
    ensures forall i | 0 <= i < |desired| ::
              keys[i] == Key(configs[i]) == Key(desired[i]) && Key(desired[i]) in current'
  {
    hide Key;
    forall i | 0 <= i < |desired|
      ensures keys[i] == Key(configs[i]) == Key(desired[i])
      ensures keys[i] in candidates ==> configs[i] == candidates[keys[i]].config && infos[i] == candidates[keys[i]].info
    {
      assert Refreshed(current, keys, candidates, desired, fetch, i);
      assert Settled(current, desired, fetch, infos, configs, i);
    }
    forall key | key in current' ensures key in KeySet(keys) {
      var i :| 0 <= i < |configs| && key == Key(configs[i]);
      assert keys[i] == key;
    }
  }

  /** Once the nodes are settled, the same answers find them up to date. */
  lemma SettledAgain(current: Slots, desired: seq<Config>, fetch: seq<Fetch>,
                     controllers: seq<Controller>, infos: seq<Info>, configs: seq<Config>)
    requires |desired| == |fetch| && RefreshFailures(current, desired, fetch, |desired|) == []
    requires |controllers| == |infos| == |configs| == |desired| && DistinctKeys(configs)
    requires forall i | 0 <= i < |desired| :: Settled(current, desired, fetch, infos, configs, i)
    ensures var current' := SlotsOf(configs, infos, controllers);
            && UpToDate(current', CandidatesOf(desired, fetch, |desired|), OrderedKeys(desired, |desired|), controllers,
                        infos, configs)
            && RefreshFailures(current', desired, fetch, |desired|) == []
    ensures forall i | 0 <= i < |configs| :: Key(configs[i]) != ""
    ensures forall key <- CandidatesOf(desired, fetch, |desired|) :: key in OrderedKeys(desired, |desired|)
  {
    hide Key, RefreshFailures, OrderedKeys, CandidatesOf, SlotsOf, Settled, Refreshed, UpToDate, DistinctKeys;
    var current' := SlotsOf(configs, infos, controllers);
    var keys, candidates := OrderedKeys(desired, |desired|), CandidatesOf(desired, fetch, |desired|);
    SlotsOfDistinct(configs, infos, controllers);
    RefreshedKeys(current, desired, fetch, |desired|);
    SettledIsUpToDate(current, current', keys, candidates, desired, fetch, controllers, infos, configs);
    OrderedKeysFacts(desired, |desired|);
    CandidatesFacts(desired, fetch, |desired|);
    forall i | 0 <= i < |configs| ensures Key(configs[i]) != "" {
      assert keys[i] in keys;
    }
    RefreshedAgain(current, current', desired, fetch, |desired|);
  }

  lemma FirstRound(was: Slices, next: Slices, desired: seq<Config>, fetch: seq<Fetch>, outcomes: string -> Outcome,
                   result: ReconcileResult)
    requires |desired| == |fetch| && Reconciled(was, next, desired, fetch, outcomes, result)
    requires DistinctKeys(was.configs) && DistinctControllers(was.controllers)
    requires !result.fullReloadRequired && result.failures == [] && DistinctKeys(next.configs)
    ensures |next.controllers| == |next.infos| == |next.configs| == |desired|
    ensures forall i | 0 <= i < |desired| :: Settled(was.Current(), desired, fetch, next.infos, next.configs, i)
    ensures UpToDate(next.Current(), CandidatesOf(desired, fetch, |desired|), OrderedKeys(desired, |desired|),
                     next.controllers, next.infos, next.configs)
    ensures RefreshFailures(next.Current(), desired, fetch, |desired|) == []
    ensures forall i | 0 <= i < |next.configs| :: Key(next.configs[i]) != ""
    ensures forall key <- CandidatesOf(desired, fetch, |desired|) :: key in OrderedKeys(desired, |desired|)
  {
    hide Key, Placements, Count, RefreshFailures, NeedsFullReload, OrderedKeys, CandidatesOf, SlotsOf, KeySet, Settled,
         Carries, UpToDate;
    hide DistinctKeys, DistinctControllers, RoutedPairs, RoutedSlots, Owned, Members, SeparateControllers;
    CurrentFacts(was.configs, was.infos, was.controllers);
    NoFailureSettles(was.Current(), desired, fetch, outcomes, next.controllers, next.infos, next.configs);
    SettledAgain(was.Current(), desired, fetch, next.controllers, next.infos, next.configs);
  }

  lemma SecondRound(was: Slices, next: Slices, desired: seq<Config>, fetch: seq<Fetch>, outcomes: string -> Outcome,
                    closes: string -> bool, continueOnError: bool, result: ReconcileResult)
    requires |desired| == |fetch| && was.InStep() && RefreshFailures(was.Current(), desired, fetch, |desired|) == []
    requires UpToDate(was.Current(), CandidatesOf(desired, fetch, |desired|), OrderedKeys(desired, |desired|),
                      was.controllers, was.infos, was.configs)
    requires forall i | 0 <= i < |was.configs| :: Key(was.configs[i]) != ""
    requires forall key <- CandidatesOf(desired, fetch, |desired|) :: key in OrderedKeys(desired, |desired|)
    ensures Succeeds(was, desired, fetch, outcomes, closes, continueOnError)
    ensures Reconciled(was, next, desired, fetch, outcomes, result) ==>
              && next == was && result.tally == Tally(0, 0, |was.controllers|, []) && result.removed == 0
              && result.failures == [] && !result.fullReloadRequired
  {
    hide Key, Placements, Count, RefreshFailures, NeedsFullReload, OrderedKeys, CandidatesOf, SlotsOf, KeySet, Carries,
         UpToDate, AllClose, SameNode;
    var current := was.Current();
    var keys, candidates := OrderedKeys(desired, |desired|), CandidatesOf(desired, fetch, |desired|);
    UpToDateFits(current, candidates, keys, closes, was.controllers, was.infos, was.configs);
    NothingToDo(current, candidates, outcomes, keys);
    UpToDateLength(current, candidates, keys, was.controllers, was.infos, was.configs);
    if Reconciled(was, next, desired, fetch, outcomes, result) {
      SameSlices(current, candidates, outcomes, keys, was.controllers, was.infos, was.configs, next.controllers,
                 next.infos, next.configs);
    }
  }

  lemma UpToDateLength(current: Slots, candidates: Candidates, keys: seq<string>,
                       controllers: seq<Controller>, infos: seq<Info>, configs: seq<Config>)
    requires UpToDate(current, candidates, keys, controllers, infos, configs)
    ensures |keys| == |controllers|
  {}

  /**
   Reconcile has a fixed point: after a round without failures, a second round with the same desired
   list and the same answers keeps every controller object, whatever starting or closing would do.
   */
  method ReconcileTwice(n: Node, desired: seq<Config>, fetch: seq<Fetch>, outcomes: string -> Outcome,
                        outcomes': string -> Outcome,
                        closes: string -> bool, closes': string -> bool, continueOnError: bool)
    returns (first: Option<ReconcileResult>, second: Option<ReconcileResult>, ghost between: Slices)
    requires n.Valid() && |desired| == |fetch|
    modifies n
    ensures first.Some? && !first.value.fullReloadRequired && first.value.failures == [] ==>
              && second.Some? && n.Now() == between && |n.controllers| == |desired|
              && second.value.tally == Tally(0, 0, |desired|, []) && second.value.removed == 0
              && second.value.failures == [] && !second.value.fullReloadRequired
  {
    hide Reconciled, Succeeds, RoutedPairs, UpToDate, Settled, RefreshFailures, OrderedKeys, CandidatesOf, Key, Members;
    ghost var was := n.Now();
    first := n.Reconcile(desired, fetch, outcomes, closes, continueOnError);
    between := n.Now();
    if first.None? {
      return None, None, between;
    }
    ghost var settled := !first.value.fullReloadRequired && first.value.failures == [];
    assert was.InStep() by { ReconciledInStep(was, between, desired, fetch, outcomes, first.value); }
    if settled {
      FirstRound(was, between, desired, fetch, outcomes, first.value);
      SecondRound(between, between, desired, fetch, outcomes', closes', continueOnError, first.value);
    }
    second := n.Reconcile(desired, fetch, outcomes', closes', continueOnError);
    if settled {
      SecondRound(between, n.Now(), desired, fetch, outcomes', closes', continueOnError, second.value);
    }
  }

  lemma ReconciledInStep(was: Slices, next: Slices, desired: seq<Config>, fetch: seq<Fetch>,
                         outcomes: string -> Outcome, result: ReconcileResult)
    requires |desired| == |fetch| && Reconciled(was, next, desired, fetch, outcomes, result)
    ensures was.InStep()
  {}

  lemma SameSlices(current: Slots, candidates: Candidates, outcomes: string -> Outcome, keys: seq<string>,
                   controllers: seq<Controller>, infos: seq<Info>, configs: seq<Config>,
                   controllers': seq<Controller>, infos': seq<Info>, configs': seq<Config>)
    requires UpToDate(current, candidates, keys, controllers, infos, configs)
    requires Carries(controllers', infos', configs', Placements(current, candidates, outcomes, keys))
    ensures controllers' == controllers && infos' == infos && configs' == configs
  {
    hide SameNode;
    NothingToDo(current, candidates, outcomes, keys);
    var r := Placements(current, candidates, outcomes, keys);
    forall i | 0 <= i < |keys|
      ensures controllers'[i] == controllers[i] && infos'[i] == infos[i] && configs'[i] == configs[i]
    {
      assert r[i] == Kept(current[keys[i]]);
    }
  }

  // ---------- nodes that are not as configured ----------

  /** Two configured nodes with one key both start, and the slots then own one of the running controllers only. */
  method TwoNodesOneKey(first: Config, second: Config, info: Info) returns (n: Node)
    requires Key(first) == Key(second)
    ensures n.configs == [first, second] && n.InStep() && |n.running| == 2 && !n.Valid()
    ensures n.running == Members(n.controllers) && n.running != Owned(n.Now().Current(), n.Now().Current().Keys)
  {
    hide Key, SlotsOf, Owned, Started, Described, Runs;
    n := new Node();
    var nodes, fetch := [first, second], [Fetched(info), Fetched(info)];
    var outcomes := [Outcome(true, true, true), Outcome(true, true, true)];
    AllDescribed(nodes, fetch, 2);
    var ok := n.Prepare(nodes, fetch, false);
    ok := n.Start(outcomes, false);
    assert Key(n.configs[0]) == Key(n.configs[1]);
    SlotsShowAllWhenDistinct(n.configs, n.infos, n.controllers);
    assert n.running == {n.controllers[0], n.controllers[1]};
  }

  lemma {:induction false} AllDescribed(nodes: seq<Config>, fetch: seq<Fetch>, n: nat)
    requires n <= |nodes| == |fetch| && forall i | 0 <= i < n :: fetch[i].Fetched?
    ensures Described(nodes, fetch, n) == nodes[..n]
    ensures n == |nodes| ==> Described(nodes, fetch, n) == nodes
  {
    if n > 0 {
      AllDescribed(nodes, fetch, n - 1);
    }
  }

  /**
   A node for which the panel has no news keeps its old configuration, and no failure says so.

   Every reconcile asks through a client of its own, which has seen no description yet and names none
   in its request. So there is no news only if the panel answers such a request with status 304; an
   unchanged description otherwise arrives as any other, and the changed configuration is taken.
   */
  method NoNewsKeepsOldConfig(was: Config, wanted: Config, info: Info, outcomes: string -> Outcome,
                                 closes: string -> bool)
    returns (n: Node, result: Option<ReconcileResult>)
    requires was != wanted && Key(was) == Key(wanted) != ""
    ensures result.Some? && result.value.failures == [] && !result.value.fullReloadRequired
    ensures n.Valid() && n.configs == [was] != [wanted]
  {
    hide Key, SlotsOf, Started, Described, Runs, Succeeds, Reconciled, UpToDate, RefreshFailures, OrderedKeys,
         CandidatesOf, RoutedPairs;
    n := new Node();
    AllDescribed([was], [Fetched(info)], 1);
    var ok := n.Prepare([was], [Fetched(info)], false);
    ok := n.Start([Outcome(true, true, true)], false);
    ghost var before := n.Now();
    OneNodeUpToDate(before, wanted);
    result := n.Reconcile([wanted], [NoChange], outcomes, closes, false);
    if result.Some? {
      SecondRound(before, n.Now(), [wanted], [NoChange], outcomes, closes, false, result.value);
    } else {
      SecondRound(before, before, [wanted], [NoChange], outcomes, closes, false,
                  ReconcileResult(Tally(0, 0, 0, []), 0, 0, false, []));
    }
  }

  lemma OneNodeUpToDate(was: Slices, wanted: Config)
    requires was.InStep() && |was.configs| == 1 && Key(was.configs[0]) == Key(wanted) != ""
    ensures RefreshFailures(was.Current(), [wanted], [NoChange], 1) == []
    ensures UpToDate(was.Current(), CandidatesOf([wanted], [NoChange], 1), OrderedKeys([wanted], 1),
                     was.controllers, was.infos, was.configs)
    ensures CandidatesOf([wanted], [NoChange], 1) == map[]
  {
    hide Key;
    var key := Key(wanted);
    SlotsOfDistinct(was.configs, was.infos, was.controllers);
    assert OrderedKeys([wanted], 0) == [] && OrderedKeys([wanted], 1) == [key];
    assert CandidatesOf([wanted], [NoChange], 0) == map[];
    assert KeySet([key]) == {key};
  }
}
