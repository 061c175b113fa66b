/**
 What a machine reconcile does to each node, said of the positions in the slices and in the desired
 list: which nodes keep their controller, which get a new one, and which are gone.
 */
module MachineFate {
  import opened Sets
  import opened MachinePlan

  ghost function Members(controllers: seq<Controller>): set<Controller> { set c | c in controllers }

  ghost predicate DistinctControllers(controllers: seq<Controller>) {
    forall i, j | 0 <= i < j < |controllers| :: controllers[i] != controllers[j]
  }

  ghost function KeySet(keys: seq<string>): set<string> { set key | key in keys }

  /** The slices carry out the placements: kept nodes keep their controller. */
  ghost predicate Carries(controllers: seq<Controller>, infos: seq<Info>, configs: seq<Config>, r: seq<Placed>) {
    && |controllers| == |infos| == |configs| == |r|
    && forall k | 0 <= k < |r| ::
         && !r[k].Gone? && infos[k] == r[k].Info() && configs[k] == r[k].Config()
         && (r[k].Kept? ==> controllers[k] == r[k].slot.controller)
         && (r[k].New? ==> controllers[k].config == configs[k] && controllers[k].info == infos[k])
  }

  /** The controllers of new placements are none of these. */
  ghost predicate NewAreNot(before: seq<Controller>, controllers: seq<Controller>, r: seq<Placed>) {
    && |controllers| == |r|
    && forall k | 0 <= k < |r| && r[k].New? :: controllers[k] !in before
  }

  datatype Slices = Slices(controllers: seq<Controller>, infos: seq<Info>, configs: seq<Config>) {
    ghost predicate InStep() { |controllers| == |infos| == |configs| }

    ghost function Current(): Slots
      requires InStep()
    {
      SlotsOf(configs, infos, controllers)
    }

    /** The node at position `k` has this key. */
    ghost predicate At(k: nat, key: string) { k < |controllers| == |infos| == |configs| && Key(configs[k]) == key }

    ghost predicate Has(key: string) { exists k: nat :: At(k, key) }

    ghost predicate Lists(config: Config, info: Info, controller: Controller) {
      && |controllers| == |infos| == |configs|
      && exists k | 0 <= k < |configs| :: configs[k] == config && infos[k] == info && controllers[k] == controller
    }
  }

  datatype ReconcileResult = ReconcileResult(tally: Tally, removed: nat, skipped: nat, fullReloadRequired: bool,
                                             failures: seq<Config>)

  // ---------- what is asked for ----------

  /** Desired node `i` is the first with its key, and has one. */
  ghost predicate Wanted(desired: seq<Config>, i: nat) {
    && i < |desired| && Key(desired[i]) != ""
    && forall j | 0 <= j < i :: Key(desired[j]) != Key(desired[i])
  }

  /** Some desired node has this key. */
  ghost predicate Named(desired: seq<Config>, key: string) {
    exists i | 0 <= i < |desired| :: Key(desired[i]) == key
  }

  ghost predicate RefreshFails(was: Slices, desired: seq<Config>, fetch: seq<Fetch>, i: nat)
    requires i < |desired| == |fetch|
  {
    || !Wanted(desired, i) || fetch[i].FactoryFails? || fetch[i].FetchFails?
    || (fetch[i].NoChange? && !was.Has(Key(desired[i])))
  }

  /** Nothing that runs under the key of desired node `i` is what the panel describes. */
  ghost predicate Changes(was: Slices, desired: seq<Config>, fetch: seq<Fetch>, i: nat)
    requires i < |desired| == |fetch|
  {
    && Wanted(desired, i) && fetch[i].Fetched?
    && forall k: nat | was.At(k, Key(desired[i])) ::
         !(was.configs[k] == desired[i] && was.infos[k] == fetch[i].info)
  }

  /** A changed node that could not be started, or not be replaced. */
  ghost predicate ChangeFails(was: Slices, desired: seq<Config>, fetch: seq<Fetch>, outcomes: string -> Outcome, i: nat)
    requires i < |desired| == |fetch|
  {
    && Changes(was, desired, fetch, i)
    && var o := outcomes(Key(desired[i]));
       !o.prepared || !o.activates || (was.Has(Key(desired[i])) && !o.oldCloses)
  }

  /** Desired nodes failed to refresh, and none was described. */
  ghost predicate NothingRefreshed(was: Slices, desired: seq<Config>, fetch: seq<Fetch>)
    requires |desired| == |fetch|
  {
    && (exists i: nat | i < |desired| :: RefreshFails(was, desired, fetch, i))
    && forall i: nat | i < |desired| :: Wanted(desired, i) ==> !fetch[i].Fetched?
  }

  /** A node with custom routes comes, goes or changes. */
  ghost predicate RoutesChange(was: Slices, desired: seq<Config>, fetch: seq<Fetch>)
    requires |desired| == |fetch| && was.InStep()
  {
    || (exists k | 0 <= k < |was.configs| ::
          && was.infos[k].hasCommon && |was.infos[k].routes| > 0
          && !Named(desired, Key(was.configs[k])))
    || (exists i: nat | i < |desired| ::
          && Changes(was, desired, fetch, i)
          && ((fetch[i].info.hasCommon && |fetch[i].info.routes| > 0)
              || exists k: nat ::
                   && was.At(k, Key(desired[i])) && was.infos[k].hasCommon && |was.infos[k].routes| > 0))
  }

  /** A reconcile ends in an error. */
  ghost predicate Errs(was: Slices, desired: seq<Config>, fetch: seq<Fetch>, outcomes: string -> Outcome,
                       closes: string -> bool, continueOnError: bool)
    requires |desired| == |fetch|
  {
    || !was.InStep() || (exists k | 0 <= k < |was.configs| :: Key(was.configs[k]) == "")
    || (!continueOnError && exists i: nat | i < |desired| :: RefreshFails(was, desired, fetch, i))
    || (&& !NothingRefreshed(was, desired, fetch) && !RoutesChange(was, desired, fetch)
        && (|| (exists k | 0 <= k < |was.configs| ::
                  !Named(desired, Key(was.configs[k])) && !closes(Key(was.configs[k])))
            || (!continueOnError && exists i: nat | i < |desired| ::
                  ChangeFails(was, desired, fetch, outcomes, i))))
  }

  // ---------- what becomes of it ----------

  /** A new controller runs what the panel describes. */
  ghost predicate ListsNew(was: Slices, next: Slices, config: Config, info: Info) {
    && |next.controllers| == |next.infos| == |next.configs|
    && exists m | 0 <= m < |next.configs| ::
         && next.configs[m] == config && next.infos[m] == info && next.controllers[m] !in was.controllers
         && next.controllers[m].config == config && next.controllers[m].info == info
  }

  /**
   What becomes of wanted node `i`.

   One that runs keeps its controller when it was not described, when it is as described, and when
   its replacement cannot be prepared. Otherwise the old controller goes, and the new one takes its
   place if the old one closes and the new one activates. One that does not run is started if it is
   described, and listed if that works.
   */
  ghost predicate Fate(was: Slices, next: Slices, desired: seq<Config>, fetch: seq<Fetch>,
                       outcomes: string -> Outcome, i: nat)
    requires i < |desired| == |fetch|
  {
    var key, o := Key(desired[i]), outcomes(Key(desired[i]));
    && (forall k: nat | was.At(k, key) ::
          if !fetch[i].Fetched? || (was.configs[k] == desired[i] && was.infos[k] == fetch[i].info) || !o.prepared then
            next.Lists(was.configs[k], was.infos[k], was.controllers[k])
          else
            && was.controllers[k] !in next.controllers
            && if o.oldCloses && o.activates then ListsNew(was, next, desired[i], fetch[i].info) else !next.Has(key))
    && (!was.Has(key) ==>
          if fetch[i].Fetched? && o.prepared && o.activates then ListsNew(was, next, desired[i], fetch[i].info)
          else !next.Has(key))
  }

  /** The list holds wanted nodes only, in the order in which they are wanted. */
  ghost predicate InWantedOrder(next: Slices, desired: seq<Config>) {
    && (forall m | 0 <= m < |next.configs| :: Named(desired, Key(next.configs[m])))
    && (forall m, m', i: nat, i': nat |
          && 0 <= m < m' < |next.configs| && Wanted(desired, i) && Wanted(desired, i')
          && Key(next.configs[m]) == Key(desired[i]) && Key(next.configs[m']) == Key(desired[i']) :: i < i')
  }

  /** The keys of the changed nodes that are newly started, and of those that are replaced. */
  ghost function AddedKeys(was: Slices, desired: seq<Config>, fetch: seq<Fetch>, outcomes: string -> Outcome)
    : set<string>
    requires |desired| == |fetch|
  {
    set i: nat | && i < |desired| && Changes(was, desired, fetch, i) && !was.Has(Key(desired[i]))
                 && !ChangeFails(was, desired, fetch, outcomes, i) :: Key(desired[i])
  }

  ghost function RestartedKeys(was: Slices, desired: seq<Config>, fetch: seq<Fetch>, outcomes: string -> Outcome)
    : set<string>
    requires |desired| == |fetch|
  {
    set i: nat | && i < |desired| && Changes(was, desired, fetch, i) && was.Has(Key(desired[i]))
                 && !ChangeFails(was, desired, fetch, outcomes, i) :: Key(desired[i])
  }

  ghost function FailedKeys(was: Slices, desired: seq<Config>, fetch: seq<Fetch>, outcomes: string -> Outcome)
    : set<string>
    requires |desired| == |fetch|
  {
    set i: nat | i < |desired| && ChangeFails(was, desired, fetch, outcomes, i) :: Key(desired[i])
  }

  /** The keys of the running nodes for which there is nothing to do. */
  ghost function UnchangedKeys(was: Slices, desired: seq<Config>, fetch: seq<Fetch>): set<string>
    requires |desired| == |fetch|
  {
    set i: nat | && i < |desired| && Wanted(desired, i) && was.Has(Key(desired[i]))
                 && !Changes(was, desired, fetch, i) :: Key(desired[i])
  }

  ghost function RemovedKeys(was: Slices, desired: seq<Config>): set<string> {
    set k | 0 <= k < |was.configs| && !Named(desired, Key(was.configs[k])) :: Key(was.configs[k])
  }

  /** Every node has become what it should. */
  ghost predicate Fates(was: Slices, next: Slices, desired: seq<Config>, fetch: seq<Fetch>,
                        outcomes: string -> Outcome)
    requires |desired| == |fetch|
  {
    && (forall i: nat | Wanted(desired, i) :: Fate(was, next, desired, fetch, outcomes, i))
    && (forall k | 0 <= k < |was.controllers| == |was.configs| ::
          !Named(desired, Key(was.configs[k])) ==> was.controllers[k] !in next.controllers)
    && InWantedOrder(next, desired)
  }

  /** The counts are those of the wanted and the removed nodes. */
  ghost predicate FatesCounted(was: Slices, desired: seq<Config>, fetch: seq<Fetch>, outcomes: string -> Outcome,
                               tally: Tally, removed: nat)
    requires |desired| == |fetch|
  {
    && tally.added == |AddedKeys(was, desired, fetch, outcomes)|
    && tally.restarted == |RestartedKeys(was, desired, fetch, outcomes)|
    && tally.kept == |UnchangedKeys(was, desired, fetch)|
    && |tally.failures| == |FailedKeys(was, desired, fetch, outcomes)|
    && (forall c :: c in tally.failures <==>
          exists i: nat | i < |desired| :: ChangeFails(was, desired, fetch, outcomes, i) && c == desired[i])
    && removed == |RemovedKeys(was, desired)|
  }

  /**
   What a reconcile without error answers and leaves.

   When no desired node could be refreshed nothing is done. Otherwise it asks for a full reload, and
   does nothing, exactly when custom routes change; and if they do not, every node becomes what it
   should.
   */
  ghost predicate Answered(was: Slices, next: Slices, desired: seq<Config>, fetch: seq<Fetch>,
                           outcomes: string -> Outcome, result: ReconcileResult)
    requires |desired| == |fetch|
  {
    && was.InStep()
    && (result.fullReloadRequired <==> !NothingRefreshed(was, desired, fetch) && RoutesChange(was, desired, fetch))
    && var failing := FailingNodes(was, desired, fetch, |desired|);
       var skipped := SkippedNodes(was, desired, fetch, |desired|);
       if NothingRefreshed(was, desired, fetch) || RoutesChange(was, desired, fetch) then
         next == was && ListsNodes(result.failures, desired, failing) && result.skipped == |skipped|
       else
         var failed := FailedKeys(was, desired, fetch, outcomes);
         && Fates(was, next, desired, fetch, outcomes)
         && FatesCounted(was, desired, fetch, outcomes, result.tally, result.removed)
         && |result.failures| == |failing| + |failed| && result.skipped == |skipped| + |failed|
         && (forall c :: c in result.failures <==>
               exists i: nat | i < |desired| ::
                 (RefreshFails(was, desired, fetch, i) || ChangeFails(was, desired, fetch, outcomes, i))
                 && c == desired[i])
  }

  // ---------- keys, candidates and slots ----------

  /** `current`, `keys` and `candidates` are what the slices, the desired list and the answers give. */
  ghost predicate Knows(was: Slices, desired: seq<Config>, fetch: seq<Fetch>, current: Slots, keys: seq<string>,
                        candidates: Candidates)
    requires |desired| == |fetch|
  {
    && was.InStep()
    && (forall key :: key in current <==> was.Has(key))
    && (forall k: nat | k < |was.configs| ::
          Key(was.configs[k]) in current
          && current[Key(was.configs[k])] == Slot(was.configs[k], was.infos[k], was.controllers[k]))
    && (forall key :: key in keys <==> exists i: nat :: Wanted(desired, i) && Key(desired[i]) == key)
    && (forall key :: key in keys <==> key != "" && Named(desired, key))
    && (forall i: nat | Wanted(desired, i) ::
          IsCandidate(desired, fetch, candidates, i))
    && (forall key <- candidates :: key in keys)
  }

  lemma {:induction false} FirstMention(desired: seq<Config>, key: string, n: nat) returns (i: nat)
    requires key != "" && n < |desired| && Key(desired[n]) == key
    ensures i <= n && Wanted(desired, i) && Key(desired[i]) == key
  {
    hide Key;
    if Wanted(desired, n) {
      return n;
    }
    var j :| 0 <= j < n && Key(desired[j]) == Key(desired[n]);
    i := FirstMention(desired, key, j);
  }

  lemma WantedKeys(desired: seq<Config>)
    ensures forall key :: key in OrderedKeys(desired, |desired|) <==>
            exists i: nat :: Wanted(desired, i) && Key(desired[i]) == key
    ensures forall key :: key in OrderedKeys(desired, |desired|) <==> key != "" && Named(desired, key)
  {
    hide Key, OrderedKeys;
    OrderedKeysFacts(desired, |desired|);
    forall key | key in OrderedKeys(desired, |desired|)
      ensures exists i: nat :: Wanted(desired, i) && Key(desired[i]) == key
    {
      var n :| 0 <= n < |desired| && Key(desired[n]) == key;
      var i := FirstMention(desired, key, n);
    }
  }

  /** Wanted node `i` is a candidate if it was described. */
  ghost predicate IsCandidate(desired: seq<Config>, fetch: seq<Fetch>, candidates: Candidates, i: nat)
    requires i < |desired| == |fetch|
  {
    if fetch[i].Fetched? then
      Key(desired[i]) in candidates && candidates[Key(desired[i])] == Candidate(desired[i], fetch[i].info)
    else Key(desired[i]) !in candidates
  }

  lemma WantedStep(desired: seq<Config>, n: nat)
    requires n < |desired|
    ensures Wanted(desired, n) <==> Key(desired[n]) != "" && Key(desired[n]) !in OrderedKeys(desired, n)
    ensures forall i: nat | i < n && Wanted(desired, i) :: Key(desired[i]) in OrderedKeys(desired, n)
  {
    hide Key, OrderedKeys;
    OrderedKeysFacts(desired, n);
  }

  lemma {:induction false} CandidatesAre(desired: seq<Config>, fetch: seq<Fetch>, n: nat)
    requires n <= |desired| == |fetch|
    ensures forall i: nat | i < n && Wanted(desired, i) ::
              IsCandidate(desired, fetch, CandidatesOf(desired, fetch, n), i)
    ensures forall key <- CandidatesOf(desired, fetch, n) :: key in OrderedKeys(desired, n)
  {
    hide Key, Wanted;
    if n > 0 {
      CandidatesAre(desired, fetch, n - 1);
      WantedStep(desired, n - 1);
    }
  }

  lemma KnowsAll(was: Slices, desired: seq<Config>, fetch: seq<Fetch>)
    requires |desired| == |fetch| && was.InStep() && DistinctKeys(was.configs)
    ensures Knows(was, desired, fetch, was.Current(), OrderedKeys(desired, |desired|),
                  CandidatesOf(desired, fetch, |desired|))
  {
    hide Key, OrderedKeys, CandidatesOf, SlotsOf, DistinctKeys, Named, Slices.Has, IsCandidate;
    SlotsKnown(was);
    WantedKeys(desired);
    CandidatesAre(desired, fetch, |desired|);
  }

  lemma SlotsKnown(was: Slices)
    requires was.InStep() && DistinctKeys(was.configs)
    ensures forall key :: key in was.Current() <==> was.Has(key)
    ensures forall k: nat | k < |was.configs| ::
              Key(was.configs[k]) in was.Current()
              && was.Current()[Key(was.configs[k])] == Slot(was.configs[k], was.infos[k], was.controllers[k])
  {
    hide Key, SlotsOf, DistinctKeys;
    SlotsOfDistinct(was.configs, was.infos, was.controllers);
    forall key | key in was.Current() ensures was.Has(key) {
      var k :| 0 <= k < |was.configs| && key == Key(was.configs[k]);
      assert was.At(k, key);
    }
  }

  // ---------- refreshing ----------

  lemma FailsMeans(was: Slices, desired: seq<Config>, fetch: seq<Fetch>, i: nat)
    requires i < |desired| == |fetch| && was.InStep() && forall key :: key in was.Current() <==> was.Has(key)
    ensures FailsToRefresh(was.Current(), desired, fetch, i) <==> RefreshFails(was, desired, fetch, i)
  {
    hide Key, SlotsOf, OrderedKeys;
    OrderedKeysFacts(desired, i);
  }

  /** The list holds the desired nodes at these positions, as many as there are. */
  ghost predicate ListsNodes(list: seq<Config>, desired: seq<Config>, nodes: set<nat>) {
    && |list| == |nodes|
    && (forall i <- nodes :: i < |desired| && desired[i] in list)
    && (forall c <- list :: exists i <- nodes :: i < |desired| && c == desired[i])
  }

  lemma ListsOneMore(list: seq<Config>, desired: seq<Config>, nodes: set<nat>, i: nat)
    requires ListsNodes(list, desired, nodes) && i < |desired| && i !in nodes
    ensures ListsNodes(list + [desired[i]], desired, nodes + {i})
  {
    forall c | c in list + [desired[i]] ensures exists j <- nodes + {i} :: j < |desired| && c == desired[j] {
      if c !in list {
        assert i in nodes + {i};
      }
    }
  }

  ghost function FailingNodes(was: Slices, desired: seq<Config>, fetch: seq<Fetch>, n: nat): set<nat>
    requires n <= |desired| == |fetch|
  {
    set i: nat | i < n && RefreshFails(was, desired, fetch, i)
  }

  ghost function SkippedNodes(was: Slices, desired: seq<Config>, fetch: seq<Fetch>, n: nat): set<nat>
    requires n <= |desired| == |fetch|
  {
    set i: nat | i < n && (RefreshFails(was, desired, fetch, i) || fetch[i].NoChange?)
  }

  lemma OneMoreNode(was: Slices, desired: seq<Config>, fetch: seq<Fetch>, n: nat)
    requires n < |desired| == |fetch|
    ensures FailingNodes(was, desired, fetch, n + 1) ==
            FailingNodes(was, desired, fetch, n) + if RefreshFails(was, desired, fetch, n) then {n} else {}
    ensures SkippedNodes(was, desired, fetch, n + 1) ==
            SkippedNodes(was, desired, fetch, n)
            + if RefreshFails(was, desired, fetch, n) || fetch[n].NoChange? then {n} else {}
    ensures n !in FailingNodes(was, desired, fetch, n) && n !in SkippedNodes(was, desired, fetch, n)
    ensures forall i <- FailingNodes(was, desired, fetch, n) :: i < n
  {
    hide RefreshFails;
  }

  /** The failures and skips of the first `n` desired nodes. */
  ghost predicate RefreshCounted(was: Slices, desired: seq<Config>, fetch: seq<Fetch>, n: nat, failures: seq<Config>,
                                 skipped: nat)
    requires n <= |desired| == |fetch|
  {
    && ListsNodes(failures, desired, FailingNodes(was, desired, fetch, n))
    && skipped == |SkippedNodes(was, desired, fetch, n)|
  }

  lemma RefreshCountedStep(was: Slices, desired: seq<Config>, fetch: seq<Fetch>, n: nat, failures: seq<Config>,
                           skipped: nat)
    requires n < |desired| == |fetch| && RefreshCounted(was, desired, fetch, n, failures, skipped)
    ensures var fails := RefreshFails(was, desired, fetch, n);
            RefreshCounted(was, desired, fetch, n + 1, failures + (if fails then [desired[n]] else []),
                           skipped + if fails || fetch[n].NoChange? then 1 else 0)
  {
    hide RefreshFails, FailingNodes, SkippedNodes, ListsNodes;
    OneMoreNode(was, desired, fetch, n);
    var failing := FailingNodes(was, desired, fetch, n);
    if RefreshFails(was, desired, fetch, n) {
      ListsOneMore(failures, desired, failing, n);
    } else {
      assert failures + [] == failures && failing + {} == failing;
    }
  }

  lemma {:induction false} RefreshCounts(was: Slices, desired: seq<Config>, fetch: seq<Fetch>, n: nat)
    requires n <= |desired| == |fetch| && was.InStep() && forall key :: key in was.Current() <==> was.Has(key)
    ensures RefreshCounted(was, desired, fetch, n, RefreshFailures(was.Current(), desired, fetch, n),
                           RefreshSkips(was.Current(), desired, fetch, n))
  {
    hide Key, SlotsOf, RefreshFails, FailsToRefresh, Slices.Has;
    if n > 0 {
      hide RefreshCounted;
      RefreshCounts(was, desired, fetch, n - 1);
      FailsMeans(was, desired, fetch, n - 1);
      RefreshCountedStep(was, desired, fetch, n - 1, RefreshFailures(was.Current(), desired, fetch, n - 1),
                         RefreshSkips(was.Current(), desired, fetch, n - 1));
    }
  }

  lemma NothingRefreshedMeans(was: Slices, desired: seq<Config>, fetch: seq<Fetch>, current: Slots, keys: seq<string>,
                              candidates: Candidates, failures: seq<Config>, skipped: nat)
    requires |desired| == |fetch| && Knows(was, desired, fetch, current, keys, candidates)
    requires RefreshCounted(was, desired, fetch, |desired|, failures, skipped)
    ensures failures == [] <==> forall i: nat | i < |desired| :: !RefreshFails(was, desired, fetch, i)
    ensures candidates == map[] && failures != [] <==> NothingRefreshed(was, desired, fetch)
  {
    hide Key, RefreshFails, Named, Slices.Has;
    var failing := FailingNodes(was, desired, fetch, |desired|);
    assert forall i: nat | i < |desired| :: RefreshFails(was, desired, fetch, i) <==> i in failing;
    if failures == [] {
      assert failing == {};
    } else {
      assert failures[0] in failures;
    }
    if candidates != map[] {
      var key := Inhabited(candidates.Keys);
      var i: nat :| Wanted(desired, i) && Key(desired[i]) == key;
      assert fetch[i].Fetched?;
    }
    forall i: nat | i < |desired| && Wanted(desired, i) && fetch[i].Fetched? ensures candidates != map[] {
      assert Key(desired[i]) in candidates;
    }
  }

  // ---------- placing ----------

  lemma RoutesChangeMeans(was: Slices, desired: seq<Config>, fetch: seq<Fetch>, current: Slots, keys: seq<string>,
                          candidates: Candidates)
    requires |desired| == |fetch| && Knows(was, desired, fetch, current, keys, candidates)
    requires DistinctKeys(was.configs) && forall k | 0 <= k < |was.configs| :: Key(was.configs[k]) != ""
    ensures NeedsFullReload(current, keys, candidates) <==> RoutesChange(was, desired, fetch)
  {
    hide Key, Named, Knows, DistinctKeys, SameNode, Changes;
    RoutedGone(was, desired, fetch, current, keys, candidates);
    RoutedChange(was, desired, fetch, current, keys, candidates);
    assert was.InStep() by { KnowsInStep(was, desired, fetch, current, keys, candidates); }
  }

  lemma KnowsInStep(was: Slices, desired: seq<Config>, fetch: seq<Fetch>, current: Slots, keys: seq<string>,
                    candidates: Candidates)
    requires |desired| == |fetch| && Knows(was, desired, fetch, current, keys, candidates)
    ensures was.InStep()
  {}

  lemma RoutedGone(was: Slices, desired: seq<Config>, fetch: seq<Fetch>, current: Slots, keys: seq<string>,
                   candidates: Candidates)
    requires |desired| == |fetch| && Knows(was, desired, fetch, current, keys, candidates)
    requires forall k | 0 <= k < |was.configs| :: Key(was.configs[k]) != ""
    ensures was.InStep()
    ensures (exists key <- current :: key !in keys && HasCustomRoutes(current[key].info)) <==>
            exists k | 0 <= k < |was.configs| ::
              && was.infos[k].hasCommon && |was.infos[k].routes| > 0
              && !Named(desired, Key(was.configs[k]))
  {
    hide Key, Named, Wanted;
    if key :| key in current && key !in keys && HasCustomRoutes(current[key].info) {
      var k: nat :| was.At(k, key);
      assert !Named(desired, Key(was.configs[k]));
    }
    if k :| 0 <= k < |was.configs| && HasCustomRoutes(was.infos[k]) && !Named(desired, Key(was.configs[k])) {
      assert Key(was.configs[k]) in current && Key(was.configs[k]) !in keys;
    }
  }

  /** The described nodes that are not as they run, one of the two with custom routes. */
  lemma RoutedChange(was: Slices, desired: seq<Config>, fetch: seq<Fetch>, current: Slots, keys: seq<string>,
                     candidates: Candidates)
    requires |desired| == |fetch| && Knows(was, desired, fetch, current, keys, candidates)
    requires DistinctKeys(was.configs)
    ensures (exists key <- candidates ::
               if key !in current then HasCustomRoutes(candidates[key].info)
               else !SameNode(current[key], candidates[key])
                    && (HasCustomRoutes(current[key].info) || HasCustomRoutes(candidates[key].info))) <==>
            exists i: nat | i < |desired| ::
              && Changes(was, desired, fetch, i)
              && ((fetch[i].info.hasCommon && |fetch[i].info.routes| > 0)
                  || exists k: nat ::
                       && was.At(k, Key(desired[i])) && was.infos[k].hasCommon && |was.infos[k].routes| > 0)
  {
    hide Key, Named, SameNode, DistinctKeys;
    forall i: nat | Wanted(desired, i)
      ensures Changes(was, desired, fetch, i) <==>
              var key := Key(desired[i]);
              key in candidates && (key !in current || !SameNode(current[key], candidates[key]))
    {
      ChangesMeans(was, desired, fetch, current, keys, candidates, i);
    }
    if key :| && key in candidates && (key !in current || !SameNode(current[key], candidates[key]))
              && (HasCustomRoutes(candidates[key].info)
                  || (key in current && HasCustomRoutes(current[key].info))) {
      var i: nat :| Wanted(desired, i) && Key(desired[i]) == key;
      assert Changes(was, desired, fetch, i);
    }
  }

  lemma ChangesMeans(was: Slices, desired: seq<Config>, fetch: seq<Fetch>, current: Slots, keys: seq<string>,
                     candidates: Candidates, i: nat)
    requires |desired| == |fetch| && Knows(was, desired, fetch, current, keys, candidates) && DistinctKeys(was.configs)
    requires Wanted(desired, i)
    ensures Changes(was, desired, fetch, i) <==>
            var key := Key(desired[i]);
            key in candidates && (key !in current || !SameNode(current[key], candidates[key]))
    ensures Key(desired[i]) in current <==> was.Has(Key(desired[i]))
    ensures forall k: nat | was.At(k, Key(desired[i])) ::
              Key(desired[i]) in current
              && current[Key(desired[i])] == Slot(was.configs[k], was.infos[k], was.controllers[k])
  {
    hide Key, Named;
    var key := Key(desired[i]);
    forall k: nat | was.At(k, key)
      ensures key in current && current[key] == Slot(was.configs[k], was.infos[k], was.controllers[k])
    {}
    if was.Has(key) {
      var k: nat :| was.At(k, key);
    }
  }

  /** The slices carry out the placements of the wanted nodes. */
  ghost predicate CarriesOut(was: Slices, next: Slices, current: Slots, candidates: Candidates,
                             outcomes: string -> Outcome, keys: seq<string>, r: seq<Placed>) {
    && Places(current, candidates, outcomes, keys, r) && DistinctPlaced(r)
    && Carries(next.controllers, next.infos, next.configs, r) && NewAreNot(was.controllers, next.controllers, r)
  }

  lemma PlacedNext(was: Slices, next: Slices, current: Slots, candidates: Candidates, outcomes: string -> Outcome,
                   keys: seq<string>, r: seq<Placed>, key: string)
    requires CarriesOut(was, next, current, candidates, outcomes, keys, r) && Filed(current, candidates)
    requires key in keys
    ensures match Place(current, candidates, outcomes, key)
            case Gone => !next.Has(key)
            case Kept(slot) => next.Lists(slot.config, slot.info, slot.controller)
            case New(candidate) => ListsNew(was, next, candidate.config, candidate.info)
  {
    hide Key, Place, Filed;
    var p := Place(current, candidates, outcomes, key);
    forall m | 0 <= m < |r| ensures Key(r[m].Config()) == key ==> p == r[m] {
      assert PlacedAt(current, candidates, outcomes, keys, r[m]);
    }
    if !p.Gone? {
      assert p in r;
      var m :| 0 <= m < |r| && r[m] == p;
    }
  }

  /** A running controller is listed afterwards only if its node is kept. */
  lemma NotKept(was: Slices, next: Slices, desired: seq<Config>, fetch: seq<Fetch>, current: Slots,
                candidates: Candidates, outcomes: string -> Outcome, keys: seq<string>, r: seq<Placed>, k: nat)
    requires |desired| == |fetch| && Knows(was, desired, fetch, current, keys, candidates)
    requires CarriesOut(was, next, current, candidates, outcomes, keys, r)
    requires DistinctControllers(was.controllers) && k < |was.controllers|
    requires was.controllers[k] in next.controllers
    ensures Key(was.configs[k]) in keys && Place(current, candidates, outcomes, Key(was.configs[k])).Kept?
  {
    hide Key, Named, Wanted;
    var m :| 0 <= m < |next.controllers| && next.controllers[m] == was.controllers[k];
    assert PlacedAt(current, candidates, outcomes, keys, r[m]);
    var key := Key(r[m].Config());
    var l: nat :| was.At(l, key);
    assert r[m] == Kept(current[key]) && current[key].controller == was.controllers[l];
    assert l == k;
  }

  lemma FateOfWanted(was: Slices, next: Slices, desired: seq<Config>, fetch: seq<Fetch>, current: Slots,
                     candidates: Candidates, outcomes: string -> Outcome, keys: seq<string>, r: seq<Placed>, i: nat)
    requires |desired| == |fetch| && Knows(was, desired, fetch, current, keys, candidates)
    requires CarriesOut(was, next, current, candidates, outcomes, keys, r) && Filed(current, candidates)
    requires DistinctControllers(was.controllers) && DistinctKeys(was.configs) && Wanted(desired, i)
    ensures Fate(was, next, desired, fetch, outcomes, i)
  {
    hide Key, Named, Places, DistinctPlaced, Carries, NewAreNot, Filed, CarriesOut, Slices.Lists, ListsNew,
         DistinctControllers, DistinctKeys;
    var key := Key(desired[i]);
    ChangesMeans(was, desired, fetch, current, keys, candidates, i);
    PlacedNext(was, next, current, candidates, outcomes, keys, r, key);
    forall k: nat | was.At(k, key) && was.controllers[k] in next.controllers
      ensures Place(current, candidates, outcomes, key).Kept?
    {
      NotKept(was, next, desired, fetch, current, candidates, outcomes, keys, r, k);
    }
  }

  // ---------- the order of the list ----------

  /** Wanted keys come in the order in which they are first mentioned. */
  lemma {:induction false} KeysInOrder(desired: seq<Config>, n: nat)
    requires n <= |desired|
    ensures forall a, b, i: nat, j: nat |
              && 0 <= a < b < |OrderedKeys(desired, n)| && Wanted(desired, i) && Wanted(desired, j)
              && OrderedKeys(desired, n)[a] == Key(desired[i]) && OrderedKeys(desired, n)[b] == Key(desired[j]) :: i < j
  {
    hide Key;
    if n > 0 {
      KeysInOrder(desired, n - 1);
      OrderedKeysFacts(desired, n - 1);
      var keys, key := OrderedKeys(desired, n - 1), Key(desired[n - 1]);
      forall a, b, i: nat, j: nat |
        && 0 <= a < b < |OrderedKeys(desired, n)| && Wanted(desired, i) && Wanted(desired, j)
        && OrderedKeys(desired, n)[a] == Key(desired[i]) && OrderedKeys(desired, n)[b] == Key(desired[j])
        ensures i < j
      {
        assert a < |keys| && keys[a] in keys;
      }
    }
  }

  /** Placements come in the order of the keys. */
  lemma {:induction false} PlacementsInOrder(current: Slots, candidates: Candidates, outcomes: string -> Outcome,
                                             keys: seq<string>)
    requires Filed(current, candidates) && forall i, j | 0 <= i < j < |keys| :: keys[i] != keys[j]
    ensures var r := Placements(current, candidates, outcomes, keys);
            forall m, m', a, b |
              && 0 <= m < m' < |r| && 0 <= a < |keys| && 0 <= b < |keys|
              && keys[a] == Key(r[m].Config()) && keys[b] == Key(r[m'].Config()) :: a < b
  {
    hide Key, Place, Filed;
    if keys != [] {
      var n := |keys| - 1;
      var rest, key, p := keys[..n], keys[n], Place(current, candidates, outcomes, keys[n]);
      PlacementsInOrder(current, candidates, outcomes, rest);
      PlacementKeys(current, candidates, outcomes, rest);
      var r := Placements(current, candidates, outcomes, rest);
      if !p.Gone? {
        PlaceKey(current, candidates, outcomes, key);
      }
      forall m | 0 <= m < |r| ensures Key(r[m].Config()) in rest {
        assert PlacedAt(current, candidates, outcomes, rest, r[m]);
      }
    }
  }

  lemma OrderFrom(was: Slices, next: Slices, desired: seq<Config>, fetch: seq<Fetch>, current: Slots,
                  candidates: Candidates, outcomes: string -> Outcome, keys: seq<string>, r: seq<Placed>)
    requires |desired| == |fetch| && Knows(was, desired, fetch, current, keys, candidates)
    requires keys == OrderedKeys(desired, |desired|) && Filed(current, candidates)
    requires r == Placements(current, candidates, outcomes, keys)
    requires CarriesOut(was, next, current, candidates, outcomes, keys, r)
    ensures InWantedOrder(next, desired)
  {
    hide Key, Place, Placements, OrderedKeys, Named, Filed, DistinctPlaced, NewAreNot, Slices.Has;
    OrderedKeysFacts(desired, |desired|);
    KeysInOrder(desired, |desired|);
    PlacementsInOrder(current, candidates, outcomes, keys);
    forall m | 0 <= m < |next.configs| ensures Key(next.configs[m]) in keys {
      assert PlacedAt(current, candidates, outcomes, keys, r[m]);
    }
    forall m, m', i: nat, i': nat |
      && 0 <= m < m' < |next.configs| && Wanted(desired, i) && Wanted(desired, i')
      && Key(next.configs[m]) == Key(desired[i]) && Key(next.configs[m']) == Key(desired[i'])
      ensures i < i'
    {
      var a :| 0 <= a < |keys| && keys[a] == Key(next.configs[m]);
      var b :| 0 <= b < |keys| && keys[b] == Key(next.configs[m']);
      assert a < b;
    }
  }

  // ---------- the counts ----------

  datatype Counted = AsAdded | AsRestarted | AsKept | AsFailed | NotCounted

  ghost function CountedAs(current: Slots, candidates: Candidates, outcomes: string -> Outcome, key: string): Counted {
    if key !in candidates || (key in current && SameNode(current[key], candidates[key])) then
      if key in current then AsKept else NotCounted
    else if !Place(current, candidates, outcomes, key).New? then AsFailed
    else if key in current then AsRestarted
    else AsAdded
  }

  ghost function KeysAs(current: Slots, candidates: Candidates, outcomes: string -> Outcome, keys: seq<string>,
                        as_: Counted): set<string> {
    set key | key in keys && CountedAs(current, candidates, outcomes, key) == as_
  }

  lemma KeysAsStep(current: Slots, candidates: Candidates, outcomes: string -> Outcome, rest: seq<string>, key: string,
                   as_: Counted)
    requires key !in rest
    ensures KeysAs(current, candidates, outcomes, rest + [key], as_) ==
            KeysAs(current, candidates, outcomes, rest, as_)
            + if CountedAs(current, candidates, outcomes, key) == as_ then {key} else {}
    ensures key !in KeysAs(current, candidates, outcomes, rest, as_)
  {
    hide CountedAs;
  }

  lemma SizeStep(current: Slots, candidates: Candidates, outcomes: string -> Outcome, rest: seq<string>, key: string,
                 as_: Counted)
    requires key !in rest
    ensures |KeysAs(current, candidates, outcomes, rest + [key], as_)| ==
            |KeysAs(current, candidates, outcomes, rest, as_)|
            + if CountedAs(current, candidates, outcomes, key) == as_ then 1 else 0
  {
    hide CountedAs, KeysAs;
    KeysAsStep(current, candidates, outcomes, rest, key, as_);
  }

  /** The list holds the candidates under these keys, as many as there are. */
  ghost predicate ListsKeys(list: seq<Config>, candidates: Candidates, keys: set<string>) {
    && |list| == |keys|
    && (forall key <- keys :: key in candidates && candidates[key].config in list)
    && (forall c <- list :: exists key <- keys :: key in candidates && c == candidates[key].config)
  }

  lemma ListsOneMoreKey(list: seq<Config>, candidates: Candidates, keys: set<string>, key: string)
    requires ListsKeys(list, candidates, keys) && key in candidates && key !in keys
    ensures ListsKeys(list + [candidates[key].config], candidates, keys + {key})
  {
    forall c | c in list + [candidates[key].config]
      ensures exists k <- keys + {key} :: k in candidates && c == candidates[k].config
    {
      if c !in list {
        assert key in keys + {key};
      }
    }
  }

  /** The counts are those of the keys counted that way. */
  ghost predicate CountsKeys(current: Slots, candidates: Candidates, outcomes: string -> Outcome, keys: seq<string>,
                             t: Tally) {
    && t.added == |KeysAs(current, candidates, outcomes, keys, AsAdded)|
    && t.restarted == |KeysAs(current, candidates, outcomes, keys, AsRestarted)|
    && t.kept == |KeysAs(current, candidates, outcomes, keys, AsKept)|
    && ListsKeys(t.failures, candidates, KeysAs(current, candidates, outcomes, keys, AsFailed))
  }

  lemma CountOneAs(current: Slots, candidates: Candidates, outcomes: string -> Outcome, key: string, t: Tally)
    ensures var t' := CountOne(current, candidates, outcomes, key, t);
            match CountedAs(current, candidates, outcomes, key)
            case AsAdded => t' == t.(added := t.added + 1)
            case AsRestarted => t' == t.(restarted := t.restarted + 1)
            case AsKept => t' == t.(kept := t.kept + 1)
            case AsFailed => key in candidates && t' == t.(failures := t.failures + [candidates[key].config])
            case NotCounted => t' == t
  {
    hide SameNode, Place;
  }

  lemma CountedStep(current: Slots, candidates: Candidates, outcomes: string -> Outcome, rest: seq<string>,
                    key: string, t: Tally)
    requires CountsKeys(current, candidates, outcomes, rest, t) && key !in rest
    ensures CountsKeys(current, candidates, outcomes, rest + [key],
                       CountOne(current, candidates, outcomes, key, t))
  {
    hide KeysAs, ListsKeys, CountOne, CountedAs;
    CountOneAs(current, candidates, outcomes, key, t);
    SizeStep(current, candidates, outcomes, rest, key, AsAdded);
    SizeStep(current, candidates, outcomes, rest, key, AsRestarted);
    SizeStep(current, candidates, outcomes, rest, key, AsKept);
    KeysAsStep(current, candidates, outcomes, rest, key, AsFailed);
    var failed := KeysAs(current, candidates, outcomes, rest, AsFailed);
    if CountedAs(current, candidates, outcomes, key) == AsFailed {
      ListsOneMoreKey(t.failures, candidates, failed, key);
    } else {
      assert failed + {} == failed;
    }
  }

  lemma {:induction false} CountCounts(current: Slots, candidates: Candidates, outcomes: string -> Outcome,
                                       keys: seq<string>)
    requires forall i, j | 0 <= i < j < |keys| :: keys[i] != keys[j]
    ensures CountsKeys(current, candidates, outcomes, keys, Count(current, candidates, outcomes, keys))
  {
    hide CountOne;
    if keys != [] {
      hide CountsKeys;
      var rest, key := keys[..|keys| - 1], keys[|keys| - 1];
      CountCounts(current, candidates, outcomes, rest);
      CountedStep(current, candidates, outcomes, rest, key, Count(current, candidates, outcomes, rest));
      assert keys == rest + [key];
    }
  }

  /** How wanted node `i` is counted. */
  ghost function NodeCounts(was: Slices, desired: seq<Config>, fetch: seq<Fetch>, outcomes: string -> Outcome, i: nat)
    : Counted
    requires i < |desired| == |fetch|
  {
    if !Changes(was, desired, fetch, i) then if was.Has(Key(desired[i])) then AsKept else NotCounted
    else if ChangeFails(was, desired, fetch, outcomes, i) then AsFailed
    else if was.Has(Key(desired[i])) then AsRestarted else AsAdded
  }

  /** The keys of the wanted nodes that are counted one way. */
  ghost function NodesAs(was: Slices, desired: seq<Config>, fetch: seq<Fetch>, outcomes: string -> Outcome,
                         as_: Counted): set<string>
    requires |desired| == |fetch|
  {
    set i: nat | i < |desired| && Wanted(desired, i) && NodeCounts(was, desired, fetch, outcomes, i) == as_ ::
      Key(desired[i])
  }

  lemma ChangesAreWanted(was: Slices, desired: seq<Config>, fetch: seq<Fetch>, outcomes: string -> Outcome, i: nat)
    requires i < |desired| == |fetch|
    ensures ChangeFails(was, desired, fetch, outcomes, i) ==> Changes(was, desired, fetch, i)
    ensures Changes(was, desired, fetch, i) ==> Wanted(desired, i)
  {}

  lemma NodesAsAre(was: Slices, desired: seq<Config>, fetch: seq<Fetch>, outcomes: string -> Outcome)
    requires |desired| == |fetch|
    ensures NodesAs(was, desired, fetch, outcomes, AsAdded) == AddedKeys(was, desired, fetch, outcomes)
    ensures NodesAs(was, desired, fetch, outcomes, AsRestarted) == RestartedKeys(was, desired, fetch, outcomes)
    ensures NodesAs(was, desired, fetch, outcomes, AsKept) == UnchangedKeys(was, desired, fetch)
    ensures NodesAs(was, desired, fetch, outcomes, AsFailed) == FailedKeys(was, desired, fetch, outcomes)
  {
    hide Key, Wanted, Slices.Has, ChangeFails, Changes;
    forall i: nat | i < |desired| {
      ChangesAreWanted(was, desired, fetch, outcomes, i);
    }
  }

  /** How the node of a wanted key is counted, said of the desired node. */
  lemma CountedMeans(was: Slices, desired: seq<Config>, fetch: seq<Fetch>, current: Slots, keys: seq<string>,
                     candidates: Candidates, outcomes: string -> Outcome, i: nat)
    requires |desired| == |fetch| && Knows(was, desired, fetch, current, keys, candidates) && DistinctKeys(was.configs)
    requires Wanted(desired, i)
    ensures CountedAs(current, candidates, outcomes, Key(desired[i])) == NodeCounts(was, desired, fetch, outcomes, i)
    ensures Changes(was, desired, fetch, i) ==>
              Key(desired[i]) in candidates && candidates[Key(desired[i])].config == desired[i]
  {
    hide Key, Named, SameNode, Slices.Has, DistinctKeys;
    ChangesMeans(was, desired, fetch, current, keys, candidates, i);
  }

  lemma KeysAre(was: Slices, desired: seq<Config>, fetch: seq<Fetch>, current: Slots, keys: seq<string>,
                candidates: Candidates, outcomes: string -> Outcome, as_: Counted)
    requires |desired| == |fetch| && Knows(was, desired, fetch, current, keys, candidates) && DistinctKeys(was.configs)
    ensures KeysAs(current, candidates, outcomes, keys, as_) == NodesAs(was, desired, fetch, outcomes, as_)
  {
    hide Key, Named, CountedAs, NodeCounts, Slices.Has, DistinctKeys, Changes;
    forall i: nat | i < |desired| && Wanted(desired, i)
      ensures Key(desired[i]) in keys
      ensures CountedAs(current, candidates, outcomes, Key(desired[i])) == NodeCounts(was, desired, fetch, outcomes, i)
    {
      CountedMeans(was, desired, fetch, current, keys, candidates, outcomes, i);
    }
    forall key | key in keys
      ensures exists i: nat :: i < |desired| && Wanted(desired, i) && Key(desired[i]) == key
    {
      var i: nat :| Wanted(desired, i) && Key(desired[i]) == key;
    }
  }

  lemma RemovedKeysAre(was: Slices, desired: seq<Config>, fetch: seq<Fetch>, current: Slots, keys: seq<string>,
                       candidates: Candidates)
    requires |desired| == |fetch| && Knows(was, desired, fetch, current, keys, candidates)
    requires forall k | 0 <= k < |was.configs| :: Key(was.configs[k]) != ""
    ensures current.Keys - KeySet(keys) == RemovedKeys(was, desired)
  {
    hide Key, Named, Wanted;
    forall key | key in current.Keys - KeySet(keys) ensures key in RemovedKeys(was, desired) {
      var k: nat :| was.At(k, key);
    }
  }

  lemma FailuresAre(was: Slices, desired: seq<Config>, fetch: seq<Fetch>, current: Slots, keys: seq<string>,
                    candidates: Candidates, outcomes: string -> Outcome, failures: seq<Config>)
    requires |desired| == |fetch| && Knows(was, desired, fetch, current, keys, candidates) && DistinctKeys(was.configs)
    requires ListsKeys(failures, candidates, FailedKeys(was, desired, fetch, outcomes))
    ensures forall c :: c in failures <==>
              exists i: nat | i < |desired| :: ChangeFails(was, desired, fetch, outcomes, i) && c == desired[i]
    ensures failures == [] <==> forall i: nat | i < |desired| :: !ChangeFails(was, desired, fetch, outcomes, i)
    ensures |failures| == |FailedKeys(was, desired, fetch, outcomes)|
  {
    hide Key, Named, Wanted, ChangeFails, Slices.Has, DistinctKeys;
    forall i: nat | i < |desired| && ChangeFails(was, desired, fetch, outcomes, i)
      ensures Key(desired[i]) in candidates && candidates[Key(desired[i])].config == desired[i]
    {
      ChangesAreWanted(was, desired, fetch, outcomes, i);
      CountedMeans(was, desired, fetch, current, keys, candidates, outcomes, i);
    }
    forall c | c in failures
      ensures exists i: nat | i < |desired| :: ChangeFails(was, desired, fetch, outcomes, i) && c == desired[i]
    {
      var key :| key in FailedKeys(was, desired, fetch, outcomes) && key in candidates && c == candidates[key].config;
    }
    forall i: nat | i < |desired| && ChangeFails(was, desired, fetch, outcomes, i) ensures desired[i] in failures {
      assert Key(desired[i]) in FailedKeys(was, desired, fetch, outcomes);
    }
    if failures != [] {
      assert failures[0] in failures;
    }
  }

  /** The counts and failures of an incremental reconcile, said of the desired nodes. */
  lemma TallyMeans(was: Slices, desired: seq<Config>, fetch: seq<Fetch>, current: Slots, keys: seq<string>,
                   candidates: Candidates, outcomes: string -> Outcome)
    requires |desired| == |fetch| && Knows(was, desired, fetch, current, keys, candidates) && DistinctKeys(was.configs)
    requires forall i, j | 0 <= i < j < |keys| :: keys[i] != keys[j]
    ensures var t := Count(current, candidates, outcomes, keys);
            && t.added == |AddedKeys(was, desired, fetch, outcomes)|
            && t.restarted == |RestartedKeys(was, desired, fetch, outcomes)|
            && t.kept == |UnchangedKeys(was, desired, fetch)|
            && |t.failures| == |FailedKeys(was, desired, fetch, outcomes)|
            && (forall c :: c in t.failures <==>
                  exists i: nat | i < |desired| :: ChangeFails(was, desired, fetch, outcomes, i) && c == desired[i])
            && (t.failures == [] <==> forall i: nat | i < |desired| :: !ChangeFails(was, desired, fetch, outcomes, i))
  {
    hide Key, Knows, Count, KeysAs, NodesAs, AddedKeys, RestartedKeys, UnchangedKeys, FailedKeys, ListsKeys,
         DistinctKeys, ChangeFails;
    CountCounts(current, candidates, outcomes, keys);
    NodesAsAre(was, desired, fetch, outcomes);
    KeysAre(was, desired, fetch, current, keys, candidates, outcomes, AsAdded);
    KeysAre(was, desired, fetch, current, keys, candidates, outcomes, AsRestarted);
    KeysAre(was, desired, fetch, current, keys, candidates, outcomes, AsKept);
    KeysAre(was, desired, fetch, current, keys, candidates, outcomes, AsFailed);
    var t := Count(current, candidates, outcomes, keys);
    FailuresAre(was, desired, fetch, current, keys, candidates, outcomes, t.failures);
  }

  /** An incremental reconcile gives every node what becomes of it. */
  lemma FatesOf(was: Slices, next: Slices, desired: seq<Config>, fetch: seq<Fetch>, outcomes: string -> Outcome,
                current: Slots, keys: seq<string>, candidates: Candidates)
    requires |desired| == |fetch| && Knows(was, desired, fetch, current, keys, candidates)
    requires DistinctKeys(was.configs) && DistinctControllers(was.controllers) && Filed(current, candidates)
    requires keys == OrderedKeys(desired, |desired|)
    requires var r := Placements(current, candidates, outcomes, keys);
             Carries(next.controllers, next.infos, next.configs, r) && NewAreNot(was.controllers, next.controllers, r)
    ensures Fates(was, next, desired, fetch, outcomes)
  {
    hide Key, Knows, Placements, OrderedKeys, DistinctKeys, Filed, Carries, NewAreNot, Places, DistinctPlaced, Fate,
         InWantedOrder, Named, Place, DistinctControllers, CarriesOut;
    var r := Placements(current, candidates, outcomes, keys);
    OrderedKeysFacts(desired, |desired|);
    PlacementKeys(current, candidates, outcomes, keys);
    CarriedOut(was, next, current, candidates, outcomes, keys, r);
    OrderFrom(was, next, desired, fetch, current, candidates, outcomes, keys, r);
    KeysAreNamed(was, desired, fetch, current, keys, candidates);
    forall i: nat | Wanted(desired, i) ensures Fate(was, next, desired, fetch, outcomes, i) {
      FateOfWanted(was, next, desired, fetch, current, candidates, outcomes, keys, r, i);
    }
    forall k: nat | k < |was.controllers| == |was.configs| && was.controllers[k] in next.controllers
      ensures Named(desired, Key(was.configs[k]))
    {
      NotKept(was, next, desired, fetch, current, candidates, outcomes, keys, r, k);
    }
  }

  lemma CarriedOut(was: Slices, next: Slices, current: Slots, candidates: Candidates, outcomes: string -> Outcome,
                   keys: seq<string>, r: seq<Placed>)
    requires Places(current, candidates, outcomes, keys, r) && DistinctPlaced(r)
    requires Carries(next.controllers, next.infos, next.configs, r) && NewAreNot(was.controllers, next.controllers, r)
    ensures CarriesOut(was, next, current, candidates, outcomes, keys, r)
  {}

  lemma KeysAreNamed(was: Slices, desired: seq<Config>, fetch: seq<Fetch>, current: Slots, keys: seq<string>,
                     candidates: Candidates)
    requires |desired| == |fetch| && Knows(was, desired, fetch, current, keys, candidates)
    ensures forall key <- keys :: Named(desired, key)
  {
    hide Key, Named;
  }

  lemma FiledOf(was: Slices, desired: seq<Config>, fetch: seq<Fetch>)
    requires |desired| == |fetch| && was.InStep()
    ensures Filed(was.Current(), CandidatesOf(desired, fetch, |desired|))
  {
    hide Key, SlotsOf, CandidatesOf, OrderedKeys;
    CandidatesFacts(desired, fetch, |desired|);
    forall key | key in was.Current() ensures Key(was.Current()[key].config) == key {
      SlotsOfKeys(was.configs, was.infos, was.controllers, key);
    }
  }
}
