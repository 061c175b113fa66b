/**
 What a machine reconcile decides: which nodes are wanted, when the change is too big for the
 routing table already installed, and what becomes of each node.
 */
module MachinePlan {
  import opened Text

  /** A node description from the panel; `version` stands for everything but its routes. */
  datatype Info = Info(tag: string, hasCommon: bool, routes: seq<string>, version: int)

  /** A configured node; `settings` stands for everything but its identity. */
  datatype Config = Config(apiHost: string, nodeId: int, settings: int)

  class Controller {
    const config: Config
    const info: Info

    constructor (config: Config, info: Info)
      ensures this.config == config && this.info == info
    {
      this.config, this.info := config, info;
    }
  }

  datatype Slot = Slot(config: Config, info: Info, controller: Controller)

  datatype Candidate = Candidate(config: Config, info: Info)

  /** The answer to a request for a node's description. */
  datatype Fetch = FactoryFails | FetchFails | NoChange | Fetched(info: Info)

  /** How far starting or replacing a controller gets. */
  datatype Outcome = Outcome(prepared: bool, oldCloses: bool, activates: bool)

  type Slots = map<string, Slot>

  type Candidates = map<string, Candidate>

  predicate HasCustomRoutes(info: Info) { info.hasCommon && |info.routes| > 0 }

  function Key(config: Config): string {
    var host := TrimRight(TrimSpace(config.apiHost), {'/'});
    if host == "" || config.nodeId <= 0 then "" else host + ['#'] + Itoa(config.nodeId)
  }

  /** The text is this host, with slashes after it and white space around both. */
  ghost predicate NamesHost(text: string, host: string) {
    && host != "" && host[0] !in SPACES && host[|host| - 1] != '/'
    && exists a, c :: NamesHostAt(text, host, a, c)
  }

  predicate NamesHostAt(text: string, host: string, a: int, c: int) {
    && Between(text, SPACES, a, c) && 0 < |host| <= c - a && text[a..c][..|host|] == host
    && text[a..c][c - a - 1] !in SPACES
    && forall i | |host| <= i < c - a :: text[a..c][i] == '/'
  }

  lemma HostOf(text: string, host: string)
    requires host != ""
    ensures TrimRight(TrimSpace(text), {'/'}) == host <==> NamesHost(text, host)
  {
    hide Trim, TrimRight;
    var t := TrimSpace(text);
    TrimBare(text, SPACES);
    TrimRightBare(t, {'/'});
    if TrimRight(t, {'/'}) == host {
      TrimGives(text, SPACES, t);
      var a, c :| Between(text, SPACES, a, c) && text[a..c] == t;
      var b := TrimRightFrom(t, {'/'});
      assert NamesHostAt(text, host, a, c);
    }
    if NamesHost(text, host) {
      var a, c :| NamesHostAt(text, host, a, c);
      TrimGives(text, SPACES, text[a..c]);
      TrimRightTo(t, {'/'}, |host|);
    }
  }

  /** Two nodes share a key exactly when they name one host and one positive number. */
  lemma KeysShared(c: Config, d: Config)
    ensures Key(c) == Key(d) != "" <==>
            c.nodeId == d.nodeId > 0 && exists host :: NamesHost(c.apiHost, host) && NamesHost(d.apiHost, host)
    ensures Key(c) == "" <==> c.nodeId <= 0 || forall host :: !NamesHost(c.apiHost, host)
  {
    hide NamesHost, TrimRight, TrimSpace;
    var h, h' := TrimRight(TrimSpace(c.apiHost), {'/'}), TrimRight(TrimSpace(d.apiHost), {'/'});
    forall host | host != ""
      ensures (h == host <==> NamesHost(c.apiHost, host)) && (h' == host <==> NamesHost(d.apiHost, host))
    {
      HostOf(c.apiHost, host);
      HostOf(d.apiHost, host);
    }
    NoHostEmpty(c.apiHost);
    NoHostEmpty(d.apiHost);
    assert h != "" <==> NamesHost(c.apiHost, h);
    assert h' != "" <==> NamesHost(d.apiHost, h');
    if h != "" && h' != "" && c.nodeId > 0 && d.nodeId > 0 && Key(c) == Key(d) {
      LastHash(h, Itoa(c.nodeId), h', Itoa(d.nodeId));
      ItoaInjective(c.nodeId, d.nodeId);
    }
  }

  lemma NoHostEmpty(text: string)
    ensures !NamesHost(text, "")
  {}

  /** What follows the last hash, when no hash does, is determined by the text. */
  lemma LastHash(a: string, m: string, b: string, n: string)
    requires a + ['#'] + m == b + ['#'] + n && AllDigits(m) && AllDigits(n)
    ensures a == b && m == n
  {
    var s := a + ['#'] + m;
    assert s[|a|] == '#' && s[|b|] == '#';
    forall i | |a| < i < |s| ensures s[i] != '#' {
      assert IsDigit(m[i - |a| - 1]);
    }
    forall i | |b| < i < |s| ensures s[i] != '#' {
      assert IsDigit(n[i - |b| - 1]);
    }
    assert a == s[..|a|] && m == s[|a| + 1..];
  }

  predicate SameNode(slot: Slot, candidate: Candidate) {
    slot.config == candidate.config && slot.info == candidate.info
  }

  // ---------- current and desired nodes ----------

  /** The running nodes by key; of nodes with the same key the last one is found. */
  function SlotsOf(configs: seq<Config>, infos: seq<Info>, controllers: seq<Controller>): Slots
    requires |configs| == |infos| == |controllers|
  {
    if configs == [] then map[]
    else
      var n := |configs| - 1;
      SlotsOf(configs[..n], infos[..n], controllers[..n])[Key(configs[n]) := Slot(configs[n], infos[n], controllers[n])]
  }

  ghost predicate DistinctKeys(configs: seq<Config>) {
    forall i, j | 0 <= i < j < |configs| :: Key(configs[i]) != Key(configs[j])
  }

  lemma {:induction false} SlotsOfDistinct(configs: seq<Config>, infos: seq<Info>, controllers: seq<Controller>)
    requires |configs| == |infos| == |controllers| && DistinctKeys(configs)
    ensures forall key :: key in SlotsOf(configs, infos, controllers) <==>
            exists i | 0 <= i < |configs| :: key == Key(configs[i])
    ensures forall i | 0 <= i < |configs| ::
              Key(configs[i]) in SlotsOf(configs, infos, controllers)
              && SlotsOf(configs, infos, controllers)[Key(configs[i])] == Slot(configs[i], infos[i], controllers[i])
  {
    hide Key;
    if configs != [] {
      var n := |configs| - 1;
      SlotsOfDistinct(configs[..n], infos[..n], controllers[..n]);
    }
  }

  lemma {:induction false} SlotsOfKeys(configs: seq<Config>, infos: seq<Info>, controllers: seq<Controller>,
                                       key: string)
    requires |configs| == |infos| == |controllers| && key in SlotsOf(configs, infos, controllers)
    ensures Key(SlotsOf(configs, infos, controllers)[key].config) == key
    ensures SlotsOf(configs, infos, controllers)[key].controller in controllers
  {
    hide Key;
    var n := |configs| - 1;
    if key != Key(configs[n]) {
      SlotsOfKeys(configs[..n], infos[..n], controllers[..n], key);
    }
  }

  /** The keys of the first `n` desired nodes, each once, in order. */
  function OrderedKeys(desired: seq<Config>, n: nat): seq<string>
    requires n <= |desired|
  {
    if n == 0 then []
    else
      var keys, key := OrderedKeys(desired, n - 1), Key(desired[n - 1]);
      if key == "" || key in keys then keys else keys + [key]
  }

  /** The nodes among the first `n` that were described, at the first mention of their key. */
  function CandidatesOf(desired: seq<Config>, fetch: seq<Fetch>, n: nat): Candidates
    requires n <= |desired| == |fetch|
  {
    if n == 0 then map[]
    else
      var m, key := CandidatesOf(desired, fetch, n - 1), Key(desired[n - 1]);
      if key == "" || key in OrderedKeys(desired, n - 1) || !fetch[n - 1].Fetched? then m
      else m[key := Candidate(desired[n - 1], fetch[n - 1].info)]
  }

  /** Desired node `i` is skipped with a recorded failure. */
  predicate FailsToRefresh(current: Slots, desired: seq<Config>, fetch: seq<Fetch>, i: nat)
    requires i < |desired| == |fetch|
  {
    var key := Key(desired[i]);
    || key == "" || key in OrderedKeys(desired, i) || fetch[i].FactoryFails? || fetch[i].FetchFails?
    || (fetch[i].NoChange? && key !in current)
  }

  function RefreshFailures(current: Slots, desired: seq<Config>, fetch: seq<Fetch>, n: nat): seq<Config>
    requires n <= |desired| == |fetch|
  {
    if n == 0 then []
    else
      RefreshFailures(current, desired, fetch, n - 1)
      + if FailsToRefresh(current, desired, fetch, n - 1) then [desired[n - 1]] else []
  }

  /** How many of the first `n` desired nodes are skipped: those that fail, and those without news. */
  function RefreshSkips(current: Slots, desired: seq<Config>, fetch: seq<Fetch>, n: nat): nat
    requires n <= |desired| == |fetch|
  {
    if n == 0 then 0
    else
      RefreshSkips(current, desired, fetch, n - 1) +
      if FailsToRefresh(current, desired, fetch, n - 1) || fetch[n - 1].NoChange? then 1 else 0
  }

  lemma {:induction false} OrderedKeysFacts(desired: seq<Config>, n: nat)
    requires n <= |desired|
    ensures var keys := OrderedKeys(desired, n);
            && "" !in keys && |keys| <= n
            && (forall i, j | 0 <= i < j < |keys| :: keys[i] != keys[j])
            && (forall key :: key in keys <==> key != "" && exists i | 0 <= i < n :: Key(desired[i]) == key)
  {
    hide Key;
    if n > 0 {
      OrderedKeysFacts(desired, n - 1);
    }
  }

  lemma {:induction false} CandidatesFacts(desired: seq<Config>, fetch: seq<Fetch>, n: nat)
    requires n <= |desired| == |fetch|
    ensures forall key :: key in CandidatesOf(desired, fetch, n) ==>
              && key in OrderedKeys(desired, n) && Key(CandidatesOf(desired, fetch, n)[key].config) == key
              && exists i | 0 <= i < n :: desired[i] == CandidatesOf(desired, fetch, n)[key].config
                   && fetch[i] == Fetched(CandidatesOf(desired, fetch, n)[key].info)
  {
    hide Key;
    if n > 0 {
      CandidatesFacts(desired, fetch, n - 1);
    }
  }

  /** The change would not fit the routing table that is installed. */
  predicate NeedsFullReload(current: Slots, keys: seq<string>, candidates: Candidates) {
    || (exists key <- current :: key !in keys && HasCustomRoutes(current[key].info))
    || (exists key <- candidates ::
          if key !in current then HasCustomRoutes(candidates[key].info)
          else !SameNode(current[key], candidates[key])
               && (HasCustomRoutes(current[key].info) || HasCustomRoutes(candidates[key].info)))
  }

  // ---------- what becomes of each node ----------

  datatype Placed = Kept(slot: Slot) | New(candidate: Candidate) | Gone {
    function Config(): Config
      requires !Gone?
    {
      if Kept? then slot.config else candidate.config
    }

    function Info(): Info
      requires !Gone?
    {
      if Kept? then slot.info else candidate.info
    }
  }

  function Place(current: Slots, candidates: Candidates, outcomes: string -> Outcome, key: string): Placed {
    if key !in candidates then if key in current then Kept(current[key]) else Gone
    else if key in current && SameNode(current[key], candidates[key]) then Kept(current[key])
    else
      var o := outcomes(key);
      if !o.prepared then if key in current then Kept(current[key]) else Gone
      else if (key in current ==> o.oldCloses) && o.activates then New(candidates[key])
      else Gone
  }

  function Placements(current: Slots, candidates: Candidates, outcomes: string -> Outcome, keys: seq<string>)
    : (r: seq<Placed>)
    ensures |r| <= |keys| && forall k | 0 <= k < |r| :: !r[k].Gone?
  {
    if keys == [] then []
    else
      var key, p := keys[|keys| - 1], Place(current, candidates, outcomes, keys[|keys| - 1]);
      Placements(current, candidates, outcomes, keys[..|keys| - 1]) + if p.Gone? then [] else [p]
  }

  datatype Tally = Tally(added: nat, restarted: nat, kept: nat, failures: seq<Config>)

  function CountOne(current: Slots, candidates: Candidates, outcomes: string -> Outcome, key: string, t: Tally): Tally {
    if key !in candidates then if key in current then t.(kept := t.kept + 1) else t
    else if key in current && SameNode(current[key], candidates[key]) then t.(kept := t.kept + 1)
    else if !Place(current, candidates, outcomes, key).New? then t.(failures := t.failures + [candidates[key].config])
    else if key in current then t.(restarted := t.restarted + 1)
    else t.(added := t.added + 1)
  }

  function Count(current: Slots, candidates: Candidates, outcomes: string -> Outcome, keys: seq<string>): Tally {
    if keys == [] then Tally(0, 0, 0, [])
    else CountOne(current, candidates, outcomes, keys[|keys| - 1],
                  Count(current, candidates, outcomes, keys[..|keys| - 1]))
  }

  /** Slots and candidates are filed under their own keys. */
  ghost predicate Filed(current: Slots, candidates: Candidates) {
    && (forall key <- current :: Key(current[key].config) == key)
    && (forall key <- candidates :: Key(candidates[key].config) == key)
  }

  /** The placement of the wanted node that it names. */
  predicate PlacedAt(current: Slots, candidates: Candidates, outcomes: string -> Outcome, keys: seq<string>,
                     p: Placed) {
    !p.Gone? && Key(p.Config()) in keys && p == Place(current, candidates, outcomes, Key(p.Config()))
  }

  /** The placements of all wanted nodes, in any order. */
  ghost predicate Places(current: Slots, candidates: Candidates, outcomes: string -> Outcome, keys: seq<string>,
                         r: seq<Placed>) {
    && (forall k | 0 <= k < |r| :: PlacedAt(current, candidates, outcomes, keys, r[k]))
    && (forall key <- keys :: !Place(current, candidates, outcomes, key).Gone? ==>
        Place(current, candidates, outcomes, key) in r)
  }

  lemma PlaceKey(current: Slots, candidates: Candidates, outcomes: string -> Outcome, key: string)
    requires Filed(current, candidates) && !Place(current, candidates, outcomes, key).Gone?
    ensures Key(Place(current, candidates, outcomes, key).Config()) == key
  {}

  ghost predicate DistinctPlaced(r: seq<Placed>) {
    && (forall k | 0 <= k < |r| :: !r[k].Gone?)
    && forall k, l | 0 <= k < l < |r| :: Key(r[k].Config()) != Key(r[l].Config())
  }

  lemma {:induction false} PlacementKeys(current: Slots, candidates: Candidates, outcomes: string -> Outcome,
                                         keys: seq<string>)
    requires Filed(current, candidates) && forall i, j | 0 <= i < j < |keys| :: keys[i] != keys[j]
    ensures Places(current, candidates, outcomes, keys, Placements(current, candidates, outcomes, keys))
    ensures DistinctPlaced(Placements(current, candidates, outcomes, keys))
  {
    hide Key, SameNode, Place, Filed;
    if keys != [] {
      var rest, key := keys[..|keys| - 1], keys[|keys| - 1];
      PlacementKeys(current, candidates, outcomes, rest);
      PlacesStep(current, candidates, outcomes, rest, key, Placements(current, candidates, outcomes, rest));
      assert keys == rest + [key];
    }
  }

  lemma PlacesStep(current: Slots, candidates: Candidates, outcomes: string -> Outcome, rest: seq<string>, key: string,
                   r: seq<Placed>)
    requires Filed(current, candidates) && key !in rest
    requires Places(current, candidates, outcomes, rest, r) && DistinctPlaced(r)
    ensures var p := Place(current, candidates, outcomes, key);
            var r' := r + if p.Gone? then [] else [p];
            Places(current, candidates, outcomes, rest + [key], r') && DistinctPlaced(r')
  {
    hide Key, SameNode, Place, Filed;
    var p := Place(current, candidates, outcomes, key);
    if !p.Gone? {
      PlaceKey(current, candidates, outcomes, key);
      var r' := r + [p];
      assert r'[|r|] == p;
    }
    forall k | 0 <= k < |r| ensures PlacedAt(current, candidates, outcomes, rest, r[k]) {}
  }

  /** The keyed node descriptions that carry custom routes. */
  function RoutedPairs(configs: seq<Config>, infos: seq<Info>): set<(string, Info)>
    requires |configs| == |infos|
  {
    set i | 0 <= i < |configs| && HasCustomRoutes(infos[i]) :: (Key(configs[i]), infos[i])
  }

  function RoutedSlots(current: Slots): set<(string, Info)> {
    set key | key in current && HasCustomRoutes(current[key].info) :: (key, current[key].info)
  }

  function RoutedPlacements(r: seq<Placed>): set<(string, Info)>
    requires forall k | 0 <= k < |r| :: !r[k].Gone?
  {
    set k | 0 <= k < |r| && HasCustomRoutes(r[k].Info()) :: (Key(r[k].Config()), r[k].Info())
  }

  lemma RoutingOfPlaces(current: Slots, candidates: Candidates, outcomes: string -> Outcome, keys: seq<string>,
                        r: seq<Placed>)
    requires Filed(current, candidates) && Places(current, candidates, outcomes, keys, r)
    requires !NeedsFullReload(current, keys, candidates)
    ensures RoutedPlacements(r) == RoutedSlots(current)
  {
    hide Key, HasCustomRoutes, SameNode;
    forall k | 0 <= k < |r| && HasCustomRoutes(r[k].Info())
      ensures (Key(r[k].Config()), r[k].Info()) in RoutedSlots(current)
    {
      assert PlacedAt(current, candidates, outcomes, keys, r[k]);
    }
    forall key | key in current && HasCustomRoutes(current[key].info)
      ensures (key, current[key].info) in RoutedPlacements(r)
    {
      assert key in keys && Place(current, candidates, outcomes, key) == Kept(current[key]);
      var k :| 0 <= k < |r| && r[k] == Kept(current[key]);
    }
  }

  /**
   An incremental reconcile keeps the installed routing valid: unless a full reload is required,
   the same nodes carry the same custom routes before and after, whatever fails on the way.
   */
  lemma RoutingKept(current: Slots, candidates: Candidates, outcomes: string -> Outcome, keys: seq<string>)
    requires Filed(current, candidates)
    requires forall i, j | 0 <= i < j < |keys| :: keys[i] != keys[j]
    requires !NeedsFullReload(current, keys, candidates)
    ensures RoutedPlacements(Placements(current, candidates, outcomes, keys)) == RoutedSlots(current)
  {
    hide Key, HasCustomRoutes, SameNode, NeedsFullReload, RoutedPlacements, RoutedSlots, Places, Filed;
    PlacementKeys(current, candidates, outcomes, keys);
    RoutingOfPlaces(current, candidates, outcomes, keys, Placements(current, candidates, outcomes, keys));
  }

  /** When every wanted node runs unchanged, every slot is kept and nothing is counted as changed. */
  lemma {:induction false} NothingToDo(current: Slots, candidates: Candidates, outcomes: string -> Outcome,
                                       keys: seq<string>)
    requires forall key <- keys :: key in current && (key in candidates ==> SameNode(current[key], candidates[key]))
    ensures Count(current, candidates, outcomes, keys) == Tally(0, 0, |keys|, [])
    ensures |Placements(current, candidates, outcomes, keys)| == |keys|
    ensures forall k | 0 <= k < |keys| :: Placements(current, candidates, outcomes, keys)[k] == Kept(current[keys[k]])
  {
    hide SameNode;
    if keys != [] {
      NothingToDo(current, candidates, outcomes, keys[..|keys| - 1]);
    }
  }

  /** Without failures every wanted node has its slot: the described ones as described, the others as they were. */
  lemma {:induction false} NoFailurePlacements(current: Slots, candidates: Candidates, outcomes: string -> Outcome,
                                               keys: seq<string>)
    requires Count(current, candidates, outcomes, keys).failures == []
    requires forall key <- keys :: key in current || key in candidates
    ensures var r := Placements(current, candidates, outcomes, keys);
            && |r| == |keys|
            && forall k | 0 <= k < |keys| ::
                 if keys[k] in candidates then r[k].Config() == candidates[keys[k]].config
                     && r[k].Info() == candidates[keys[k]].info
                 else r[k] == Kept(current[keys[k]])
  {
    if keys != [] {
      NoFailurePlacements(current, candidates, outcomes, keys[..|keys| - 1]);
    }
  }

  /** What refreshing desired node `i` without failure gives. */
  predicate Refreshed(current: Slots, keys: seq<string>, candidates: Candidates, desired: seq<Config>,
                      fetch: seq<Fetch>, i: nat)
    requires i < |desired| == |fetch|
  {
    && i < |keys| && keys[i] == Key(desired[i])
    && (fetch[i].Fetched? ==> keys[i] in candidates && candidates[keys[i]] == Candidate(desired[i], fetch[i].info))
    && (!fetch[i].Fetched? ==> fetch[i].NoChange? && keys[i] !in candidates && keys[i] in current)
  }

  /** When every desired node is refreshed, the wanted keys are theirs, in order. */
  lemma {:induction false} RefreshedKeys(current: Slots, desired: seq<Config>, fetch: seq<Fetch>, n: nat)
    requires n <= |desired| == |fetch| && RefreshFailures(current, desired, fetch, n) == []
    ensures |OrderedKeys(desired, n)| == n
    ensures forall i | 0 <= i < n :: Refreshed(current, OrderedKeys(desired, n), CandidatesOf(desired, fetch, n),
                                               desired, fetch, i)
  {
    hide Key;
    if n > 0 {
      RefreshedKeys(current, desired, fetch, n - 1);
      CandidatesFacts(desired, fetch, n - 1);
      var keys, candidates := OrderedKeys(desired, n - 1), CandidatesOf(desired, fetch, n - 1);
      var key := Key(desired[n - 1]);
      assert key != "" && key !in keys && OrderedKeys(desired, n) == keys + [key];
      RefreshedStep(current, keys, candidates, desired, fetch, n);
    }
  }

  lemma RefreshedStep(current: Slots, keys: seq<string>, candidates: Candidates, desired: seq<Config>,
                      fetch: seq<Fetch>, n: nat)
    requires 0 < n <= |desired| == |fetch| && |keys| == n - 1 && Key(desired[n - 1]) !in keys
    requires forall key :: key in candidates ==> key in keys
    requires forall i | 0 <= i < n - 1 :: Refreshed(current, keys, candidates, desired, fetch, i)
    requires fetch[n - 1].Fetched? || (fetch[n - 1].NoChange? && Key(desired[n - 1]) in current)
    ensures var key := Key(desired[n - 1]);
            var candidates' := if fetch[n - 1].Fetched?
                then candidates[key := Candidate(desired[n - 1], fetch[n - 1].info)] else candidates;
            forall i | 0 <= i < n :: Refreshed(current, keys + [key], candidates', desired, fetch, i)
  {
    hide Key;
    forall i | 0 <= i < n - 1 ensures keys[i] in keys && Refreshed(current, keys, candidates, desired, fetch, i) {}
  }

  lemma {:induction false} RefreshedAgain(current: Slots, current': Slots, desired: seq<Config>, fetch: seq<Fetch>,
                                          n: nat)
    requires n <= |desired| == |fetch| && RefreshFailures(current, desired, fetch, n) == []
    requires forall i | 0 <= i < n :: Key(desired[i]) in current'
    ensures RefreshFailures(current', desired, fetch, n) == []
  {
    hide Key;
    if n > 0 {
      RefreshedAgain(current, current', desired, fetch, n - 1);
    }
  }
}
