/**
 The admission of connections of one user that arrive at once, as a state machine over the steps of
 each call: it takes the user's record of addresses or makes one, looks at it, may give an address
 up, and then stores its own or takes the record back that it made.

 A run lies between two reports and alive pulls and is short enough for one time, so what is known
 of the user's devices stays the same. Looking at a record is one step.
 */
module AdmissionRace {
  import opened Results
  import opened Sets
  import L = Limiter

  /** What stays the same during a run. */
  datatype Setting = Setting(uid: int, limit: int, tracksUDP: bool, old_: L.OldMap, alive: L.Alive, now: int) {
    function Known(): int { L.KnownCount(old_, alive, uid, now) }

    predicate Knows(ip: string) { L.Known(old_, alive, uid, ip, now) }

    function Pending(ips: L.AddressMap): set<string> { L.Pending(ips, old_, alive, uid, now) }

    /** One address more is let in for tracked UDP sources of a user with known devices. */
    function Roaming(): nat { if tracksUDP && Known() > 0 then 1 else 0 }

    predicate Passes(udp: bool, pending: int) {
      Known() + pending < limit || (udp && Known() > 0 && Known() + pending == limit)
    }
  }

  /** Where a call stands, with the record that it took or made. */
  datatype Call =
    | Began(ip: string, udp: bool, record: nat, created: bool)
    | Full(ip: string, record: nat, created: bool, count: nat)
    | Passing(ip: string, record: nat)
    | Refused(created: bool)

  /** The record under the user's key, every record ever made, and the calls under way. */
  datatype State = State(current: Option<nat>, records: map<nat, L.AddressMap>, calls: map<int, Call>)

  datatype Step =
    | Begin(id: int, ip: string, udp: bool, unused: nat)
    | Look(id: int)
    | GiveUp(id: int, victim: Option<string>)
    | Store(id: int)
    | TakeBack(id: int)

  function At(records: map<nat, L.AddressMap>, record: nat): L.AddressMap {
    if record in records then records[record] else map[]
  }

  function Recorded(s: State): L.AddressMap { if s.current.Some? then At(s.records, s.current.value) else map[] }

  predicate Holds(e: Setting, s: State, c: Call) {
    && (c.Refused? || c.record in s.records)
    && (c.Began? && c.udp ==> e.tracksUDP) && (c.Full? ==> e.tracksUDP && e.Known() > 0)
    && (c.Full? || c.Passing? ==> !e.Knows(c.ip))
  }

  /** The records that are held exist, only UDP sources give addresses up, and only unknown ones are waited for. */
  predicate WellFormed(e: Setting, s: State) {
    && (s.current.Some? ==> s.current.value in s.records)
    && forall id <- s.calls :: Holds(e, s, s.calls[id])
  }

  predicate Enabled(e: Setting, s: State, step: Step) {
    match step
    case Begin(id, _, udp, unused) =>
      id !in s.calls && (udp ==> e.tracksUDP) && (s.current.None? ==> unused !in s.records)
    case Look(id) => id in s.calls && s.calls[id].Began?
    case GiveUp(id, victim) =>
      && id in s.calls && s.calls[id].Full?
      && var pending := e.Pending(At(s.records, s.calls[id].record));
         if victim.Some? then victim.value in pending else pending == {}
    case Store(id) => id in s.calls && s.calls[id].Passing?
    case TakeBack(id) => id in s.calls && s.calls[id].Refused?
  }

  function Decided(e: Setting, udp: bool, ip: string, record: nat, created: bool, pending: int): Call {
    if e.Passes(udp, pending) then Passing(ip, record) else Refused(created)
  }

  function Looked(e: Setting, s: State, c: Call): Call
    requires c.Began?
  {
    var pending := |e.Pending(Recorded(s))|;
    if c.udp && e.Known() > 0 && e.limit <= e.Known() + pending then Full(c.ip, c.record, c.created, pending)
    else Decided(e, c.udp, c.ip, c.record, c.created, pending)
  }

  function Next(e: Setting, s: State, step: Step): State
    requires Enabled(e, s, step)
  {
    match step
    case Begin(id, ip, udp, unused) =>
      if s.current.Some? then s.(calls := s.calls[id := Began(ip, udp, s.current.value, false)])
      else State(Some(unused), s.records[unused := map[]], s.calls[id := Began(ip, udp, unused, true)])
    case Look(id) =>
      var c := s.calls[id];
      if c.ip in At(s.records, c.record) then s.(calls := s.calls - {id})
      else if e.Knows(c.ip) || e.limit <= 0 then
        s.(records := s.records[c.record := At(s.records, c.record)[c.ip := e.uid]], calls := s.calls - {id})
      else s.(calls := s.calls[id := Looked(e, s, c)])
    case GiveUp(id, victim) =>
      var c := s.calls[id];
      var left := if victim.Some? && c.count > 0 then c.count - 1 else c.count;
      var next := Decided(e, true, c.ip, c.record, c.created, left);
      if victim.None? then s.(calls := s.calls[id := next])
      else s.(records := s.records[c.record := At(s.records, c.record) - {victim.value}], calls := s.calls[id := next])
    case Store(id) =>
      var c := s.calls[id];
      s.(records := s.records[c.record := At(s.records, c.record)[c.ip := e.uid]], calls := s.calls - {id})
    case TakeBack(id) =>
      if s.calls[id].created then s.(current := None, calls := s.calls - {id}) else s.(calls := s.calls - {id})
  }

  lemma StepKeepsForm(e: Setting, s: State, step: Step)
    requires WellFormed(e, s) && Enabled(e, s, step)
    ensures WellFormed(e, Next(e, s, step))
  {
    hide L.KnownCount, L.Known, L.Pending;
    var next := Next(e, s, step);
    forall id | id in next.calls ensures Holds(e, next, next.calls[id]) {
      assert id in s.calls ==> Holds(e, s, s.calls[id]);
    }
  }

  predicate Leads(e: Setting, s: State, step: Step, next: State) {
    Enabled(e, s, step) && next == Next(e, s, step)
  }

  ghost predicate Trace(e: Setting, states: seq<State>, steps: seq<Step>) {
    |states| == |steps| + 1 && forall i | 0 <= i < |steps| :: Leads(e, states[i], steps[i], states[i + 1])
  }

  // ---------- how far the limit can be passed ----------

  /** The call will store an address in the current record. */
  predicate Comes(e: Setting, current: Option<nat>, c: Call) {
    match c
    case Passing(_, record) => current == Some(record)
    case Full(_, record, _, count) => current == Some(record) && e.Known() + count <= e.limit
    case _ => false
  }

  function Coming(e: Setting, s: State): set<int> { set id | id in s.calls && Comes(e, s.current, s.calls[id]) }

  /** The pending addresses, those recorded and those to come. */
  function Load(e: Setting, s: State): nat { |e.Pending(Recorded(s))| + |Coming(e, s)| }

  /** The most that calls can bring about, if there are never more than `most` at once. */
  predicate Bounds(e: Setting, bound: int, most: nat) {
    e.limit > 0 && e.limit + most - 1 + e.Roaming() <= e.Known() + bound
  }

  lemma BeginBound(e: Setting, s: State, step: Step, bound: int)
    requires step.Begin? && WellFormed(e, s) && Enabled(e, s, step) && Load(e, s) <= bound
    ensures Load(e, Next(e, s, step)) <= bound
  {
    hide L.KnownCount, L.Known;
    var next := Next(e, s, step);
    if s.current.None? {
      assert e.Pending(Recorded(next)) == {};
      forall id | id in next.calls ensures !Comes(e, next.current, next.calls[id]) {
        assert id in s.calls ==> Holds(e, s, s.calls[id]);
      }
      assert Coming(e, next) == {};
    } else {
      assert Coming(e, next) == Coming(e, s);
    }
  }

  /** An unknown address is looked at: one more call may be on its way to store. */
  lemma LookAtNewBound(e: Setting, s: State, id: int, bound: int, most: nat)
    requires WellFormed(e, s) && Enabled(e, s, Look(id)) && Load(e, s) <= bound
    requires |s.calls| <= most && Bounds(e, bound, most)
    requires s.calls[id].ip !in At(s.records, s.calls[id].record) && !e.Knows(s.calls[id].ip)
    ensures Load(e, Next(e, s, Look(id))) <= bound
  {
    hide L.KnownCount, L.Known, L.Pending, Coming, At;
    assert Holds(e, s, s.calls[id]);
    var next := Next(e, s, Look(id));
    CallGoesOn(e, s, next, id, next.calls[id]);
    OthersComing(e, s, id);
  }

  lemma OthersComing(e: Setting, s: State, id: int)
    requires id in s.calls && s.calls[id].Began?
    ensures |Coming(e, s)| < |s.calls|
  {
    assert |s.calls.Keys - {id}| == |s.calls| - 1;
    SubsetSize(Coming(e, s), s.calls.Keys - {id});
  }

  lemma LookBound(e: Setting, s: State, id: int, bound: int, most: nat)
    requires WellFormed(e, s) && Enabled(e, s, Look(id)) && Load(e, s) <= bound
    requires |s.calls| <= most && Bounds(e, bound, most)
    ensures Load(e, Next(e, s, Look(id))) <= bound
  {
    hide L.KnownCount, L.Known, L.Pending;
    var c := s.calls[id];
    if c.ip in At(s.records, c.record) || e.Knows(c.ip) {
      assert Holds(e, s, c);
      KnownNotPending(e, At(s.records, c.record), c.ip);
      CallLeaves(e, s, id);
    } else {
      LookAtNewBound(e, s, id, bound, most);
    }
  }

  lemma CallLeaves(e: Setting, s: State, id: int)
    requires id in s.calls
    ensures var next := s.(calls := s.calls - {id});
            Coming(e, next) == Coming(e, s) - if Comes(e, s.current, s.calls[id]) then {id} else {}
  {
    hide Comes;
  }

  lemma KnownNotPending(e: Setting, ips: L.AddressMap, ip: string)
    ensures e.Knows(ip) ==> e.Pending(ips[ip := e.uid]) == e.Pending(ips)
    ensures e.Pending(ips[ip := e.uid]) <= e.Pending(ips) + {ip}
  {
    hide L.Known;
  }

  /** One call goes on while the current record stays the same. */
  lemma CallGoesOn(e: Setting, s: State, next: State, id: int, c: Call)
    requires id in s.calls && next.current == s.current && next.calls == s.calls[id := c]
    ensures |Coming(e, next)| + (if Comes(e, s.current, s.calls[id]) then 1 else 0) ==
            |Coming(e, s)| + if Comes(e, s.current, c) then 1 else 0
  {
    hide Comes;
    OneApart(Coming(e, s), Coming(e, next), id);
  }

  lemma OneApart(a: set<int>, b: set<int>, x: int)
    requires a - {x} == b - {x}
    ensures |b| + (if x in a then 1 else 0) == |a| + if x in b then 1 else 0
  {
    assert a == (a - {x}) + if x in a then {x} else {};
    assert b == (b - {x}) + if x in b then {x} else {};
  }

  lemma VictimGone(e: Setting, s: State, id: int, victim: string)
    requires WellFormed(e, s) && Enabled(e, s, GiveUp(id, Some(victim)))
    ensures var next := Next(e, s, GiveUp(id, Some(victim)));
            |e.Pending(Recorded(next))| ==
            |e.Pending(Recorded(s))| - if s.current == Some(s.calls[id].record) then 1 else 0
  {
    hide L.KnownCount, L.Known, L.Pending;
    L.PendingWithout(At(s.records, s.calls[id].record), e.old_, e.alive, e.uid, e.now, victim);
  }

  lemma GiveUpBound(e: Setting, s: State, id: int, victim: Option<string>, bound: int)
    requires WellFormed(e, s) && Enabled(e, s, GiveUp(id, victim)) && Load(e, s) <= bound
    ensures Load(e, Next(e, s, GiveUp(id, victim))) <= bound
  {
    hide L.KnownCount, L.Known, L.Pending, Coming;
    var next := Next(e, s, GiveUp(id, victim));
    assert Holds(e, s, s.calls[id]);
    CallGoesOn(e, s, next, id, next.calls[id]);
    if victim.Some? {
      VictimGone(e, s, id, victim.value);
    }
  }

  lemma StoreBound(e: Setting, s: State, id: int, bound: int)
    requires WellFormed(e, s) && Enabled(e, s, Store(id)) && Load(e, s) <= bound
    ensures Load(e, Next(e, s, Store(id))) <= bound
  {
    hide L.KnownCount, L.Known, L.Pending;
    var c, next := s.calls[id], Next(e, s, Store(id));
    assert Holds(e, s, c);
    KnownNotPending(e, At(s.records, c.record), c.ip);
    assert Coming(e, next) == Coming(e, s) - {id};
    if Comes(e, s.current, c) {
      SubsetSize(e.Pending(At(s.records, c.record)[c.ip := e.uid]), e.Pending(At(s.records, c.record)) + {c.ip});
    }
  }

  lemma TakeBackBound(e: Setting, s: State, id: int, bound: int)
    requires WellFormed(e, s) && Enabled(e, s, TakeBack(id)) && Load(e, s) <= bound
    ensures Load(e, Next(e, s, TakeBack(id))) <= bound
  {
    hide L.KnownCount, L.Known;
    var next := Next(e, s, TakeBack(id));
    if s.calls[id].created {
      assert forall id <- next.calls :: !Comes(e, None, next.calls[id]);
      assert e.Pending(Recorded(next)) == {};
    } else {
      assert Coming(e, next) == Coming(e, s);
    }
  }

  lemma StepBound(e: Setting, s: State, step: Step, bound: int, most: nat)
    requires WellFormed(e, s) && Enabled(e, s, step) && Load(e, s) <= bound
    requires |s.calls| <= most && Bounds(e, bound, most)
    ensures Load(e, Next(e, s, step)) <= bound
  {
    hide WellFormed, Load, Next, Enabled, Bounds;
    match step
    case Begin(_, _, _, _) => BeginBound(e, s, step, bound);
    case Look(id) => LookBound(e, s, id, bound, most);
    case GiveUp(id, victim) => GiveUpBound(e, s, id, victim, bound);
    case Store(id) => StoreBound(e, s, id, bound);
    case TakeBack(id) => TakeBackBound(e, s, id, bound);
  }

  lemma {:induction false} RunLoad(e: Setting, states: seq<State>, steps: seq<Step>, bound: int, most: nat, n: nat)
    requires Trace(e, states, steps) && n < |states| && WellFormed(e, states[0]) && Load(e, states[0]) <= bound
    requires (forall i | 0 <= i < |states| :: |states[i].calls| <= most) && Bounds(e, bound, most)
    ensures WellFormed(e, states[n]) && Load(e, states[n]) <= bound
  {
    hide Next, Enabled, WellFormed, Load, Bounds;
    if n > 0 {
      RunLoad(e, states, steps, bound, most, n - 1);
      assert Leads(e, states[n - 1], steps[n - 1], states[n - 1 + 1]);
      StepKeepsForm(e, states[n - 1], steps[n - 1]);
      StepBound(e, states[n - 1], steps[n - 1], bound, most);
    }
  }

  /**
   With never more than `most` calls at once, known and pending addresses together pass the limit by
   at most one less than that, and by one more if a tracked UDP source may roam, under every
   interleaving; unless they were above that already, and then they do not grow.
   */
  lemma LimitUnderRaces(e: Setting, states: seq<State>, steps: seq<Step>, most: nat, n: nat)
    requires Trace(e, states, steps) && n < |states|
    requires WellFormed(e, states[0]) && states[0].calls == map[] && e.limit > 0
    requires forall i | 0 <= i < |states| :: |states[i].calls| <= most
    ensures var before := e.Known() + |e.Pending(Recorded(states[0]))|;
            var after := e.Known() + |e.Pending(Recorded(states[n]))|;
            after <= before || after <= e.limit + most - 1 + e.Roaming()
    ensures var before := L.Devices(Recorded(states[0]), e.old_, e.alive, e.uid, e.now);
            var after := L.Devices(Recorded(states[n]), e.old_, e.alive, e.uid, e.now);
            after <= before || after <= e.limit + most - 1
                + if e.tracksUDP && L.Acknowledged(e.old_, e.alive, e.uid, e.now) > 0 then 1 else 0
  {
    DevicesAre(e, states[0]);
    DevicesAre(e, states[n]);
    hide L.KnownCount, L.Known, L.Pending, L.Acknowledged;
    assert Coming(e, states[0]) == {};
    var start, room := Load(e, states[0]), e.limit + most - 1 + e.Roaming() - e.Known();
    RunLoad(e, states, steps, if start < room then room else start, most, n);
  }

  lemma DevicesAre(e: Setting, s: State)
    ensures L.Devices(Recorded(s), e.old_, e.alive, e.uid, e.now) == e.Known() + |e.Pending(Recorded(s))|
    ensures L.Acknowledged(e.old_, e.alive, e.uid, e.now) == e.Known()
  {
    L.CountedOut(Recorded(s), e.old_, e.alive, e.uid, "", e.now);
    hide L.KnownCount, L.Known, L.Pending, L.Acknowledged, L.Unreported;
  }

  // ---------- the bound is met ----------

  /** The record with some addresses more. */
  function With(ips: L.AddressMap, more: seq<string>, uid: int): L.AddressMap {
    if more == [] then ips else With(ips, more[..|more| - 1], uid)[more[|more| - 1] := uid]
  }

  predicate AllNew(e: Setting, ips: L.AddressMap, more: seq<string>) {
    && (forall i | 0 <= i < |more| :: more[i] !in ips && !e.Knows(more[i]))
    && forall i, j | 0 <= i < j < |more| :: more[i] != more[j]
  }

  lemma {:induction false} WithPending(e: Setting, ips: L.AddressMap, more: seq<string>)
    requires AllNew(e, ips, more)
    ensures |e.Pending(With(ips, more, e.uid))| == |e.Pending(ips)| + |more|
    ensures forall ip :: ip in With(ips, more, e.uid) <==> ip in ips || ip in more
  {
    hide L.KnownCount, L.Known, L.Pending;
    if more != [] {
      var n := |more| - 1;
      WithPending(e, ips, more[..n]);
      assert more == more[..n] + [more[n]];
      L.PendingWith(With(ips, more[..n], e.uid), e.old_, e.alive, e.uid, e.now, more[n]);
    }
  }

  /** Calls `stored` to `begun - 1` are under way, those below `looked` on their way to store. */
  function Crowd(e: Setting, s: State, more: seq<string>, begun: nat, looked: nat, stored: nat): State
    requires s.current.Some? && stored <= begun <= |more|
  {
    var record := s.current.value;
    var calls := map i: int | stored <= i < begun ::
                   if i < looked then Passing(more[i], record) else Began(more[i], false, record, false);
    State(s.current, s.records[record := With(At(s.records, record), more[..stored], e.uid)], calls)
  }

  function CrowdState(e: Setting, s: State, more: seq<string>, i: nat): State
    requires s.current.Some? && i <= 3 * |more|
  {
    var n := |more|;
    if i <= n then Crowd(e, s, more, i, 0, 0)
    else if i <= 2 * n then Crowd(e, s, more, n, i - n, 0)
    else Crowd(e, s, more, n, n, i - 2 * n)
  }

  function CrowdStep(more: seq<string>, i: nat): Step
    requires i < 3 * |more|
  {
    var n := |more|;
    if i < n then Begin(i, more[i], false, 0) else if i < 2 * n then Look(i - n) else Store(i - 2 * n)
  }

  lemma CrowdBegins(e: Setting, s: State, more: seq<string>, i: nat)
    requires s.current.Some? && i < |more|
    ensures Leads(e, Crowd(e, s, more, i, 0, 0), Begin(i, more[i], false, 0), Crowd(e, s, more, i + 1, 0, 0))
  {
    hide L.KnownCount, L.Known, L.Pending, Leads, With, At;
    var was, next := Crowd(e, s, more, i, 0, 0), Crowd(e, s, more, i + 1, 0, 0);
    Begins(e, was, i, more[i], 0);
    assert next.calls == was.calls[i := Began(more[i], false, s.current.value, false)];
  }

  lemma CrowdLooks(e: Setting, s: State, more: seq<string>, i: nat)
    requires s.current.Some? && i < |more| && e.limit > 0 && more[i] !in Recorded(s) && !e.Knows(more[i])
    requires e.Known() + |e.Pending(Recorded(s))| < e.limit
    ensures Leads(e, Crowd(e, s, more, |more|, i, 0), Look(i), Crowd(e, s, more, |more|, i + 1, 0))
  {
    hide L.KnownCount, L.Known, L.Pending, Leads;
    var was, next := Crowd(e, s, more, |more|, i, 0), Crowd(e, s, more, |more|, i + 1, 0);
    assert Recorded(was) == Recorded(s);
    LooksAtUnknown(e, was, i);
    assert next.calls == was.calls[i := Passing(more[i], s.current.value)];
  }

  lemma CrowdStores(e: Setting, s: State, more: seq<string>, i: nat)
    requires s.current.Some? && i < |more|
    ensures Leads(e, Crowd(e, s, more, |more|, |more|, i), Store(i), Crowd(e, s, more, |more|, |more|, i + 1))
  {
    hide L.KnownCount, L.Known, L.Pending, Leads;
    var record := s.current.value;
    var ips := At(s.records, record);
    var was, next := Crowd(e, s, more, |more|, |more|, i), Crowd(e, s, more, |more|, |more|, i + 1);
    Stores(e, was, i);
    assert more[..i + 1][..i] == more[..i];
    hide With;
    assert next.calls == was.calls - {i};
    assert At(was.records, record) == With(ips, more[..i], e.uid);
    assert next.records == was.records[record := With(ips, more[..i + 1], e.uid)];
  }

  lemma CrowdLeads(e: Setting, s: State, more: seq<string>, i: nat)
    requires s.current.Some? && i < 3 * |more| && e.limit > 0 && AllNew(e, Recorded(s), more)
    requires e.Known() + |e.Pending(Recorded(s))| < e.limit
    ensures Leads(e, CrowdState(e, s, more, i), CrowdStep(more, i), CrowdState(e, s, more, i + 1))
  {
    hide L.KnownCount, L.Known, L.Pending, Leads, Crowd, At;
    var n := |more|;
    if i < n {
      CrowdBegins(e, s, more, i);
    } else if i < 2 * n {
      CrowdLooks(e, s, more, i - n);
    } else {
      CrowdStores(e, s, more, i - 2 * n);
    }
  }

  lemma CrowdSize(e: Setting, s: State, more: seq<string>, i: nat)
    requires s.current.Some? && i <= 3 * |more|
    ensures |CrowdState(e, s, more, i).calls| <= |more|
  {
    hide With;
    var calls := CrowdState(e, s, more, i).calls;
    SubsetSize(calls.Keys, Below(|more|));
  }

  function Below(n: nat): (ids: set<int>)
    ensures |ids| == n && forall id :: id in ids <==> 0 <= id < n
  {
    if n == 0 then {} else Below(n - 1) + {n - 1}
  }

  /** The bound is met by any number of calls: when one address is left, all that arrive at once can be let in. */
  lemma ManyAtOnce(e: Setting, s: State, more: seq<string>) returns (states: seq<State>, steps: seq<Step>)
    requires WellFormed(e, s) && s.calls == map[] && s.current.Some? && !e.tracksUDP && more != []
    requires e.limit > 0 && e.Known() + |e.Pending(Recorded(s))| == e.limit - 1 && AllNew(e, Recorded(s), more)
    ensures Trace(e, states, steps) && states[0] == s && states[|steps|].calls == map[]
    ensures forall i | 0 <= i < |states| :: |states[i].calls| <= |more|
    ensures e.Known() + |e.Pending(Recorded(states[|steps|]))| == e.limit + |more| - 1 + e.Roaming()
    ensures L.Devices(Recorded(states[|steps|]), e.old_, e.alive, e.uid, e.now) == e.limit + |more| - 1
  {
    hide L.KnownCount, L.Known, L.Pending, Leads, CrowdState, CrowdStep, AllNew, L.Devices;
    var n := 3 * |more|;
    states := seq(n + 1, i requires 0 <= i <= n => CrowdState(e, s, more, i));
    steps := seq(n, i requires 0 <= i < n => CrowdStep(more, i));
    forall i | 0 <= i < n ensures Leads(e, states[i], steps[i], states[i + 1]) {
      CrowdLeads(e, s, more, i);
    }
    forall i | 0 <= i <= n ensures |states[i].calls| <= |more| {
      CrowdSize(e, s, more, i);
    }
    CrowdEnds(e, s, more);
    WithPending(e, Recorded(s), more);
    DevicesAre(e, states[|steps|]);
  }

  lemma CrowdEnds(e: Setting, s: State, more: seq<string>)
    requires WellFormed(e, s) && s.calls == map[] && s.current.Some? && more != []
    ensures CrowdState(e, s, more, 0) == s
    ensures var last := CrowdState(e, s, more, 3 * |more|);
            last.calls == map[] && Recorded(last) == With(Recorded(s), more, e.uid)
  {
    assert more[..0] == [] && more[..|more|] == more;
    var record := s.current.value;
    assert s.records[record := s.records[record]] == s.records;
  }

  lemma Updated(records: map<nat, L.AddressMap>, record: nat, ips: L.AddressMap, ips': L.AddressMap)
    ensures At(records[record := ips], record) == ips && At(records[record := ips'], record) == ips'
  {}

  lemma Begins(e: Setting, s: State, id: int, ip: string, unused: nat)
    requires id !in s.calls && (s.current.None? ==> unused !in s.records)
    ensures var next := if s.current.Some? then s.(calls := s.calls[id := Began(ip, false, s.current.value, false)])
                        else State(Some(unused), s.records[unused := map[]],
                                   s.calls[id := Began(ip, false, unused, true)]);
            Leads(e, s, Begin(id, ip, false, unused), next)
  {}

  lemma LooksAtUnknown(e: Setting, s: State, id: int)
    requires id in s.calls && s.calls[id].Began? && !s.calls[id].udp && e.limit > 0
    requires s.calls[id].ip !in At(s.records, s.calls[id].record) && !e.Knows(s.calls[id].ip)
    ensures var c := s.calls[id];
            var passes := e.Known() + |e.Pending(Recorded(s))| < e.limit;
            var next := if passes then Passing(c.ip, c.record) else Refused(c.created);
            Leads(e, s, Look(id), s.(calls := s.calls[id := next]))
  {
    hide L.KnownCount, L.Known, L.Pending;
  }

  lemma Stores(e: Setting, s: State, id: int)
    requires id in s.calls && s.calls[id].Passing?
    ensures var c := s.calls[id];
            var records := s.records[c.record := At(s.records, c.record)[c.ip := e.uid]];
            Leads(e, s, Store(id), s.(records := records, calls := s.calls - {id}))
  {
    hide L.KnownCount, L.Known, L.Pending;
  }

  lemma TakesBack(e: Setting, s: State, id: int)
    requires id in s.calls && s.calls[id] == Refused(true)
    ensures Leads(e, s, TakeBack(id), State(None, s.records, s.calls - {id}))
  {}

  // ---------- one call alone ----------

  /** A call that meets no other: the state after it, whether it is refused, and the address given up. */
  function Alone(e: Setting, s: State, ip: string, udp: bool, unused: nat, victim: Option<string>)
    : (State, bool, Option<string>)
    requires s.calls == map[] && Enabled(e, s, Begin(0, ip, udp, unused))
    requires AloneVictim(e, s, ip, udp, unused, victim)
  {
    var looked := Next(e, Next(e, s, Begin(0, ip, udp, unused)), Look(0));
    if 0 !in looked.calls then (looked, false, None)
    else
      var full := looked.calls[0].Full?;
      var decided := if full then Next(e, looked, GiveUp(0, victim)) else looked;
      var refused := decided.calls[0].Refused?;
      (Next(e, decided, if refused then TakeBack(0) else Store(0)), refused, if full then victim else None)
  }

  /** The address to give up is one that can be, if it comes to that. */
  predicate AloneVictim(e: Setting, s: State, ip: string, udp: bool, unused: nat, victim: Option<string>)
    requires s.calls == map[] && Enabled(e, s, Begin(0, ip, udp, unused))
  {
    var looked := Next(e, Next(e, s, Begin(0, ip, udp, unused)), Look(0));
    0 in looked.calls && looked.calls[0].Full? ==> Enabled(e, looked, GiveUp(0, victim))
  }

  /** The steps of a call that meets no other make the decision that is made in one go. */
  lemma AloneDecides(e: Setting, s: State, ip: string, udp: bool, unused: nat, victim: Option<string>)
    requires s.calls == map[] && Enabled(e, s, Begin(0, ip, udp, unused)) && WellFormed(e, s)
    requires AloneVictim(e, s, ip, udp, unused, victim)
    ensures var (after, refused, dropped) := Alone(e, s, ip, udp, unused, victim);
            L.Decides(Recorded(s), Recorded(after), e.old_, e.alive, e.uid, ip, e.limit, udp, e.now, refused, dropped)
  {
    AloneLooks(e, s, ip, udp, unused);
    L.EmptyNotPending(e.old_, e.alive, e.uid, e.now);
    hide L.KnownCount, L.Known, L.Pending, Looked;
  }

  /** What a call that meets no other finds, and what it makes of it. */
  lemma AloneLooks(e: Setting, s: State, ip: string, udp: bool, unused: nat)
    requires s.calls == map[] && Enabled(e, s, Begin(0, ip, udp, unused)) && WellFormed(e, s)
    ensures var began := Next(e, s, Begin(0, ip, udp, unused));
            var looked, ips := Next(e, began, Look(0)), Recorded(s);
            && looked.current.Some? && looked.current == began.current && Recorded(began) == ips
            && looked.current.value in looked.records
            && (if ip in ips then Recorded(looked) == ips && looked.calls == map[]
                else if e.Knows(ip) || e.limit <= 0 then Recorded(looked) == ips[ip := e.uid] && looked.calls == map[]
                else
                  && Recorded(looked) == ips && looked.calls.Keys == {0}
                  && looked.calls[0] == Looked(e, began, Began(ip, udp, looked.current.value, s.current.None?)))
  {
    hide L.KnownCount, L.Known, L.Pending, Looked;
  }

  // ---------- taking a record back ----------

  /** The addresses of calls that stored in a record during a run, and that no call gave up since. */
  function Content(e: Setting, states: seq<State>, steps: seq<Step>, n: nat, record: nat): set<string>
    requires n <= |steps| < |states|
  {
    if n == 0 then {} else Kept(e, states[n - 1], steps[n - 1], record, Content(e, states, steps, n - 1, record))
  }

  /** Without a limit an address is stored as soon as it is looked at. */
  function Kept(e: Setting, s: State, step: Step, record: nat, content: set<string>): set<string> {
    match step
    case Look(id) =>
      if id in s.calls && s.calls[id].Began? && s.calls[id].record == record && e.limit <= 0
         && s.calls[id].ip !in At(s.records, record) && !e.Knows(s.calls[id].ip)
      then content + {s.calls[id].ip} else content
    case Store(id) =>
      if id in s.calls && s.calls[id].Passing? && s.calls[id].record == record then content + {s.calls[id].ip}
          else content
    case GiveUp(id, victim) =>
      if id in s.calls && s.calls[id].Full? && s.calls[id].record == record && victim.Some?
          then content - {victim.value}
      else content
    case _ => content
  }

  lemma StepKeepsContent(e: Setting, s: State, step: Step, record: nat)
    requires WellFormed(e, s) && Enabled(e, s, step)
    ensures e.Pending(At(Next(e, s, step).records, record))
            == Kept(e, s, step, record, e.Pending(At(s.records, record)))
  {
    hide L.KnownCount, L.Known, L.Pending;
    match step
    case Begin(_, _, _, unused) => L.EmptyNotPending(e.old_, e.alive, e.uid, e.now);
    case Look(id) =>
      KnownNotPending(e, At(s.records, s.calls[id].record), s.calls[id].ip);
      if !e.Knows(s.calls[id].ip) {
        StoredPending(e, At(s.records, s.calls[id].record), s.calls[id].ip);
      }
    case GiveUp(id, victim) =>
      if victim.Some? {
        L.PendingWithout(At(s.records, s.calls[id].record), e.old_, e.alive, e.uid, e.now, victim.value);
      }
    case Store(id) =>
      assert Holds(e, s, s.calls[id]);
      StoredPending(e, At(s.records, s.calls[id].record), s.calls[id].ip);
    case TakeBack(_) =>
  }

  lemma StoredPending(e: Setting, ips: L.AddressMap, ip: string)
    requires !e.Knows(ip)
    ensures e.Pending(ips[ip := e.uid]) == e.Pending(ips) + {ip}
  {
    hide L.Known;
  }

  /** The pending addresses of a record made during a run are its content. */
  lemma {:induction false} RecordContent(e: Setting, states: seq<State>, steps: seq<Step>, n: nat, record: nat)
    requires Trace(e, states, steps) && n < |states| && WellFormed(e, states[0]) && states[0].calls == map[]
    requires record !in states[0].records
    ensures WellFormed(e, states[n]) && e.Pending(At(states[n].records, record)) == Content(e, states, steps, n, record)
  {
    L.EmptyNotPending(e.old_, e.alive, e.uid, e.now);
    hide Next, Enabled, WellFormed, L.KnownCount, L.Known, L.Pending, Kept;
    if n > 0 {
      RecordContent(e, states, steps, n - 1, record);
      assert Leads(e, states[n - 1], steps[n - 1], states[n - 1 + 1]);
      StepKeepsForm(e, states[n - 1], steps[n - 1]);
      StepKeepsContent(e, states[n - 1], steps[n - 1], record);
    }
  }

  /** The call made the current record and has not been let in. */
  predicate Makes(c: Call) { !c.Passing? && c.created }

  /**
   A call that made a record is the only one under way that did, and its record is the current one,
   made in the run.
   */
  predicate OneMaker(s: State, old_: set<nat>) {
    && (forall id <- s.calls :: Makes(s.calls[id]) ==> s.current.Some? && s.current.value !in old_)
    && (forall id, id' | id in s.calls && id' in s.calls && Makes(s.calls[id]) && Makes(s.calls[id']) :: id == id')
  }

  lemma StepKeepsMaker(e: Setting, s: State, step: Step, old_: set<nat>)
    requires OneMaker(s, old_) && Enabled(e, s, step) && old_ <= s.records.Keys
    ensures OneMaker(Next(e, s, step), old_) && old_ <= Next(e, s, step).records.Keys
  {
    hide L.KnownCount, L.Known, L.Pending;
    var next := Next(e, s, step);
    forall id | id in next.calls && Makes(next.calls[id]) ensures next.current.Some? && next.current.value !in old_ {
      assert id in s.calls ==> (Makes(next.calls[id]) ==> Makes(s.calls[id]));
    }
  }

  lemma {:induction false} RunKeepsMaker(e: Setting, states: seq<State>, steps: seq<Step>, n: nat)
    requires Trace(e, states, steps) && n < |states| && states[0].calls == map[]
    ensures OneMaker(states[n], states[0].records.Keys) && states[0].records.Keys <= states[n].records.Keys
  {
    hide Next, Enabled;
    if n > 0 {
      RunKeepsMaker(e, states, steps, n - 1);
      assert Leads(e, states[n - 1], steps[n - 1], states[n - 1 + 1]);
      StepKeepsMaker(e, states[n - 1], steps[n - 1], states[0].records.Keys);
    }
  }

  /** A refused call takes back the record that it made. */
  predicate TakesRecordBack(s: State, step: Step) {
    step.TakeBack? && step.id in s.calls && s.calls[step.id] == Refused(true)
  }

  /** A call gives up an address of the current record. */
  predicate GivesUpCurrent(s: State, step: Step) {
    && step.GiveUp? && step.victim.Some? && step.id in s.calls && s.calls[step.id].Full?
    && s.current == Some(s.calls[step.id].record)
  }

  /**
   Over a run, pending addresses of the user are lost exactly when one is given up, or when a refused
   call takes back the record that it made after another call stored in it. Then all of these are lost.
   */
  lemma TakeBackForgets(e: Setting, states: seq<State>, steps: seq<Step>, i: nat)
    requires Trace(e, states, steps) && i < |steps| && WellFormed(e, states[0]) && states[0].calls == map[]
    ensures var s, next := states[i], states[i + 1];
            !(e.Pending(Recorded(s)) <= e.Pending(Recorded(next))) <==>
            || GivesUpCurrent(s, steps[i])
            || (TakesRecordBack(s, steps[i]) && s.current.Some? && Content(e, states, steps, i, s.current.value) != {})
    ensures TakesRecordBack(states[i], steps[i]) ==>
              && states[i].current.Some? && Recorded(states[i + 1]) == map[]
              && e.Pending(Recorded(states[i])) == Content(e, states, steps, i, states[i].current.value)
  {
    var s, step := states[i], steps[i];
    assert Leads(e, s, step, states[i + 1]);
    RunKeepsMaker(e, states, steps, i);
    RunKeepsForm(e, states, steps, i);
    if TakesRecordBack(s, step) {
      assert Makes(s.calls[step.id]);
      RecordContent(e, states, steps, i, s.current.value);
    }
    LostInStep(e, s, step);
    hide L.KnownCount, L.Known, L.Pending, Trace, WellFormed, OneMaker;
  }

  lemma {:induction false} RunKeepsForm(e: Setting, states: seq<State>, steps: seq<Step>, n: nat)
    requires Trace(e, states, steps) && n < |states| && WellFormed(e, states[0])
    ensures WellFormed(e, states[n])
  {
    hide Next, Enabled, WellFormed;
    if n > 0 {
      RunKeepsForm(e, states, steps, n - 1);
      assert Leads(e, states[n - 1], steps[n - 1], states[n - 1 + 1]);
      StepKeepsForm(e, states[n - 1], steps[n - 1]);
    }
  }

  lemma LostInStep(e: Setting, s: State, step: Step)
    requires WellFormed(e, s) && Enabled(e, s, step)
    ensures !(e.Pending(Recorded(s)) <= e.Pending(Recorded(Next(e, s, step)))) <==>
            GivesUpCurrent(s, step) || (TakesRecordBack(s, step) && e.Pending(Recorded(s)) != {})
    ensures TakesRecordBack(s, step) ==> Recorded(Next(e, s, step)) == map[]
  {
    L.EmptyNotPending(e.old_, e.alive, e.uid, e.now);
    hide L.KnownCount, L.Known, L.Pending;
    if s.current.Some? {
      StepKeepsContent(e, s, step, s.current.value);
    }
  }

  // ---------- who is let in ----------

  /** The address of a call that is let in by a step. */
  function Enters(s: State, step: Step): set<string> {
    if step.Store? && step.id in s.calls && s.calls[step.id].Passing? then {s.calls[step.id].ip} else {}
  }

  /** The unknown addresses that a run lets in. */
  function LetIn(states: seq<State>, steps: seq<Step>): set<string>
    requires |steps| <= |states|
  {
    set i, ip | 0 <= i < |steps| && ip in Enters(states[i], steps[i]) :: ip
  }

  predicate HoldsRecord(c: Call, record: nat) { !c.Refused? && c.record == record }

  /** A refused call takes back the record that it made while others hold it or have stored in it. */
  predicate TakesFromOthers(e: Setting, s: State, step: Step) {
    && TakesRecordBack(s, step)
    && (e.Pending(Recorded(s)) != {} || exists id <- s.calls ::
        s.current.Some? && HoldsRecord(s.calls[id], s.current.value))
  }

  /** Every call under way holds the current record. */
  predicate AllCurrent(s: State) {
    forall id <- s.calls :: !s.calls[id].Refused? ==> s.current == Some(s.calls[id].record)
  }

  lemma StepKeepsTracked(e: Setting, s: State, step: Step)
    requires WellFormed(e, s) && Enabled(e, s, step) && AllCurrent(s) && !TakesFromOthers(e, s, step) && !e.tracksUDP
    requires TakesRecordBack(s, step) ==> s.current.Some?
    ensures AllCurrent(Next(e, s, step)) && e.Pending(Recorded(s)) <= e.Pending(Recorded(Next(e, s, step)))
    ensures Enters(s, step) <= e.Pending(Recorded(Next(e, s, step)))
  {
    LostInStep(e, s, step);
    hide L.KnownCount, L.Known, L.Pending;
    assert forall id <- s.calls :: Holds(e, s, s.calls[id]) && !s.calls[id].Full?;
    if Enters(s, step) != {} {
      assert Holds(e, s, s.calls[step.id]);
      StoredPending(e, Recorded(s), s.calls[step.id].ip);
    }
    var next := Next(e, s, step);
    forall id | id in next.calls && !next.calls[id].Refused? ensures next.current == Some(next.calls[id].record) {
      if id in s.calls && !step.Begin? {
        assert !s.calls[id].Refused? && HoldsRecord(s.calls[id], next.calls[id].record);
      }
    }
  }

  /**
   Without UDP sources, and when no refused call takes back a record that others hold or have stored
   in, every address that is let in stays recorded. So the bound is one on who is let in as well.
   */
  lemma {:induction false} LetInTracked(e: Setting, states: seq<State>, steps: seq<Step>, n: nat)
    requires Trace(e, states, steps) && n < |states| && WellFormed(e, states[0]) && states[0].calls == map[]
             && !e.tracksUDP
    requires forall i | 0 <= i < n :: !TakesFromOthers(e, states[i], steps[i])
    ensures LetIn(states[..n + 1], steps[..n]) + e.Pending(Recorded(states[0])) <= e.Pending(Recorded(states[n]))
    ensures AllCurrent(states[n])
  {
    hide Next, Enabled, WellFormed, TakesFromOthers, AllCurrent, Enters, LetIn, L.KnownCount, L.Known, L.Pending;
    if n > 0 {
      LetInTracked(e, states, steps, n - 1);
      assert Leads(e, states[n - 1], steps[n - 1], states[n - 1 + 1]);
      RunKeepsForm(e, states, steps, n - 1);
      RunKeepsMaker(e, states, steps, n - 1);
      StepKeepsTracked(e, states[n - 1], steps[n - 1]);
      LetInStep(states, steps, n - 1);
    } else {
      NoneLetIn(states, steps);
      assert AllCurrent(states[0]) by { NoCallsCurrent(states[0]); }
    }
  }

  lemma NoneLetIn(states: seq<State>, steps: seq<Step>)
    requires |states| > 0
    ensures LetIn(states[..1], steps[..0]) == {}
  {}

  lemma NoCallsCurrent(s: State)
    requires s.calls == map[]
    ensures AllCurrent(s)
  {}

  lemma LetInStep(states: seq<State>, steps: seq<Step>, n: nat)
    requires n < |steps| < |states|
    ensures LetIn(states[..n + 2], steps[..n + 1]) ==
            LetIn(states[..n + 1], steps[..n]) + Enters(states[n], steps[n])
  {
    hide Enters;
    var before, after := LetIn(states[..n + 1], steps[..n]), LetIn(states[..n + 2], steps[..n + 1]);
    assert forall i | 0 <= i < n ::
        states[..n + 2][i] == states[..n + 1][i] && steps[..n + 1][i] == steps[..n][i];
    forall ip | ip in before ensures ip in after {
      var i :| 0 <= i < n && ip in Enters(states[..n + 1][i], steps[..n][i]);
      assert ip in Enters(states[..n + 2][i], steps[..n + 1][i]);
    }
    assert states[..n + 2][n] == states[n] && steps[..n + 1][n] == steps[n];
  }

  lemma LetInBound(e: Setting, states: seq<State>, steps: seq<Step>, most: nat, n: nat)
    requires Trace(e, states, steps) && n < |states| && WellFormed(e, states[0]) && states[0].calls == map[]
    requires !e.tracksUDP && e.limit > 0 && forall i | 0 <= i < |states| :: |states[i].calls| <= most
    requires forall i | 0 <= i < n :: !TakesFromOthers(e, states[i], steps[i])
    ensures var all := LetIn(states[..n + 1], steps[..n]) + e.Pending(Recorded(states[0]));
            all == e.Pending(Recorded(states[0])) || e.Known() + |all| <= e.limit + most - 1
  {
    TraceLength(e, states, steps);
    hide L.KnownCount, L.Known, L.Pending, Trace, WellFormed, LetIn, TakesFromOthers, AllCurrent;
    LetInTracked(e, states, steps, n);
    LimitUnderRaces(e, states, steps, most, n);
    var all, before := LetIn(states[..n + 1], steps[..n]) + e.Pending(Recorded(states[0])),
        e.Pending(Recorded(states[0]));
    SubsetSize(all, e.Pending(Recorded(states[n])));
    if e.Known() + |all| <= e.Known() + |before| {
      SubsetSame(before, all);
    }
  }

  /**
   That happens: the first two addresses of a user arrive at once when one is left. The one that
   made the record is refused, and takes it back with the address of the other, so that one more
   would be let in.
   */
  lemma RefusedCallForgets(e: Setting, s: State, unused: nat, a: string, b: string)
    returns (states: seq<State>, steps: seq<Step>)
    requires s.calls == map[] && s.current.None? && unused !in s.records
    requires e.limit > 0 && e.Known() == e.limit - 1 && a != b && !e.Knows(a) && !e.Knows(b)
    ensures Trace(e, states, steps) && |steps| == 6 && states[0] == s && forall i | 0 <= i < 7 :: |states[i].calls| <= 2
    ensures b in e.Pending(Recorded(states[4])) && states[5].calls == map[0 := Refused(true)]
    ensures Recorded(states[6]) == map[] && e.Passes(false, |e.Pending(Recorded(states[6]))|)
    ensures b in LetIn(states, steps) && states[6] == State(None, s.records[unused := map[b := e.uid]], map[])
  {
    hide L.KnownCount, L.Known, L.Pending, At, Leads;
    var began, began' := Began(a, false, unused, true), Began(b, false, unused, false);
    var made, with := s.records[unused := map[]], s.records[unused := map[b := e.uid]];
    var s1, s2 := State(Some(unused), made, map[0 := began]), State(Some(unused), made, map[0 := began, 1 := began']);
    var s3 := State(Some(unused), made, map[0 := began, 1 := Passing(b, unused)]);
    var s4, s5 := State(Some(unused), with, map[0 := began]), State(Some(unused), with, map[0 := Refused(true)]);
    var s6 := State(None, with, map[]);
    steps := [Begin(0, a, false, unused), Begin(1, b, false, unused), Look(1), Store(1), Look(0), TakeBack(0)];
    states := [s, s1, s2, s3, s4, s5, s6];
    L.EmptyNotPending(e.old_, e.alive, e.uid, e.now);
    L.PendingWith(map[], e.old_, e.alive, e.uid, e.now, b);
    Updated(s.records, unused, map[], map[b := e.uid]);
    Begins(e, s, 0, a, unused);
    Begins(e, s1, 1, b, unused);
    LooksAtUnknown(e, s2, 1);
    Stores(e, s3, 1);
    LooksAtUnknown(e, s4, 0);
    TakesBack(e, s5, 0);
    assert s1.calls == s.calls[0 := began] && s2.calls == s1.calls[1 := began'];
    assert s3.calls == s2.calls[1 := Passing(b, unused)] && s4.calls == s3.calls - {1};
    assert s5.calls == s4.calls[0 := Refused(true)] && s6.calls == s5.calls - {0};
    assert with == made[unused := map[b := e.uid]] && map[][b := e.uid] == map[b := e.uid];
    hide LetIn;
    LetInAt(states, steps, 3, b);
  }

  lemma LetInAt(states: seq<State>, steps: seq<Step>, i: nat, ip: string)
    requires i < |steps| <= |states| && ip in Enters(states[i], steps[i])
    ensures ip in LetIn(states, steps)
  {}

  lemma JoinTraces(e: Setting, states: seq<State>, steps: seq<Step>, states': seq<State>, steps': seq<Step>)
    requires Trace(e, states, steps) && Trace(e, states', steps') && states[|steps|] == states'[0]
    ensures Trace(e, states + states'[1..], steps + steps')
    ensures LetIn(states, steps) + LetIn(states', steps') <= LetIn(states + states'[1..], steps + steps')
  {
    hide Leads, Enters;
    var allStates, allSteps := states + states'[1..], steps + steps';
    forall i | 0 <= i < |allSteps| ensures Leads(e, allStates[i], allSteps[i], allStates[i + 1]) {
      if i >= |steps| {
        var k := i - |steps|;
        assert allStates[i] == states'[k] && allStates[i + 1] == states'[k + 1] && allSteps[i] == steps'[k];
        assert Leads(e, states'[k], steps'[k], states'[k + 1]);
      } else {
        assert Leads(e, states[i], steps[i], states[i + 1]);
      }
    }
    forall ip | ip in LetIn(states', steps') ensures ip in LetIn(allStates, allSteps) {
      var k :| 0 <= k < |steps'| && ip in Enters(states'[k], steps'[k]);
      assert allStates[|steps| + k] == states'[k] && allSteps[|steps| + k] == steps'[k];
    }
    forall ip | ip in LetIn(states, steps) ensures ip in LetIn(allStates, allSteps) {
      var k :| 0 <= k < |steps| && ip in Enters(states[k], steps[k]);
      assert allStates[k] == states[k] && allSteps[k] == steps[k];
    }
  }

  /**
   So the number of addresses that are let in has no bound, with one left and never more than two
   calls at once: each round lets one more of them in, and then forgets it.
   */
  lemma {:induction false} AnyNumberLetIn(e: Setting, s: State, unused: nat, a: string, others: seq<string>)
    returns (states: seq<State>, steps: seq<Step>)
    requires s.calls == map[] && s.current.None? && forall record <- s.records :: record < unused
    requires e.limit > 0 && e.Known() == e.limit - 1 && !e.Knows(a)
    requires forall b <- others :: b != a && !e.Knows(b)
    ensures Trace(e, states, steps) && states[0] == s && forall i | 0 <= i < |states| :: |states[i].calls| <= 2
    ensures forall b <- others :: b in LetIn(states, steps)
    decreases |others|
  {
    hide L.KnownCount, L.Known, L.Pending, Leads, LetIn, Trace;
    if others == [] {
      states, steps := [s], [];
      assert Trace(e, states, steps) by { NoSteps(e, s); }
    } else {
      var first, firstSteps := RefusedCallForgets(e, s, unused, a, others[0]);
      TraceLength(e, first, firstSteps);
      var rest, restSteps := AnyNumberLetIn(e, first[6], unused + 1, a, others[1..]);
      TraceLength(e, rest, restSteps);
      JoinTraces(e, first, firstSteps, rest, restSteps);
      states, steps := first + rest[1..], firstSteps + restSteps;
    }
  }

  lemma NoSteps(e: Setting, s: State)
    ensures Trace(e, [s], [])
  {}

  lemma TraceLength(e: Setting, states: seq<State>, steps: seq<Step>)
    requires Trace(e, states, steps)
    ensures |states| == |steps| + 1
  {}
}
