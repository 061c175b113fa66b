/**
 Traffic accounting of one node as a state machine over atomic steps: connections add bytes to
 counters at any moment, while the report task swaps counters out, delivers or rolls back, and
 users come and go.

 The counters of a tag are in a table that its first connection makes. Several connections can each
 find that there is none and make one; the last one stays, and the others keep counting in theirs.

 Byte counts are mathematical integers.
 */
module Traffic {
  import opened Results

  datatype Bytes = Bytes(up: int, down: int)

  const ZERO := Bytes(0, 0)

  function Plus(a: Bytes, b: Bytes): Bytes { Bytes(a.up + b.up, a.down + b.down) }

  /** The identity of a counter storage. */
  type Ref = nat

  /** The user each storage was made for. */
  type Owner = map<Ref, string>

  /** The storage of each user. */
  type Table = map<string, Ref>

  datatype Item = Item(user: string, ref: Ref, uid: int, bytes: Bytes)

  /** Where the report task stands. */
  datatype Pc =
    | Idle
    | Scanning
    | LoadedUp(user: string, ref: Ref, up: int)
    | LoadedBoth(user: string, ref: Ref, up: int, down: int)
    | SwappedUp(user: string, ref: Ref, up: int)
    | SwappedBoth(user: string, ref: Ref, up: int, down: int)
    | Holding
    | RollingBack

  datatype State = State(
    storage: map<Ref, Bytes>,       // the counters
    tables: map<nat, Table>,        // the tables ever made
    current: Option<nat>,           // the table in use
    misses: nat,                    // connections that found no table and have not stored theirs
    scanned: Option<nat>,           // the table of the running scan
    owner: Owner,                   // the user each storage was made for
    uids: map<string, int>,         // the user ids
    leaving: set<string>,           // users taken from uids whose counter is not yet deleted
    pc: Pc,
    minimum: int,                   // the threshold of the running scan
    visited: set<string>,           // the users the running scan has seen
    due: set<string>,               // the users it must still see: listed since it started, and not seen
    items: seq<Item>,               // what is swapped out and not yet settled
    delivered: seq<Item>,           // what reports that returned no error contained
    counted: map<Ref, Bytes>,       // everything ever counted
    dropped: map<Ref, Bytes>)       // what was swapped out for users without an id

  datatype Step =
    | MissTable
    | StoreTable(table: nat)
    | GetCounter(table: nat, user: string, ref: Ref)
    | Count(ref: Ref, bytes: Bytes)
    | Register(user: string, uid: int)
    | Unregister(user: string)
    | DeleteCounter(user: string)
    | StartScan(minimum: int)
    | LoadUp(user: string)
    | LoadDown
    | SwapUp
    | SkipUser
    | SwapDown
    | Settle
    | FinishScan
    | Deliver
    | StartRollback
    | RestoreUp
    | RestoreDown
    | FinishRollback

  function At(m: map<Ref, Bytes>, ref: Ref): Bytes { if ref in m then m[ref] else ZERO }

  function AddTo(m: map<Ref, Bytes>, ref: Ref, bytes: Bytes): map<Ref, Bytes> { m[ref := Plus(At(m, ref), bytes)] }

  function UidOf(s: State, user: string): int { if user in s.uids then s.uids[user] else 0 }

  function TableOf(s: State, table: Option<nat>): Table {
    if table.Some? && table.value in s.tables then s.tables[table.value] else map[]
  }

  function Enter(table: Table, user: string, ref: Ref): Table { table[user := ref] }

  /** The tables when a user's entry in one of them is dropped. */
  function Without(s: State, table: Option<nat>, user: string): map<nat, Table> {
    if table.Some? && table.value in s.tables then s.tables[table.value := s.tables[table.value] - {user}] else s.tables
  }

  /** The report task holds the lock that user changes need. */
  predicate HoldsLock(pc: Pc) { !(pc.Idle? || pc.Holding? || pc.RollingBack?) }

  predicate Enabled(s: State, step: Step) {
    match step
    case MissTable => s.current.None?
    case StoreTable(table) => s.misses > 0 && table !in s.tables
    case GetCounter(table, user, ref) =>
      table in s.tables && if user in s.tables[table] then ref == s.tables[table][user] else ref !in s.storage
    case Count(ref, bytes) => ref in s.storage
    case Register(user, uid) => !HoldsLock(s.pc) && user !in s.leaving
    case Unregister(user) => !HoldsLock(s.pc)
    case DeleteCounter(user) => user in s.leaving
    case StartScan(_) => s.pc.Idle?
    case LoadUp(user) => s.pc.Scanning? && user in TableOf(s, s.scanned) && user !in s.visited
    case LoadDown => s.pc.LoadedUp?
    case SwapUp => s.pc.LoadedBoth? && s.pc.up + s.pc.down > s.minimum * 1000
    case SkipUser => s.pc.LoadedBoth? && s.pc.up + s.pc.down <= s.minimum * 1000
    case SwapDown => s.pc.SwappedUp?
    case Settle => s.pc.SwappedBoth?
    case FinishScan => s.pc.Scanning? && s.due == {}
    case Deliver => s.pc.Holding?
    case StartRollback => s.pc.Holding?
    case RestoreUp => s.pc.RollingBack? && s.items != [] && s.items[0].bytes.up != 0
    case RestoreDown => s.pc.RollingBack? && s.items != [] && s.items[0].bytes.up == 0
    case FinishRollback => s.pc.RollingBack? && s.items == []
  }

  predicate ScanStep(step: Step) {
    step.StartScan? || step.LoadUp? || step.LoadDown? || step.SwapUp? || step.SkipUser? || step.SwapDown?
        || step.FinishScan?
  }

  predicate CountStep(step: Step) {
    step.MissTable? || step.StoreTable? || step.GetCounter? || step.Count? || step.Register? || step.Unregister?
        || step.DeleteCounter?
  }

  /** A step of a connection, or of a user who comes or goes. */
  function CountNext(s: State, step: Step): State
    requires Enabled(s, step) && CountStep(step)
  {
    match step
    case MissTable => s.(misses := s.misses + 1)
    case StoreTable(table) => s.(misses := s.misses - 1, tables := s.tables[table := map[]], current := Some(table))
    case GetCounter(table, user, ref) =>
      if user in s.tables[table] then s
      else s.(storage := s.storage[ref := ZERO], owner := s.owner[ref := user],
              tables := s.tables[table := Enter(s.tables[table], user, ref)])
    case Count(ref, bytes) => s.(storage := AddTo(s.storage, ref, bytes), counted := AddTo(s.counted, ref, bytes))
    case Register(user, uid) => s.(uids := s.uids[user := uid])
    case Unregister(user) => s.(uids := s.uids - {user}, leaving := s.leaving + {user})
    case DeleteCounter(user) =>
      s.(tables := Without(s, s.current, user), leaving := s.leaving - {user},
         due := if s.scanned == s.current then s.due - {user} else s.due)
    case _ => s
  }

  /** A step of a scan. */
  function ScanNext(s: State, step: Step): State
    requires Enabled(s, step) && ScanStep(step)
  {
    match step
    case StartScan(minimum) =>
      s.(pc := Scanning, minimum := minimum, visited := {}, due := TableOf(s, s.current).Keys, scanned := s.current)
    case LoadUp(user) =>
      var ref := TableOf(s, s.scanned)[user];
      s.(pc := LoadedUp(user, ref, At(s.storage, ref).up), visited := s.visited + {user}, due := s.due - {user})
    case LoadDown => s.(pc := LoadedBoth(s.pc.user, s.pc.ref, s.pc.up, At(s.storage, s.pc.ref).down))
    case SwapUp =>
      var b := At(s.storage, s.pc.ref);
      s.(pc := SwappedUp(s.pc.user, s.pc.ref, b.up), storage := s.storage[s.pc.ref := Bytes(0, b.down)])
    case SkipUser => s.(pc := Scanning)
    case SwapDown =>
      var b := At(s.storage, s.pc.ref);
      s.(pc := SwappedBoth(s.pc.user, s.pc.ref, s.pc.up, b.down), storage := s.storage[s.pc.ref := Bytes(b.up, 0)])
    case FinishScan => s.(pc := Holding, scanned := None)
    case _ => s
  }

  /** A step that settles what a scan found. */
  function ReportNext(s: State, step: Step): State
    requires Enabled(s, step) && !CountStep(step) && !ScanStep(step)
  {
    match step
    case Settle =>
      var bytes := Bytes(s.pc.up, s.pc.down);
      if UidOf(s, s.pc.user) == 0 then
        s.(pc := Scanning, tables := Without(s, s.scanned, s.pc.user), dropped := AddTo(s.dropped, s.pc.ref, bytes))
      else s.(pc := Scanning, items := s.items + [Item(s.pc.user, s.pc.ref, UidOf(s, s.pc.user), bytes)])
    case Deliver => s.(pc := Idle, items := [], delivered := s.delivered + s.items)
    case StartRollback => s.(pc := RollingBack)
    case RestoreUp =>
      var item := s.items[0];
      s.(storage := AddTo(s.storage, item.ref, Bytes(item.bytes.up, 0)),
         items := [item.(bytes := Bytes(0, item.bytes.down))] + s.items[1..])
    case RestoreDown =>
      var item := s.items[0];
      s.(storage := AddTo(s.storage, item.ref, Bytes(0, item.bytes.down)), items := s.items[1..])
    case FinishRollback => s.(pc := Idle)
    case _ => s
  }

  function Next(s: State, step: Step): State
    requires Enabled(s, step)
  {
    if CountStep(step) then CountNext(s, step) else if ScanStep(step) then ScanNext(s, step) else ReportNext(s, step)
  }

  predicate Initial(s: State) {
    && s.storage == map[] && s.tables == map[] && s.owner == map[] && s.leaving == {} && s.pc == Idle
    && s.current.None? && s.scanned.None? && s.misses == 0
    && s.items == [] && s.delivered == [] && s.counted == map[] && s.dropped == map[]
  }

  /** The states along a run. */
  ghost predicate Trace(states: seq<State>, steps: seq<Step>) {
    && |states| == |steps| + 1
    && forall i | 0 <= i < |steps| :: Enabled(states[i], steps[i]) && states[i + 1] == Next(states[i], steps[i])
  }

  // ---------- conservation ----------

  /** The two directions are accounted for separately. */
  datatype Side = Up | Down

  function Of(b: Bytes, side: Side): int { if side.Up? then b.up else b.down }

  function Total(items: seq<Item>, ref: Ref, side: Side): int {
    if items == [] then 0
    else (if items[0].ref == ref then Of(items[0].bytes, side) else 0) + Total(items[1..], ref, side)
  }

  /** What the report task holds in its hands for a storage. */
  function InHand(pc: Pc, ref: Ref): Bytes {
    match pc
    case SwappedUp(_, r, up) => if r == ref then Bytes(up, 0) else ZERO
    case SwappedBoth(_, r, up, down) => if r == ref then Bytes(up, down) else ZERO
    case _ => ZERO
  }

  /** Where the bytes counted in a storage are. */
  function Accounted(s: State, ref: Ref, side: Side): int {
    Of(At(s.storage, ref), side) + Of(InHand(s.pc, ref), side)
    + Total(s.items, ref, side) + Total(s.delivered, ref, side) + Of(At(s.dropped, ref), side)
  }

  ghost predicate Conserved(s: State, ref: Ref) {
    forall side :: Of(At(s.counted, ref), side) == Accounted(s, ref, side)
  }

  lemma {:induction false} TotalAppend(a: seq<Item>, b: seq<Item>, ref: Ref, side: Side)
    ensures Total(a + b, ref, side) == Total(a, ref, side) + Total(b, ref, side)
  {
    if a == [] {
      assert a + b == b;
    } else {
      TotalAppend(a[1..], b, ref, side);
      assert (a + b)[1..] == a[1..] + b;
    }
  }

  lemma TotalOne(item: Item, ref: Ref, side: Side)
    ensures Total([item], ref, side) == if item.ref == ref then Of(item.bytes, side) else 0
  {
    assert [item][1..] == [];
  }

  predicate AtUser(pc: Pc) { pc.LoadedUp? || pc.LoadedBoth? || pc.SwappedUp? || pc.SwappedBoth? }

  predicate Owns(owner: Owner, ref: Ref, user: string) { ref in owner && owner[ref] == user }

  /** The table's storages belong to the users it lists. */
  predicate Files(table: Table, owner: Owner) { forall user <- table :: Owns(owner, table[user], user) }

  predicate AllFile(tables: map<nat, Table>, owner: Owner) { forall table <- tables :: Files(tables[table], owner) }

  predicate ItemsOwned(items: seq<Item>, owner: Owner) {
    forall i | 0 <= i < |items| :: Owns(owner, items[i].ref, items[i].user)
  }

  /** Every storage in use exists and belongs to the user it is used for. */
  predicate WellFormed(s: State) {
    && s.owner.Keys == s.storage.Keys && s.counted.Keys <= s.storage.Keys && s.dropped.Keys <= s.storage.Keys
    && AllFile(s.tables, s.owner) && ItemsOwned(s.items, s.owner) && ItemsOwned(s.delivered, s.owner)
    && (s.current.Some? ==> s.current.value in s.tables) && (s.scanned.Some? ==> HoldsLock(s.pc))
    && (AtUser(s.pc) ==> Owns(s.owner, s.pc.ref, s.pc.user))
    && (s.pc.Idle? ==> s.items == [])
  }

  /** A storage more takes none from its owner. */
  lemma OwnerMore(tables: map<nat, Table>, items: seq<Item>, owner: Owner, ref: Ref, user: string)
    requires ref !in owner
    ensures AllFile(tables, owner) ==> AllFile(tables, owner[ref := user])
    ensures ItemsOwned(items, owner) ==> ItemsOwned(items, owner[ref := user])
  {}

  lemma EntersFiled(tables: map<nat, Table>, owner: Owner, table: nat, user: string, ref: Ref)
    requires AllFile(tables, owner) && table in tables && Owns(owner, ref, user)
    ensures AllFile(tables[table := Enter(tables[table], user, ref)], owner)
  {
    hide Owns;
    assert Files(tables[table], owner);
  }

  lemma EmptyFiled(tables: map<nat, Table>, owner: Owner, table: nat)
    requires AllFile(tables, owner)
    ensures AllFile(tables[table := map[]], owner)
  {}

  lemma WithoutFiled(s: State, table: Option<nat>, user: string)
    requires AllFile(s.tables, s.owner)
    ensures AllFile(Without(s, table, user), s.owner) && Without(s, table, user).Keys == s.tables.Keys
  {
    hide Owns;
    assert table.Some? && table.value in s.tables ==> Files(s.tables[table.value], s.owner);
  }

  lemma CountingKeepsForm(s: State, step: Step)
    requires WellFormed(s) && Enabled(s, step) && CountStep(step)
    ensures WellFormed(Next(s, step))
  {
    match step
    case StoreTable(table) => EmptyFiled(s.tables, s.owner, table);
    case GetCounter(table, user, ref) =>
      if user !in s.tables[table] {
        OwnerMore(s.tables, s.items, s.owner, ref, user);
        OwnerMore(s.tables, s.delivered, s.owner, ref, user);
        EntersFiled(s.tables, s.owner[ref := user], table, user, ref);
      }
    case DeleteCounter(user) => WithoutFiled(s, s.current, user);
    case _ =>
    hide AllFile, ItemsOwned, Without;
  }

  lemma ScanningKeepsForm(s: State, step: Step)
    requires WellFormed(s) && Enabled(s, step) && ScanStep(step)
    ensures WellFormed(Next(s, step))
  {
    if step.LoadUp? {
      FiledIn(s, s.scanned, step.user);
    }
    hide AllFile, ItemsOwned, TableOf;
  }

  lemma FiledIn(s: State, table: Option<nat>, user: string)
    requires AllFile(s.tables, s.owner) && user in TableOf(s, table)
    ensures Owns(s.owner, TableOf(s, table)[user], user)
  {
    assert Files(TableOf(s, table), s.owner);
  }

  lemma ReportingKeepsForm(s: State, step: Step)
    requires WellFormed(s) && Enabled(s, step) && !CountStep(step) && !ScanStep(step)
    ensures WellFormed(Next(s, step))
  {
    if step.Settle? {
      WithoutFiled(s, s.scanned, s.pc.user);
    }
    hide AllFile, Without;
  }

  lemma StepKeepsForm(s: State, step: Step)
    requires WellFormed(s) && Enabled(s, step)
    ensures WellFormed(Next(s, step))
  {
    hide WellFormed, Enabled, Next;
    if CountStep(step) {
      CountingKeepsForm(s, step);
    } else if ScanStep(step) {
      ScanningKeepsForm(s, step);
    } else {
      ReportingKeepsForm(s, step);
    }
  }

  lemma CountingConserves(s: State, step: Step, ref: Ref, side: Side)
    requires CountStep(step)
    requires WellFormed(s) && Enabled(s, step) && Of(At(s.counted, ref), side) == Accounted(s, ref, side)
    ensures Of(At(Next(s, step).counted, ref), side) == Accounted(Next(s, step), ref, side)
  {
    hide Total;
  }

  lemma ScanningConserves(s: State, step: Step, ref: Ref, side: Side)
    requires ScanStep(step)
    requires WellFormed(s) && Enabled(s, step) && Of(At(s.counted, ref), side) == Accounted(s, ref, side)
    ensures Of(At(Next(s, step).counted, ref), side) == Accounted(Next(s, step), ref, side)
  {
    hide Total;
  }

  lemma SettleConserves(s: State, ref: Ref, side: Side)
    requires WellFormed(s) && Enabled(s, Settle) && Of(At(s.counted, ref), side) == Accounted(s, ref, side)
    ensures Of(At(Next(s, Settle).counted, ref), side) == Accounted(Next(s, Settle), ref, side)
  {
    hide Total;
    var item := Item(s.pc.user, s.pc.ref, UidOf(s, s.pc.user), Bytes(s.pc.up, s.pc.down));
    TotalAppend(s.items, [item], ref, side);
    TotalOne(item, ref, side);
  }

  lemma TotalFirst(items: seq<Item>, ref: Ref, side: Side)
    requires items != []
    ensures Total(items, ref, side) == (if items[0].ref == ref then Of(items[0].bytes, side) else 0)
            + Total(items[1..], ref, side)
  {}

  lemma DeliverConserves(s: State, ref: Ref, side: Side)
    requires Enabled(s, Deliver) && Of(At(s.counted, ref), side) == Accounted(s, ref, side)
    ensures Of(At(Next(s, Deliver).counted, ref), side) == Accounted(Next(s, Deliver), ref, side)
  {
    TotalAppend(s.delivered, s.items, ref, side);
    hide At, Of;
  }

  lemma RestoreConserves(s: State, step: Step, ref: Ref, side: Side)
    requires (step.RestoreUp? || step.RestoreDown?) && Enabled(s, step)
    requires Of(At(s.counted, ref), side) == Accounted(s, ref, side)
    ensures Of(At(Next(s, step).counted, ref), side) == Accounted(Next(s, step), ref, side)
  {
    var next := Next(s, step).items;
    TotalFirst(s.items, ref, side);
    if step.RestoreUp? {
      TotalFirst(next, ref, side);
      assert next[1..] == s.items[1..];
    }
    hide Total;
  }

  lemma ReportingConserves(s: State, step: Step, ref: Ref, side: Side)
    requires !CountStep(step) && !ScanStep(step) && !step.Settle?
    requires Enabled(s, step) && Of(At(s.counted, ref), side) == Accounted(s, ref, side)
    ensures Of(At(Next(s, step).counted, ref), side) == Accounted(Next(s, step), ref, side)
  {
    if step.Deliver? {
      DeliverConserves(s, ref, side);
    } else if step.RestoreUp? || step.RestoreDown? {
      RestoreConserves(s, step, ref, side);
    } else {
      PauseConserves(s, step, ref, side);
    }
    hide Next, Enabled, Accounted, At, Of;
  }

  lemma PauseConserves(s: State, step: Step, ref: Ref, side: Side)
    requires step.StartRollback? || step.FinishRollback?
    requires Enabled(s, step) && Of(At(s.counted, ref), side) == Accounted(s, ref, side)
    ensures Of(At(Next(s, step).counted, ref), side) == Accounted(Next(s, step), ref, side)
  {
    hide Total, At, Of;
  }

  lemma StepConserves(s: State, step: Step, ref: Ref, side: Side)
    requires WellFormed(s) && Enabled(s, step) && Of(At(s.counted, ref), side) == Accounted(s, ref, side)
    ensures Of(At(Next(s, step).counted, ref), side) == Accounted(Next(s, step), ref, side)
  {
    hide Next, Enabled, Accounted, WellFormed, At, Of;
    if CountStep(step) {
      CountingConserves(s, step, ref, side);
    } else if ScanStep(step) {
      ScanningConserves(s, step, ref, side);
    } else if step.Settle? {
      SettleConserves(s, ref, side);
    } else {
      ReportingConserves(s, step, ref, side);
    }
  }

  /** In every reachable state each counted byte is in a counter, in hand, swapped out, delivered or dropped. */
  lemma {:induction false} RunConserves(states: seq<State>, steps: seq<Step>, ref: Ref, n: nat)
    requires Trace(states, steps) && n < |states| && WellFormed(states[0]) && Conserved(states[0], ref)
    ensures WellFormed(states[n]) && Conserved(states[n], ref)
  {
    hide Next, Enabled, Accounted, WellFormed;
    if n > 0 {
      RunConserves(states, steps, ref, n - 1);
      assert states[n - 1 + 1] == Next(states[n - 1], steps[n - 1]);
      StepKeepsForm(states[n - 1], steps[n - 1]);
      forall side: Side ensures Of(At(states[n].counted, ref), side) == Accounted(states[n], ref, side) {
        StepConserves(states[n - 1], steps[n - 1], ref, side);
      }
    }
  }

  lemma InitialWellFormed(s: State, ref: Ref)
    requires Initial(s)
    ensures WellFormed(s) && Conserved(s, ref)
  {}

  // ---------- a user that stays registered ----------

  predicate Registered(s: State, user: string) { UidOf(s, user) != 0 && user !in s.leaving }

  /** A table has this storage for the user. */
  predicate Has(s: State, table: nat, user: string, ref: Ref) {
    table in s.tables && user in s.tables[table] && s.tables[table][user] == ref
  }

  /** What only few steps change. */
  lemma Frame(s: State, step: Step)
    requires Enabled(s, step)
    ensures !(step.StoreTable? || step.GetCounter? || step.DeleteCounter? || step.Settle?) ==>
            Next(s, step).tables == s.tables
    ensures !step.GetCounter? ==> Next(s, step).owner == s.owner
    ensures !step.Settle? ==> Next(s, step).dropped == s.dropped
  {}

  /** An entry goes only with its user. */
  lemma EntryStays(s: State, step: Step, table: nat, user: string, ref: Ref)
    requires Enabled(s, step) && Has(s, table, user, ref) && Registered(s, user)
    requires step.StoreTable? || step.GetCounter? || step.DeleteCounter? || step.Settle?
    ensures Has(Next(s, step), table, user, ref)
  {
    match step
    case StoreTable(_) =>
    case GetCounter(_, _, _) =>
    case DeleteCounter(_) =>
    case Settle =>
  }

  lemma StepKeepsUser(s: State, step: Step, table: nat, user: string, ref: Ref)
    requires Enabled(s, step) && Has(s, table, user, ref) && Registered(s, user)
    ensures Has(Next(s, step), table, user, ref)
  {
    hide Next, Enabled;
    Frame(s, step);
    if step.StoreTable? || step.GetCounter? || step.DeleteCounter? || step.Settle? {
      EntryStays(s, step, table, user, ref);
    }
  }

  /** A storage is the user's, or is not made yet. */
  predicate Theirs(s: State, ref: Ref, user: string) { ref in s.owner ==> s.owner[ref] == user }

  lemma StepDropsNothing(s: State, step: Step, user: string, ref: Ref)
    requires WellFormed(s) && Enabled(s, step) && Theirs(Next(s, step), ref, user) && Registered(s, user)
    ensures Theirs(s, ref, user) && At(Next(s, step).dropped, ref) == At(s.dropped, ref)
  {
    hide Next, Enabled, WellFormed;
    Frame(s, step);
    OwnerStays(s, step, ref);
    if step.Settle? {
      SettleDropsOthers(s, user, ref);
    }
  }

  lemma SettleDropsOthers(s: State, user: string, ref: Ref)
    requires WellFormed(s) && Enabled(s, Settle) && Theirs(s, ref, user) && Registered(s, user)
    ensures At(Next(s, Settle).dropped, ref) == At(s.dropped, ref)
  {
    assert Owns(s.owner, s.pc.ref, s.pc.user);
    hide AllFile, ItemsOwned;
  }

  lemma OwnerStays(s: State, step: Step, ref: Ref)
    requires WellFormed(s) && Enabled(s, step)
    ensures ref in s.owner ==> Owns(Next(s, step).owner, ref, s.owner[ref])
  {
    Frame(s, step);
    hide AllFile, ItemsOwned, ScanNext, ReportNext;
    if !step.GetCounter? {
      hide Next, Enabled;
    }
  }

  /** A user that is registered all along keeps its storage in any table. */
  lemma {:induction false} RunKeepsUser(states: seq<State>, steps: seq<Step>, table: nat, user: string, ref: Ref,
                                        a: nat, b: nat)
    requires Trace(states, steps) && a <= b < |states| && Has(states[a], table, user, ref)
    requires forall i | a <= i <= b :: Registered(states[i], user)
    ensures Has(states[b], table, user, ref)
  {
    hide Next, Enabled, Registered, Has;
    if a < b {
      RunKeepsUser(states, steps, table, user, ref, a, b - 1);
      assert states[b - 1 + 1] == Next(states[b - 1], steps[b - 1]);
      StepKeepsUser(states[b - 1], steps[b - 1], table, user, ref);
    }
  }

  /** Nothing is dropped of a user that is registered all along. */
  lemma {:induction false} RunDropsNothing(states: seq<State>, steps: seq<Step>, user: string, ref: Ref, a: nat, b: nat)
    requires Trace(states, steps) && a <= b < |states| && WellFormed(states[a]) && Theirs(states[b], ref, user)
    requires forall i | a <= i <= b :: Registered(states[i], user)
    ensures At(states[b].dropped, ref) == At(states[a].dropped, ref)
  {
    hide Next, Enabled, WellFormed, Registered, Theirs, At;
    if a < b {
      assert states[b - 1 + 1] == Next(states[b - 1], steps[b - 1]);
      RunKeepsForm(states, steps, a, b - 1);
      StepDropsNothing(states[b - 1], steps[b - 1], user, ref);
      RunDropsNothing(states, steps, user, ref, a, b - 1);
    }
  }

  lemma {:induction false} RunKeepsForm(states: seq<State>, steps: seq<Step>, a: nat, b: nat)
    requires Trace(states, steps) && a <= b < |states| && WellFormed(states[a])
    ensures WellFormed(states[b])
  {
    hide Next, Enabled, WellFormed;
    if a < b {
      RunKeepsForm(states, steps, a, b - 1);
      assert states[b - 1 + 1] == Next(states[b - 1], steps[b - 1]);
      StepKeepsForm(states[b - 1], steps[b - 1]);
    }
  }

  /** What of a storage is counted between two states is the change of the storage and what was delivered of it. */
  predicate Balanced(s: State, next: State, ref: Ref, side: Side) {
    Of(At(next.counted, ref), side) - Of(At(s.counted, ref), side) ==
    (Of(At(next.storage, ref), side) - Of(At(s.storage, ref), side))
    + (Total(next.delivered, ref, side) - Total(s.delivered, ref, side))
  }

  /** So it is between two moments at which no report is under way, for every storage of a registered user. */
  lemma StorageConserved(states: seq<State>, steps: seq<Step>, user: string, ref: Ref, a: nat, b: nat, side: Side)
    requires Trace(states, steps) && a <= b < |states| && Initial(states[0]) && Theirs(states[b], ref, user)
    requires forall i | a <= i <= b :: Registered(states[i], user)
    requires states[a].pc.Idle? && states[b].pc.Idle?
    ensures Balanced(states[a], states[b], ref, side)
  {
    InitialWellFormed(states[0], ref);
    RunConserves(states, steps, ref, a);
    RunConserves(states, steps, ref, b);
    RunDropsNothing(states, steps, user, ref, a, b);
    hide Trace, Next, Enabled, Registered;
  }

  /** The sum over the storages of a user with a number below `n`. */
  function Sum(m: map<Ref, Bytes>, owner: Owner, user: string, side: Side, n: nat): int {
    if n == 0 then 0
    else
      Sum(m, owner, user, side, n - 1)
      + if Owns(owner, n - 1, user) then Of(At(m, n - 1), side) else 0
  }

  /** The sum of the items of a user. */
  function UserTotal(items: seq<Item>, user: string, side: Side): int {
    if items == [] then 0
    else (if items[0].user == user then Of(items[0].bytes, side) else 0) + UserTotal(items[1..], user, side)
  }

  /** The sum of the items of a user's storages with a number below `n`. */
  function StorageTotals(items: seq<Item>, owner: Owner, user: string, side: Side, n: nat): int {
    if n == 0 then 0
    else
      StorageTotals(items, owner, user, side, n - 1)
      + if Owns(owner, n - 1, user) then Total(items, n - 1, side) else 0
  }

  lemma {:induction false} TotalsOfNothing(owner: Owner, user: string, side: Side, n: nat)
    ensures StorageTotals([], owner, user, side, n) == 0
  {
    if n > 0 {
      TotalsOfNothing(owner, user, side, n - 1);
    }
  }

  lemma {:induction false} TotalsOfOneMore(items: seq<Item>, owner: Owner, user: string, side: Side, n: nat)
    requires items != []
    ensures var first := items[0];
            StorageTotals(items, owner, user, side, n) ==
            StorageTotals(items[1..], owner, user, side, n)
            + if first.ref < n && first.ref in owner && owner[first.ref] == user then Of(first.bytes, side) else 0
  {
    if n > 0 {
      TotalsOfOneMore(items, owner, user, side, n - 1);
    }
  }

  /** Summing items by storage is summing them by user. */
  lemma {:induction false} TotalsByUser(items: seq<Item>, owner: Owner, user: string, side: Side, n: nat)
    requires ItemsOwned(items, owner) && forall ref <- owner :: ref < n
    ensures StorageTotals(items, owner, user, side, n) == UserTotal(items, user, side)
  {
    if items == [] {
      TotalsOfNothing(owner, user, side, n);
    } else {
      assert items[0].ref in owner;
      TotalsByUser(items[1..], owner, user, side, n);
      TotalsOfOneMore(items, owner, user, side, n);
    }
  }

  lemma {:induction false} SumBalanced(s: State, next: State, user: string, side: Side, n: nat)
    requires forall ref: Ref | ref < n && Owns(next.owner, ref, user) :: Balanced(s, next, ref, side)
    ensures Sum(next.counted, next.owner, user, side, n) - Sum(s.counted, next.owner, user, side, n) ==
            (Sum(next.storage, next.owner, user, side, n) - Sum(s.storage, next.owner, user, side, n))
            + (StorageTotals(next.delivered, next.owner, user, side, n)
               - StorageTotals(s.delivered, next.owner, user, side, n))
  {
    hide Total, Of, At;
    if n > 0 {
      SumBalanced(s, next, user, side, n - 1);
      if Owns(next.owner, n - 1, user) {
        assert Balanced(s, next, n - 1, side);
      }
    }
  }

  /**
   Between two moments at which no report is under way, the bytes counted for a user that stays
   registered, in whatever storages it has or had, are the change of these storages plus what
   reports without error contained for the user, under every interleaving of counting, scanning,
   rolling back, changes to other users, and tables that replace each other.
   */
  lemma RegisteredTrafficConserved(states: seq<State>, steps: seq<Step>, user: string, a: nat, b: nat, side: Side,
                                   n: nat)
    requires Trace(states, steps) && a <= b < |states| && Initial(states[0])
    requires forall i | a <= i <= b :: Registered(states[i], user)
    requires states[a].pc.Idle? && states[b].pc.Idle? && forall ref <- states[b].owner :: ref < n
    ensures var s, next := states[a], states[b];
            Sum(next.counted, next.owner, user, side, n) - Sum(s.counted, next.owner, user, side, n) ==
            (Sum(next.storage, next.owner, user, side, n) - Sum(s.storage, next.owner, user, side, n))
            + (UserTotal(next.delivered, user, side) - UserTotal(s.delivered, user, side))
  {
    hide Trace, Next, Enabled, Registered, Initial, Sum, StorageTotals, UserTotal, Balanced;
    var s, next := states[a], states[b];
    forall ref: Ref | ref < n && Owns(next.owner, ref, user) ensures Balanced(s, next, ref, side) {
      StorageConserved(states, steps, user, ref, a, b, side);
    }
    SumBalanced(s, next, user, side, n);
    DeliveredOwned(states, steps, a, b);
    TotalsByUser(s.delivered, next.owner, user, side, n);
    TotalsByUser(next.delivered, next.owner, user, side, n);
  }

  lemma DeliveredOwned(states: seq<State>, steps: seq<Step>, a: nat, b: nat)
    requires Trace(states, steps) && a <= b < |states| && Initial(states[0])
    ensures ItemsOwned(states[a].delivered, states[b].owner) && ItemsOwned(states[b].delivered, states[b].owner)
  {
    InitialForm(states[0]);
    RunKeepsForm(states, steps, 0, a);
    RunKeepsForm(states, steps, a, b);
    OwnersStay(states, steps, a, b);
    hide Trace, Next, Enabled, Initial;
    forall i | 0 <= i < |states[a].delivered| ensures Owns(states[b].owner, states[a].delivered[i].ref,
                                                           states[a].delivered[i].user) {
      assert Owns(states[a].owner, states[a].delivered[i].ref, states[a].delivered[i].user);
    }
    forall i | 0 <= i < |states[b].delivered| ensures Owns(states[b].owner, states[b].delivered[i].ref,
                                                           states[b].delivered[i].user) {}
  }

  lemma OwnsMeans(owner: Owner, ref: Ref, user: string)
    ensures Owns(owner, ref, user) <==> ref in owner && owner[ref] == user
  {}

  lemma {:induction false} OwnersStay(states: seq<State>, steps: seq<Step>, a: nat, b: nat)
    requires Trace(states, steps) && a <= b < |states| && WellFormed(states[a])
    ensures forall ref, user :: Owns(states[a].owner, ref, user) ==> Owns(states[b].owner, ref, user)
  {
    hide Next, Enabled, WellFormed, Owns;
    if a < b {
      OwnersStay(states, steps, a, b - 1);
      RunKeepsForm(states, steps, a, b - 1);
      assert states[b - 1 + 1] == Next(states[b - 1], steps[b - 1]);
      forall ref, user | Owns(states[b - 1].owner, ref, user) ensures Owns(states[b].owner, ref, user) {
        OwnerStays(states[b - 1], steps[b - 1], ref);
        OwnsMeans(states[b - 1].owner, ref, user);
      }
    }
  }

  // ---------- storages out of reach ----------

  predicate Lists(table: Table, ref: Ref) { exists user <- table :: table[user] == ref }

  predicate NoneOf(items: seq<Item>, ref: Ref) { forall i | 0 <= i < |items| :: items[i].ref != ref }

  /** No table in use has the storage, and the report task does not hold it. */
  predicate OutOfReach(s: State, ref: Ref) {
    && ref in s.owner && !Lists(TableOf(s, s.current), ref) && !Lists(TableOf(s, s.scanned), ref)
    && (AtUser(s.pc) ==> s.pc.ref != ref) && NoneOf(s.items, ref)
  }

  /** A connection whose table replaces another one puts all storages there are out of reach. */
  lemma ReplacingStrands(s: State, table: nat, ref: Ref)
    requires WellFormed(s) && Enabled(s, StoreTable(table)) && s.pc.Idle? && ref in s.owner
    ensures OutOfReach(Next(s, StoreTable(table)), ref)
  {}

  /**
   That happens: two first connections find no table, and the first one counts after the second has
   stored its own.
   */
  lemma TwoTables(s: State, user: string, bytes: Bytes) returns (states: seq<State>, steps: seq<Step>)
    requires Initial(s)
    ensures Trace(states, steps) && states[0] == s && |steps| == 6
    ensures Owns(states[6].owner, 0, user) && OutOfReach(states[6], 0) && At(states[6].storage, 0) == bytes
  {
    hide Next, Enabled, AddTo, Enter, At, OutOfReach;
    var missed, missedTwice := s.(misses := 1), s.(misses := 2);
    var first := missedTwice.(misses := 1, tables := map[0 := map[]], current := Some(0));
    var used := first.(tables := map[0 := map[user := 0]], storage := map[0 := ZERO], owner := map[0 := user]);
    var second := used.(misses := 0, tables := map[0 := map[user := 0], 1 := map[]], current := Some(1));
    var last := second.(storage := map[0 := bytes], counted := map[0 := bytes]);
    Misses(s);
    Misses(missed);
    TakesTable(missedTwice, 0);
    TakesCounter(first, 0, user, 0);
    TakesTable(used, 1);
    Counts(second, 0, bytes);
    assert first.tables == missedTwice.tables[0 := map[]] && second.tables == used.tables[1 := map[]];
    LastIsOutOfReach(last, user);
    steps := [MissTable, MissTable, StoreTable(0), GetCounter(0, user, 0), StoreTable(1), Count(0, bytes)];
    states := [s, missed, missedTwice, first, used, second, last];
  }

  lemma LastIsOutOfReach(s: State, user: string)
    requires s.owner == map[0 := user] && s.tables == map[0 := map[user := 0], 1 := map[]] && s.current == Some(1)
    requires s.scanned.None? && s.pc.Idle? && s.items == []
    ensures OutOfReach(s, 0)
  {}

  lemma Misses(s: State)
    requires s.current.None?
    ensures Enabled(s, MissTable) && Next(s, MissTable) == s.(misses := s.misses + 1)
  {}

  lemma TakesTable(s: State, table: nat)
    requires s.misses > 0 && table !in s.tables
    ensures Enabled(s, StoreTable(table))
    ensures Next(s, StoreTable(table)) == s.(misses := s.misses - 1, tables := s.tables[table := map[]],
                                             current := Some(table))
  {}

  lemma TakesCounter(s: State, table: nat, user: string, ref: Ref)
    requires table in s.tables && user !in s.tables[table] && ref !in s.storage
    ensures Enabled(s, GetCounter(table, user, ref))
    ensures Next(s, GetCounter(table, user, ref)) ==
            s.(storage := s.storage[ref := ZERO], owner := s.owner[ref := user],
               tables := s.tables[table := Enter(s.tables[table], user, ref)])
    ensures s.tables == map[table := map[]] ==>
              s.tables[table := Enter(s.tables[table], user, ref)] == map[table := map[user := ref]]
    ensures s.storage == map[] && s.owner == map[] ==>
            s.storage[ref := ZERO] == map[ref := ZERO] && s.owner[ref := user] == map[ref := user]
  {}

  lemma Counts(s: State, ref: Ref, bytes: Bytes)
    requires ref in s.storage
    ensures Enabled(s, Count(ref, bytes))
    ensures Next(s, Count(ref, bytes)) == s.(storage := AddTo(s.storage, ref, bytes),
                                             counted := AddTo(s.counted, ref, bytes))
    ensures s.storage == map[ref := ZERO] && s.counted == map[] ==>
              AddTo(s.storage, ref, bytes) == map[ref := bytes] && AddTo(s.counted, ref, bytes) == map[ref := bytes]
    ensures At(map[ref := bytes], ref) == bytes
  {}

  /** What is counted in a storage stays in it. */
  predicate Stays(s: State, next: State, ref: Ref, side: Side) {
    Of(At(next.counted, ref), side) - Of(At(s.counted, ref), side) ==
    Of(At(next.storage, ref), side) - Of(At(s.storage, ref), side)
  }

  lemma CountingStrands(s: State, step: Step, ref: Ref, side: Side)
    requires WellFormed(s) && Enabled(s, step) && OutOfReach(s, ref) && CountStep(step)
    ensures OutOfReach(Next(s, step), ref) && Stays(s, Next(s, step), ref, side)
    ensures Next(s, step).delivered == s.delivered
  {
    hide WellFormed, OutOfReach, Stays, Next, Enabled;
    CountingStaysOut(s, step, ref);
    CountingStays(s, step, ref, side);
  }

  lemma CountingStaysOut(s: State, step: Step, ref: Ref)
    requires WellFormed(s) && Enabled(s, step) && OutOfReach(s, ref) && CountStep(step)
    ensures ref in s.owner && OutOfReach(Next(s, step), ref) && Next(s, step).delivered == s.delivered
  {
    hide AllFile, ItemsOwned, NoneOf, AddTo;
  }

  lemma CountingStays(s: State, step: Step, ref: Ref, side: Side)
    requires WellFormed(s) && Enabled(s, step) && CountStep(step)
    requires ref in s.owner
    ensures Stays(s, Next(s, step), ref, side)
  {
    hide AllFile, ItemsOwned, Without, Enter;
  }

  lemma ScanningStrands(s: State, step: Step, ref: Ref, side: Side)
    requires Enabled(s, step) && OutOfReach(s, ref) && ScanStep(step)
    ensures OutOfReach(Next(s, step), ref) && Stays(s, Next(s, step), ref, side)
    ensures Next(s, step).delivered == s.delivered
  {
    if step.LoadUp? {
      NotListed(TableOf(s, s.scanned), ref, step.user);
    }
    hide NoneOf, Lists, TableOf, Of;
  }

  lemma NotListed(table: Table, ref: Ref, user: string)
    requires !Lists(table, ref) && user in table
    ensures table[user] != ref
  {}

  lemma ReportingStrands(s: State, step: Step, ref: Ref, side: Side)
    requires WellFormed(s) && Enabled(s, step) && OutOfReach(s, ref) && !CountStep(step) && !ScanStep(step)
    ensures OutOfReach(Next(s, step), ref)
    ensures At(Next(s, step).counted, ref) == At(s.counted, ref) && At(Next(s, step).storage, ref) == At(s.storage, ref)
    ensures Total(Next(s, step).delivered, ref, side) == Total(s.delivered, ref, side)
  {
    hide Total, AllFile, ItemsOwned;
    if step.Settle? {
      StillUnlisted(s, s.current, s.scanned, s.pc.user, ref);
      StillUnlisted(s, s.scanned, s.scanned, s.pc.user, ref);
    } else if step.Deliver? {
      TotalAppend(s.delivered, s.items, ref, side);
      NoItems(s.items, ref, side);
    }
    hide Without, TableOf, Lists;
  }

  lemma StillUnlisted(s: State, table: Option<nat>, other: Option<nat>, user: string, ref: Ref)
    requires !Lists(TableOf(s, table), ref)
    ensures !Lists(TableOf(s.(tables := Without(s, other, user)), table), ref)
  {}

  lemma {:induction false} NoItems(items: seq<Item>, ref: Ref, side: Side)
    requires NoneOf(items, ref)
    ensures Total(items, ref, side) == 0
  {
    if items != [] {
      NoItems(items[1..], ref, side);
    }
  }

  /** What is counted in a storage out of reach stays in it, and no report ever contains it. */
  lemma {:induction false} NeverReported(states: seq<State>, steps: seq<Step>, ref: Ref, a: nat, b: nat, side: Side)
    requires Trace(states, steps) && a <= b < |states| && WellFormed(states[a]) && OutOfReach(states[a], ref)
    ensures OutOfReach(states[b], ref) && Total(states[b].delivered, ref, side) == Total(states[a].delivered, ref, side)
    ensures Stays(states[a], states[b], ref, side)
  {
    hide Next, Enabled, WellFormed, OutOfReach, Total, At, Of;
    if a < b {
      var s, step := states[b - 1], steps[b - 1];
      NeverReported(states, steps, ref, a, b - 1, side);
      RunKeepsForm(states, steps, a, b - 1);
      assert states[b - 1 + 1] == Next(s, step);
      if CountStep(step) {
        CountingStrands(s, step, ref, side);
      } else if ScanStep(step) {
        ScanningStrands(s, step, ref, side);
      } else {
        ReportingStrands(s, step, ref, side);
      }
    }
  }

  lemma {:induction false} SumWithout(m: map<Ref, Bytes>, owner: Owner, user: string, side: Side, n: nat,
                                      ref: Ref)
    requires ref in owner && owner[ref] == user
    ensures Sum(m, owner, user, side, n) == Sum(m - {ref}, owner, user, side, n) + if ref < n then Of(At(m, ref), side)
            else 0
  {
    if n > 0 {
      SumWithout(m, owner, user, side, n - 1, ref);
    }
  }

  lemma {:induction false} SumStranded(s: State, next: State, user: string, side: Side, n: nat, ref: Ref)
    requires forall other: Ref | other < n && Owns(next.owner, other, user) && other != ref ::
             Stays(s, next, other, side)
    ensures Sum(next.counted - {ref}, next.owner, user, side, n) - Sum(s.counted - {ref}, next.owner, user, side, n) ==
            Sum(next.storage - {ref}, next.owner, user, side, n) - Sum(s.storage - {ref}, next.owner, user, side, n)
  {
    hide Of, Stays, At, Owns;
    if n > 0 {
      SumStranded(s, next, user, side, n - 1, ref);
      if Owns(next.owner, n - 1, user) {
        StaysWithout(s, next, n - 1, side, ref);
      }
    }
  }

  lemma StaysWithout(s: State, next: State, other: Ref, side: Side, ref: Ref)
    requires other != ref ==> Stays(s, next, other, side)
    ensures Of(At(next.counted - {ref}, other), side) - Of(At(s.counted - {ref}, other), side) ==
            Of(At(next.storage - {ref}, other), side) - Of(At(s.storage - {ref}, other), side)
  {}

  /**
   When the other storages of the user are out of reach, its bytes are all in its one counter or in
   reports exactly when nothing is counted in the other storages.
   */
  lemma OwnCounterConserved(states: seq<State>, steps: seq<Step>, user: string, ref: Ref, a: nat, b: nat, side: Side,
                            n: nat)
    requires Trace(states, steps) && a <= b < |states| && Initial(states[0])
    requires forall i | a <= i <= b :: Registered(states[i], user)
    requires states[a].pc.Idle? && states[b].pc.Idle? && forall other <- states[b].owner :: other < n
    requires Owns(states[b].owner, ref, user)
    requires forall other | Owns(states[b].owner, other, user) && other != ref :: OutOfReach(states[a], other)
    ensures var s, next := states[a], states[b];
            Sum(next.counted, next.owner, user, side, n) - Sum(s.counted, next.owner, user, side, n) ==
            (Of(At(next.storage, ref), side) - Of(At(s.storage, ref), side))
            + (UserTotal(next.delivered, user, side) - UserTotal(s.delivered, user, side)) <==>
            Sum(next.counted - {ref}, next.owner, user, side, n) == Sum(s.counted - {ref}, next.owner, user, side, n)
  {
    hide Next, Enabled, Registered, Sum, StorageTotals, UserTotal, Balanced, Total, OutOfReach, Of, WellFormed;
    var s, next := states[a], states[b];
    RegisteredTrafficConserved(states, steps, user, a, b, side, n);
    InitialForm(states[0]);
    RunKeepsForm(states, steps, 0, a);
    forall other: Ref | other < n && Owns(next.owner, other, user) && other != ref
      ensures Stays(s, next, other, side)
    {
      NeverReported(states, steps, other, a, b, side);
    }
    hide Trace, Initial, At;
    SumStranded(s, next, user, side, n, ref);
    SumWithout(next.storage, next.owner, user, side, n, ref);
    SumWithout(s.storage, next.owner, user, side, n, ref);
  }

  // ---------- what a report contains ----------

  /** Different users have different ids. */
  predicate DistinctIds(s: State) {
    forall u, v | u in s.uids && v in s.uids && u != v && s.uids[u] != 0 :: s.uids[u] != s.uids[v]
  }

  predicate DistinctUsers(items: seq<Item>) {
    forall i, j | 0 <= i < j < |items| :: items[i].user != items[j].user
  }

  /** While the lock is held, the items are of different users, under their present ids. */
  predicate ItemsCurrent(s: State) {
    HoldsLock(s.pc) ==>
      && (forall i | 0 <= i < |s.items| ::
            s.items[i].user in s.visited && s.items[i].uid == UidOf(s, s.items[i].user) && s.items[i].uid != 0)
      && DistinctUsers(s.items)
      && (AtUser(s.pc) ==> s.pc.user in s.visited && forall i | 0 <= i < |s.items| :: s.items[i].user != s.pc.user)
  }

  lemma CountingKeepsItems(s: State, step: Step)
    requires ItemsCurrent(s) && Enabled(s, step) && CountStep(step)
    ensures ItemsCurrent(Next(s, step))
  {}

  lemma ScanningKeepsItems(s: State, step: Step)
    requires WellFormed(s) && ItemsCurrent(s) && Enabled(s, step) && ScanStep(step)
    ensures ItemsCurrent(Next(s, step))
  {}

  lemma OneUserMore(items: seq<Item>, item: Item)
    requires DistinctUsers(items) && forall i | 0 <= i < |items| :: items[i].user != item.user
    ensures DistinctUsers(items + [item])
  {}

  /** A user that is counted in full joins those swapped out before. */
  lemma SettlingKeepsItems(s: State)
    requires ItemsCurrent(s) && Enabled(s, Settle)
    ensures ItemsCurrent(Next(s, Settle))
  {
    if UidOf(s, s.pc.user) != 0 {
      var next := Next(s, Settle);
      assert forall i | 0 <= i < |s.items| :: next.items[i] == s.items[i];
      OneUserMore(s.items, next.items[|s.items|]);
    }
    hide DistinctUsers;
  }

  lemma ReportingKeepsItems(s: State, step: Step)
    requires Enabled(s, step) && !CountStep(step) && !ScanStep(step) && !step.Settle?
    ensures !HoldsLock(Next(s, step).pc)
  {}

  lemma StepKeepsItems(s: State, step: Step)
    requires WellFormed(s) && ItemsCurrent(s) && Enabled(s, step)
    ensures ItemsCurrent(Next(s, step))
  {
    hide WellFormed, Enabled, Next;
    if step.Settle? {
      SettlingKeepsItems(s);
    } else if CountStep(step) {
      CountingKeepsItems(s, step);
    } else if ScanStep(step) {
      ScanningKeepsItems(s, step);
    } else {
      ReportingKeepsItems(s, step);
    }
  }

  lemma {:induction false} RunKeepsItems(states: seq<State>, steps: seq<Step>, n: nat)
    requires Trace(states, steps) && n < |states| && Initial(states[0])
    ensures WellFormed(states[n]) && ItemsCurrent(states[n])
  {
    hide Next, Enabled, WellFormed, ItemsCurrent;
    if n > 0 {
      RunKeepsItems(states, steps, n - 1);
      assert states[n - 1 + 1] == Next(states[n - 1], steps[n - 1]);
      StepKeepsForm(states[n - 1], steps[n - 1]);
      StepKeepsItems(states[n - 1], steps[n - 1]);
    } else {
      assert WellFormed(states[0]) && ItemsCurrent(states[0]) by { InitialForm(states[0]); }
    }
  }

  lemma InitialForm(s: State)
    requires Initial(s)
    ensures WellFormed(s) && ItemsCurrent(s)
  {}

  /** The report's payload, by user id. */
  function Payload(items: seq<Item>): map<int, Bytes> {
    if items == [] then map[]
    else Payload(items[..|items| - 1])[items[|items| - 1].uid := items[|items| - 1].bytes]
  }

  lemma {:induction false} PayloadOf(items: seq<Item>, i: nat)
    requires i < |items| && forall k, l | 0 <= k < l < |items| :: items[k].uid != items[l].uid
    ensures items[i].uid in Payload(items) && Payload(items)[items[i].uid] == items[i].bytes
  {
    if i < |items| - 1 {
      PayloadOf(items[..|items| - 1], i);
    }
  }

  /** When users have different ids, the items are under the present, different ids of their users. */
  lemma ItemsDistinct(states: seq<State>, steps: seq<Step>, n: nat)
    requires Trace(states, steps) && n < |states| && Initial(states[0])
    requires HoldsLock(states[n].pc) && DistinctIds(states[n])
    ensures forall i | 0 <= i < |states[n].items| ::
              states[n].items[i].uid == UidOf(states[n], states[n].items[i].user) != 0
    ensures forall k, l | 0 <= k < l < |states[n].items| :: states[n].items[k].uid != states[n].items[l].uid
  {
    RunKeepsItems(states, steps, n);
    hide Trace, Next, Enabled;
    var s := states[n];
    forall k, l | 0 <= k < l < |s.items| ensures s.items[k].uid != s.items[l].uid {
      assert s.items[k].user != s.items[l].user;
    }
  }

  lemma HoldingStep(s: State, step: Step)
    requires Enabled(s, step) && (step.FinishScan? || s.pc.Holding?) && Next(s, step).pc.Holding?
    ensures Next(s, step).items == s.items
  {}

  lemma {:induction false} HoldingKeepsItems(states: seq<State>, steps: seq<Step>, m: nat, n: nat)
    requires Trace(states, steps) && m < n < |states| && steps[m].FinishScan?
    requires forall k | m < k <= n :: states[k].pc.Holding?
    ensures states[n].items == states[m].items
  {
    hide Next, Enabled;
    assert states[n - 1 + 1] == Next(states[n - 1], steps[n - 1]);
    HoldingStep(states[n - 1], steps[n - 1]);
    if m < n - 1 {
      HoldingKeepsItems(states, steps, m, n - 1);
    }
  }

  lemma ScanEnds(states: seq<State>, steps: seq<Step>, m: nat)
    requires Trace(states, steps) && m < |steps| && steps[m].FinishScan?
    ensures HoldsLock(states[m].pc)
  {
    assert Enabled(states[m], steps[m]);
  }

  /**
   From the end of a scan until the report is settled, whatever happens to the users meanwhile, the
   payload that is sent loses nothing when users had different ids at the end of the scan.
   */
  lemma SentReportLosesNothing(states: seq<State>, steps: seq<Step>, m: nat, n: nat, i: nat)
    requires Trace(states, steps) && Initial(states[0]) && m < n < |states| && steps[m].FinishScan?
    requires forall k | m < k <= n :: states[k].pc.Holding?
    requires DistinctIds(states[m]) && i < |states[n].items|
    ensures var item := states[n].items[i];
            && item.uid == UidOf(states[m], item.user) != 0
            && item.uid in Payload(states[n].items) && Payload(states[n].items)[item.uid] == item.bytes
  {
    SentItemsDistinct(states, steps, m, n);
    hide Trace, Next, Enabled, Initial;
    PayloadOf(states[n].items, i);
  }

  lemma SentItemsDistinct(states: seq<State>, steps: seq<Step>, m: nat, n: nat)
    requires Trace(states, steps) && Initial(states[0]) && m < n < |states| && steps[m].FinishScan?
    requires (forall k | m < k <= n :: states[k].pc.Holding?) && DistinctIds(states[m])
    ensures forall i | 0 <= i < |states[n].items| ::
              states[n].items[i].uid == UidOf(states[m], states[n].items[i].user) != 0
    ensures forall k, l | 0 <= k < l < |states[n].items| :: states[n].items[k].uid != states[n].items[l].uid
  {
    HoldingKeepsItems(states, steps, m, n);
    ScanEnds(states, steps, m);
    hide Trace, Next, Enabled, Initial;
    ItemsDistinct(states, steps, m);
  }
}
