/**
 The two ways a user list changes: by a delta from the panel, and by comparison with a new list.
 Either gives three lists that patch the old users into the new ones.
 */
module UserDelta {
  import opened Lists
  import opened Sets
  import opened Users

  // ---------- lists as maps ----------

  lemma {:induction false} OverrideKeys(m: UserMap, users: seq<UserInfo>, uuid: string)
    ensures uuid in Override(m, users) <==> uuid in m || uuid in Uuids(users)
    ensures uuid !in Uuids(users) && uuid in m ==> Override(m, users)[uuid] == m[uuid]
  {
    if users != [] {
      var n := |users| - 1;
      OverrideKeys(m, users[..n], uuid);
      UuidsStep(users, n);
      assert users[..n + 1] == users;
    }
  }

  lemma {:induction false} OverrideAt(m: UserMap, users: seq<UserInfo>, i: nat)
    requires i < |users| && Distinct(users)
    ensures users[i].uuid in Override(m, users) && Override(m, users)[users[i].uuid] == users[i]
  {
    var n := |users| - 1;
    if i < n {
      OverrideAt(m, users[..n], i);
    }
  }

  lemma UuidsStep(users: seq<UserInfo>, i: nat)
    requires i < |users|
    ensures Uuids(users[..i + 1]) == Uuids(users[..i]) + {users[i].uuid}
  {
    var before, after := users[..i], users[..i + 1];
    assert after[i] == users[i] && forall k | 0 <= k < i :: after[k] == before[k];
    forall u | u in Uuids(before) ensures u in Uuids(after) {
      var k :| 0 <= k < i && u == before[k].uuid;
      assert u == after[k].uuid;
    }
  }

  /** The list names this uuid. */
  ghost predicate Names(users: seq<UserInfo>, uuid: string) { exists i :: 0 <= i < |users| && users[i].uuid == uuid }

  /** The last user of the list with its uuid is this one. */
  ghost predicate LastNamed(users: seq<UserInfo>, u: UserInfo) {
    exists i :: 0 <= i < |users| && users[i] == u && forall j | i < j < |users| :: users[j].uuid != u.uuid
  }

  lemma {:induction false} OverrideMeans(m: UserMap, users: seq<UserInfo>, u: UserInfo)
    ensures u.uuid in Override(m, users) && Override(m, users)[u.uuid] == u <==>
            LastNamed(users, u) || (u.uuid in m && m[u.uuid] == u && !Names(users, u.uuid))
  {
    if users != [] {
      var n := |users| - 1;
      var rest := users[..n];
      OverrideMeans(m, rest, u);
      NamedBefore(users, u);
    }
  }

  lemma NamedBefore(users: seq<UserInfo>, u: UserInfo)
    requires users != []
    ensures var n := |users| - 1; Names(users, u.uuid) <==> Names(users[..n], u.uuid) || users[n].uuid == u.uuid
    ensures var n := |users| - 1;
            LastNamed(users, u) <==> users[n] == u || (users[n].uuid != u.uuid && LastNamed(users[..n], u))
  {
    var n := |users| - 1;
    var rest := users[..n];
    assert forall j | 0 <= j < n :: rest[j] == users[j];
    if i :| 0 <= i < n && rest[i].uuid == u.uuid {
      assert users[i].uuid == u.uuid;
    }
    if users[n].uuid != u.uuid && LastNamed(rest, u) {
      var i :| 0 <= i < n && rest[i] == u && forall j | i < j < n :: rest[j].uuid != u.uuid;
      assert users[i] == u && forall j | i < j < |users| :: users[j].uuid != u.uuid;
    }
  }

  /** A list of distinct users holds exactly the users of a map. */
  ghost predicate Holds(users: seq<UserInfo>, m: UserMap) {
    Distinct(users) && forall u :: u in users <==> u.uuid in m && m[u.uuid] == u
  }

  lemma DistinctHolds(users: seq<UserInfo>)
    requires Distinct(users)
    ensures Holds(users, MapOf(users))
  {
    forall u ensures u in users <==> u.uuid in MapOf(users) && MapOf(users)[u.uuid] == u {
      OverrideKeys(map[], users, u.uuid);
      forall i | 0 <= i < |users| ensures users[i].uuid in MapOf(users) && MapOf(users)[users[i].uuid] == users[i] {
        OverrideAt(map[], users, i);
      }
    }
  }

  lemma HoldsIsMapOf(users: seq<UserInfo>, m: UserMap)
    requires Holds(users, m) && forall uuid <- m :: m[uuid].uuid == uuid
    ensures MapOf(users) == m && Uuids(users) == m.Keys
  {
    DistinctHolds(users);
    forall uuid ensures uuid in MapOf(users) <==> uuid in m {
      OverrideKeys(map[], users, uuid);
      if uuid in m {
        assert m[uuid] in users;
      }
    }
    forall uuid | uuid in m ensures MapOf(users)[uuid] == m[uuid] {
      assert m[uuid] in users;
    }
    forall uuid ensures uuid in Uuids(users) <==> uuid in m {
      OverrideKeys(map[], users, uuid);
    }
  }

  lemma DistinctStep(users: seq<UserInfo>, n: nat)
    requires |users| == n + 1
    ensures Distinct(users) <==> Distinct(users[..n]) && users[n].uuid !in Uuids(users[..n])
  {
    var rest := users[..n];
    if Distinct(rest) && users[n].uuid !in Uuids(rest) {
      forall i, j | 0 <= i < j < |users| ensures users[i].uuid != users[j].uuid {
        assert rest[i] == users[i];
        if j < n {
          assert rest[j] == users[j];
        }
      }
    }
  }

  /** A list names as many users as it is long exactly when they are distinct. */
  lemma {:induction false} UuidsSize(users: seq<UserInfo>)
    ensures |Uuids(users)| <= |users|
    ensures |Uuids(users)| == |users| <==> Distinct(users)
  {
    if users == [] {
      assert Uuids(users) == {};
    } else {
      hide Distinct, Uuids;
      var n := |users| - 1;
      UuidsSize(users[..n]);
      UuidsStep(users, n);
      DistinctStep(users, n);
      assert users[..n + 1] == users;
    }
  }

  // ---------- patches ----------

  /** Applying the three lists in the order a sync applies them. */
  function Patched(m: UserMap, deleted: seq<UserInfo>, added: seq<UserInfo>, updated: seq<UserInfo>): UserMap {
    Override(Override(m, updated) - Uuids(deleted), added)
  }

  /** The lists take the old users to the new ones, and each does only what its name says. */
  ghost predicate IsPatch(old_: UserMap, new_: UserMap, deleted: seq<UserInfo>, added: seq<UserInfo>,
                          updated: seq<UserInfo>) {
    && Distinct(added) && Distinct(updated) && Distinct(deleted)
    && (forall u <- deleted :: u.uuid in old_ && old_[u.uuid] == u)
    && Uuids(updated) <= old_.Keys - Uuids(deleted)
    && Uuids(added) !! (old_.Keys - Uuids(deleted))
    && Patched(old_, deleted, added, updated) == new_
  }

  lemma UuidsIn(users: seq<UserInfo>, u: UserInfo)
    requires u in users
    ensures u.uuid in Uuids(users)
  {
    var i :| 0 <= i < |users| && users[i] == u;
  }

  /** What a patch must satisfy to be one, user by user. */
  lemma PatchBy(old_: UserMap, new_: UserMap, deleted: seq<UserInfo>, added: seq<UserInfo>, updated: seq<UserInfo>)
    requires Distinct(added) && Distinct(updated) && Distinct(deleted)
    requires forall u <- deleted :: u.uuid in old_ && old_[u.uuid] == u
    requires Uuids(updated) <= old_.Keys - Uuids(deleted) && Uuids(added) !! (old_.Keys - Uuids(deleted))
    requires new_.Keys == (old_.Keys - Uuids(deleted)) + Uuids(added)
    requires forall u <- added + updated :: new_[u.uuid] == u
    requires forall uuid <- old_ :: uuid !in Uuids(deleted) && uuid !in Uuids(updated) ==> new_[uuid] == old_[uuid]
    ensures IsPatch(old_, new_, deleted, added, updated)
  {
    var kept := Override(old_, updated) - Uuids(deleted);
    forall uuid
      ensures uuid in Patched(old_, deleted, added, updated) <==> uuid in new_
      ensures uuid in new_ ==> Patched(old_, deleted, added, updated)[uuid] == new_[uuid]
    {
      OverrideKeys(old_, updated, uuid);
      OverrideKeys(kept, added, uuid);
      if uuid in Uuids(added) {
        var i :| 0 <= i < |added| && added[i].uuid == uuid;
        OverrideAt(kept, added, i);
        assert added[i] in added + updated;
      } else if uuid in Uuids(updated) {
        var i :| 0 <= i < |updated| && updated[i].uuid == uuid;
        OverrideAt(old_, updated, i);
        assert updated[i] in added + updated;
      }
    }
  }

  // ---------- the order of the list ----------

  /** The order of Go strings. */
  predicate Less(a: string, b: string) {
    b != "" && (a == "" || a[0] < b[0] || (a[0] == b[0] && Less(a[1..], b[1..])))
  }

  /** The first text is a proper prefix of the second, or has the smaller character where they first differ. */
  lemma {:induction false} LessMeans(a: string, b: string)
    ensures Less(a, b) <==>
            exists n :: 0 <= n <= |a| && n < |b| && a[..n] == b[..n] && (n == |a| || a[n] < b[n])
  {
    if a != "" && b != "" && a[0] == b[0] {
      LessMeans(a[1..], b[1..]);
      if Less(a[1..], b[1..]) {
        var n :| 0 <= n <= |a[1..]| && n < |b[1..]| && a[1..][..n] == b[1..][..n]
                 && (n == |a[1..]| || a[1..][n] < b[1..][n]);
        assert a[..n + 1] == [a[0]] + a[1..][..n] && b[..n + 1] == [b[0]] + b[1..][..n];
      }
      if n :| 0 <= n <= |a| && n < |b| && a[..n] == b[..n] && (n == |a| || a[n] < b[n]) {
        assert n > 0;
        assert a[1..][..n - 1] == a[..n][1..] && b[1..][..n - 1] == b[..n][1..];
      }
    } else if b != "" && a != "" {
      if a[0] < b[0] {
        assert a[..0] == b[..0];
      }
      assert forall n | 0 < n <= |a| && n < |b| :: a[..n][0] == a[0] && b[..n][0] == b[0];
    } else if b != "" {
      assert a[..0] == b[..0];
    }
  }

  lemma {:induction false} LessTransitive(a: string, b: string, c: string)
    requires Less(a, b) && Less(b, c)
    ensures Less(a, c)
  {
    if a != "" && a[0] == b[0] == c[0] {
      LessTransitive(a[1..], b[1..], c[1..]);
    }
  }

  lemma {:induction false} LessTotal(a: string, b: string)
    ensures Less(a, b) || a == b || Less(b, a)
    ensures !(Less(a, b) && Less(b, a)) && !Less(a, a)
  {
    if a != "" && b != "" && a[0] == b[0] {
      LessTotal(a[1..], b[1..]);
      assert a == [a[0]] + a[1..] && b == [b[0]] + b[1..];
    } else if a != "" {
      LessTotal(a[1..], a[1..]);
    }
  }

  ghost predicate StrictlySorted(users: seq<UserInfo>) {
    forall i, j | 0 <= i < j < |users| :: Less(users[i].uuid, users[j].uuid)
  }

  function Insert(users: seq<UserInfo>, u: UserInfo): seq<UserInfo> {
    if users == [] || Less(u.uuid, users[0].uuid) then [u] + users
    else [users[0]] + Insert(users[1..], u)
  }

  lemma {:induction false} InsertSorted(users: seq<UserInfo>, u: UserInfo)
    requires StrictlySorted(users) && forall v <- users :: v.uuid != u.uuid
    ensures StrictlySorted(Insert(users, u)) && forall v :: v in Insert(users, u) <==> v in users || v == u
  {
    hide Less;
    if users == [] {
    } else if Less(u.uuid, users[0].uuid) {
      forall i | 0 < i < |users| ensures Less(u.uuid, users[i].uuid) {
        LessTransitive(u.uuid, users[0].uuid, users[i].uuid);
      }
    } else {
      var rest := users[1..];
      assert users == [users[0]] + rest;
      InsertSorted(rest, u);
      assert users[0] in users;
      LessTotal(u.uuid, users[0].uuid);
      forall v | v in Insert(rest, u) ensures Less(users[0].uuid, v.uuid) {
        if v in rest {
          var i :| 0 <= i < |rest| && rest[i] == v;
          assert users[i + 1] == v;
        }
      }
    }
  }

  lemma SortedDistinct(users: seq<UserInfo>)
    requires StrictlySorted(users)
    ensures Distinct(users)
  {
    hide Less;
    forall i, j | 0 <= i < j < |users| ensures users[i].uuid != users[j].uuid {
      LessTotal(users[i].uuid, users[j].uuid);
    }
  }

  /** A strictly sorted list is determined by the users it holds. */
  lemma {:induction false} SortedUnique(a: seq<UserInfo>, b: seq<UserInfo>)
    requires StrictlySorted(a) && StrictlySorted(b) && forall u :: u in a <==> u in b
    ensures a == b
  {
    hide Less;
    FirstIn(a);
    FirstIn(b);
    if a == [] || b == [] {
    } else {
      FirstEqual(a, b);
      forall u ensures u in a[1..] <==> u in b[1..] {
        RestOf(a, u);
        RestOf(b, u);
      }
      SortedUnique(a[1..], b[1..]);
      assert a == [a[0]] + a[1..] && b == [b[0]] + b[1..];
    }
  }

  lemma RestOf(a: seq<UserInfo>, u: UserInfo)
    requires StrictlySorted(a) && a != []
    ensures u in a[1..] <==> u in a && u != a[0]
  {
    hide Less;
    assert a == [a[0]] + a[1..];
    forall i | 1 <= i < |a| ensures a[i] != a[0] {
      LessTotal(a[0].uuid, a[i].uuid);
    }
  }

  lemma FirstEqual(a: seq<UserInfo>, b: seq<UserInfo>)
    requires StrictlySorted(a) && StrictlySorted(b) && a != [] && b != [] && forall u :: u in a <==> u in b
    ensures a[0] == b[0]
  {
    hide Less;
    assert a[0] in b && b[0] in a;
    var i :| 0 <= i < |b| && b[i] == a[0];
    var j :| 0 <= j < |a| && a[j] == b[0];
    if i > 0 && j > 0 {
      LessTotal(a[0].uuid, b[0].uuid);
    }
  }

  /** The strictly sorted list of a map's users. */
  method SortedUsers(m: UserMap) returns (users: seq<UserInfo>)
    requires forall uuid <- m :: m[uuid].uuid == uuid
    ensures StrictlySorted(users) && Holds(users, m)
  {
    hide Less, Insert;
    users := [];
    var left := m.Keys;
    while left != {}
      invariant left <= m.Keys && StrictlySorted(users)
      invariant forall u :: u in users <==> u.uuid in m && u.uuid !in left && m[u.uuid] == u
      decreases |left|
    {
      ghost var some := Inhabited(left);
      var uuid :| uuid in left;
      left := left - {uuid};
      InsertSorted(users, m[uuid]);
      users := Insert(users, m[uuid]);
    }
    SortedDistinct(users);
  }

  // ---------- applying a delta ----------

  /** The users after a delta: deleted ones gone, then the upserted ones put in. */
  function DeltaMap(m: UserMap, deleted: seq<UserInfo>, upsert: seq<UserInfo>): UserMap {
    Override(m - Uuids(deleted), upsert)
  }

  predicate KeyedByUuid(m: UserMap) { forall uuid <- m :: m[uuid].uuid == uuid }

  lemma {:induction false} OverrideKeyed(m: UserMap, users: seq<UserInfo>)
    requires KeyedByUuid(m)
    ensures KeyedByUuid(Override(m, users))
  {
    if users != [] {
      OverrideKeyed(m, users[..|users| - 1]);
    }
  }

  /** The old users named by a delta, in its order, each once. */
  ghost predicate Removes(m: UserMap, deleted: seq<UserInfo>, applied: seq<UserInfo>) {
    && Distinct(applied) && Uuids(applied) == m.Keys * Uuids(deleted)
    && forall u <- applied :: u.uuid in m && m[u.uuid] == u
  }

  method DeleteUsers(m: UserMap, deleted: seq<UserInfo>) returns (left: UserMap, applied: seq<UserInfo>)
    requires KeyedByUuid(m)
    ensures left == m - Uuids(deleted) && Removes(m, deleted, applied)
  {
    left, applied := m, [];
    for i := 0 to |deleted|
      invariant left == m - Uuids(deleted[..i]) && Removes(m, deleted[..i], applied)
    {
      UuidsStep(deleted, i);
      var uuid := deleted[i].uuid;
      if uuid in left {
        RemovesStep(m, deleted[..i], applied, uuid);
        applied := applied + [left[uuid]];
        left := left - {uuid};
      }
    }
    assert deleted[..|deleted|] == deleted;
  }

  lemma RemovesStep(m: UserMap, before: seq<UserInfo>, applied: seq<UserInfo>, uuid: string)
    requires KeyedByUuid(m) && Removes(m, before, applied) && uuid in m && uuid !in Uuids(before)
    ensures Distinct(applied + [m[uuid]]) && Uuids(applied + [m[uuid]]) == Uuids(applied) + {uuid}
  {
    var longer := applied + [m[uuid]];
    UuidsStep(longer, |applied|);
    assert longer[..|applied|] == applied && longer[..|applied| + 1] == longer;
    forall i | 0 <= i < |applied| ensures applied[i].uuid != uuid {
      UuidsIn(applied, applied[i]);
    }
  }

  /** The upserted users that were not there, and those that were. */
  ghost predicate Splits(m: UserMap, upsert: seq<UserInfo>, added: seq<UserInfo>, updated: seq<UserInfo>) {
    && Distinct(added) && Distinct(updated)
    && (forall u :: u in added <==> u in upsert && u.uuid !in m)
    && (forall u :: u in updated <==> u in upsert && u.uuid in m)
  }

  /** Every upserted user is in one of the two lists. */
  ghost predicate Shares(upsert: seq<UserInfo>, added: seq<UserInfo>, updated: seq<UserInfo>) {
    |added| + |updated| == |upsert| && Uuids(added) + Uuids(updated) <= Uuids(upsert)
  }

  method SplitUpsert(m: UserMap, upsert: seq<UserInfo>)
    returns (next: UserMap, added: seq<UserInfo>, updated: seq<UserInfo>)
    ensures next == Override(m, upsert) && Shares(upsert, added, updated)
    ensures Distinct(upsert) ==> Splits(m, upsert, added, updated)
  {
    hide Distinct, Splits, Uuids, Shares, Override;
    next, added, updated := m, [], [];
    SplitNothing(m);
    for i := 0 to |upsert|
      invariant next == Override(m, upsert[..i]) && Shares(upsert[..i], added, updated)
      invariant Distinct(upsert) ==> Splits(m, upsert[..i], added, updated)
    {
      var u := upsert[i];
      OverrideStep(m, upsert, i);
      OverrideKeys(m, upsert[..i], u.uuid);
      SharesStep(upsert, i, added, updated);
      if Distinct(upsert) {
        SplitsStep(m, upsert, i, added, updated);
      }
      if u.uuid in next {
        updated := updated + [u];
      } else {
        added := added + [u];
      }
      next := next[u.uuid := u];
    }
    assert upsert[..|upsert|] == upsert;
  }

  lemma SplitNothing(m: UserMap)
    ensures Override(m, []) == m && Shares([], [], []) && Splits(m, [], [], [])
  {}

  lemma OverrideStep(m: UserMap, users: seq<UserInfo>, i: nat)
    requires i < |users|
    ensures Override(m, users[..i + 1]) == Override(m, users[..i])[users[i].uuid := users[i]]
  {
    assert users[..i + 1][..i] == users[..i];
  }

  lemma SharesStep(upsert: seq<UserInfo>, i: nat, added: seq<UserInfo>, updated: seq<UserInfo>)
    requires i < |upsert| && Shares(upsert[..i], added, updated)
    ensures Shares(upsert[..i + 1], added + [upsert[i]], updated)
            && Shares(upsert[..i + 1], added, updated + [upsert[i]])
  {
    hide Uuids;
    UuidsStep(upsert, i);
    UuidsOneMore(added, upsert[i]);
    UuidsOneMore(updated, upsert[i]);
  }

  lemma UuidsOneMore(users: seq<UserInfo>, u: UserInfo)
    ensures Uuids(users + [u]) == Uuids(users) + {u.uuid}
  {
    var longer := users + [u];
    UuidsStep(longer, |users|);
    assert longer[..|users|] == users && longer[..|users| + 1] == longer;
  }

  lemma SplitsStep(m: UserMap, upsert: seq<UserInfo>, i: nat, added: seq<UserInfo>, updated: seq<UserInfo>)
    requires i < |upsert| && Distinct(upsert) && Splits(m, upsert[..i], added, updated)
    ensures upsert[i].uuid !in Uuids(upsert[..i])
    ensures var u := upsert[i];
            if u.uuid in m then Splits(m, upsert[..i + 1], added, updated + [u])
            else Splits(m, upsert[..i + 1], added + [u], updated)
  {
    assert upsert[..i + 1] == upsert[..i] + [upsert[i]];
    NotYet(upsert, i);
  }

  lemma NotYet(users: seq<UserInfo>, i: nat)
    requires i < |users| && Distinct(users)
    ensures users[i].uuid !in Uuids(users[..i]) && forall u <- users[..i] :: u.uuid != users[i].uuid
  {}

  /**
   The next list is the strictly sorted form of the old users without the deleted ones, overridden
   by the upserted ones. The three reported lists patch the old users into it exactly when no user
   is upserted twice.
   */
  method ApplyUserDelta(old_: seq<UserInfo>, deleted: seq<UserInfo>, upsert: seq<UserInfo>)
    returns (next: seq<UserInfo>, deletedApplied: seq<UserInfo>, added: seq<UserInfo>, updated: seq<UserInfo>)
    ensures StrictlySorted(next) && Distinct(next)
    ensures MapOf(next) == DeltaMap(MapOf(old_), deleted, upsert)
    ensures IsPatch(MapOf(old_), MapOf(next), deletedApplied, added, updated) <==> Distinct(upsert)
    ensures forall u :: u in next <==>
              || LastNamed(upsert, u)
              || (LastNamed(old_, u) && !Names(deleted, u.uuid) && !Names(upsert, u.uuid))
    ensures forall u :: u in deletedApplied <==> LastNamed(old_, u) && Names(deleted, u.uuid)
    ensures Distinct(upsert) ==>
              forall u :: u in added <==> u in upsert && !(Names(old_, u.uuid) && !Names(deleted, u.uuid))
    ensures Distinct(upsert) ==>
              forall u :: u in updated <==> u in upsert && Names(old_, u.uuid) && !Names(deleted, u.uuid)
  {
    hide Less, Override, IsPatch, Distinct, StrictlySorted;
    ghost var before := MapOf(old_);
    OverrideKeyed(map[], old_);
    var m := MapOf(old_);
    m, deletedApplied := DeleteUsers(m, deleted);
    ghost var left := m;
    OverrideKeyed(m, upsert);
    m, added, updated := SplitUpsert(m, upsert);
    next := SortedUsers(m);
    HoldsIsMapOf(next, m);
    if Distinct(upsert) {
      DeltaPatch(before, deleted, upsert, deletedApplied, added, updated);
    }
    if IsPatch(before, MapOf(next), deletedApplied, added, updated) {
      PatchIsDistinct(before, MapOf(next), upsert, deletedApplied, added, updated);
    }
    HoldsDistinct(next, m);
    DeltaMeans(old_, deleted, upsert, next, deletedApplied, added, updated);
  }

  /** What the lists of a delta hold, said of the users in the lists given. */
  lemma DeltaMeans(old_: seq<UserInfo>, deleted: seq<UserInfo>, upsert: seq<UserInfo>, next: seq<UserInfo>,
                   applied: seq<UserInfo>, added: seq<UserInfo>, updated: seq<UserInfo>)
    requires Holds(next, DeltaMap(MapOf(old_), deleted, upsert)) && Removes(MapOf(old_), deleted, applied)
    requires KeyedByUuid(MapOf(old_))
    requires Distinct(upsert) ==> Splits(MapOf(old_) - Uuids(deleted), upsert, added, updated)
    ensures forall u :: u in next <==>
              || LastNamed(upsert, u)
              || (LastNamed(old_, u) && !Names(deleted, u.uuid) && !Names(upsert, u.uuid))
    ensures forall u :: u in applied <==> LastNamed(old_, u) && Names(deleted, u.uuid)
    ensures Distinct(upsert) ==>
              forall u :: u in added <==> u in upsert && !(Names(old_, u.uuid) && !Names(deleted, u.uuid))
    ensures Distinct(upsert) ==>
              forall u :: u in updated <==> u in upsert && Names(old_, u.uuid) && !Names(deleted, u.uuid)
  {
    hide Override, LastNamed, Distinct, KeyedByUuid;
    var m := MapOf(old_);
    forall u: UserInfo
      ensures u.uuid in m && m[u.uuid] == u <==> LastNamed(old_, u)
      ensures u.uuid in DeltaMap(m, deleted, upsert) && DeltaMap(m, deleted, upsert)[u.uuid] == u <==>
              LastNamed(upsert, u) || (LastNamed(old_, u) && !Names(deleted, u.uuid) && !Names(upsert, u.uuid))
      ensures u.uuid in m <==> Names(old_, u.uuid)
    {
      OverrideMeans(map[], old_, u);
      OverrideMeans(m - Uuids(deleted), upsert, u);
      OverrideKeys(map[], old_, u.uuid);
    }
    forall u ensures u in applied <==> LastNamed(old_, u) && Names(deleted, u.uuid) {
      if LastNamed(old_, u) && Names(deleted, u.uuid) {
        assert u.uuid in Uuids(applied);
        var i :| 0 <= i < |applied| && applied[i].uuid == u.uuid;
        assert applied[i] in applied;
      }
      if u in applied {
        UuidsIn(applied, u);
        assert u.uuid in Uuids(deleted);
      }
    }
  }

  /** Lists that share out the upserted users are no patch if a user is upserted twice. */
  lemma PatchIsDistinct(m: UserMap, next: UserMap, upsert: seq<UserInfo>,
                        applied: seq<UserInfo>, added: seq<UserInfo>, updated: seq<UserInfo>)
    requires Shares(upsert, added, updated) && IsPatch(m, next, applied, added, updated)
    ensures Distinct(upsert)
  {
    hide Distinct, Uuids;
    assert |Uuids(added) + Uuids(updated)| == |Uuids(added)| + |Uuids(updated)|;
    UuidsSize(added);
    UuidsSize(updated);
    UuidsSize(upsert);
    SubsetSize(Uuids(added) + Uuids(updated), Uuids(upsert));
  }

  lemma HoldsDistinct(users: seq<UserInfo>, m: UserMap)
    requires Holds(users, m)
    ensures Distinct(users)
  {}

  lemma DeltaPatch(m: UserMap, deleted: seq<UserInfo>, upsert: seq<UserInfo>,
                   applied: seq<UserInfo>, added: seq<UserInfo>, updated: seq<UserInfo>)
    requires KeyedByUuid(m) && Distinct(upsert)
    requires Removes(m, deleted, applied) && Splits(m - Uuids(deleted), upsert, added, updated)
    ensures IsPatch(m, DeltaMap(m, deleted, upsert), applied, added, updated)
  {
    hide Override;
    var left, next := m - Uuids(deleted), DeltaMap(m, deleted, upsert);
    assert left == m - Uuids(applied);
    forall uuid
      ensures uuid in Uuids(added) <==> uuid in Uuids(upsert) && uuid !in left
      ensures uuid in Uuids(updated) <==> uuid in Uuids(upsert) && uuid in left
      ensures uuid in next <==> uuid in left || uuid in Uuids(added)
      ensures uuid in left && uuid !in Uuids(updated) ==> next[uuid] == m[uuid]
    {
      OverrideKeys(left, upsert, uuid);
      if i :| 0 <= i < |upsert| && upsert[i].uuid == uuid {
        assert upsert[i] in (if uuid in left then updated else added);
        UuidsIn(if uuid in left then updated else added, upsert[i]);
      }
    }
    forall u | u in added + updated ensures next[u.uuid] == u {
      assert u in upsert;
      var i :| 0 <= i < |upsert| && upsert[i] == u;
      OverrideAt(left, upsert, i);
    }
    PatchBy(m, next, applied, added, updated);
  }

  // ---------- comparing with a new list ----------

  /** What the comparison must find. */
  ghost predicate Compares(old_: UserMap, new_: seq<UserInfo>, deleted: seq<UserInfo>, added: seq<UserInfo>,
                           updated: seq<UserInfo>) {
    && Distinct(deleted) && Distinct(added) && Distinct(updated)
    && (forall u :: u in added <==> u in new_ && u.uuid !in old_)
    && (forall u :: u in updated <==> u in new_ && u.uuid in old_ && old_[u.uuid] != u)
    && (forall u :: u in deleted <==> u.uuid in old_ && old_[u.uuid] == u && u.uuid !in Uuids(new_))
  }

  /** The list of a map's users, in no particular order. */
  method AllUsers(m: UserMap) returns (users: seq<UserInfo>)
    requires KeyedByUuid(m)
    ensures Holds(users, m)
  {
    users := [];
    var left := m.Keys;
    while left != {}
      invariant left <= m.Keys && Distinct(users)
      invariant forall u :: u in users <==> u.uuid in m && u.uuid !in left && m[u.uuid] == u
      decreases |left|
    {
      ghost var some := Inhabited(left);
      var uuid :| uuid in left;
      left := left - {uuid};
      assert forall u <- users :: u.uuid != uuid;
      users := users + [m[uuid]];
    }
  }

  /** The lists found so far, for a new list of distinct users. */
  ghost predicate Compared(old_: UserMap, seen: seq<UserInfo>, added: seq<UserInfo>, updated: seq<UserInfo>) {
    && Distinct(added) && Distinct(updated)
    && (forall u :: u in added <==> u in seen && u.uuid !in old_)
    && (forall u :: u in updated <==> u in seen && u.uuid in old_ && old_[u.uuid] != u)
  }

  /** Every user seen is added, or the first one to match an old user. */
  ghost predicate Matched(old_: UserMap, seen: seq<UserInfo>, added: seq<UserInfo>) {
    |added| + |old_.Keys * Uuids(seen)| == |seen| && Uuids(added) <= Uuids(seen)
  }

  /** Patching the old list with the three lists gives the new list, exactly when that names no user twice. */
  method CompareUserList(old_: seq<UserInfo>, new_: seq<UserInfo>)
    returns (deleted: seq<UserInfo>, added: seq<UserInfo>, updated: seq<UserInfo>)
    ensures forall u :: u in deleted <==> u.uuid in MapOf(old_) && MapOf(old_)[u.uuid] == u && u.uuid !in Uuids(new_)
    ensures Distinct(new_) ==> Compares(MapOf(old_), new_, deleted, added, updated)
    ensures IsPatch(MapOf(old_), MapOf(new_), deleted, added, updated) <==> Distinct(new_)
  {
    hide Override, IsPatch, Compared, Matched, Distinct, Uuids;
    OverrideKeyed(map[], old_);
    ghost var before := MapOf(old_);
    var oldMap := MapOf(old_);
    added, updated := [], [];
    NothingCompared(before);
    for i := 0 to |new_|
      invariant oldMap == before - Uuids(new_[..i])
      invariant Matched(before, new_[..i], added)
      invariant Distinct(new_) ==> Compared(before, new_[..i], added, updated)
    {
      var u := new_[i];
      UuidsStep(new_, i);
      MatchedStep(before, new_, i, added);
      if Distinct(new_) {
        ComparedStep(before, new_, i, added, updated);
      }
      if u.uuid !in oldMap {
        added := added + [u];
        continue;
      }
      var oldUser := oldMap[u.uuid];
      if oldUser.id != u.id || oldUser.speedLimit != u.speedLimit || oldUser.deviceLimit != u.deviceLimit {
        updated := updated + [u];
      }
      oldMap := oldMap - {u.uuid};
    }
    assert new_[..|new_|] == new_;
    deleted := AllUsers(oldMap);
    ComparedAll(before, new_, deleted, added, updated);
    if Distinct(new_) {
      ComparePatch(before, new_, deleted, added, updated);
    }
    if IsPatch(before, MapOf(new_), deleted, added, updated) {
      ComparedDistinct(before, new_, deleted, added, updated);
    }
  }

  lemma NothingCompared(old_: UserMap)
    ensures Compared(old_, [], [], []) && Matched(old_, [], []) && old_ - Uuids([]) == old_
  {
    assert old_.Keys * Uuids([]) == {};
  }

  lemma MatchedStep(old_: UserMap, new_: seq<UserInfo>, i: nat, added: seq<UserInfo>)
    requires i < |new_| && Matched(old_, new_[..i], added)
    ensures Matched(old_, new_[..i + 1],
                    if new_[i].uuid in old_ && new_[i].uuid !in Uuids(new_[..i]) then added else added + [new_[i]])
  {
    hide Uuids;
    var uuid := new_[i].uuid;
    UuidsStep(new_, i);
    UuidsOneMore(added, new_[i]);
    CommonStep(old_.Keys, Uuids(new_[..i]), uuid);
  }

  lemma ComparedStep(old_: UserMap, new_: seq<UserInfo>, i: nat, added: seq<UserInfo>, updated: seq<UserInfo>)
    requires i < |new_| && Distinct(new_) && KeyedByUuid(old_) && Compared(old_, new_[..i], added, updated)
    ensures new_[i].uuid !in Uuids(new_[..i])
    ensures var u := new_[i];
            Compared(old_, new_[..i + 1], if u.uuid in old_ then added else added + [u],
                     if u.uuid in old_ && old_[u.uuid] != u then updated + [u] else updated)
  {
    assert new_[..i + 1] == new_[..i] + [new_[i]];
    NotYet(new_, i);
  }

  lemma ComparedAll(old_: UserMap, new_: seq<UserInfo>, deleted: seq<UserInfo>, added: seq<UserInfo>,
                    updated: seq<UserInfo>)
    requires KeyedByUuid(old_) && Holds(deleted, old_ - Uuids(new_))
    ensures Distinct(new_) && Compared(old_, new_, added, updated) ==> Compares(old_, new_, deleted, added, updated)
    ensures forall u :: u in deleted <==> u.uuid in old_ && old_[u.uuid] == u && u.uuid !in Uuids(new_)
  {}

  /** Lists found by comparison are no patch if the new list names a user twice. */
  lemma ComparedDistinct(old_: UserMap, new_: seq<UserInfo>, deleted: seq<UserInfo>, added: seq<UserInfo>,
                         updated: seq<UserInfo>)
    requires Matched(old_, new_, added) && IsPatch(old_, MapOf(new_), deleted, added, updated)
    requires forall u <- deleted :: u.uuid !in Uuids(new_)
    ensures Distinct(new_)
  {
    hide Distinct, Override;
    var both := old_.Keys * Uuids(new_);
    forall uuid | uuid in both ensures uuid !in Uuids(added) {
      assert uuid !in Uuids(deleted);
    }
    assert |Uuids(added) + both| == |Uuids(added)| + |both|;
    UuidsSize(added);
    UuidsSize(new_);
    SubsetSize(Uuids(added) + both, Uuids(new_));
  }

  lemma ComparePatch(old_: UserMap, new_: seq<UserInfo>, deleted: seq<UserInfo>, added: seq<UserInfo>,
                     updated: seq<UserInfo>)
    requires KeyedByUuid(old_) && Distinct(new_) && Compares(old_, new_, deleted, added, updated)
    ensures IsPatch(old_, MapOf(new_), deleted, added, updated)
  {
    hide Override;
    var next := MapOf(new_);
    DistinctHolds(new_);
    forall uuid
      ensures uuid in Uuids(deleted) <==> uuid in old_ && uuid !in Uuids(new_)
      ensures uuid in Uuids(added) <==> uuid in Uuids(new_) && uuid !in old_
      ensures uuid in Uuids(updated) ==> uuid in Uuids(new_) && uuid in old_
      ensures uuid in next <==> uuid in Uuids(new_)
      ensures uuid in old_ && uuid in Uuids(new_) && uuid !in Uuids(updated) ==> next[uuid] == old_[uuid]
    {
      OverrideKeys(map[], new_, uuid);
      if uuid in old_ && uuid !in Uuids(new_) {
        UuidsIn(deleted, old_[uuid]);
      }
      if i :| 0 <= i < |new_| && new_[i].uuid == uuid {
        if uuid !in old_ {
          UuidsIn(added, new_[i]);
        } else if old_[uuid] != new_[i] {
          UuidsIn(updated, new_[i]);
        }
      }
    }
    PatchBy(old_, next, deleted, added, updated);
  }
}
