/**
 User replication of one node: warm start from a saved state, catching up by deltas or full lists,
 and the indexes of the limiter and the core that must agree with the user list.

 The panel is known by its history, which gives the users at each revision; the users at revision 0
 are none. An answer of the panel is correct for the revision it was asked from.
 */
module UserSync {
  import opened Results
  import opened Users
  import opened UserDelta
  import L = Limiter

  datatype Delta = Delta(revision: int, full: bool, users: seq<UserInfo>, deleted: seq<UserInfo>, upsert: seq<UserInfo>)

  /**
   A delta request fails, is not supported, is cancelled without an answer, or is answered. Those of
   a start are made in the background context, which nobody cancels; those of a sync can be.
   */
  datatype DeltaAnswer = Failed | Unsupported | Cancelled | Answered(delta: Delta)

  datatype Saved = Saved(revision: int, users: seq<UserInfo>)

  type History = int -> UserMap

  /** Full lists are non-empty and complete; deltas lead from the revision asked from. */
  ghost predicate Correct(history: History, since: int, answer: DeltaAnswer) {
    answer.Answered? ==>
      var d := answer.delta;
      if d.full then Distinct(d.users) && d.users != [] && MapOf(d.users) == history(d.revision)
      else Distinct(d.upsert) && DeltaMap(history(since), d.deleted, d.upsert) == history(d.revision)
  }

  // ---------- indexes ----------

  /** The limiter's records are those of exactly these users. */
  ghost predicate IndexesInfos(infos: map<string, L.LimitInfo>, tag: string, m: UserMap) {
    && (forall uuid :: UserTag(tag, uuid) in infos <==> uuid in m)
    && (forall uuid :: uuid in m ==>
          infos[UserTag(tag, uuid)] == L.LimitInfo(m[uuid].id, m[uuid].speedLimit, m[uuid].deviceLimit))
    && forall key <- infos :: exists uuid :: key == UserTag(tag, uuid)
  }

  ghost predicate IndexesUuids(ids: map<string, int>, m: UserMap) {
    ids.Keys == m.Keys && forall uuid <- m :: ids[uuid] == m[uuid].id
  }

  /** The core's ids for this tag are those of exactly these users; other tags may have more. */
  ghost predicate IndexesUids(uidMap: map<string, int>, tag: string, m: UserMap) {
    && (forall uuid :: UserTag(tag, uuid) in uidMap <==> uuid in m)
    && forall uuid :: uuid in m ==> uidMap[UserTag(tag, uuid)] == m[uuid].id
  }

  lemma TagIn(tag: string, users: seq<UserInfo>, uuid: string)
    ensures UserTag(tag, uuid) in Tags(tag, users) <==> uuid in Uuids(users)
  {
    if UserTag(tag, uuid) in Tags(tag, users) {
      var i :| 0 <= i < |users| && UserTag(tag, uuid) == UserTag(tag, users[i].uuid);
      UserTagInjective(tag, uuid, users[i].uuid);
    }
    if i :| 0 <= i < |users| && users[i].uuid == uuid {
      assert UserTag(tag, uuid) == UserTag(tag, users[i].uuid);
    }
  }

  lemma RemoveIndexed(infos: map<string, L.LimitInfo>, ids: map<string, int>, tag: string, m: UserMap,
                      users: seq<UserInfo>)
    requires IndexesInfos(infos, tag, m) && IndexesUuids(ids, m)
    ensures IndexesInfos(infos - Tags(tag, users), tag, m - Uuids(users))
            && IndexesUuids(ids - Uuids(users), m - Uuids(users))
  {
    hide UserTag;
    forall uuid ensures UserTag(tag, uuid) in Tags(tag, users) <==> uuid in Uuids(users) {
      TagIn(tag, users, uuid);
    }
  }

  lemma RemoveUids(uidMap: map<string, int>, tag: string, m: UserMap, users: seq<UserInfo>)
    requires IndexesUids(uidMap, tag, m)
    ensures IndexesUids(uidMap - Tags(tag, users), tag, m - Uuids(users))
  {
    hide UserTag;
    forall uuid ensures UserTag(tag, uuid) in Tags(tag, users) <==> uuid in Uuids(users) {
      TagIn(tag, users, uuid);
    }
  }

  lemma PutOneInfo(infos: map<string, L.LimitInfo>, tag: string, m: UserMap, u: UserInfo)
    requires IndexesInfos(infos, tag, m)
    ensures IndexesInfos(infos[UserTag(tag, u.uuid) := L.InfoOf(u)], tag, m[u.uuid := u])
  {
    hide UserTag;
    var infos', m' := infos[UserTag(tag, u.uuid) := L.InfoOf(u)], m[u.uuid := u];
    forall uuid
      ensures UserTag(tag, uuid) in infos' <==> uuid in m'
      ensures uuid in m' ==>
                infos'[UserTag(tag, uuid)] == L.LimitInfo(m'[uuid].id, m'[uuid].speedLimit, m'[uuid].deviceLimit)
    {
      UserTagInjective(tag, uuid, u.uuid);
    }
    forall key | key in infos' ensures exists uuid :: key == UserTag(tag, uuid) {
      if key != UserTag(tag, u.uuid) {
        assert key in infos;
      }
    }
  }

  lemma {:induction false} PutIndexed(infos: map<string, L.LimitInfo>, ids: map<string, int>, tag: string, m: UserMap,
                                      users: seq<UserInfo>)
    requires IndexesInfos(infos, tag, m) && IndexesUuids(ids, m)
    ensures IndexesInfos(L.PutInfos(infos, tag, users), tag, Override(m, users))
            && IndexesUuids(L.PutIds(ids, users), Override(m, users))
  {
    hide UserTag, IndexesInfos;
    if users != [] {
      var rest, last := users[..|users| - 1], users[|users| - 1];
      PutIndexed(infos, ids, tag, m, rest);
      PutOneInfo(L.PutInfos(infos, tag, rest), tag, Override(m, rest), last);
    }
  }

  function PutUids(uidMap: map<string, int>, tag: string, users: seq<UserInfo>): map<string, int> {
    if users == [] then uidMap
    else
      var last := users[|users| - 1];
      PutUids(uidMap, tag, users[..|users| - 1])[UserTag(tag, last.uuid) := last.id]
  }

  lemma PutOneUid(uidMap: map<string, int>, tag: string, m: UserMap, u: UserInfo)
    requires IndexesUids(uidMap, tag, m)
    ensures IndexesUids(uidMap[UserTag(tag, u.uuid) := u.id], tag, m[u.uuid := u])
  {
    hide UserTag;
    forall uuid ensures UserTag(tag, uuid) == UserTag(tag, u.uuid) ==> uuid == u.uuid {
      UserTagInjective(tag, uuid, u.uuid);
    }
  }

  lemma {:induction false} PutUidsIndexed(uidMap: map<string, int>, tag: string, m: UserMap, users: seq<UserInfo>)
    requires IndexesUids(uidMap, tag, m)
    ensures IndexesUids(PutUids(uidMap, tag, users), tag, Override(m, users))
  {
    hide UserTag, IndexesUids;
    if users != [] {
      var rest, last := users[..|users| - 1], users[|users| - 1];
      PutUidsIndexed(uidMap, tag, m, rest);
      PutOneUid(PutUids(uidMap, tag, rest), tag, Override(m, rest), last);
    }
  }

  // ---------- the core ----------

  /** What the core keeps of the users: their ids, their traffic counters by tag, and their open connections. */
  class Core {
    var uidMap: map<string, int>
    var counters: map<string, set<string>>
    var links: set<string>

    constructor (uidMap: map<string, int>)
      ensures this.uidMap == uidMap && counters == map[] && links == {}
    {
      this.uidMap, counters, links := uidMap, map[], {};
    }

    method AddUsers(tag: string, users: seq<UserInfo>)
      modifies this`uidMap
      ensures uidMap == PutUids(old(uidMap), tag, users)
    {
      for i := 0 to |users|
        invariant uidMap == PutUids(old(uidMap), tag, users[..i])
      {
        assert users[..i + 1][..i] == users[..i];
        uidMap := uidMap[UserTag(tag, users[i].uuid) := users[i].id];
      }
      assert users[..|users|] == users;
    }

    method UpdateUserIDs(tag: string, users: seq<UserInfo>)
      modifies this`uidMap
      ensures uidMap == PutUids(old(uidMap), tag, users)
    {
      AddUsers(tag, users);
    }

    /** Nothing is left of the deleted users: no id, no counter under the tag, no connection. */
    method DelUsers(users: seq<UserInfo>, tag: string)
      modifies this
      ensures uidMap == old(uidMap) - Tags(tag, users) && links == old(links) - Tags(tag, users)
      ensures counters == CountersWithout(old(counters), tag, Tags(tag, users))
    {
      hide UserTag, Tags, CountersWithout;
      NothingDropped(uidMap, counters, links, tag);
      for i := 0 to |users|
        invariant uidMap == old(uidMap) - Tags(tag, users[..i]) && links == old(links) - Tags(tag, users[..i])
        invariant counters == CountersWithout(old(counters), tag, Tags(tag, users[..i]))
      {
        var user := UserTag(tag, users[i].uuid);
        L.TagsStep(tag, users, i);
        DroppedOne(old(uidMap), old(counters), old(links), tag, Tags(tag, users[..i]), user);
        uidMap := uidMap - {user};
        if tag in counters {
          counters := counters[tag := counters[tag] - {user}];
        }
        if user in links {
          links := links - {user};
        }
      }
      assert users[..|users|] == users;
    }
  }

  /** The counters when those of these users under a tag are dropped. */
  function CountersWithout(counters: map<string, set<string>>, tag: string, users: set<string>)
    : map<string, set<string>>
  {
    if tag in counters then counters[tag := counters[tag] - users] else counters
  }

  lemma NothingDropped(uidMap: map<string, int>, counters: map<string, set<string>>, links: set<string>, tag: string)
    ensures uidMap - Tags(tag, []) == uidMap && links - Tags(tag, []) == links
    ensures CountersWithout(counters, tag, Tags(tag, [])) == counters
  {
    assert Tags(tag, []) == {};
    assert tag in counters ==> counters[tag] - {} == counters[tag];
  }

  lemma DroppedOne(uidMap: map<string, int>, counters: map<string, set<string>>, links: set<string>,
                   tag: string, users: set<string>, user: string)
    ensures uidMap - users - {user} == uidMap - (users + {user}) && links - users - {user} == links - (users + {user})
    ensures var left := CountersWithout(counters, tag, users);
            CountersWithout(counters, tag, users + {user}) ==
            if tag in left then left[tag := left[tag] - {user}] else left
    ensures user !in links - users ==> links - (users + {user}) == links - users
  {
    assert tag in counters ==> counters[tag] - users - {user} == counters[tag] - (users + {user});
  }

  // ---------- catching up ----------

  /** Two lists of users agree on those that a delta does not name. */
  predicate AgreeElsewhere(m: UserMap, m': UserMap, deleted: seq<UserInfo>, upsert: seq<UserInfo>) {
    var named := Uuids(deleted) + Uuids(upsert);
    m - named == m' - named
  }

  lemma {:induction false} OverrideSame(m: UserMap, m': UserMap, users: seq<UserInfo>, uuid: string)
    requires uuid in Uuids(users)
    ensures uuid in Override(m, users) && uuid in Override(m', users)
    ensures Override(m, users)[uuid] == Override(m', users)[uuid]
  {
    var n := |users| - 1;
    UuidsStep(users, n);
    assert users[..n + 1] == users;
    if uuid != users[n].uuid {
      OverrideSame(m, m', users[..n], uuid);
    }
  }

  /** A delta leads two lists to the same users exactly when they agree on the users it does not name. */
  lemma DeltaCatchesUp(m: UserMap, m': UserMap, deleted: seq<UserInfo>, upsert: seq<UserInfo>)
    ensures DeltaMap(m, deleted, upsert) == DeltaMap(m', deleted, upsert) <==> AgreeElsewhere(m, m', deleted, upsert)
  {
    hide Override, Uuids;
    var next, next' := DeltaMap(m, deleted, upsert), DeltaMap(m', deleted, upsert);
    var named := Uuids(deleted) + Uuids(upsert);
    forall uuid
      ensures uuid in next <==> uuid in m - named || uuid in Uuids(upsert)
      ensures uuid in next' <==> uuid in m' - named || uuid in Uuids(upsert)
      ensures uuid in m - named ==> next[uuid] == m[uuid]
      ensures uuid in m' - named ==> next'[uuid] == m'[uuid]
      ensures uuid in Uuids(upsert) ==> next[uuid] == next'[uuid]
    {
      OverrideKeys(m - Uuids(deleted), upsert, uuid);
      OverrideKeys(m' - Uuids(deleted), upsert, uuid);
      if uuid in Uuids(upsert) {
        OverrideSame(m - Uuids(deleted), m' - Uuids(deleted), upsert, uuid);
      }
    }
    if next == next' {
      forall uuid ensures uuid in m - named <==> uuid in m' - named {
        assert uuid in next <==> uuid in next';
      }
      forall uuid | uuid in m - named ensures m[uuid] == m'[uuid] {
        assert next[uuid] == next'[uuid];
      }
    }
    if AgreeElsewhere(m, m', deleted, upsert) {
      forall uuid | uuid in next ensures uuid in next' && next[uuid] == next'[uuid] {
        if uuid in m - named {
          assert uuid in m' - named && (m - named)[uuid] == (m' - named)[uuid];
        }
      }
      forall uuid | uuid in next' ensures uuid in next {
        if uuid in m' - named {
          assert uuid in m - named;
        }
      }
    }
  }

  /** The users after an answer. */
  function After(m: UserMap, delta: Delta): UserMap {
    if delta.full then MapOf(delta.users) else DeltaMap(m, delta.deleted, delta.upsert)
  }

  /** An answer makes a list the panel's, whose users at the revision asked from were `then_`. */
  predicate CatchesUp(m: UserMap, then_: UserMap, delta: Delta) {
    delta.full || AgreeElsewhere(m, then_, delta.deleted, delta.upsert)
  }

  /** A complete answer replaces what a list holds exactly when every user it does not name is deleted. */
  lemma CompleteAnswerCatchesUp(m: UserMap, deleted: seq<UserInfo>, upsert: seq<UserInfo>)
    ensures DeltaMap(m, deleted, upsert) == MapOf(upsert) <==> m.Keys - Uuids(deleted) <= Uuids(upsert)
  {
    hide Override, Uuids;
    DeltaFromNothing(deleted, upsert);
    DeltaCatchesUp(m, map[], deleted, upsert);
    NothingElsewhere(m, Uuids(deleted), Uuids(upsert));
  }

  lemma NothingElsewhere(m: UserMap, deleted: set<string>, upsert: set<string>)
    ensures var none: UserMap := map[];
            m - (deleted + upsert) == none - (deleted + upsert) <==> m.Keys - deleted <= upsert
  {
    var none: UserMap := map[];
    assert none - (deleted + upsert) == none;
    if m - (deleted + upsert) == none {
      forall uuid | uuid in m.Keys - deleted ensures uuid in upsert {
        assert uuid !in m - (deleted + upsert);
      }
    } else {
      assert m.Keys - deleted <= upsert ==> m - (deleted + upsert) == none;
    }
  }

  /**
   Starting a node puts its users into the core's ids but removes none, so the ids for its tag are
   those of the started users exactly when every id left from before belongs to one of them.
   */
  lemma StartAgreesWhen(uidMap: map<string, int>, tag: string, users: seq<UserInfo>)
    requires Distinct(users)
    ensures IndexesUids(PutUids(uidMap, tag, users), tag, MapOf(users)) <==>
            forall uuid :: UserTag(tag, uuid) in uidMap ==> uuid in Uuids(users)
  {
    hide UserTag;
    forall uuid
      ensures UserTag(tag, uuid) in PutUids(uidMap, tag, users) <==>
              UserTag(tag, uuid) in uidMap || uuid in Uuids(users)
      ensures uuid in MapOf(users) <==> uuid in Uuids(users)
      ensures uuid in Uuids(users) ==>
                uuid in MapOf(users) && PutUids(uidMap, tag, users)[UserTag(tag, uuid)] == MapOf(users)[uuid].id
    {
      PutUidsKeys(uidMap, tag, users, uuid);
      OverrideKeys(map[], users, uuid);
      if i :| 0 <= i < |users| && users[i].uuid == uuid {
        PutUidsAt(uidMap, tag, users, i);
        OverrideAt(map[], users, i);
      }
    }
  }

  lemma {:induction false} PutUidsKeys(uidMap: map<string, int>, tag: string, users: seq<UserInfo>, uuid: string)
    ensures UserTag(tag, uuid) in PutUids(uidMap, tag, users) <==> UserTag(tag, uuid) in uidMap || uuid in Uuids(users)
  {
    hide UserTag;
    if users != [] {
      var n := |users| - 1;
      PutUidsKeys(uidMap, tag, users[..n], uuid);
      UserTagInjective(tag, uuid, users[n].uuid);
      UuidsStep(users, n);
      assert users[..n + 1] == users;
    }
  }

  lemma {:induction false} PutUidsAt(uidMap: map<string, int>, tag: string, users: seq<UserInfo>, i: nat)
    requires i < |users| && Distinct(users)
    ensures UserTag(tag, users[i].uuid) in PutUids(uidMap, tag, users)
    ensures PutUids(uidMap, tag, users)[UserTag(tag, users[i].uuid)] == users[i].id
  {
    hide UserTag;
    var n := |users| - 1;
    if i < n {
      PutUidsAt(uidMap, tag, users[..n], i);
      UserTagInjective(tag, users[i].uuid, users[n].uuid);
    }
  }

  /** A snapshot less the counts of users of the old list, among them all that are not in the new one. */
  ghost predicate ForgetsGone(before: L.Alive, after: L.Alive, m: UserMap, m': UserMap) {
    && after.ips == before.ips && after.mode == before.mode && after.pulledAt == before.pulledAt
    && (forall id <- after.counts :: id in before.counts && after.counts[id] == before.counts[id])
    && (forall id <- before.counts :: id in after.counts || exists uuid <- m :: m[uuid].id == id)
    && forall uuid <- m :: uuid in m' || m[uuid].id !in after.counts
  }

  lemma NothingForgotten(before: L.Alive, m: UserMap, m': UserMap, deleted: seq<UserInfo>, added: seq<UserInfo>,
                         updated: seq<UserInfo>)
    requires IsPatch(m, m', deleted, added, updated)
    ensures ForgetsGone(before, before.(counts := before.counts - Ids(deleted)), m, m')
    ensures |deleted| == 0 ==> ForgetsGone(before, before, m, m')
  {
    hide Distinct;
    forall id | id in Ids(deleted) ensures exists uuid <- m :: m[uuid].id == id {
      var i :| 0 <= i < |deleted| && deleted[i].id == id;
      assert deleted[i] in deleted;
    }
    forall uuid | uuid in m && uuid !in m' ensures m[uuid].id in Ids(deleted) && |deleted| > 0 {
      OverrideKeys(m, updated, uuid);
      OverrideKeys(Override(m, updated) - Uuids(deleted), added, uuid);
      var i :| 0 <= i < |deleted| && deleted[i].uuid == uuid;
      assert deleted[i] in deleted;
    }
  }

  // ---------- the controller ----------

  /** A start gets its users with a revision: from the saved state brought up to date, or from revision 0. */
  predicate Revises(supported: bool, consults: bool, warm: DeltaAnswer, zero: DeltaAnswer) {
    supported && ((consults && warm.Answered?) || (!(consults && warm.Unsupported?) && zero.Answered?))
  }

  /** Deltas are still in use after a start. */
  predicate StaysSupported(supported: bool, consults: bool, warm: DeltaAnswer, zero: DeltaAnswer) {
    supported && ((consults && warm.Answered?) || (!(consults && warm.Unsupported?) && !zero.Unsupported?))
  }

  /** A start gives up because its request from revision 0 fails. */
  predicate GivesUp(supported: bool, consults: bool, warm: DeltaAnswer, zero: DeltaAnswer) {
    supported && !(consults && (warm.Answered? || warm.Unsupported?)) && zero.Failed?
  }

  /** A start that is not cancelled gets a revision, or deltas are not in use, or it gives up. */
  lemma NotCancelled(supported: bool, consults: bool, warm: DeltaAnswer, zero: DeltaAnswer)
    requires !zero.Cancelled? && !GivesUp(supported, consults, warm, zero)
    ensures Revises(supported, consults, warm, zero) || !StaysSupported(supported, consults, warm, zero)
  {}

  class Controller {
    const tag: string
    const nodeType: string
    const hasStateFile: bool
    const core: Core
    var limiter: L.Limiter
    var userList: seq<UserInfo>
    var userRevision: int
    var deltaSupported: bool
    var saved: Option<Saved>

    constructor (tag: string, nodeType: string, hasStateFile: bool, core: Core, limiter: L.Limiter,
                 saved: Option<Saved>)
      ensures this.tag == tag && this.nodeType == nodeType && this.hasStateFile == hasStateFile && this.core == core
      ensures this.limiter == limiter && this.saved == saved && userList == [] && userRevision == 0 && deltaSupported
    {
      this.tag, this.nodeType, this.hasStateFile, this.core := tag, nodeType, hasStateFile, core;
      this.limiter, this.saved, userList, userRevision, deltaSupported := limiter, saved, [], 0, true;
    }

    /** While deltas are in use, the list is the panel's at the revision held. */
    ghost predicate Replicates(history: History)
      reads this
    {
      Distinct(userList) && (deltaSupported ==> MapOf(userList) == history(userRevision))
    }

    /** The saved state is a matching pair of revision and users. */
    ghost predicate SavedMatches(history: History)
      reads this
    {
      saved.Some? ==> Distinct(saved.value.users) && MapOf(saved.value.users) == history(saved.value.revision)
    }

    /** The limiter and the core hold the same users as the list. */
    ghost predicate Agrees()
      reads this, limiter, core
    {
      && limiter.Valid() && limiter.tag == tag
      && IndexesInfos(limiter.infos, tag, MapOf(userList)) && IndexesUuids(limiter.uuidToUID, MapOf(userList))
      && limiter.online.Keys <= limiter.infos.Keys
      && IndexesUids(core.uidMap, tag, MapOf(userList))
    }

    method Save(revision: int, users: seq<UserInfo>, saves: bool)
      modifies this`saved
      ensures saved == if saves then Some(Saved(revision, users)) else old(saved)
    {
      if saves {
        saved := Some(Saved(revision, users));
      }
    }

    /** A start tries the saved state first. */
    predicate Consults(loads: bool)
      reads this
    {
      deltaSupported && hasStateFile && loads && saved.Some? && |saved.value.users| > 0 && saved.value.revision > 0
    }

    /**
     The users to start with. `revised` says that they came with a revision; otherwise they are the
     panel's full list, fetched because deltas are not supported or the delta request was cancelled.
     */
    method LoadAndSyncUsers(ghost history: History, loads: bool, saves: bool, warm: DeltaAnswer, zero: DeltaAnswer,
                            list: Option<seq<UserInfo>>)
      returns (users: Option<seq<UserInfo>>, ghost revised: bool)
      requires SavedMatches(history) && history(0) == map[]
      requires saved.Some? ==> Correct(history, saved.value.revision, warm)
      requires Correct(history, 0, zero) && (list.Some? ==> Distinct(list.value))
      modifies this`userRevision, this`deltaSupported, this`saved
      ensures SavedMatches(history)
      ensures users.Some? ==> Distinct(users.value)
      ensures revised <==> Revises(old(deltaSupported), old(Consults(loads)), warm, zero)
      ensures deltaSupported <==> StaysSupported(old(deltaSupported), old(Consults(loads)), warm, zero)
      ensures old(Consults(loads)) <==>
                && old(deltaSupported) && hasStateFile && loads
                && old(saved).Some? && old(saved).value.users != [] && old(saved).value.revision > 0
      ensures revised ==>
                && users.Some? && MapOf(users.value) == history(userRevision)
                && saved == if hasStateFile && saves then Some(Saved(userRevision, users.value)) else old(saved)
      ensures !revised ==>
                && userRevision == old(userRevision) && saved == old(saved)
                && users == if GivesUp(old(deltaSupported), old(Consults(loads)), warm, zero) then None else list
    {
      revised := false;
      if deltaSupported && hasStateFile && loads && saved.Some? && |saved.value.users| > 0 && saved.value.revision > 0 {
        match warm
        case Answered(delta) =>
          var next := delta.users;
          if !delta.full {
            var d, a, u;
            next, d, a, u := ApplyUserDelta(saved.value.users, delta.deleted, delta.upsert);
          }
          userRevision := delta.revision;
          Save(userRevision, next, saves);
          return Some(next), true;
        case Unsupported => deltaSupported := false;
        case _ =>
      }
      if deltaSupported {
        match zero
        case Failed => return None, false;
        case Unsupported => deltaSupported := false;
        case Cancelled =>
        case Answered(delta) =>
          var next := if delta.full then delta.users else delta.upsert;
          DeltaFromNothing(delta.deleted, delta.upsert);
          userRevision := delta.revision;
          if hasStateFile {
            Save(userRevision, next, saves);
          }
          return Some(next), true;
      }
      return list, false;
    }

    /** `activatePreparedStart`: a new limiter for the users, who are put into the core. */
    method Activate(users: seq<UserInfo>, aliveList: map<int, int>, snapshot: Option<L.AliveMap>, deviceLimit: int,
                    now: int)
      requires Distinct(users)
      modifies this`userList, this`limiter, core
      ensures userList == users && fresh(limiter) && core.uidMap == PutUids(old(core.uidMap), tag, users)
      ensures Agrees() <==> forall uuid :: UserTag(tag, uuid) in old(core.uidMap) ==> uuid in Uuids(users)
      ensures L.Snapshot(limiter.alive, snapshot, now)
      ensures limiter.defaultDeviceLimit ==
              if deviceLimit < 0 then 0 else if deviceLimit > 2_147_483_647 then 2_147_483_647 else deviceLimit
      ensures limiter.tag == tag && limiter.nodeType == nodeType && limiter.online == map[] && limiter.old_ == map[]
    {
      hide UserTag, IndexesInfos, IndexesUuids, IndexesUids, L.BucketsAgree, L.PutInfos, L.PutIds, PutUids, Override,
           Uuids, Distinct, L.AliveOf, L.Snapshot;
      StartIndexed(tag, users);
      userList := users;
      var l := new L.Limiter(nodeType, tag, users, aliveList);
      l.SetAliveSnapshot(snapshot, now);
      l.SetDefaultDeviceLimit(deviceLimit);
      limiter := l;
      core.AddUsers(tag, users);
      StartAgreesWhen(old(core.uidMap), tag, users);
    }

    /**
     The first half of a sync: the next list and the lists that lead to it. After an answer the list
     is the panel's exactly when the answer is a full list, or the list held agreed with the panel's
     at the revision held on every user that the answer does not name.
     */
    method FetchChanges(ghost history: History, saves: bool, answer: DeltaAnswer, list: Option<seq<UserInfo>>)
      returns (ok: bool, deleted: seq<UserInfo>, added: seq<UserInfo>, updated: seq<UserInfo>)
      requires Distinct(userList) && Correct(history, userRevision, answer) && (list.Some? ==> Distinct(list.value))
      modifies this`userList, this`userRevision, this`deltaSupported, this`saved
      ensures Distinct(userList) && IsPatch(MapOf(old(userList)), MapOf(userList), deleted, added, updated)
      ensures old(Replicates(history)) ==> Replicates(history)
      ensures old(SavedMatches(history)) && Replicates(history) ==> SavedMatches(history)
      ensures !ok ==> userList == old(userList) && userRevision == old(userRevision) && saved == old(saved)
      ensures ok ==> (old(deltaSupported) ==> !answer.Failed?) && (deltaSupported || list.Some?)
      ensures old(deltaSupported) && answer.Answered? ==>
                && ok && deltaSupported && userRevision == answer.delta.revision
                && (hasStateFile && saves ==> saved == Some(Saved(userRevision, userList)))
                && MapOf(userList) == After(MapOf(old(userList)), answer.delta)
                && (Replicates(history) <==> CatchesUp(MapOf(old(userList)), history(old(userRevision)), answer.delta))
      ensures !(old(deltaSupported) && answer.Answered?) ==>
                saved == old(saved) && userRevision == old(userRevision)
                    && (deltaSupported ==> userList == old(userList))
      ensures ok && !deltaSupported && list.value != [] ==> userList == list.value
    {
      hide IsPatch, Override, Distinct, AgreeElsewhere;
      deleted, added, updated := [], [], [];
      NoPatch(MapOf(userList));
      if deltaSupported {
        match answer
        case Failed => return false, [], [], [];
        case Unsupported => deltaSupported := false;
        case Cancelled =>
        case Answered(delta) =>
          userRevision := delta.revision;
          if delta.full {
            deleted, added, updated := CompareUserList(userList, delta.users);
            userList := delta.users;
          } else if |delta.deleted| == 0 && |delta.upsert| == 0 {
            EmptyDelta(MapOf(userList), delta.deleted, delta.upsert);
          } else {
            var next;
            next, deleted, added, updated := ApplyUserDelta(userList, delta.deleted, delta.upsert);
            userList := next;
          }
          DeltaCatchesUp(MapOf(old(userList)), history(old(userRevision)), delta.deleted, delta.upsert);
          if hasStateFile {
            Save(userRevision, userList, saves);
          }
      }
      if !deltaSupported {
        if list.None? {
          return false, [], [], [];
        }
        if |list.value| > 0 {
          deleted, added, updated := CompareUserList(userList, list.value);
          userList := list.value;
        }
      }
      ok := true;
    }

    /** The second half of a sync: the lists are applied to the core and the limiter. */
    method ApplyChanges(ghost m: UserMap, deleted: seq<UserInfo>, added: seq<UserInfo>, updated: seq<UserInfo>)
      requires IsPatch(m, MapOf(userList), deleted, added, updated)
      requires limiter.Valid() && limiter.tag == tag
      requires IndexesInfos(limiter.infos, tag, m) && IndexesUuids(limiter.uuidToUID, m)
               && IndexesUids(core.uidMap, tag, m)
      requires limiter.online.Keys <= limiter.infos.Keys
      modifies limiter, core
      ensures Agrees()
      ensures limiter.alive ==
              if |added| == |deleted| == 0 then old(limiter.alive)
              else old(limiter.alive).(counts := old(limiter.alive.counts) - Ids(deleted))
      ensures limiter.defaultDeviceLimit == old(limiter.defaultDeviceLimit)
              && limiter.speedLimit == old(limiter.speedLimit) && limiter.old_ == old(limiter.old_)
    {
      hide Ids, Tags;
      hide IndexesInfos, IndexesUuids, IndexesUids, Override, UserTag, L.PutInfos, L.PutIds, PutUids, L.BucketsAgree,
           MapOf, Uuids, Distinct;
      if |updated| > 0 {
        limiter.UpdateUserInfo(tag, updated);
        core.UpdateUserIDs(tag, updated);
      }
      PutNothing(m, limiter.infos, limiter.uuidToUID, core.uidMap, tag, updated);
      PutIndexed(old(limiter.infos), old(limiter.uuidToUID), tag, m, updated);
      PutUidsIndexed(old(core.uidMap), tag, m, updated);
      ghost var m1, infos1, ids1, uids1 := Override(m, updated), limiter.infos, limiter.uuidToUID, core.uidMap;
      OnlineStays(old(limiter.infos), tag, updated, limiter.online.Keys);
      if |deleted| > 0 {
        core.DelUsers(deleted, tag);
      }
      RemoveNothing(m1, infos1, ids1, uids1, tag, deleted);
      RemoveIndexed(infos1, ids1, tag, m1, deleted);
      RemoveUids(uids1, tag, m1, deleted);
      ghost var m2, uids2 := m1 - Uuids(deleted), core.uidMap;
      if |added| > 0 {
        core.AddUsers(tag, added);
      }
      PutNothing(m2, infos1 - Tags(tag, deleted), ids1 - Uuids(deleted), uids2, tag, added);
      PutIndexed(infos1 - Tags(tag, deleted), ids1 - Uuids(deleted), tag, m2, added);
      PutUidsIndexed(uids2, tag, m2, added);
      OnlineStays(infos1 - Tags(tag, deleted), tag, added, limiter.online.Keys - Tags(tag, deleted));
      AddedHaveNoBucket(m, MapOf(userList), deleted, added, updated, limiter.buckets, limiter.infos, tag,
                        limiter.speedLimit);
      PatchedIs(m, MapOf(userList), deleted, added, updated);
      if |added| > 0 || |deleted| > 0 {
        limiter.UpdateUser(tag, added, deleted);
      }
    }

    /**
     One sync in which every apply step succeeds. From agreeing indexes it leads to agreeing indexes,
     it keeps the list the panel's at the revision held, and an answer makes it so exactly when it
     catches up.
     */
    method ExecuteNodeUserSync(ghost history: History, saves: bool, answer: DeltaAnswer, list: Option<seq<UserInfo>>,
                               alive: Option<Option<L.AliveMap>>, now: int)
      returns (ok: bool, deleted: nat, added: nat, updated: nat)
      requires Agrees() && Distinct(userList)
      requires Correct(history, userRevision, answer) && (list.Some? ==> Distinct(list.value))
      modifies this`userList, this`userRevision, this`deltaSupported, this`saved, limiter, core
      ensures Agrees() && Distinct(userList)
      ensures old(Replicates(history)) ==> Replicates(history)
      ensures old(SavedMatches(history)) && Replicates(history) ==> SavedMatches(history)
      ensures !ok ==> userList == old(userList) && userRevision == old(userRevision)
      ensures !ok ==> limiter.alive == old(limiter.alive)
      ensures ok ==> exists d, a, u ::
                && IsPatch(MapOf(old(userList)), MapOf(userList), d, a, u)
                && |d| == deleted && |a| == added && |u| == updated
      ensures ok ==>
                var pulled := if alive.Some? then L.AliveOf(alive.value, now) else old(limiter.alive);
                && (alive.Some? ==> L.Snapshot(pulled, alive.value, now))
                && ForgetsGone(pulled, limiter.alive, MapOf(old(userList)), MapOf(userList))
      ensures limiter.defaultDeviceLimit == old(limiter.defaultDeviceLimit)
              && limiter.speedLimit == old(limiter.speedLimit) && limiter.old_ == old(limiter.old_)
      ensures old(deltaSupported) && answer.Answered? ==>
                && ok && deltaSupported && userRevision == answer.delta.revision
                && (hasStateFile && saves ==> saved == Some(Saved(userRevision, userList)))
                && MapOf(userList) == After(MapOf(old(userList)), answer.delta)
                && (Replicates(history) <==> CatchesUp(MapOf(old(userList)), history(old(userRevision)), answer.delta))
    {
      hide IndexesInfos, IndexesUuids, IndexesUids, IsPatch, MapOf, L.BucketsAgree, Distinct, Correct, CatchesUp, After,
           ForgetsGone, L.AliveOf, L.Snapshot;
      ghost var m := MapOf(userList);
      var d, a, u;
      ok, d, a, u := FetchChanges(history, saves, answer, list);
      if !ok {
        return false, 0, 0, 0;
      }
      if alive.Some? {
        limiter.SetAliveSnapshot(alive.value, now);
      }
      NothingForgotten(limiter.alive, m, MapOf(userList), d, a, u);
      ApplyChanges(m, d, a, u);
      return true, |d|, |a|, |u|;
    }

    /**
     A start: the users are loaded and, unless there are none, put to work. The list is then the
     panel's at the revision held exactly when the users came with one or deltas are not in use, which
     is always so when the request from revision 0 is not cancelled.
     */
    method Start(ghost history: History, loads: bool, saves: bool, warm: DeltaAnswer, zero: DeltaAnswer,
                 list: Option<seq<UserInfo>>,
                 aliveList: map<int, int>, snapshot: Option<L.AliveMap>, deviceLimit: int, now: int)
      returns (ok: bool, ghost revised: bool)
      requires SavedMatches(history) && history(0) == map[]
      requires saved.Some? ==> Correct(history, saved.value.revision, warm)
      requires Correct(history, 0, zero) && (list.Some? ==> Distinct(list.value))
      modifies this`userList, this`userRevision, this`deltaSupported, this`saved, this`limiter, core
      ensures SavedMatches(history)
      ensures revised <==> Revises(old(deltaSupported), old(Consults(loads)), warm, zero)
      ensures deltaSupported <==> StaysSupported(old(deltaSupported), old(Consults(loads)), warm, zero)
      ensures ok <==>
                if revised then history(userRevision) != map[]
                else list.Some? && list.value != [] && !GivesUp(old(deltaSupported), old(Consults(loads)), warm, zero)
      ensures if ok then userList != [] && Distinct(userList) && fresh(limiter) else limiter == old(limiter)
      ensures ok && old(userRevision) == 0 ==> (Replicates(history) <==> revised || !deltaSupported)
      ensures ok && old(userRevision) == 0 && !zero.Cancelled? ==> Replicates(history)
      ensures !revised ==> saved == old(saved) && userRevision == old(userRevision) && (ok ==> Some(userList) == list)
      ensures ok ==> (Agrees() <==> forall uuid :: UserTag(tag, uuid) in old(core.uidMap) ==> uuid in Uuids(userList))
    {
      hide UserTag, Distinct, Correct, MapOf, Uuids, IndexesInfos, IndexesUuids, IndexesUids, Revises, StaysSupported,
           GivesUp;
      var users;
      users, revised := LoadAndSyncUsers(history, loads, saves, warm, zero, list);
      if users.None? {
        return false, revised;
      }
      NoUsers(users.value);
      if users.value == [] {
        return false, revised;
      }
      if !zero.Cancelled? && !revised {
        NotCancelled(old(deltaSupported), old(Consults(loads)), warm, zero);
      }
      Activate(users.value, aliveList, snapshot, deviceLimit, now);
      ok := true;
    }

    /**
     Any number of syncs with a panel that answers correctly for whatever revision it is asked from:
     afterwards the list is still the panel's at the revision held, and all indexes agree with it.
     */
    method RunSyncs(ghost history: History, panel: (nat, int) -> DeltaAnswer, lists: nat -> Option<seq<UserInfo>>,
                    alive: nat -> Option<Option<L.AliveMap>>, saves: nat -> bool, clock: nat -> int, rounds: nat)
      requires Agrees() && Replicates(history) && SavedMatches(history)
      requires forall t, since :: Correct(history, since, panel(t, since))
      requires forall t :: lists(t).Some? ==> Distinct(lists(t).value)
      modifies this`userList, this`userRevision, this`deltaSupported, this`saved, limiter, core
      ensures Agrees() && Replicates(history) && SavedMatches(history)
    {
      hide Correct, Distinct, MapOf, IndexesInfos, IndexesUuids, IndexesUids, L.BucketsAgree;
      for t := 0 to rounds
        invariant Agrees() && Replicates(history) && SavedMatches(history)
      {
        var _, _, _, _ := ExecuteNodeUserSync(history, saves(t), panel(t, userRevision), lists(t), alive(t), clock(t));
      }
    }
  }

  // ---------- whole runs ----------

  /** What can happen to a node: its process starts, the panel is asked, a user connects, or a report is committed. */
  datatype Event =
    | Boot(loads: bool, warm: int -> DeltaAnswer, zero: DeltaAnswer, aliveList: map<int, int>,
           snapshot: Option<L.AliveMap>, limit: int)
    | Sync(answer: int -> DeltaAnswer, alive: Option<Option<L.AliveMap>>)
    | Connect(user: string, ip: string, noUDPsource: bool)
    | Report(reported: seq<L.OnlineUser>)

  /**
   The panel's answers are correct for whatever revision it is asked from. The requests of a start
   are not cancelled: the only one to make them does so in the background context
   (node/controller.go:128).
   */
  ghost predicate Honest(history: History, e: Event) {
    match e
    case Boot(_, warm, zero, _, _, _) =>
      (forall since :: Correct(history, since, warm(since))) && Correct(history, 0, zero) && !zero.Cancelled?
    case Sync(answer, _) => forall since :: Correct(history, since, answer(since))
    case _ => true
  }

  /** A node between two events: it may be down, and keeps its saved state over the starts of its process. */
  ghost predicate Sound(c: Controller, up: bool, history: History)
    reads c, c.limiter, c.core
  {
    c.SavedMatches(history) && (up ==> c.Agrees() && c.Replicates(history))
  }

  /**
   Any run of a node from a matching saved state, or from none: while the node is up its list is the
   panel's at the revision held and all indexes agree with it, and the saved state always matches.
   */
  method Run(ghost history: History, tag: string, nodeType: string, hasStateFile: bool, state: Option<Saved>,
             events: seq<Event>,
             lists: nat -> Option<seq<UserInfo>>, saves: nat -> bool, clock: nat -> int)
    returns (c: Controller, up: bool)
    requires history(0) == map[] && forall t | 0 <= t < |events| :: Honest(history, events[t])
    requires state.Some? ==> Distinct(state.value.users) && MapOf(state.value.users) == history(state.value.revision)
    requires forall t :: lists(t).Some? ==> Distinct(lists(t).value)
    ensures Sound(c, up, history)
  {
    hide Distinct, MapOf, Correct, IndexesInfos, IndexesUuids, IndexesUids, L.BucketsAgree, L.PutInfos, L.PutIds;
    var core := new Core(map[]);
    var none := new L.Limiter(nodeType, tag, [], map[]);
    c := new Controller(tag, nodeType, hasStateFile, core, none, state);
    up := false;
    for t := 0 to |events|
      invariant fresh(c) && fresh(c.limiter) && fresh(c.core)
      invariant c.tag == tag && Sound(c, up, history)
    {
      if events[t].Boot? {
        c, up := Reboot(history, c, nodeType, events[t], lists(t), saves(t), clock(t));
      } else if up {
        Happen(history, c, events[t], lists(t), saves(t), clock(t));
      }
    }
  }

  /** The process starts: nothing is left of the old one but the saved state. */
  method Reboot(ghost history: History, old_: Controller, nodeType: string, e: Event, list: Option<seq<UserInfo>>,
                saves: bool, now: int)
    returns (c: Controller, up: bool)
    requires e.Boot? && Honest(history, e) && history(0) == map[] && (list.Some? ==> Distinct(list.value))
    requires old_.SavedMatches(history)
    ensures fresh(c) && fresh(c.limiter) && fresh(c.core) && c.tag == old_.tag && Sound(c, up, history)
  {
    hide Distinct, MapOf, Correct, IndexesInfos, IndexesUuids, IndexesUids, L.BucketsAgree;
    var core := new Core(map[]);
    var none := new L.Limiter(nodeType, old_.tag, [], map[]);
    c := new Controller(old_.tag, nodeType, old_.hasStateFile, core, none, old_.saved);
    var warm := if c.saved.Some? then e.warm(c.saved.value.revision) else Cancelled;
    ghost var revised;
    up, revised := c.Start(history, e.loads, saves, warm, e.zero, list, e.aliveList, e.snapshot, e.limit, now);
  }

  method Happen(ghost history: History, c: Controller, e: Event, list: Option<seq<UserInfo>>, saves: bool, now: int)
    requires !e.Boot? && Honest(history, e) && Sound(c, true, history) && (list.Some? ==> Distinct(list.value))
    modifies c`userList, c`userRevision, c`deltaSupported, c`saved, c.limiter, c.core
    ensures Sound(c, true, history)
  {
    hide MapOf, Correct, IndexesInfos, IndexesUuids, IndexesUids, L.BucketsAgree, Distinct, CatchesUp;
    match e
    case Sync(answer, alive) =>
      var _, _, _, _ := c.ExecuteNodeUserSync(history, saves, answer(c.userRevision), list, alive, now);
    case Connect(user, ip, noUDPsource) =>
      var _, _, _ := c.limiter.CheckLimit(user, ip, noUDPsource, now);
    case Report(reported) =>
      c.limiter.CommitOnlineDeviceReport(reported, now);
  }

  // ---------- starts that go wrong ----------

  /**
   Why a start must not be cancelled: one whose delta request were cancelled would take the full
   list of revision 1 without its revision. When a user is then deleted, the correct complete answer
   for revision 2 leaves it in the list, and in the saved state. Starts run in the background
   context, so no start of the node is cancelled.
   */
  method CancelledStartKeepsGoneUser(gone: UserInfo, stays: UserInfo, now: int)
    returns (c: Controller, ghost history: History)
    requires gone.uuid != stays.uuid
    ensures history(0) == map[] && MapOf([gone, stays]) == history(1) && MapOf([stays]) == history(2)
    ensures c.userRevision == 2 && gone.uuid in MapOf(c.userList) && gone.uuid !in history(2)
    ensures !c.Replicates(history) && !c.SavedMatches(history) && c.Agrees()
  {
    history := r => if r == 1 then MapOf([gone, stays]) else if r == 2 then MapOf([stays]) else map[];
    var answer := Answered(Delta(2, false, [], [], [stays]));
    TwoUsers(gone, stays);
    GoneStays(gone, stays, history, answer);
    hide MapOf, Override, Uuids, AgreeElsewhere, Distinct, Correct, After, CatchesUp;
    hide IndexesInfos, IndexesUuids, IndexesUids, L.BucketsAgree;
    c := StartCancelled(history, [gone, stays], now);
    FallBehind(c, history, answer, now);
  }

  /** A correct answer that does not catch up spoils the list, and the saved state with it. */
  method FallBehind(c: Controller, ghost history: History, answer: DeltaAnswer, now: int)
    requires c.Agrees() && Distinct(c.userList) && c.deltaSupported && c.hasStateFile && answer.Answered?
    requires Correct(history, c.userRevision, answer)
             && !CatchesUp(MapOf(c.userList), history(c.userRevision), answer.delta)
    modifies c, c.limiter, c.core
    ensures c.userRevision == answer.delta.revision && MapOf(c.userList) == After(old(MapOf(c.userList)), answer.delta)
    ensures !c.Replicates(history) && !c.SavedMatches(history) && c.Agrees()
  {
    hide MapOf, Distinct, Correct, After, CatchesUp, IndexesInfos, IndexesUuids, IndexesUids, L.BucketsAgree;
    var _, _, _, _ := c.ExecuteNodeUserSync(history, true, answer, None, None, now);
  }

  /** A first start as it would be if its request could be cancelled. */
  method StartCancelled(ghost history: History, users: seq<UserInfo>, now: int) returns (c: Controller)
    requires history(0) == map[] && users != [] && Distinct(users)
    ensures fresh(c) && fresh(c.limiter) && fresh(c.core) && c.Agrees()
    ensures c.userList == users && c.userRevision == 0 && c.deltaSupported && c.hasStateFile && c.saved.None?
  {
    hide MapOf, Override, IndexesInfos, IndexesUuids, IndexesUids, L.BucketsAgree, Uuids, Distinct;
    var core := new Core(map[]);
    var none := new L.Limiter("vless", "t", [], map[]);
    c := new Controller("t", "vless", true, core, none, None);
    var _, _ := c.Start(history, true, true, Cancelled, Cancelled, Some(users), map[], None, 0, now);
  }

  lemma TwoUsers(gone: UserInfo, stays: UserInfo)
    requires gone.uuid != stays.uuid
    ensures gone.uuid in MapOf([gone, stays]) && gone.uuid !in MapOf([stays]) && Distinct([gone, stays])
            && Distinct([stays])
    ensures gone.uuid in Uuids([gone, stays]) && gone.uuid !in Uuids([stays])
  {
    var both := [gone, stays];
    OverrideAt(map[], both, 0);
    OverrideKeys(map[], [stays], gone.uuid);
    assert both[0].uuid in Uuids(both);
  }

  lemma GoneStays(gone: UserInfo, stays: UserInfo, history: History, answer: DeltaAnswer)
    requires gone.uuid != stays.uuid && history(0) == map[] && history(2) == MapOf([stays])
    requires answer == Answered(Delta(2, false, [], [], [stays]))
    ensures Correct(history, 0, answer) && !CatchesUp(MapOf([gone, stays]), history(0), answer.delta)
    ensures gone.uuid in After(MapOf([gone, stays]), answer.delta)
  {
    hide Override;
    TwoUsers(gone, stays);
    DeltaFromNothing([], [stays]);
    var m := MapOf([gone, stays]);
    assert gone.uuid in m - Uuids([]);
    OverrideKeys(m - Uuids([]), [stays], gone.uuid);
    assert gone.uuid in m - (Uuids([]) + Uuids([stays]));
  }

  /** A node that starts again in the same process keeps the id of a user that has gone meanwhile. */
  method RestartKeepsLeftOverId(gone: UserInfo, stays: UserInfo, now: int) returns (c: Controller)
    requires gone.uuid != stays.uuid
    ensures c.userList == [stays] && UserTag(c.tag, gone.uuid) in c.core.uidMap && !c.Agrees()
  {
    hide UserTag, MapOf, Override, IndexesInfos, IndexesUuids, IndexesUids, L.BucketsAgree, Uuids, PutUids;
    TwoUsers(gone, stays);
    var core := new Core(map[]);
    var none := new L.Limiter("vless", "t", [], map[]);
    var first := new Controller("t", "vless", false, core, none, None);
    first.Activate([gone, stays], map[], None, 0, now);
    PutUidsKeys(map[], "t", [gone, stays], gone.uuid);
    c := new Controller("t", "vless", false, core, none, None);
    PutUidsKeys(core.uidMap, "t", [stays], gone.uuid);
    c.Activate([stays], map[], None, 0, now);
  }

  lemma StartIndexed(tag: string, users: seq<UserInfo>)
    ensures IndexesInfos(L.PutInfos(map[], tag, users), tag, MapOf(users))
            && IndexesUuids(L.PutIds(map[], users), MapOf(users))
  {
    assert IndexesInfos(map[], tag, map[]) && IndexesUuids(map[], map[]);
    PutIndexed(map[], map[], tag, map[], users);
  }

  lemma NoUsers(users: seq<UserInfo>)
    ensures MapOf(users) == map[] <==> users == []
  {
    if users != [] {
      assert users[|users| - 1].uuid in MapOf(users);
    }
  }

  lemma NoPatch(m: UserMap)
    ensures IsPatch(m, m, [], [], [])
  {
    assert m - Uuids([]) == m;
  }

  lemma DeltaFromNothing(deleted: seq<UserInfo>, upsert: seq<UserInfo>)
    ensures DeltaMap(map[], deleted, upsert) == MapOf(upsert)
  {
    var none: UserMap := map[];
    assert none - Uuids(deleted) == none;
  }

  lemma EmptyDelta(m: UserMap, deleted: seq<UserInfo>, upsert: seq<UserInfo>)
    requires deleted == [] && upsert == []
    ensures DeltaMap(m, deleted, upsert) == m
  {
    assert m - Uuids([]) == m;
  }

  lemma PutNothing(m: UserMap, infos: map<string, L.LimitInfo>, ids: map<string, int>, uids: map<string, int>,
                   tag: string, users: seq<UserInfo>)
    ensures users == [] ==> L.PutInfos(infos, tag, users) == infos && L.PutIds(ids, users) == ids
    ensures users == [] ==> PutUids(uids, tag, users) == uids
  {}

  lemma RemoveNothing(m: UserMap, infos: map<string, L.LimitInfo>, ids: map<string, int>, uids: map<string, int>,
                      tag: string, users: seq<UserInfo>)
    ensures users == [] ==>
              infos - Tags(tag, users) == infos && ids - Uuids(users) == ids && uids - Tags(tag, users) == uids
  {}

  lemma OnlineStays(infos: map<string, L.LimitInfo>, tag: string, users: seq<UserInfo>, online: set<string>)
    requires online <= infos.Keys
    ensures online <= L.PutInfos(infos, tag, users).Keys
  {
    forall key | key in online ensures key in L.PutInfos(infos, tag, users) {
      L.PutInfosKeeps(infos, tag, users, key);
    }
  }

  lemma PatchedIs(m: UserMap, next: UserMap, deleted: seq<UserInfo>, added: seq<UserInfo>, updated: seq<UserInfo>)
    requires IsPatch(m, next, deleted, added, updated)
    ensures Override(Override(m, updated) - Uuids(deleted), added) == next
  {}

  /** A user that a sync adds has no bucket, or one that is dropped with the deleted user of that uuid. */
  lemma AddedHaveNoBucket(m: UserMap, next: UserMap, deleted: seq<UserInfo>, added: seq<UserInfo>,
                          updated: seq<UserInfo>,
                          buckets: map<string, L.Bucket>, infos: map<string, L.LimitInfo>, tag: string, nodeLimit: int)
    requires IsPatch(m, next, deleted, added, updated)
    requires L.BucketsAgree(buckets, infos, nodeLimit) && IndexesInfos(infos, tag, Override(m, updated))
    ensures L.AddedBucketsAgree(buckets, nodeLimit, tag, added, Tags(tag, deleted))
  {
    hide UserTag, Override, L.Rate;
    forall i | 0 <= i < |added| ensures UserTag(tag, added[i].uuid) !in buckets.Keys - Tags(tag, deleted) {
      var uuid := added[i].uuid;
      UuidsIn(added, added[i]);
      OverrideKeys(m, updated, uuid);
      TagIn(tag, deleted, uuid);
    }
  }
}
