/**
 The device limiter of a node: which source addresses a user may connect from, which of them are
 counted, and the rate each user gets.

 Every operation that looks at the clock takes the time, in nanoseconds, as a parameter.
 */
module Limiter {
  import opened Results
  import opened Sets
  import opened Text
  import opened Users

  const REPORTED_TTL := 120_000_000_000
  const MAX_DEVICE_LIMIT := 0x7fff_ffff
  const MAPPED_PREFIX := "::ffff:"

  datatype OldEntry = OldEntry(uid: int, reportedAt: int)

  datatype LimitInfo = LimitInfo(uid: int, speedLimit: int, deviceLimit: int)

  datatype OnlineUser = OnlineUser(uid: int, ip: string, tag: string)

  datatype Bucket = Bucket(rate: int)

  /** What the last alive pull said. */
  datatype Alive = Alive(counts: map<int, int>, ips: map<int, set<string>>, mode: int, pulledAt: int)

  datatype AliveMap = AliveMap(alive: map<int, int>, aliveIPs: map<int, seq<string>>, mode: int)

  type AddressMap = map<string, int>

  type OnlineMap = map<string, AddressMap>

  type OldMap = map<string, OldEntry>

  // ---------- known and pending addresses ----------

  predicate Fresh(entry: OldEntry, now: int) {
    entry.reportedAt <= 0 || now - entry.reportedAt <= REPORTED_TTL
  }

  predicate OwnsOld(old_: OldMap, uid: int, ip: string, now: int) {
    ip in old_ && Fresh(old_[ip], now) && old_[ip].uid == uid
  }

  predicate GloballyAlive(alive: Alive, uid: int, ip: string) {
    alive.mode == 1 && uid in alive.ips && ip in alive.ips[uid]
  }

  predicate Known(old_: OldMap, alive: Alive, uid: int, ip: string, now: int) {
    OwnsOld(old_, uid, ip, now) || GloballyAlive(alive, uid, ip)
  }

  /** The recorded addresses of a user that nobody has reported yet. */
  function Pending(ips: AddressMap, old_: OldMap, alive: Alive, uid: int, now: int): set<string> {
    set ip | ip in ips && ips[ip] == uid && !Known(old_, alive, uid, ip, now)
  }

  /** The addresses this node reported after the last alive pull. */
  function Recent(old_: OldMap, alive: Alive, uid: int, now: int): set<string> {
    set ip | ip in old_ && old_[ip].uid == uid && Fresh(old_[ip], now) && old_[ip].reportedAt > alive.pulledAt
  }

  function KnownCount(old_: OldMap, alive: Alive, uid: int, now: int): int {
    (if uid in alive.counts then alive.counts[uid] else 0) + |Recent(old_, alive, uid, now)|
  }

  function AddressesOf(online: OnlineMap, tag: string): AddressMap {
    if tag in online then online[tag] else map[]
  }

  /** The user's addresses that this node has reported since the last pull, at most two minutes ago. */
  ghost function ReportedSince(old_: map<string, OldEntry>, alive: Alive, uid: int, now: int): set<string> {
    set ip | && ip in old_ && old_[ip].uid == uid && old_[ip].reportedAt > alive.pulledAt
             && (old_[ip].reportedAt <= 0 || now - old_[ip].reportedAt <= 120_000_000_000)
  }

  /** The address was reported for the user not long ago, or the panel names it. */
  ghost predicate SomebodyKnows(old_: map<string, OldEntry>, alive: Alive, uid: int, ip: string, now: int) {
    || (&& ip in old_ && old_[ip].uid == uid
        && (old_[ip].reportedAt <= 0 || now - old_[ip].reportedAt <= 120_000_000_000))
    || (alive.mode == 1 && uid in alive.ips && ip in alive.ips[uid])
  }

  /** The user's recorded addresses that nobody knows of. */
  ghost function Unreported(ips: map<string, int>, old_: map<string, OldEntry>, alive: Alive, uid: int, now: int)
    : set<string>
  {
    set ip | ip in ips && ips[ip] == uid && !SomebodyKnows(old_, alive, uid, ip, now)
  }

  /** The devices that are counted already: those of the panel, and those reported since it was asked. */
  ghost function Acknowledged(old_: map<string, OldEntry>, alive: Alive, uid: int, now: int): int {
    (if uid in alive.counts then alive.counts[uid] else 0) + |ReportedSince(old_, alive, uid, now)|
  }

  /** All devices of the user: with those that are only recorded. */
  ghost function Devices(ips: map<string, int>, old_: map<string, OldEntry>, alive: Alive, uid: int, now: int): int {
    Acknowledged(old_, alive, uid, now) + |Unreported(ips, old_, alive, uid, now)|
  }

  lemma CountedOut(ips: map<string, int>, old_: map<string, OldEntry>, alive: Alive, uid: int, ip: string, now: int)
    ensures SomebodyKnows(old_, alive, uid, ip, now) <==> Known(old_, alive, uid, ip, now)
    ensures Acknowledged(old_, alive, uid, now) == KnownCount(old_, alive, uid, now)
    ensures Unreported(ips, old_, alive, uid, now) == Pending(ips, old_, alive, uid, now)
  {
    assert ReportedSince(old_, alive, uid, now) == Recent(old_, alive, uid, now);
  }

  // ---------- committing a report ----------

  predicate Reportable(o: OnlineUser) { o.uid > 0 && o.ip != "" }

  function NextOld(reported: seq<OnlineUser>, now: int): OldMap {
    if reported == [] then map[]
    else
      var o := reported[|reported| - 1];
      var m := NextOld(reported[..|reported| - 1], now);
      if Reportable(o) then m[o.ip := OldEntry(o.uid, now)] else m
  }

  function CommitOne(online: OnlineMap, o: OnlineUser): OnlineMap {
    if !Reportable(o) || o.tag == "" || o.tag !in online then online
    else
      var ips := online[o.tag];
      var left := if o.ip in ips && ips[o.ip] == o.uid then ips - {o.ip} else ips;
      if left == map[] then online - {o.tag} else online[o.tag := left]
  }

  function Committed(online: OnlineMap, reported: seq<OnlineUser>): OnlineMap {
    if reported == [] then online
    else CommitOne(Committed(online, reported[..|reported| - 1]), reported[|reported| - 1])
  }

  predicate Reports(reported: seq<OnlineUser>, uid: int, ip: string) {
    exists i | 0 <= i < |reported| :: Reportable(reported[i]) && reported[i].uid == uid && reported[i].ip == ip
  }

  /** No address is reported for two users. */
  predicate NoSharedAddress(reported: seq<OnlineUser>) {
    forall i, j | 0 <= i < |reported| && 0 <= j < |reported| && Reportable(reported[i]) && Reportable(reported[j]) ::
      reported[i].ip == reported[j].ip ==> reported[i].uid == reported[j].uid
  }

  /** The last report of an address is for this user. */
  predicate LastReportedFor(reported: seq<OnlineUser>, uid: int, ip: string) {
    exists i | 0 <= i < |reported| ::
      && Reportable(reported[i]) && reported[i].uid == uid && reported[i].ip == ip
      && forall j | i < j < |reported| :: Reportable(reported[j]) ==> reported[j].ip != ip
  }

  /** The report names an address under the tag it is recorded with, and for the same user. */
  predicate Clears(reported: seq<OnlineUser>, tag: string, uid: int, ip: string) {
    tag != "" && exists i | 0 <= i < |reported| ::
      Reportable(reported[i]) && reported[i].uid == uid && reported[i].ip == ip && reported[i].tag == tag
  }

  predicate Recorded(online: OnlineMap, tag: string, uid: int, ip: string) {
    ip in AddressesOf(online, tag) && AddressesOf(online, tag)[ip] == uid
  }

  /** After a commit an address is held as reported by the user its last report names. */
  lemma {:induction false} NextOldOf(reported: seq<OnlineUser>, uid: int, ip: string, now: int)
    ensures ip in NextOld(reported, now) && NextOld(reported, now)[ip].uid == uid <==>
            LastReportedFor(reported, uid, ip)
    ensures ip in NextOld(reported, now) ==> NextOld(reported, now)[ip].reportedAt == now
  {
    if reported != [] {
      var n := |reported| - 1;
      var rest, o := reported[..n], reported[n];
      NextOldOf(rest, uid, ip, now);
      assert forall i | 0 <= i < n :: rest[i] == reported[i];
      if !(Reportable(o) && o.ip == ip) {
        LastBeforeOther(reported, uid, ip);
      }
    }
  }

  lemma LastBeforeOther(reported: seq<OnlineUser>, uid: int, ip: string)
    requires reported != [] && var o := reported[|reported| - 1]; !(Reportable(o) && o.ip == ip)
    ensures LastReportedFor(reported, uid, ip) <==> LastReportedFor(reported[..|reported| - 1], uid, ip)
  {
    hide Reportable;
    var n := |reported| - 1;
    var rest := reported[..n];
    if LastReportedFor(rest, uid, ip) {
      var i :| 0 <= i < n && Reportable(rest[i]) && rest[i].uid == uid && rest[i].ip == ip
               && forall j | i < j < n :: Reportable(rest[j]) ==> rest[j].ip != ip;
      forall j | i < j < |reported| ensures Reportable(reported[j]) ==> reported[j].ip != ip {
        if j < n {
          assert reported[j] == rest[j];
        }
      }
      assert reported[i] == rest[i];
    }
    if LastReportedFor(reported, uid, ip) {
      var i :| 0 <= i < |reported| && Reportable(reported[i]) && reported[i].uid == uid && reported[i].ip == ip
               && forall j | i < j < |reported| :: Reportable(reported[j]) ==> reported[j].ip != ip;
      assert rest[i] == reported[i];
    }
  }

  /** An address leaves a user's record exactly if it was reported under the same tag and for the same user. */
  lemma {:induction false} CommittedKeeps(online: OnlineMap, reported: seq<OnlineUser>, tag: string, uid: int,
                                          ip: string)
    ensures Recorded(Committed(online, reported), tag, uid, ip) <==>
            Recorded(online, tag, uid, ip) && !Clears(reported, tag, uid, ip)
  {
    if reported != [] {
      var n := |reported| - 1;
      var rest, o := reported[..n], reported[n];
      CommittedKeeps(online, rest, tag, uid, ip);
      CommitOneKeeps(Committed(online, rest), o, tag, uid, ip);
      assert reported[n] == o && forall i | 0 <= i < n :: rest[i] == reported[i];
      ClearsLast(reported, tag, uid, ip);
    }
  }

  lemma CommitOneKeeps(online: OnlineMap, o: OnlineUser, tag: string, uid: int, ip: string)
    ensures Recorded(CommitOne(online, o), tag, uid, ip) <==>
            Recorded(online, tag, uid, ip) && !(tag != "" && Reportable(o) && o.uid == uid && o.ip == ip
                                                && o.tag == tag)
  {}

  lemma ClearsLast(reported: seq<OnlineUser>, tag: string, uid: int, ip: string)
    requires reported != []
    ensures var n := |reported| - 1; var o := reported[n];
            Clears(reported, tag, uid, ip) <==>
            Clears(reported[..n], tag, uid, ip)
                || (tag != "" && Reportable(o) && o.uid == uid && o.ip == ip && o.tag == tag)
  {
    hide Reportable;
    var n := |reported| - 1;
    var rest := reported[..n];
    if Clears(rest, tag, uid, ip) {
      var i :| 0 <= i < n && Reportable(rest[i]) && rest[i].uid == uid && rest[i].ip == ip && rest[i].tag == tag;
      assert reported[i] == rest[i];
    }
    if Clears(reported, tag, uid, ip) {
      var i :| 0 <= i <= n && Reportable(reported[i]) && reported[i].uid == uid && reported[i].ip == ip
          && reported[i].tag == tag;
      if i < n {
        assert rest[i] == reported[i];
      }
    }
  }

  /**
   The pending addresses after a commit: those recorded ones that the report does not name, neither
   under their tag nor last of all users, and that the panel does not know of. So an address
   accepted after the report was taken stays pending.
   */
  lemma PendingAfterCommit(online: OnlineMap, alive: Alive, reported: seq<OnlineUser>, tag: string, uid: int,
                           ip: string, now: int)
    ensures ip in Pending(AddressesOf(Committed(online, reported), tag), NextOld(reported, now), alive, uid, now) <==>
            && Recorded(online, tag, uid, ip) && !Clears(reported, tag, uid, ip)
            && !LastReportedFor(reported, uid, ip) && !GloballyAlive(alive, uid, ip)
  {
    CommittedKeeps(online, reported, tag, uid, ip);
    NextOldOf(reported, uid, ip, now);
  }

  /** The last report of the address, of those with an id and an address, is for this user. */
  ghost predicate NamedLast(reported: seq<OnlineUser>, uid: int, ip: string) {
    ip != "" && uid > 0 && exists i | 0 <= i < |reported| ::
      && reported[i].uid == uid && reported[i].ip == ip
      && forall j | i < j < |reported| :: reported[j].uid > 0 ==> reported[j].ip != ip
  }

  /** The report names the address for this user under this tag. */
  ghost predicate NamedUnder(reported: seq<OnlineUser>, tag: string, uid: int, ip: string) {
    tag != "" && ip != "" && uid > 0 && exists i | 0 <= i < |reported| ::
      reported[i].uid == uid && reported[i].ip == ip && reported[i].tag == tag
  }

  ghost predicate Records(online: map<string, map<string, int>>, tag: string, uid: int, ip: string) {
    tag in online && ip in online[tag] && online[tag][ip] == uid
  }

  lemma NamesMean(reported: seq<OnlineUser>, tag: string, uid: int, ip: string)
    ensures NamedLast(reported, uid, ip) <==> LastReportedFor(reported, uid, ip)
    ensures NamedUnder(reported, tag, uid, ip) <==> Clears(reported, tag, uid, ip)
  {}

  /** What a commit makes of the records and of the reported addresses. */
  lemma CommitMeans(online: OnlineMap, reported: seq<OnlineUser>, now: int)
    ensures forall uid, ip ::
              ip in NextOld(reported, now) && NextOld(reported, now)[ip].uid == uid <==> NamedLast(reported, uid, ip)
    ensures forall ip <- NextOld(reported, now) :: NextOld(reported, now)[ip].reportedAt == now
    ensures forall tag, uid, ip ::
              Records(Committed(online, reported), tag, uid, ip) <==>
              Records(online, tag, uid, ip) && !NamedUnder(reported, tag, uid, ip)
  {
    hide NextOld, Committed, NamedLast, NamedUnder, LastReportedFor, Clears;
    forall uid, ip
      ensures ip in NextOld(reported, now) && NextOld(reported, now)[ip].uid == uid <==> NamedLast(reported, uid, ip)
    {
      NextOldOf(reported, uid, ip, now);
      NamesMean(reported, "", uid, ip);
    }
    forall ip | ip in NextOld(reported, now) ensures NextOld(reported, now)[ip].reportedAt == now {
      NextOldOf(reported, 0, ip, now);
    }
    forall tag, uid, ip
      ensures Records(Committed(online, reported), tag, uid, ip) <==>
              Records(online, tag, uid, ip) && !NamedUnder(reported, tag, uid, ip)
    {
      CommittedKeeps(online, reported, tag, uid, ip);
      NamesMean(reported, tag, uid, ip);
    }
  }

  /** The addresses that take up the user's slots beyond those the panel counts. */
  function Counted(online: OnlineMap, old_: OldMap, alive: Alive, tag: string, uid: int, now: int): set<string> {
    Recent(old_, alive, uid, now) + Pending(AddressesOf(online, tag), old_, alive, uid, now)
  }

  /** What a commit makes of an address of a user that takes up a slot. */
  predicate SlotKept(online: OnlineMap, alive: Alive, reported: seq<OnlineUser>, tag: string, uid: int, ip: string) {
    || LastReportedFor(reported, uid, ip)
    || (Recorded(online, tag, uid, ip) && !Clears(reported, tag, uid, ip) && !GloballyAlive(alive, uid, ip))
  }

  /** The addresses that take up a slot after a commit. */
  lemma SlotAfterCommit(online: OnlineMap, alive: Alive, reported: seq<OnlineUser>, tag: string, uid: int, ip: string,
                        now: int)
    requires now > alive.pulledAt
    ensures ip in Counted(Committed(online, reported), NextOld(reported, now), alive, tag, uid, now) <==>
            SlotKept(online, alive, reported, tag, uid, ip)
  {
    hide Committed, NextOld, LastReportedFor, Clears;
    CommittedKeeps(online, reported, tag, uid, ip);
    NextOldOf(reported, uid, ip, now);
  }

  lemma CountedSize(online: OnlineMap, old_: OldMap, alive: Alive, tag: string, uid: int, now: int)
    ensures |Recent(old_, alive, uid, now)| + |Pending(AddressesOf(online, tag), old_, alive, uid, now)|
            == |Counted(online, old_, alive, tag, uid, now)|
  {
    assert Recent(old_, alive, uid, now) * Pending(AddressesOf(online, tag), old_, alive, uid, now) == {};
  }

  /**
   At a time after the last alive pull, a commit frees no slot of a user when no address is
   reported for two users and the user's addresses that the panel has not yet been asked about are
   in the report again: every address that takes up a slot keeps it.
   */
  lemma CommitKeepsSlots(online: OnlineMap, old_: OldMap, alive: Alive, reported: seq<OnlineUser>, tag: string,
                         uid: int, now: int)
    requires now > alive.pulledAt && NoSharedAddress(reported)
    requires forall ip <- Recent(old_, alive, uid, now) :: Reports(reported, uid, ip)
    ensures var next := NextOld(reported, now);
            && Counted(online, old_, alive, tag, uid, now) <=
               Counted(Committed(online, reported), next, alive, tag, uid, now)
            && KnownCount(next, alive, uid, now)
                + |Pending(AddressesOf(Committed(online, reported), tag), next, alive, uid, now)|
               >= KnownCount(old_, alive, uid, now) + |Pending(AddressesOf(online, tag), old_, alive, uid, now)|
    ensures Devices(AddressesOf(Committed(online, reported), tag), NextOld(reported, now), alive, uid, now)
            >= Devices(AddressesOf(online, tag), old_, alive, uid, now)
  {
    CountedOut(AddressesOf(Committed(online, reported), tag), NextOld(reported, now), alive, uid, "", now);
    CountedOut(AddressesOf(online, tag), old_, alive, uid, "", now);
    hide Unreported, Acknowledged;
    hide Committed, NextOld, NoSharedAddress, Reports, LastReportedFor, Clears, Reportable;
    var next, online' := NextOld(reported, now), Committed(online, reported);
    forall ip | ip in Counted(online, old_, alive, tag, uid, now)
      ensures ip in Counted(online', next, alive, tag, uid, now)
    {
      SlotAfterCommit(online, alive, reported, tag, uid, ip, now);
      ClearedIsReported(reported, tag, uid, ip);
      if Reports(reported, uid, ip) {
        ReportedIsLast(reported, uid, ip);
      }
    }
    SubsetSize(Counted(online, old_, alive, tag, uid, now), Counted(online', next, alive, tag, uid, now));
    CountedSize(online, old_, alive, tag, uid, now);
    CountedSize(online', next, alive, tag, uid, now);
  }

  lemma ClearedIsReported(reported: seq<OnlineUser>, tag: string, uid: int, ip: string)
    ensures Clears(reported, tag, uid, ip) ==> Reports(reported, uid, ip)
  {}

  lemma {:induction false} ReportedIsLast(reported: seq<OnlineUser>, uid: int, ip: string)
    requires NoSharedAddress(reported) && Reports(reported, uid, ip)
    ensures LastReportedFor(reported, uid, ip)
  {
    var n := |reported| - 1;
    var rest, o := reported[..n], reported[n];
    assert forall i | 0 <= i < n :: rest[i] == reported[i];
    if Reportable(o) && o.ip == ip {
      assert LastReportedFor(reported, uid, ip);
    } else {
      ReportedIsLast(rest, uid, ip);
      LastBeforeOther(reported, uid, ip);
    }
  }

  /** With an address reported for two users, a commit does free a slot of the one named first. */
  lemma SharedAddressFreesSlot()
    ensures var reported := [OnlineUser(1, "a", "t|1"), OnlineUser(2, "a", "t|2")];
            var online := map["t|1" := map["a" := 1], "t|2" := map["a" := 2]];
            var alive := Alive(map[], map[], 0, 0);
            var next := NextOld(reported, 5);
            KnownCount(next, alive, 1, 5)
            + |Pending(AddressesOf(Committed(online, reported), "t|1"), next, alive, 1, 5)|
            < KnownCount(map[], alive, 1, 5) + |Pending(AddressesOf(online, "t|1"), map[], alive, 1, 5)|
  {
    var reported := [OnlineUser(1, "a", "t|1"), OnlineUser(2, "a", "t|2")];
    var online: OnlineMap := map["t|1" := map["a" := 1], "t|2" := map["a" := 2]];
    var alive := Alive(map[], map[], 0, 0);
    var first := reported[..1];
    assert reported[..|reported| - 1] == first && first[..|first| - 1] == [];
    var next := NextOld(reported, 5);
    assert NextOld(first, 5) == NextOld(first[..0], 5)["a" := OldEntry(1, 5)];
    assert next == NextOld(first, 5)["a" := OldEntry(2, 5)];
    assert next == map["a" := OldEntry(2, 5)];
    var after := Committed(online, reported);
    assert Committed(online, first) == online - {"t|1"};
    assert "t|1" !in after;
    assert Recent(next, alive, 1, 5) == {} && Recent(map[], alive, 1, 5) == {};
    assert Pending(AddressesOf(after, "t|1"), next, alive, 1, 5) == {};
    assert Pending(AddressesOf(online, "t|1"), map[], alive, 1, 5) == {"a"};
  }

  lemma PutKeepsOthers(online: OnlineMap, user: string, ips: AddressMap)
    ensures online[user := ips] - {user} == online - {user}
    ensures online[user := map[]][user := ips] == online[user := ips]
  {}

  lemma EmptyNotPending(old_: OldMap, alive: Alive, uid: int, now: int)
    ensures Pending(map[], old_, alive, uid, now) == {}
  {}

  // ---------- rates ----------

  /** The smaller rate, zero meaning no limit. */
  function DetermineSpeedLimit(a: int, b: int): int {
    if a == 0 || b == 0 then if a > b then a else if a < b then b else 0
    else if a > b then b
    else a
  }

  function TruncDiv(n: int, d: int): int
    requires d > 0
  {
    if n >= 0 then n / d else -(-n / d)
  }

  /** Bytes per second; not positive means no bucket. */
  function Rate(nodeLimit: int, userLimit: int): int {
    TruncDiv(Wrap64(DetermineSpeedLimit(nodeLimit, DetermineSpeedLimit(userLimit, 0)) * 1_000_000), 8)
  }

  /** The limit that counts: the smaller one set; a negative user limit is none, a negative node limit counts. */
  function TightestLimit(nodeLimit: int, userLimit: int): int {
    if userLimit <= 0 then if nodeLimit > 0 then nodeLimit else 0
    else if nodeLimit == 0 || userLimit < nodeLimit then userLimit
    else nodeLimit
  }

  /** The rate is that of the limit that counts, in bytes per second, exactly when 64 bits hold the bits per second. */
  lemma RateIsTightest(nodeLimit: int, userLimit: int)
    ensures var limit := TightestLimit(nodeLimit, userLimit);
            Rate(nodeLimit, userLimit) == limit * 125_000 <==> -MAX_INT64 - 1 <= limit * 1_000_000 <= MAX_INT64
  {
    var limit := TightestLimit(nodeLimit, userLimit);
    assert DetermineSpeedLimit(nodeLimit, DetermineSpeedLimit(userLimit, 0)) == limit;
    WrapsExactly(limit * 125_000);
  }

  lemma WrapsExactly(n: int)
    ensures TruncDiv(Wrap64(8 * n), 8) == n <==> -MAX_INT64 - 1 <= 8 * n <= MAX_INT64
  {
    var turns := (8 * n + MAX_INT64 + 1) / 0x1_0000_0000_0000_0000;
    assert Wrap64(8 * n) == 8 * (n - turns * 0x2000_0000_0000_0000);
  }

  // ---------- users of the limiter ----------

  function InfoOf(u: UserInfo): LimitInfo { LimitInfo(u.id, u.speedLimit, u.deviceLimit) }

  function PutInfos(m: map<string, LimitInfo>, tag: string, users: seq<UserInfo>): map<string, LimitInfo> {
    if users == [] then m
    else
      var last := users[|users| - 1];
      PutInfos(m, tag, users[..|users| - 1])[UserTag(tag, last.uuid) := InfoOf(last)]
  }

  function PutIds(m: map<string, int>, users: seq<UserInfo>): map<string, int> {
    if users == [] then m
    else
      var last := users[|users| - 1];
      PutIds(m, users[..|users| - 1])[last.uuid := last.id]
  }

  lemma {:induction false} PutInfosKeeps(m: map<string, LimitInfo>, tag: string, users: seq<UserInfo>, key: string)
    ensures key in PutInfos(m, tag, users) <==> key in m || key in Tags(tag, users)
    ensures key !in Tags(tag, users) && key in m ==> PutInfos(m, tag, users)[key] == m[key]
  {
    if users != [] {
      var rest, last := users[..|users| - 1], users[|users| - 1];
      PutInfosKeeps(m, tag, rest, key);
      TagsStep(tag, users, |rest|);
      assert users[..|users|] == users;
    }
  }

  lemma NoTags(tag: string)
    ensures Tags(tag, []) == {} && Uuids([]) == {}
  {
  }

  lemma TagsStep(tag: string, users: seq<UserInfo>, i: nat)
    requires i < |users|
    ensures Tags(tag, users[..i + 1]) == Tags(tag, users[..i]) + {UserTag(tag, users[i].uuid)}
    ensures Uuids(users[..i + 1]) == Uuids(users[..i]) + {users[i].uuid}
    ensures Ids(users[..i + 1]) == Ids(users[..i]) + {users[i].id}
  {
    hide UserTag;
    var before, after := users[..i], users[..i + 1];
    assert after[i] == users[i] && forall k | 0 <= k < i :: after[k] == before[k];
    forall t | t in Tags(tag, before) ensures t in Tags(tag, after) {
      var k :| 0 <= k < i && t == UserTag(tag, before[k].uuid);
      assert t == UserTag(tag, after[k].uuid);
    }
    forall u | u in Uuids(before) ensures u in Uuids(after) {
      var k :| 0 <= k < i && u == before[k].uuid;
      assert u == after[k].uuid;
    }
    forall u | u in Ids(before) ensures u in Ids(after) {
      var k :| 0 <= k < i && u == before[k].id;
      assert u == after[k].id;
    }
  }

  /** Every cached bucket belongs to a present user and has the rate of the user's current limit. */
  ghost predicate BucketsAgree(buckets: map<string, Bucket>, infos: map<string, LimitInfo>, nodeLimit: int) {
    forall key :: key in buckets ==>
      key in infos && buckets[key].rate == Rate(nodeLimit, infos[key].speedLimit) && buckets[key].rate > 0
  }

  /** No later user of the list has the same uuid. */
  predicate LastMention(users: seq<UserInfo>, i: nat)
    requires i < |users|
  {
    forall j | i < j < |users| :: users[j].uuid != users[i].uuid
  }

  /** Each added user has no bucket, or one that is dropped, or one with the rate of the new limit. */
  ghost predicate AddedBucketsAgree(buckets: map<string, Bucket>, nodeLimit: int, tag: string, added: seq<UserInfo>,
                                    dropped: set<string>) {
    forall i | 0 <= i < |added| && LastMention(added, i) ::
      var key := UserTag(tag, added[i].uuid);
      key in buckets && key !in dropped ==> buckets[key].rate == Rate(nodeLimit, added[i].speedLimit)
  }

  lemma {:induction false} PutInfosAt(m: map<string, LimitInfo>, tag: string, users: seq<UserInfo>, i: nat)
    requires i < |users| && LastMention(users, i)
    ensures UserTag(tag, users[i].uuid) in PutInfos(m, tag, users)
    ensures PutInfos(m, tag, users)[UserTag(tag, users[i].uuid)] ==
            LimitInfo(users[i].id, users[i].speedLimit, users[i].deviceLimit)
  {
    hide UserTag;
    var n := |users| - 1;
    if i < n {
      PutInfosAt(m, tag, users[..n], i);
      UserTagInjective(tag, users[i].uuid, users[n].uuid);
    }
  }

  /** A user is known under the id of its last mention. */
  lemma {:induction false} PutIdsAt(m: map<string, int>, users: seq<UserInfo>, i: nat)
    requires i < |users| && LastMention(users, i)
    ensures users[i].uuid in PutIds(m, users) && PutIds(m, users)[users[i].uuid] == users[i].id
  {
    var n := |users| - 1;
    if i < n {
      PutIdsAt(m, users[..n], i);
    }
  }

  lemma {:induction false} PutIdsKeeps(m: map<string, int>, users: seq<UserInfo>, uuid: string)
    requires forall i | 0 <= i < |users| :: users[i].uuid != uuid
    ensures uuid in PutIds(m, users) <==> uuid in m
    ensures uuid in m ==> PutIds(m, users)[uuid] == m[uuid]
  {
    if users != [] {
      PutIdsKeeps(m, users[..|users| - 1], uuid);
    }
  }

  lemma {:induction false} LastMentionOf(tag: string, users: seq<UserInfo>, key: string) returns (i: nat)
    requires key in Tags(tag, users)
    ensures i < |users| && LastMention(users, i) && key == UserTag(tag, users[i].uuid)
  {
    hide UserTag;
    var n := |users| - 1;
    if key == UserTag(tag, users[n].uuid) {
      i := n;
    } else {
      i := LastMentionOf(tag, users[..n], key);
    }
  }

  /** Updating users keeps the cache right exactly when no added user is left with a bucket of another rate. */
  lemma UpdateKeepsBuckets(buckets: map<string, Bucket>, infos: map<string, LimitInfo>, nodeLimit: int,
                           tag: string, added: seq<UserInfo>, dropped: set<string>)
    requires BucketsAgree(buckets, infos, nodeLimit)
    ensures BucketsAgree(buckets - dropped, PutInfos(infos - dropped, tag, added), nodeLimit) <==>
            AddedBucketsAgree(buckets, nodeLimit, tag, added, dropped)
  {
    hide Rate, Tags, LastMention, UserTag, PutInfos;
    var infos' := PutInfos(infos - dropped, tag, added);
    forall i | 0 <= i < |added| && LastMention(added, i)
      ensures UserTag(tag, added[i].uuid) in infos' && infos'[UserTag(tag, added[i].uuid)] == InfoOf(added[i])
    {
      PutInfosAt(infos - dropped, tag, added, i);
    }
    forall key | key in buckets - dropped
      ensures key in infos'
      ensures key !in Tags(tag, added) ==> infos'[key] == infos[key]
    {
      PutInfosKeeps(infos - dropped, tag, added, key);
    }
    if AddedBucketsAgree(buckets, nodeLimit, tag, added, dropped) {
      forall key | key in buckets - dropped
        ensures buckets[key].rate == Rate(nodeLimit, infos'[key].speedLimit)
      {
        if key in Tags(tag, added) {
          var i := LastMentionOf(tag, added, key);
        }
      }
    }
  }

  lemma UpdateInfoKeepsBuckets(buckets: map<string, Bucket>, infos: map<string, LimitInfo>, nodeLimit: int,
                               tag: string, updated: seq<UserInfo>)
    requires BucketsAgree(buckets, infos, nodeLimit)
    ensures BucketsAgree(buckets - Tags(tag, updated), PutInfos(infos, tag, updated), nodeLimit)
  {
    hide Rate;
    forall key | key in buckets - Tags(tag, updated)
      ensures key in PutInfos(infos, tag, updated) && PutInfos(infos, tag, updated)[key] == infos[key]
    {
      PutInfosKeeps(infos, tag, updated, key);
    }
  }

  /** The snapshot as the limiter keeps it. */
  function NormaliseIP(ip: string): string { TrimPrefix(TrimSpace(ip), MAPPED_PREFIX) }

  function AddressSet(ips: seq<string>): set<string> {
    set i | 0 <= i < |ips| && NormaliseIP(ips[i]) != "" :: NormaliseIP(ips[i])
  }

  function AliveOf(snapshot: Option<AliveMap>, now: int): Alive {
    match snapshot
    case None => Alive(map[], map[], 0, now)
    case Some(s) =>
      var ips := map uid | uid in s.aliveIPs && uid > 0 ::
                   AddressSet(s.aliveIPs[uid]);
      Alive(s.alive, map uid | uid in ips && ips[uid] != {} :: ips[uid], s.mode, now)
  }

  /** The address of a snapshot, trimmed and without the prefix of a mapped address. */
  ghost predicate Means(text: string, ip: string) {
    var trimmed := TrimSpace(text);
    ip == if "::ffff:" <= trimmed then trimmed[7..] else trimmed
  }

  ghost predicate MeantBy(ips: seq<string>, ip: string) { exists i | 0 <= i < |ips| :: Means(ips[i], ip) }

  /** What the limiter keeps of a snapshot: the counts, and the addresses of the users with a positive id. */
  ghost predicate Snapshot(alive: Alive, snapshot: Option<AliveMap>, now: int) {
    match snapshot
    case None => alive == Alive(map[], map[], 0, now)
    case Some(s) =>
      && alive.counts == s.alive && alive.mode == s.mode && alive.pulledAt == now
      && forall uid, ip ::
           uid in alive.ips && ip in alive.ips[uid] <==>
           uid > 0 && uid in s.aliveIPs && ip != "" && MeantBy(s.aliveIPs[uid], ip)
  }

  lemma AddressesMeant(ips: seq<string>, ip: string)
    ensures ip in AddressSet(ips) <==> ip != "" && MeantBy(ips, ip)
  {
    hide TrimSpace;
    if i :| 0 <= i < |ips| && Means(ips[i], ip) {
      assert NormaliseIP(ips[i]) == ip;
    }
  }

  lemma SnapshotOf(snapshot: Option<AliveMap>, now: int)
    ensures Snapshot(AliveOf(snapshot, now), snapshot, now)
  {
    hide AddressSet, MeantBy;
    if snapshot.Some? {
      var all, alive := snapshot.value.aliveIPs, AliveOf(snapshot, now);
      forall uid, ip
        ensures uid in alive.ips && ip in alive.ips[uid] <==>
                uid > 0 && uid in all && ip != "" && MeantBy(all[uid], ip)
      {
        if uid in all {
          AddressesMeant(all[uid], ip);
        }
      }
    }
  }

  // ---------- the admission decision ----------

  /** The number of pending addresses after a UDP source at its limit has given one up. */
  function CountAfterDrop(udp: bool, limit: int, known: int, pending: nat): nat {
    if udp && known > 0 && limit <= known + pending && pending > 0 then pending - 1 else pending
  }

  function Kept(ips: AddressMap, dropped: Option<string>): AddressMap {
    if dropped.Some? then ips - {dropped.value} else ips
  }

  /** The decision on an address of a user, and what it makes of the user's record. */
  predicate Decides(before: AddressMap, after: AddressMap, old_: OldMap, alive: Alive, uid: int, ip: string,
                    limit: int, udp: bool, now: int, reject: bool, dropped: Option<string>) {
    if ip in before then !reject && after == before && dropped.None?
    else if limit <= 0 || Known(old_, alive, uid, ip, now) then !reject && after == before[ip := uid] && dropped.None?
    else
      var known, pending := KnownCount(old_, alive, uid, now), Pending(before, old_, alive, uid, now);
      var left := CountAfterDrop(udp, limit, known, |pending|);
      && (dropped.Some? <==> left < |pending|) && (dropped.Some? ==> dropped.value in pending)
      && (reject <==> !(known + left < limit || (udp && known > 0 && known + left == limit)))
      && after == if reject then Kept(before, dropped) else Kept(before, dropped)[ip := uid]
  }

  /** The decision on an unknown address, from the number of pending addresses that are left. */
  lemma DecidesUnknown(before: AddressMap, old_: OldMap, alive: Alive, uid: int, ip: string, limit: int, udp: bool,
                       now: int, left: nat, dropped: Option<string>)
    requires limit > 0 && ip !in before && !Known(old_, alive, uid, ip, now)
    requires var pending := Pending(before, old_, alive, uid, now);
             && left == CountAfterDrop(udp, limit, KnownCount(old_, alive, uid, now), |pending|)
             && (dropped.Some? <==> left < |pending|) && (dropped.Some? ==> dropped.value in pending)
    ensures var known := KnownCount(old_, alive, uid, now);
            var reject := limit <= known + left && !(udp && known > 0 && limit == known + left);
            var after := if reject then Kept(before, dropped) else Kept(before, dropped)[ip := uid];
            Decides(before, after, old_, alive, uid, ip, limit, udp, now, reject, dropped)
  {
    hide Known, KnownCount, Pending, CountAfterDrop;
  }

  /**
   When an address is admitted that was neither recorded nor known, known and pending addresses
   together do not exceed the limit, or exceed it by one only for a tracked UDP source of a user
   with known addresses. A refusal never adds a pending address and never drops a known one.
   */
  lemma DeviceBound(before: AddressMap, after: AddressMap, old_: OldMap, alive: Alive, uid: int, ip: string,
                    limit: int, udp: bool, now: int, reject: bool, dropped: Option<string>)
    requires Decides(before, after, old_, alive, uid, ip, limit, udp, now, reject, dropped)
    ensures var known, pending := KnownCount(old_, alive, uid, now), |Pending(after, old_, alive, uid, now)|;
            !reject && ip !in before && !Known(old_, alive, uid, ip, now) && limit > 0 ==>
              known + pending <= limit || (udp && known > 0 && known + pending == limit + 1)
    ensures !reject && ip !in before && !SomebodyKnows(old_, alive, uid, ip, now) && limit > 0 ==>
              Devices(after, old_, alive, uid, now) <=
              limit + if udp && Acknowledged(old_, alive, uid, now) > 0 then 1 else 0
    ensures reject ==>
              && |Pending(after, old_, alive, uid, now)| <= |Pending(before, old_, alive, uid, now)|
              && forall other :: other in before && Known(old_, alive, uid, other, now) ==>
                  other in after && after[other] == before[other]
  {
    CountedOut(before, old_, alive, uid, ip, now);
    CountedOut(after, old_, alive, uid, ip, now);
    hide Known, KnownCount, Pending, SomebodyKnows, Acknowledged, Unreported;
    if ip !in before && limit > 0 && !Known(old_, alive, uid, ip, now) {
      if dropped.Some? {
        PendingWithout(before, old_, alive, uid, now, dropped.value);
      }
      if !reject {
        PendingWith(Kept(before, dropped), old_, alive, uid, now, ip);
      }
      forall other | other in before && Known(old_, alive, uid, other, now) ensures reject ==> other in after {
        NotPending(before, old_, alive, uid, now, other);
      }
    }
  }

  lemma PendingWithout(ips: AddressMap, old_: OldMap, alive: Alive, uid: int, now: int, ip: string)
    ensures Pending(ips - {ip}, old_, alive, uid, now) == Pending(ips, old_, alive, uid, now) - {ip}
  {
    hide Known;
  }

  lemma PendingWith(ips: AddressMap, old_: OldMap, alive: Alive, uid: int, now: int, ip: string)
    requires !Known(old_, alive, uid, ip, now) && ip !in ips
    ensures Pending(ips[ip := uid], old_, alive, uid, now) == Pending(ips, old_, alive, uid, now) + {ip}
    ensures ip !in Pending(ips, old_, alive, uid, now)
  {
    hide Known;
  }

  lemma NotPending(ips: AddressMap, old_: OldMap, alive: Alive, uid: int, now: int, ip: string)
    requires Known(old_, alive, uid, ip, now)
    ensures ip !in Pending(ips, old_, alive, uid, now)
  {}

  // ---------- the decision, counted out ----------

  /**
   What a call does to the record of the user.

   A recorded address is let in and nothing changes. One that somebody knows, or any if there is no
   limit, is let in and recorded. Any other is let in when the user's devices are below the limit.
   At the limit a tracked UDP source of a user with counted devices takes the place of some address
   that nobody knows, or else one place above the limit; every other address is refused.
   */
  ghost predicate Admission(before: map<string, int>, after: map<string, int>, old_: map<string, OldEntry>,
                            alive: Alive, uid: int, ip: string, limit: int, udp: bool, now: int, reject: bool) {
    if ip in before then !reject && after == before
    else if limit <= 0 || SomebodyKnows(old_, alive, uid, ip, now) then !reject && after == before[ip := uid]
    else
      var devices := Devices(before, old_, alive, uid, now);
      var unreported := Unreported(before, old_, alive, uid, now);
      var roams := udp && Acknowledged(old_, alive, uid, now) > 0;
      if devices < limit then !reject && after == before[ip := uid]
      else if !roams then reject && after == before
      else if unreported == {} then
        (reject <==> devices > limit) && after == if reject then before else before[ip := uid]
      else
        && (reject <==> devices - 1 > limit)
        && exists victim <- unreported ::
             after == if reject then before - {victim} else (before - {victim})[ip := uid]
  }

  lemma DecidesMeans(before: AddressMap, after: AddressMap, old_: OldMap, alive: Alive, uid: int, ip: string,
                     limit: int, udp: bool, now: int, reject: bool, dropped: Option<string>)
    requires Decides(before, after, old_, alive, uid, ip, limit, udp, now, reject, dropped)
    ensures Admission(before, after, old_, alive, uid, ip, limit, udp, now, reject)
  {
    CountedOut(before, old_, alive, uid, ip, now);
    hide Known, KnownCount, Pending, SomebodyKnows, Unreported, Acknowledged;
  }

  /** An address that nobody knew is let in within the limit, or one above it for a source that roams. */
  lemma AdmittedWithin(before: AddressMap, after: AddressMap, old_: OldMap, alive: Alive, uid: int, ip: string,
                       limit: int, udp: bool, now: int)
    requires Admission(before, after, old_, alive, uid, ip, limit, udp, now, false)
    requires limit > 0 && ip !in before && !SomebodyKnows(old_, alive, uid, ip, now)
    ensures Devices(after, old_, alive, uid, now) <=
            limit + if udp && Acknowledged(old_, alive, uid, now) > 0 then 1 else 0
  {
    hide SomebodyKnows, Acknowledged, Unreported;
    var unreported := Unreported(before, old_, alive, uid, now);
    UnreportedWith(before, old_, alive, uid, now, ip);
    if Devices(before, old_, alive, uid, now) >= limit && unreported != {} {
      var victim :| victim in unreported && after == (before - {victim})[ip := uid];
      UnreportedWithout(before, old_, alive, uid, now, victim);
      UnreportedWith(before - {victim}, old_, alive, uid, now, ip);
    }
  }

  lemma DecidesWithin(before: AddressMap, after: AddressMap, old_: OldMap, alive: Alive, uid: int, ip: string,
                      limit: int, udp: bool, now: int, reject: bool, dropped: Option<string>)
    requires Decides(before, after, old_, alive, uid, ip, limit, udp, now, reject, dropped)
    ensures Admission(before, after, old_, alive, uid, ip, limit, udp, now, reject)
    ensures !reject && limit > 0 && ip !in before && !SomebodyKnows(old_, alive, uid, ip, now) ==>
              Devices(after, old_, alive, uid, now) <=
              limit + if udp && Acknowledged(old_, alive, uid, now) > 0 then 1 else 0
  {
    hide Decides, Admission, SomebodyKnows, Devices, Acknowledged;
    DecidesMeans(before, after, old_, alive, uid, ip, limit, udp, now, reject, dropped);
    if !reject && limit > 0 && ip !in before && !SomebodyKnows(old_, alive, uid, ip, now) {
      AdmittedWithin(before, after, old_, alive, uid, ip, limit, udp, now);
    }
  }

  lemma UnreportedWithout(ips: AddressMap, old_: OldMap, alive: Alive, uid: int, now: int, ip: string)
    ensures Unreported(ips - {ip}, old_, alive, uid, now) == Unreported(ips, old_, alive, uid, now) - {ip}
  {
    hide SomebodyKnows;
  }

  lemma UnreportedWith(ips: AddressMap, old_: OldMap, alive: Alive, uid: int, now: int, ip: string)
    requires !SomebodyKnows(old_, alive, uid, ip, now) && ip !in ips
    ensures Unreported(ips[ip := uid], old_, alive, uid, now) == Unreported(ips, old_, alive, uid, now) + {ip}
    ensures ip !in Unreported(ips, old_, alive, uid, now)
  {
    hide SomebodyKnows;
  }

  // ---------- the limiter ----------

  class Limiter {
    const tag: string
    const nodeType: string
    var speedLimit: int
    var online: OnlineMap
    var old_: OldMap
    var uuidToUID: map<string, int>
    var infos: map<string, LimitInfo>
    var buckets: map<string, Bucket>
    var alive: Alive
    var defaultDeviceLimit: int

    ghost predicate Valid()
      reads this
    {
      BucketsAgree(buckets, infos, speedLimit)
    }

    predicate TracksUDPSource() { nodeType in {"hysteria2", "tuic"} }

    function DeviceLimit(user: string): int
      reads this
      requires user in infos
    {
      if infos[user].deviceLimit > 0 then infos[user].deviceLimit else defaultDeviceLimit
    }

    /** `AddLimiter` */
    constructor (nodeType: string, tag: string, users: seq<UserInfo>, aliveList: map<int, int>)
      ensures Valid() && this.tag == tag && this.nodeType == nodeType
      ensures infos == PutInfos(map[], tag, users) && uuidToUID == PutIds(map[], users)
      ensures online == map[] && old_ == map[] && buckets == map[] && alive == Alive(aliveList, map[], 0, 0)
      ensures speedLimit == defaultDeviceLimit == 0
    {
      this.tag, this.nodeType := tag, nodeType;
      online, old_, buckets := map[], map[], map[];
      alive := Alive(aliveList, map[], 0, 0);
      speedLimit, defaultDeviceLimit := 0, 0;
      infos, uuidToUID := map[], map[];
      new;
      for i := 0 to |users|
        invariant infos == PutInfos(map[], tag, users[..i]) && uuidToUID == PutIds(map[], users[..i])
        invariant Valid() && buckets == map[] && online == map[] && old_ == map[]
                  && alive == Alive(aliveList, map[], 0, 0)
        invariant speedLimit == defaultDeviceLimit == 0
      {
        assert users[..i + 1][..i] == users[..i];
        uuidToUID := uuidToUID[users[i].uuid := users[i].id];
        infos := infos[UserTag(tag, users[i].uuid) := InfoOf(users[i])];
      }
      assert users[..|users|] == users;
    }

    method SetAliveSnapshot(snapshot: Option<AliveMap>, now: int)
      requires Valid()
      modifies this`alive
      ensures alive == AliveOf(snapshot, now) && Valid()
      ensures Snapshot(alive, snapshot, now)
    {
      SnapshotOf(snapshot, now);
      alive := AliveOf(snapshot, now);
    }

    method SetDefaultDeviceLimit(limit: int)
      requires Valid()
      modifies this`defaultDeviceLimit
      ensures 0 <= limit <= 2_147_483_647 ==> defaultDeviceLimit == limit
      ensures limit > 2_147_483_647 ==> defaultDeviceLimit == 2_147_483_647
      ensures limit < 0 ==> defaultDeviceLimit == 0
      ensures Valid()
    {
      defaultDeviceLimit := if limit < 0 then 0 else if limit > MAX_DEVICE_LIMIT then MAX_DEVICE_LIMIT else limit;
    }

    method UpdateUser(tag: string, added: seq<UserInfo>, deleted: seq<UserInfo>)
      requires Valid()
      modifies this
      ensures Valid() <==> AddedBucketsAgree(old(buckets), speedLimit, tag, added, Tags(tag, deleted))
      ensures infos == PutInfos(old(infos) - Tags(tag, deleted), tag, added)
      ensures uuidToUID == PutIds(old(uuidToUID) - Uuids(deleted), added)
      ensures online == old(online) - Tags(tag, deleted) && buckets == old(buckets) - Tags(tag, deleted)
      ensures alive == old(alive).(counts := old(alive.counts) - Ids(deleted))
      ensures old_ == old(old_) && speedLimit == old(speedLimit) && defaultDeviceLimit == old(defaultDeviceLimit)
    {
      hide BucketsAgree, AddedBucketsAgree, UserTag, Tags, Ids, Uuids, PutInfos, PutIds;
      RemoveUsers(tag, deleted);
      alive := alive.(counts := alive.counts - Ids(deleted));
      PutUsers(tag, added);
      UpdateKeepsBuckets(old(buckets), old(infos), speedLimit, tag, added, Tags(tag, deleted));
    }

    method RemoveUsers(tag: string, deleted: seq<UserInfo>)
      modifies this`infos, this`online, this`buckets, this`uuidToUID
      ensures infos == old(infos) - Tags(tag, deleted) && uuidToUID == old(uuidToUID) - Uuids(deleted)
      ensures online == old(online) - Tags(tag, deleted) && buckets == old(buckets) - Tags(tag, deleted)
    {
      hide UserTag, Tags, Uuids;
      NoTags(tag);
      for i := 0 to |deleted|
        invariant infos == old(infos) - Tags(tag, deleted[..i]) && uuidToUID == old(uuidToUID) - Uuids(deleted[..i])
        invariant online == old(online) - Tags(tag, deleted[..i]) && buckets == old(buckets) - Tags(tag, deleted[..i])
      {
        TagsStep(tag, deleted, i);
        var key := UserTag(tag, deleted[i].uuid);
        DropOneMore(old(infos), Tags(tag, deleted[..i]), key);
        DropOneMore(old(online), Tags(tag, deleted[..i]), key);
        DropOneMore(old(buckets), Tags(tag, deleted[..i]), key);
        DropOneMore(old(uuidToUID), Uuids(deleted[..i]), deleted[i].uuid);
        infos, online, buckets := infos - {key}, online - {key}, buckets - {key};
        uuidToUID := uuidToUID - {deleted[i].uuid};
      }
      assert deleted[..|deleted|] == deleted;
    }

    method PutUsers(tag: string, added: seq<UserInfo>)
      modifies this`infos, this`uuidToUID
      ensures infos == PutInfos(old(infos), tag, added) && uuidToUID == PutIds(old(uuidToUID), added)
    {
      hide UserTag;
      for i := 0 to |added|
        invariant infos == PutInfos(old(infos), tag, added[..i]) && uuidToUID == PutIds(old(uuidToUID), added[..i])
      {
        assert added[..i + 1][..i] == added[..i];
        infos := infos[UserTag(tag, added[i].uuid) := InfoOf(added[i])];
        uuidToUID := uuidToUID[added[i].uuid := added[i].id];
      }
      assert added[..|added|] == added;
    }

    method UpdateUserInfo(tag: string, updated: seq<UserInfo>)
      requires Valid()
      modifies this`infos, this`uuidToUID, this`buckets
      ensures Valid()
      ensures infos == PutInfos(old(infos), tag, updated) && uuidToUID == PutIds(old(uuidToUID), updated)
      ensures buckets == old(buckets) - Tags(tag, updated)
    {
      hide BucketsAgree, UserTag;
      for i := 0 to |updated|
        invariant infos == PutInfos(old(infos), tag, updated[..i]) && uuidToUID == PutIds(old(uuidToUID), updated[..i])
        invariant buckets == old(buckets) - Tags(tag, updated[..i])
      {
        assert updated[..i + 1][..i] == updated[..i];
        TagsStep(tag, updated, i);
        var key := UserTag(tag, updated[i].uuid);
        infos := infos[key := InfoOf(updated[i])];
        uuidToUID := uuidToUID[updated[i].uuid := updated[i].id];
        buckets := buckets - {key};
      }
      assert updated[..|updated|] == updated;
      UpdateInfoKeepsBuckets(old(buckets), old(infos), speedLimit, tag, updated);
    }

    // ---------- admission ----------

    method PendingNewIPCount(user: string, uid: int, now: int) returns (count: nat)
      ensures count == |Pending(AddressesOf(online, user), old_, alive, uid, now)|
    {
      hide Known;
      if user !in online {
        return 0;
      }
      var ips := online[user];
      var left := ips.Keys;
      count := 0;
      ghost var seen: set<string> := {};
      while left != {}
        invariant left <= ips.Keys && seen <= ips.Keys - left
        invariant forall ip :: ip in ips && ip !in left ==>
                  (ip in seen <==> ips[ip] == uid && !Known(old_, alive, uid, ip, now))
        invariant count == |seen|
        decreases |left|
      {
        ghost var some := Inhabited(left);
        var ip :| ip in left;
        left := left - {ip};
        if ips[ip] == uid && !Known(old_, alive, uid, ip, now) {
          count := count + 1;
          seen := seen + {ip};
        }
      }
      assert seen == Pending(ips, old_, alive, uid, now);
    }

    method RecentReportedLocalIPCount(uid: int, now: int) returns (count: nat)
      ensures count == |Recent(old_, alive, uid, now)|
    {
      hide Fresh;
      var left := old_.Keys;
      count := 0;
      ghost var seen: set<string> := {};
      while left != {}
        invariant left <= old_.Keys && seen <= old_.Keys - left
        invariant forall ip :: ip in old_ && ip !in left ==>
                    (ip in seen <==>
                     old_[ip].uid == uid && Fresh(old_[ip], now) && old_[ip].reportedAt > alive.pulledAt)
        invariant count == |seen|
        decreases |left|
      {
        ghost var some := Inhabited(left);
        var ip :| ip in left;
        left := left - {ip};
        var entry := old_[ip];
        if entry.uid == uid && Fresh(entry, now) && !(entry.reportedAt <= alive.pulledAt) {
          count := count + 1;
          seen := seen + {ip};
        }
      }
      assert seen == Recent(old_, alive, uid, now);
    }

    /** Drops some pending address of the user; which one is not determined. */
    method DropOnePendingUnknownIP(user: string, uid: int, now: int) returns (dropped: Option<string>)
      requires user in online
      modifies this`online
      ensures dropped.Some? <==> Pending(old(online[user]), old_, alive, uid, now) != {}
      ensures dropped.None? ==> online == old(online)
      ensures dropped.Some? ==>
                && dropped.value in Pending(old(online[user]), old_, alive, uid, now)
                && online == old(online)[user := old(online[user]) - {dropped.value}]
    {
      hide Known;
      var ips := online[user];
      ghost var pending := Pending(ips, old_, alive, uid, now);
      var left := ips.Keys;
      while left != {}
        invariant left <= ips.Keys && online == old(online)
        invariant pending <= left
        decreases |left|
      {
        ghost var some := Inhabited(left);
        var ip :| ip in left;
        left := left - {ip};
        if ips[ip] != uid || Known(old_, alive, uid, ip, now) {
          continue;
        }
        assert ip in pending;
        online := online[user := ips - {ip}];
        return Some(ip);
      }
      return None;
    }

    /** Decides on an address that is neither recorded nor known to be alive. */
    method AdmitUnknown(user: string, ip: string, uid: int, limit: int, udp: bool, now: int)
      returns (reject: bool, ghost dropped: Option<string>)
      requires limit > 0 && ip !in AddressesOf(online, user) && !Known(old_, alive, uid, ip, now)
      modifies this`online
      ensures Decides(old(AddressesOf(online, user)), AddressesOf(online, user), old_, alive, uid, ip, limit, udp, now,
                      reject, dropped)
      ensures online - {user} == old(online) - {user}
      ensures reject && user !in old(online) ==> online == old(online)
    {
      hide Known, KnownCount, Pending, CountAfterDrop, Decides;
      ghost var before := AddressesOf(online, user);
      var created := user !in online;
      if created {
        PutKeepsOthers(online, user, map[]);
        online := online[user := map[]];
      }
      var known := KnownDevices(uid, now);
      var pending;
      pending, dropped := MakeRoom(user, uid, limit, udp, known, now);
      PutKeepsOthers(old(online), user, Kept(before, dropped));
      DecidesUnknown(before, old_, alive, uid, ip, limit, udp, now, pending, dropped);
      EmptyNotPending(old_, alive, uid, now);
      reject := limit <= known + pending && !(udp && known > 0 && limit == known + pending);
      Conclude(user, ip, uid, created, reject);
    }

    /** Records the address, or takes back the record that was made for it. */
    method Conclude(user: string, ip: string, uid: int, created: bool, reject: bool)
      requires user in online && (created && reject ==> online[user] == map[])
      modifies this`online
      ensures online - {user} == old(online) - {user}
      ensures AddressesOf(online, user) == if reject then old(online[user]) else old(online[user])[ip := uid]
      ensures reject && created ==> online == old(online) - {user}
    {
      if !reject {
        online := online[user := online[user][ip := uid]];
      } else if created {
        online := online - {user};
      }
    }

    method KnownDevices(uid: int, now: int) returns (known: int)
      ensures known == KnownCount(old_, alive, uid, now)
    {
      var aliveIP := if uid in alive.counts then alive.counts[uid] else 0;
      var reportedLocalIP := RecentReportedLocalIPCount(uid, now);
      known := aliveIP + reportedLocalIP;
    }

    /** Counts the pending addresses, giving one up for a tracked UDP source at its limit. */
    method MakeRoom(user: string, uid: int, limit: int, udp: bool, known: int, now: int)
      returns (pending: nat, ghost dropped: Option<string>)
      requires user in online
      modifies this`online
      ensures var ips := old(online[user]);
              && pending == CountAfterDrop(udp, limit, known, |Pending(ips, old_, alive, uid, now)|)
              && (dropped.Some? <==> pending < |Pending(ips, old_, alive, uid, now)|)
              && (dropped.Some? ==> dropped.value in Pending(ips, old_, alive, uid, now))
              && online == old(online)[user := Kept(ips, dropped)]
    {
      hide Pending;
      dropped := None;
      pending := PendingNewIPCount(user, uid, now);
      if limit <= known + pending && udp && known > 0 {
        var victim := DropOnePendingUnknownIP(user, uid, now);
        if victim.Some? && pending > 0 {
          dropped := victim;
          pending := pending - 1;
        }
      }
    }

    /** Admission of a connection, and the bucket that limits its rate. */
    method CheckLimit(user: string, rawIp: string, noUDPsource: bool, now: int)
      returns (bucket: Option<Bucket>, reject: bool, ghost dropped: Option<string>)
      requires Valid()
      modifies this`online, this`buckets
      ensures Valid()
      ensures online.Keys <= old(online.Keys) + infos.Keys
      ensures user !in infos ==> reject && online == old(online)
      ensures user in infos && !(noUDPsource || TracksUDPSource()) ==> !reject && online == old(online)
      ensures user in infos && (noUDPsource || TracksUDPSource()) ==>
                && Decides(old(AddressesOf(online, user)), AddressesOf(online, user), old_, alive, infos[user].uid,
                           TrimPrefix(rawIp, MAPPED_PREFIX), DeviceLimit(user),
                           !noUDPsource && TracksUDPSource(), now, reject, dropped)
                && online - {user} == old(online) - {user}
      ensures user in infos && (noUDPsource || nodeType == "hysteria2" || nodeType == "tuic") ==>
                var before, after := old(if user in online then online[user] else map[]),
                    if user in online then online[user] else map[];
                var uid, ip := infos[user].uid, if "::ffff:" <= rawIp then rawIp[7..] else rawIp;
                var limit := if infos[user].deviceLimit > 0 then infos[user].deviceLimit else defaultDeviceLimit;
                var udp := !noUDPsource && (nodeType == "hysteria2" || nodeType == "tuic");
                && Admission(before, after, old_, alive, uid, ip, limit, udp, now, reject)
                && (!reject && limit > 0 && ip !in before && !SomebodyKnows(old_, alive, uid, ip, now) ==>
                    Devices(after, old_, alive, uid, now) <=
                    limit + if udp && Acknowledged(old_, alive, uid, now) > 0 then 1 else 0)
      ensures reject && user !in old(online) ==> online == old(online)
      ensures var rate := if user in infos then Rate(speedLimit, infos[user].speedLimit) else 0;
              && bucket == (if reject || rate <= 0 then None else Some(Bucket(rate)))
              && buckets == if reject || rate <= 0 then old(buckets) else old(buckets)[user := Bucket(rate)]
    {
      hide Known, Rate, KnownCount, Pending, Decides, Admission, SomebodyKnows, Devices, Acknowledged;
      if user !in infos {
        return None, true, None;
      }
      var ip := TrimPrefix(rawIp, MAPPED_PREFIX);
      reject, dropped := AdmitAddress(user, ip, noUDPsource, now);
      ghost var before, uid, udp := old(AddressesOf(online, user)), infos[user].uid, !noUDPsource && TracksUDPSource();
      if noUDPsource || TracksUDPSource() {
        DecidesWithin(before, AddressesOf(online, user), old_, alive, uid, ip, DeviceLimit(user), udp, now, reject,
                      dropped);
      }
      assert online.Keys <= (online - {user}).Keys + {user} && (old(online) - {user}).Keys <= old(online).Keys;
      if reject {
        return None, true, dropped;
      }
      var rate := Rate(speedLimit, infos[user].speedLimit);
      if rate <= 0 {
        return None, false, dropped;
      }
      if user !in buckets {
        buckets := buckets[user := Bucket(rate)];
      }
      bucket := Some(buckets[user]);
    }

    method AdmitAddress(user: string, ip: string, noUDPsource: bool, now: int)
      returns (reject: bool, ghost dropped: Option<string>)
      requires user in infos
      modifies this`online
      ensures !(noUDPsource || TracksUDPSource()) ==> !reject && online == old(online)
      ensures noUDPsource || TracksUDPSource() ==>
                && Decides(old(AddressesOf(online, user)), AddressesOf(online, user), old_, alive, infos[user].uid,
                           ip, DeviceLimit(user), !noUDPsource && TracksUDPSource(), now, reject, dropped)
                && online - {user} == old(online) - {user}
      ensures reject && user !in old(online) ==> online == old(online)
    {
      hide Known, KnownCount, Pending;
      reject, dropped := false, None;
      if noUDPsource || TracksUDPSource() {
        var uid, limit := infos[user].uid, infos[user].deviceLimit;
        if limit <= 0 {
          limit := defaultDeviceLimit;
        }
        if ip !in AddressesOf(online, user) {
          if !Known(old_, alive, uid, ip, now) && limit > 0 {
            reject, dropped := AdmitUnknown(user, ip, uid, limit, !noUDPsource && TracksUDPSource(), now);
          } else {
            online := online[user := AddressesOf(online, user)[ip := uid]];
          }
        }
      }
    }

    // ---------- online reports ----------

    /** Every recorded address, in no particular order. */
    method GetOnlineDevice() returns (users: seq<OnlineUser>)
      ensures forall o ::
                o in users <==> o.tag in online && o.ip in online[o.tag] && online[o.tag][o.ip] == o.uid
      ensures forall i, j | 0 <= i < j < |users| :: users[i] != users[j]
    {
      users := [];
      var tags := online.Keys;
      while tags != {}
        invariant tags <= online.Keys
        invariant forall o :: o in users <==>
                    o.tag in online && o.tag !in tags && o.ip in online[o.tag] && online[o.tag][o.ip] == o.uid
        invariant forall i, j | 0 <= i < j < |users| :: users[i] != users[j]
        decreases |tags|
      {
        ghost var some := Inhabited(tags);
        var tag :| tag in tags;
        tags := tags - {tag};
        var found := AddressList(tag, online[tag]);
        users := users + found;
      }
    }

    method CommitOnlineDeviceReport(reported: seq<OnlineUser>, now: int)
      requires Valid()
      modifies this`online, this`old_
      ensures Valid()
      ensures online == Committed(old(online), reported) && old_ == NextOld(reported, now)
      ensures online.Keys <= old(online.Keys)
      ensures forall uid, ip :: ip in old_ && old_[ip].uid == uid <==> NamedLast(reported, uid, ip)
      ensures forall ip <- old_ :: old_[ip].reportedAt == now
      ensures forall tag, uid, ip ::
                Records(online, tag, uid, ip) <==>
                Records(old(online), tag, uid, ip) && !NamedUnder(reported, tag, uid, ip)
    {
      CommitMeans(online, reported, now);
      var nextOld: OldMap := map[];
      for i := 0 to |reported|
        invariant online.Keys <= old(online.Keys)
        invariant online == Committed(old(online), reported[..i]) && nextOld == NextOld(reported[..i], now)
      {
        var o := reported[i];
        assert reported[..i + 1][..i] == reported[..i];
        if o.uid <= 0 || o.ip == "" {
          continue;
        }
        nextOld := nextOld[o.ip := OldEntry(o.uid, now)];
        if o.tag == "" || o.tag !in online {
          continue;
        }
        var ips := online[o.tag];
        if o.ip in ips && ips[o.ip] == o.uid {
          ips := ips - {o.ip};
        }
        if ips == map[] {
          online := online - {o.tag};
        } else {
          online := online[o.tag := ips];
        }
      }
      assert reported[..|reported|] == reported;
      old_ := nextOld;
    }
  }

  method AddressList(tag: string, ips: AddressMap) returns (users: seq<OnlineUser>)
    ensures forall o :: o in users <==> o.tag == tag && o.ip in ips && ips[o.ip] == o.uid
    ensures forall i, j | 0 <= i < j < |users| :: users[i] != users[j]
  {
    users := [];
    var left := ips.Keys;
    while left != {}
      invariant left <= ips.Keys
      invariant forall o :: o in users <==> o.tag == tag && o.ip in ips && o.ip !in left && ips[o.ip] == o.uid
      invariant forall i, j | 0 <= i < j < |users| :: users[i] != users[j]
      decreases |left|
    {
      ghost var some := Inhabited(left);
      var ip :| ip in left;
      left := left - {ip};
      assert OnlineUser(ips[ip], ip, tag) !in users;
      users := users + [OnlineUser(ips[ip], ip, tag)];
    }
  }
}
