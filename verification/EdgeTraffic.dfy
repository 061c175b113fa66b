/**
 Traffic that an edge process counted: which of the drained records go into a report, which are
 given back, and how the report is merged with the core's own.

 Byte counts are 64-bit: sums saturate at the largest unsigned, then at the largest signed value.
 */
module EdgeTraffic {
  import opened Results
  import opened Sets
  import opened Text
  import opened Users
  import S = Lists

  const MAX_UINT64 := 0xffff_ffff_ffff_ffff

  type Count = n: nat | n <= MAX_UINT64

  datatype Record = Record(user: string, upload: Count, download: Count)

  datatype UserTraffic = UserTraffic(uid: int, upload: int, download: int)

  function Min(a: int, b: int): int { if a <= b then a else b }

  function SaturatingAddUint64(a: Count, b: Count): (r: Count)
    ensures r == Min(a + b, MAX_UINT64)
  {
    if MAX_UINT64 - a < b then MAX_UINT64 else a + b
  }

  function ToInt64Saturated(n: Count): (r: int)
    ensures r == Min(n, MAX_INT64)
  {
    if n > MAX_INT64 then MAX_INT64 else n
  }

  /** The sum saturates only upwards. */
  function SaturatingAddInt64(a: int, b: int): (r: int)
    ensures 0 <= a <= MAX_INT64 && 0 <= b <= MAX_INT64 ==> r == Min(a + b, MAX_INT64)
  {
    if b > 0 && a > MAX_INT64 - b then MAX_INT64 else Wrap64(a + b)
  }

  // ---------- what becomes of a record ----------

  function IndexOf(s: string, c: char): Option<nat> {
    if s == "" then None
    else if s[0] == c then Some(0)
    else match IndexOf(s[1..], c) case None => None case Some(i) => Some(i + 1)
  }

  lemma {:induction false} IndexOfBounds(s: string, c: char)
    ensures match IndexOf(s, c)
            case Some(i) => i < |s| && s[i] == c && c !in s[..i]
            case None => c !in s
  {
    if s != "" && s[0] != c {
      IndexOfBounds(s[1..], c);
      match IndexOf(s[1..], c)
      case Some(i) => assert s[..i + 1] == [s[0]] + s[1..][..i];
      case None =>
    }
  }

  /** The uuid of a record's user, if the record is tagged for this node. */
  function EdgeTrafficUUID(user: string, tag: string): Option<string> {
    var trimmed := TrimSpace(user);
    IndexOfBounds(trimmed, '|');
    match IndexOf(trimmed, '|')
    case None => None
    case Some(i) =>
      var uuid := TrimSpace(trimmed[i + 1..]);
      if trimmed[..i] != tag || uuid == "" then None else Some(uuid)
  }

  lemma {:induction false} IndexOfFirst(s: string, rest: string, c: char)
    requires c !in s
    ensures IndexOf(s + [c] + rest, c) == Some(|s|)
  {
    if s == "" {
      assert (s + [c] + rest)[0] == c;
    } else {
      IndexOfFirst(s[1..], rest, c);
      assert (s + [c] + rest)[1..] == s[1..] + [c] + rest;
    }
  }

  /** The core's own key for a user survives the trimming and cutting of the edge's records. */
  predicate SurvivesTrimming(tag: string, uuid: string) {
    && '|' !in tag && (tag == "" || tag[0] !in SPACES)
    && uuid != "" && Bare(uuid, SPACES)
  }

  /**
   A record filed under the core's own key for a user is matched to that user exactly when the tag
   has no bar and no leading blank, and the uuid is not empty and has no blank at either end.
   */
  lemma EdgeUserRoundTrip(tag: string, uuid: string)
    ensures EdgeTrafficUUID(UserTag(tag, uuid), tag) == Some(uuid) <==> SurvivesTrimming(tag, uuid)
  {
    hide TrimLeft, TrimRight, Trim, IndexOf;
    var user := UserTag(tag, uuid);
    assert '|' !in SPACES;
    if SurvivesTrimming(tag, uuid) {
      TrimIdentity(user, SPACES);
      TrimIdentity(uuid, SPACES);
      IndexOfFirst(tag, uuid, '|');
      assert user[..|tag|] == tag && user[|tag| + 1..] == uuid;
    }
    if EdgeTrafficUUID(user, tag) == Some(uuid) {
      var trimmed := TrimSpace(user);
      TrimBare(user, SPACES);
      IndexOfBounds(trimmed, '|');
      TrimBare(trimmed[|tag| + 1..], SPACES);
    }
  }

  /** The ids of the users that can be reported; the last user with a uuid counts. */
  function IdsByUuid(users: seq<UserInfo>): map<string, int> {
    if users == [] then map[]
    else
      var last, m := users[|users| - 1], IdsByUuid(users[..|users| - 1]);
      if last.uuid == "" || last.id <= 0 then m else m[last.uuid := last.id]
  }

  datatype RecordFate = Ignored | Restored | Reported(uid: int)

  /** The threshold in bytes, a 64-bit product. */
  function MinBytes(minTraffic: int): int {
    if minTraffic <= 0 then 0 else minTraffic * 1000 % 0x1_0000_0000_0000_0000
  }

  function FateOf(r: Record, tag: string, ids: map<string, int>, minBytes: int): RecordFate {
    if r.user == "" || (r.upload == 0 && r.download == 0) then Ignored
    else
      match EdgeTrafficUUID(r.user, tag)
      case None => Restored
      case Some(uuid) =>
        if uuid !in ids then Restored
        else if minBytes != 0 && SaturatingAddUint64(r.upload, r.download) <= minBytes then Restored
        else Reported(ids[uuid])
  }

  datatype Sorter = Sorter(tag: string, ids: map<string, int>, minBytes: int) {
    function Fate(r: Record): RecordFate { FateOf(r, tag, ids, minBytes) }

    function Reported(records: seq<Record>): seq<Record> {
      if records == [] then []
      else
        var last := records[|records| - 1];
        Reported(records[..|records| - 1]) + if Fate(last).Reported? then [last] else []
    }

    function Restored(records: seq<Record>): seq<Record> {
      if records == [] then []
      else
        var last := records[|records| - 1];
        Restored(records[..|records| - 1]) + if Fate(last).Restored? then [last] else []
    }

    /** The exact sum of what is reported for a user. */
    function Sum(records: seq<Record>, uid: int, upload: bool): nat {
      if records == [] then 0
      else
        var r := records[|records| - 1];
        Sum(records[..|records| - 1], uid, upload) +
        if Fate(r) == RecordFate.Reported(uid) then if upload then r.upload else r.download else 0
    }

    function ReportedIds(records: seq<Record>): set<int> {
      set i | 0 <= i < |records| && Fate(records[i]).Reported? :: Fate(records[i]).uid
    }
  }

  predicate Counts(r: Record) { r.user != "" && !(r.upload == 0 && r.download == 0) }

  function NonZero(records: seq<Record>): seq<Record> {
    if records == [] then []
    else NonZero(records[..|records| - 1]) + if Counts(records[|records| - 1]) then [records[|records| - 1]] else []
  }

  /** Every record that counts something is in exactly one of the two lists, as often as it was drained. */
  lemma {:induction false} DrainPartitions(sorter: Sorter, records: seq<Record>)
    ensures multiset(sorter.Reported(records)) + multiset(sorter.Restored(records)) == multiset(NonZero(records))
  {
    if records != [] {
      DrainPartitions(sorter, records[..|records| - 1]);
    }
  }

  // ---------- whom a record is billed to ----------

  /** The text names the node and then, after a bar, the uuid; blanks around it and around the uuid do not matter. */
  ghost predicate NamesUser(text: string, tag: string, uuid: string) {
    && '|' !in tag && uuid != ""
    && exists rest :: TrimSpace(text) == tag + "|" + rest && TrimSpace(rest) == uuid
  }

  /** The id of the last of the users with this uuid that have a positive id. */
  ghost predicate HasId(users: seq<UserInfo>, uuid: string, id: int) {
    && uuid != "" && id > 0
    && exists i | 0 <= i < |users| ::
         && users[i].uuid == uuid && users[i].id == id
         && forall j | i < j < |users| :: users[j].uuid == uuid ==> users[j].id <= 0
  }

  /** The record counts something. */
  ghost predicate HasTraffic(r: Record) { r.user != "" && (r.upload > 0 || r.download > 0) }

  /** The record goes into the report, for this user. */
  ghost predicate BilledTo(users: seq<UserInfo>, tag: string, minTraffic: int, r: Record, uid: int) {
    && HasTraffic(r)
    && (exists uuid :: NamesUser(r.user, tag, uuid) && HasId(users, uuid, uid))
    && (|| minTraffic <= 0 || minTraffic * 1000 % 0x1_0000_0000_0000_0000 == 0
        || (if r.upload + r.download < 0x1_0000_0000_0000_0000 then r.upload + r.download
            else 0xffff_ffff_ffff_ffff) > minTraffic * 1000 % 0x1_0000_0000_0000_0000)
  }

  ghost predicate Billed(users: seq<UserInfo>, tag: string, minTraffic: int, r: Record) {
    exists uid :: BilledTo(users, tag, minTraffic, r, uid)
  }

  /** All that the records count, in one direction. */
  ghost function Bytes(records: seq<Record>, upload: bool): nat {
    if records == [] then 0
    else (if upload then records[0].upload else records[0].download) + Bytes(records[1..], upload)
  }

  lemma UuidMeans(text: string, tag: string, uuid: string)
    ensures EdgeTrafficUUID(text, tag) == Some(uuid) <==> NamesUser(text, tag, uuid)
  {
    hide TrimSpace, IndexOf;
    var trimmed := TrimSpace(text);
    IndexOfBounds(trimmed, '|');
    if EdgeTrafficUUID(text, tag) == Some(uuid) {
      assert trimmed == tag + "|" + trimmed[|tag| + 1..];
    }
    if NamesUser(text, tag, uuid) {
      var rest :| trimmed == tag + "|" + rest && TrimSpace(rest) == uuid;
      IndexOfFirst(tag, rest, '|');
      assert trimmed[..|tag|] == tag && trimmed[|tag| + 1..] == rest;
    }
  }

  lemma {:induction false} IdMeans(users: seq<UserInfo>, uuid: string, id: int)
    ensures uuid in IdsByUuid(users) && IdsByUuid(users)[uuid] == id <==> HasId(users, uuid, id)
  {
    if users != [] {
      var n := |users| - 1;
      var rest, last := users[..n], users[n];
      IdMeans(rest, uuid, id);
      assert forall j | 0 <= j < n :: rest[j] == users[j];
      if last.uuid != uuid || last.uuid == "" || last.id <= 0 {
        if HasId(rest, uuid, id) {
          var i :| 0 <= i < n && rest[i].uuid == uuid && rest[i].id == id
                   && forall j | i < j < n :: rest[j].uuid == uuid ==> rest[j].id <= 0;
          assert users[i] == rest[i];
          assert HasId(users, uuid, id);
        }
      }
    }
  }
  /** The record is billed as the sorter says. */
  lemma FateMeans(users: seq<UserInfo>, tag: string, minTraffic: int, r: Record, uid: int)
    ensures FateOf(r, tag, IdsByUuid(users), MinBytes(minTraffic)) == Reported(uid) <==>
            BilledTo(users, tag, minTraffic, r, uid)
    ensures FateOf(r, tag, IdsByUuid(users), MinBytes(minTraffic)) == Ignored <==> !HasTraffic(r)
  {
    hide EdgeTrafficUUID, NamesUser, HasId, IdsByUuid;
    var ids := IdsByUuid(users);
    forall uuid
      ensures NamesUser(r.user, tag, uuid) && HasId(users, uuid, uid) <==>
              EdgeTrafficUUID(r.user, tag) == Some(uuid) && uuid in ids && ids[uuid] == uid
    {
      UuidMeans(r.user, tag, uuid);
      IdMeans(users, uuid, uid);
    }
  }

  /** Each record is kept for the report, given back or left out according to whether it is billed. */
  lemma FatesMean(users: seq<UserInfo>, tag: string, minTraffic: int)
    ensures var sorter := Sorter(tag, IdsByUuid(users), MinBytes(minTraffic));
            && (forall r, uid :: sorter.Fate(r) == Reported(uid) <==> BilledTo(users, tag, minTraffic, r, uid))
            && (forall r :: sorter.Fate(r).Reported? <==> Billed(users, tag, minTraffic, r))
            && (forall r :: sorter.Fate(r).Restored? <==> HasTraffic(r) && !Billed(users, tag, minTraffic, r))
  {
    hide FateOf, BilledTo, HasTraffic, IdsByUuid, MinBytes;
    var sorter := Sorter(tag, IdsByUuid(users), MinBytes(minTraffic));
    forall r, uid
      ensures sorter.Fate(r) == Reported(uid) <==> BilledTo(users, tag, minTraffic, r, uid)
      ensures sorter.Fate(r) == Ignored <==> !HasTraffic(r)
    {
      FateMeans(users, tag, minTraffic, r, uid);
    }
    forall r ensures sorter.Fate(r).Reported? <==> Billed(users, tag, minTraffic, r) {
      if sorter.Fate(r).Reported? {
        assert sorter.Fate(r) == Reported(sorter.Fate(r).uid);
      }
    }
    forall r ensures BilledTo(users, tag, minTraffic, r, 0) ==> HasTraffic(r) {}
    forall r ensures sorter.Fate(r).Restored? <==> HasTraffic(r) && !Billed(users, tag, minTraffic, r) {
      assert sorter.Fate(r) == Ignored <==> !HasTraffic(r);
    }
  }

  lemma {:induction false} BytesAppend(a: seq<Record>, b: seq<Record>, upload: bool)
    ensures Bytes(a + b, upload) == Bytes(a, upload) + Bytes(b, upload)
  {
    if a == [] {
      assert a + b == b;
    } else {
      BytesAppend(a[1..], b, upload);
      assert (a + b)[1..] == a[1..] + b;
    }
  }

  /** The two lists are the records of the two fates, in order, and a user's sum is that of its records. */
  lemma {:induction false} SortedMeans(sorter: Sorter, records: seq<Record>, uid: int, upload: bool)
    ensures sorter.Reported(records) == S.Select(records, r => sorter.Fate(r).Reported?)
    ensures sorter.Restored(records) == S.Select(records, r => sorter.Fate(r).Restored?)
    ensures sorter.Sum(records, uid, upload) == Bytes(S.Select(records, r => sorter.Fate(r) == Reported(uid)), upload)
  {
    hide FateOf;
    if records != [] {
      var n := |records| - 1;
      var rest, last := records[..n], records[n];
      SortedMeans(sorter, rest, uid, upload);
      assert records == rest + [last];
      S.SelectAppend(rest, [last], r => sorter.Fate(r).Reported?);
      S.SelectAppend(rest, [last], r => sorter.Fate(r).Restored?);
      S.SelectAppend(rest, [last], r => sorter.Fate(r) == Reported(uid));
      S.SelectOne(last, r => sorter.Fate(r).Reported?);
      S.SelectOne(last, r => sorter.Fate(r).Restored?);
      S.SelectOne(last, r => sorter.Fate(r) == Reported(uid));
      BytesAppend(S.Select(rest, r => sorter.Fate(r) == Reported(uid)),
                  S.Select([last], r => sorter.Fate(r) == Reported(uid)), upload);
    }
  }

  /** Some record is billed to the user. */
  ghost predicate Owes(users: seq<UserInfo>, tag: string, minTraffic: int, records: seq<Record>, uid: int) {
    exists k | 0 <= k < |records| :: BilledTo(users, tag, minTraffic, records[k], uid)
  }

  /** The report has the users that records are billed to, each with their bytes, up to the largest signed value. */
  ghost predicate Bills(report: seq<UserTraffic>, users: seq<UserInfo>, tag: string, minTraffic: int,
                        records: seq<Record>) {
    && DistinctUids(report)
    && (forall i | 0 <= i < |report| :: Owes(users, tag, minTraffic, records, report[i].uid))
    && (forall uid | Owes(users, tag, minTraffic, records, uid) ::
          exists i :: 0 <= i < |report| && report[i].uid == uid)
    && forall i | 0 <= i < |report| ::
         var own := S.Select(records, r => BilledTo(users, tag, minTraffic, r, report[i].uid));
         && report[i].upload == Min(Bytes(own, true), 0x7fff_ffff_ffff_ffff)
         && report[i].download == Min(Bytes(own, false), 0x7fff_ffff_ffff_ffff)
  }

  /** What the sorter reports for a user are the records billed to it. */
  lemma SumsMean(users: seq<UserInfo>, tag: string, minTraffic: int, records: seq<Record>, uid: int)
    ensures var sorter := Sorter(tag, IdsByUuid(users), MinBytes(minTraffic));
            && (uid in sorter.ReportedIds(records) <==> Owes(users, tag, minTraffic, records, uid))
            && forall upload :: sorter.Sum(records, uid, upload) ==
                 Bytes(S.Select(records, r => BilledTo(users, tag, minTraffic, r, uid)), upload)
  {
    hide FateOf, BilledTo, Billed, HasTraffic, IdsByUuid, MinBytes;
    var sorter := Sorter(tag, IdsByUuid(users), MinBytes(minTraffic));
    FatesMean(users, tag, minTraffic);
    if k :| 0 <= k < |records| && BilledTo(users, tag, minTraffic, records[k], uid) {
      assert sorter.Fate(records[k]) == Reported(uid);
    }
    if uid in sorter.ReportedIds(records) {
      var k :| 0 <= k < |records| && sorter.Fate(records[k]) == Reported(uid);
      assert BilledTo(users, tag, minTraffic, records[k], uid);
    }
    forall upload
      ensures sorter.Sum(records, uid, upload) ==
              Bytes(S.Select(records, r => BilledTo(users, tag, minTraffic, r, uid)), upload)
    {
      SortedMeans(sorter, records, uid, upload);
      S.SelectSame(records, r => sorter.Fate(r) == Reported(uid), r => BilledTo(users, tag, minTraffic, r, uid));
    }
  }

  lemma BillsRight(report: seq<UserTraffic>, users: seq<UserInfo>, tag: string, minTraffic: int, records: seq<Record>)
    requires ReportFits(report, Sorter(tag, IdsByUuid(users), MinBytes(minTraffic)), records)
    ensures Bills(report, users, tag, minTraffic, records)
  {
    hide FateOf, BilledTo, Billed, HasTraffic, IdsByUuid, MinBytes, DistinctUids, Min, Owes;
    var sorter := Sorter(tag, IdsByUuid(users), MinBytes(minTraffic));
    forall uid ensures uid in sorter.ReportedIds(records) <==> Owes(users, tag, minTraffic, records, uid) {
      SumsMean(users, tag, minTraffic, records, uid);
    }
    forall uid, upload
      ensures sorter.Sum(records, uid, upload) ==
              Bytes(S.Select(records, r => BilledTo(users, tag, minTraffic, r, uid)), upload)
    {
      SumsMean(users, tag, minTraffic, records, uid);
    }
  }

  // ---------- draining ----------

  datatype Sums = Sums(upload: Count, download: Count)

  /** The sums so far are the exact sums, saturated. */
  ghost predicate SumsFit(merged: map<int, Sums>, sorter: Sorter, records: seq<Record>) {
    && merged.Keys == sorter.ReportedIds(records)
    && forall uid <- merged ::
         && merged[uid].upload == Min(sorter.Sum(records, uid, true), MAX_UINT64)
         && merged[uid].download == Min(sorter.Sum(records, uid, false), MAX_UINT64)
  }

  lemma {:induction false} SumAbsent(sorter: Sorter, records: seq<Record>, uid: int, upload: bool)
    requires uid !in sorter.ReportedIds(records)
    ensures sorter.Sum(records, uid, upload) == 0
  {
    hide FateOf;
    if records != [] {
      var rest := records[..|records| - 1];
      assert forall i | 0 <= i < |rest| :: rest[i] == records[i];
      assert sorter.Fate(records[|records| - 1]) != Reported(uid);
      SumAbsent(sorter, rest, uid, upload);
    }
  }

  lemma SumsStep(merged: map<int, Sums>, sorter: Sorter, records: seq<Record>, i: nat)
    requires i < |records| && SumsFit(merged, sorter, records[..i])
    ensures var r := records[i];
            match sorter.Fate(r)
            case Reported(uid) =>
              var acc := if uid in merged then merged[uid] else Sums(0, 0);
              SumsFit(merged[uid := Sums(SaturatingAddUint64(acc.upload, r.upload),
                                         SaturatingAddUint64(acc.download, r.download))],
                      sorter, records[..i + 1])
            case _ => SumsFit(merged, sorter, records[..i + 1])
  {
    hide FateOf;
    var before, after, r := records[..i], records[..i + 1], records[i];
    assert after[..i] == before && after[i] == r;
    assert forall k | 0 <= k < i :: after[k] == before[k];
    assert sorter.ReportedIds(after) ==
           sorter.ReportedIds(before) + if sorter.Fate(r).Reported? then {sorter.Fate(r).uid} else {} by {
      forall uid | uid in sorter.ReportedIds(before) ensures uid in sorter.ReportedIds(after) {
        var k :| 0 <= k < i && sorter.Fate(before[k]) == Reported(uid);
        assert after[k] == before[k];
      }
    }
    if sorter.Fate(r).Reported? && sorter.Fate(r).uid !in merged {
      SumAbsent(sorter, before, sorter.Fate(r).uid, true);
      SumAbsent(sorter, before, sorter.Fate(r).uid, false);
    }
  }

  predicate DistinctUids(traffic: seq<UserTraffic>) {
    forall i, j | 0 <= i < j < |traffic| :: traffic[i].uid != traffic[j].uid
  }

  /** The report has one entry for each reported user, with the exact sums saturated at the signed maximum. */
  ghost predicate ReportFits(report: seq<UserTraffic>, sorter: Sorter, records: seq<Record>) {
    && DistinctUids(report)
    && (forall uid :: uid in sorter.ReportedIds(records) <==> exists i | 0 <= i < |report| :: report[i].uid == uid)
    && forall i | 0 <= i < |report| ::
         && report[i].upload == Min(sorter.Sum(records, report[i].uid, true), MAX_INT64)
         && report[i].download == Min(sorter.Sum(records, report[i].uid, false), MAX_INT64)
  }

  method DrainEdgeUserTraffic(users: seq<UserInfo>, tag: string, records: seq<Record>, minTraffic: int)
    returns (report: seq<UserTraffic>, reportRecords: seq<Record>, restoreRecords: seq<Record>)
    ensures var sorter := Sorter(tag, IdsByUuid(users), MinBytes(minTraffic));
            && ReportFits(report, sorter, records)
            && reportRecords == sorter.Reported(records) && restoreRecords == sorter.Restored(records)
    ensures Bills(report, users, tag, minTraffic, records)
    ensures reportRecords == S.Select(records, r => Billed(users, tag, minTraffic, r))
    ensures restoreRecords == S.Select(records, r => HasTraffic(r) && !Billed(users, tag, minTraffic, r))
  {
    hide EdgeTrafficUUID, SumsFit, ReportFits, Bills, Billed;
    var ids: map<string, int> := map[];
    for i := 0 to |users|
      invariant ids == IdsByUuid(users[..i])
    {
      assert users[..i + 1][..i] == users[..i];
      if users[i].uuid == "" || users[i].id <= 0 {
        continue;
      }
      ids := ids[users[i].uuid := users[i].id];
    }
    assert users[..|users|] == users;
    var minBytes := MinBytes(minTraffic);
    ghost var sorter := Sorter(tag, ids, minBytes);
    var merged: map<int, Sums> := map[];
    reportRecords, restoreRecords := [], [];
    NoSums(sorter);
    for i := 0 to |records|
      invariant SumsFit(merged, sorter, records[..i])
      invariant reportRecords == sorter.Reported(records[..i]) && restoreRecords == sorter.Restored(records[..i])
    {
      var record := records[i];
      assert records[..i + 1][..i] == records[..i];
      SumsStep(merged, sorter, records, i);
      if record.user == "" || (record.upload == 0 && record.download == 0) {
        continue;
      }
      var uuid := EdgeTrafficUUID(record.user, tag);
      if uuid.None? || uuid.value !in ids {
        restoreRecords := restoreRecords + [record];
        continue;
      }
      var uid := ids[uuid.value];
      if minBytes != 0 && SaturatingAddUint64(record.upload, record.download) <= minBytes {
        restoreRecords := restoreRecords + [record];
        continue;
      }
      var acc := if uid in merged then merged[uid] else Sums(0, 0);
      merged := merged[uid := Sums(SaturatingAddUint64(acc.upload, record.upload),
                                   SaturatingAddUint64(acc.download, record.download))];
      reportRecords := reportRecords + [record];
    }
    assert records[..|records|] == records;
    report := ReportOf(merged);
    ReportOfSums(report, merged, sorter, records);
    BillsRight(report, users, tag, minTraffic, records);
    DrainedMeans(users, tag, minTraffic, records);
  }

  lemma DrainedMeans(users: seq<UserInfo>, tag: string, minTraffic: int, records: seq<Record>)
    ensures var sorter := Sorter(tag, IdsByUuid(users), MinBytes(minTraffic));
            && sorter.Reported(records) == S.Select(records, r => Billed(users, tag, minTraffic, r))
            && sorter.Restored(records) ==
               S.Select(records, r => HasTraffic(r) && !Billed(users, tag, minTraffic, r))
  {
    hide FateOf, Billed, HasTraffic, IdsByUuid, MinBytes;
    var sorter := Sorter(tag, IdsByUuid(users), MinBytes(minTraffic));
    FatesMean(users, tag, minTraffic);
    SortedMeans(sorter, records, 0, true);
    S.SelectSame(records, r => sorter.Fate(r).Reported?, r => Billed(users, tag, minTraffic, r));
    S.SelectSame(records, r => sorter.Fate(r).Restored?,
                 r => HasTraffic(r) && !Billed(users, tag, minTraffic, r));
  }

  lemma NoSums(sorter: Sorter)
    ensures SumsFit(map[], sorter, [])
  {}

  ghost predicate Lists(report: seq<UserTraffic>, merged: map<int, Sums>) {
    && DistinctUids(report)
    && (forall uid :: uid in merged <==> exists i | 0 <= i < |report| :: report[i].uid == uid)
    && forall i | 0 <= i < |report| ::
         report[i].uid in merged
         && report[i].upload == ToInt64Saturated(merged[report[i].uid].upload)
         && report[i].download == ToInt64Saturated(merged[report[i].uid].download)
  }

  method ReportOf(merged: map<int, Sums>) returns (report: seq<UserTraffic>)
    ensures Lists(report, merged)
  {
    report := [];
    var left := merged.Keys;
    while left != {}
      invariant left <= merged.Keys
      invariant Lists(report, merged - left)
      decreases |left|
    {
      ghost var some := Inhabited(left);
      var uid :| uid in left;
      ghost var before := merged - left;
      left := left - {uid};
      var entry := UserTraffic(uid, ToInt64Saturated(merged[uid].upload), ToInt64Saturated(merged[uid].download));
      assert merged - left == before[uid := merged[uid]];
      ListsStep(report, before, entry, merged[uid]);
      report := report + [entry];
    }
    assert merged - {} == merged;
  }

  lemma ListsStep(report: seq<UserTraffic>, merged: map<int, Sums>, entry: UserTraffic, sums: Sums)
    requires Lists(report, merged) && entry.uid !in merged
    requires entry.upload == ToInt64Saturated(sums.upload) && entry.download == ToInt64Saturated(sums.download)
    ensures Lists(report + [entry], merged[entry.uid := sums])
  {
    var longer := report + [entry];
    assert longer[|report|] == entry;
    forall uid | uid in merged ensures exists i | 0 <= i < |longer| :: longer[i].uid == uid {
      var i :| 0 <= i < |report| && report[i].uid == uid;
      assert longer[i] == report[i];
    }
  }

  lemma ReportOfSums(report: seq<UserTraffic>, merged: map<int, Sums>, sorter: Sorter, records: seq<Record>)
    requires Lists(report, merged) && SumsFit(merged, sorter, records)
    ensures ReportFits(report, sorter, records)
  {
    hide FateOf;
  }

  // ---------- merging with the core's traffic ----------

  predicate InRange(t: UserTraffic) { 0 <= t.upload <= MAX_INT64 && 0 <= t.download <= MAX_INT64 }

  predicate AllInRange(traffic: seq<UserTraffic>) { forall i | 0 <= i < |traffic| :: InRange(traffic[i]) }

  /** What a list says about a user. */
  function Amount(traffic: seq<UserTraffic>, uid: int, upload: bool): int {
    if traffic == [] then 0
    else
      var t := traffic[|traffic| - 1];
      Amount(traffic[..|traffic| - 1], uid, upload)
      + if t.uid != uid then 0 else if upload then t.upload else t.download
  }

  predicate Mentions(traffic: seq<UserTraffic>, uid: int) {
    exists i | 0 <= i < |traffic| :: traffic[i].uid == uid
  }

  /** The list names the users of both lists. */
  ghost predicate Names(merged: seq<UserTraffic>, primary: seq<UserTraffic>, extra: seq<UserTraffic>) {
    forall uid :: Mentions(merged, uid) <==> Mentions(primary, uid) || Mentions(extra, uid)
  }

  /** One entry for each user of either list, with the saturated sum of both. */
  ghost predicate Merges(merged: seq<UserTraffic>, primary: seq<UserTraffic>, extra: seq<UserTraffic>) {
    && DistinctUids(merged) && AllInRange(merged)
    && Names(merged, primary, extra)
    && forall uid, upload ::
         Amount(merged, uid, upload) == Min(Amount(primary, uid, upload) + Amount(extra, uid, upload), MAX_INT64)
  }

  lemma {:induction false} AmountAbsent(traffic: seq<UserTraffic>, uid: int, upload: bool)
    requires !Mentions(traffic, uid)
    ensures Amount(traffic, uid, upload) == 0
  {
    if traffic != [] {
      var rest := traffic[..|traffic| - 1];
      assert forall i | 0 <= i < |rest| :: rest[i] == traffic[i];
      AmountAbsent(rest, uid, upload);
    }
  }

  lemma {:induction false} AmountAt(traffic: seq<UserTraffic>, k: nat, upload: bool)
    requires k < |traffic| && DistinctUids(traffic)
    ensures Amount(traffic, traffic[k].uid, upload) == if upload then traffic[k].upload else traffic[k].download
  {
    var rest, uid := traffic[..|traffic| - 1], traffic[k].uid;
    if k == |traffic| - 1 {
      assert !Mentions(rest, uid);
      AmountAbsent(rest, uid, upload);
    } else {
      AmountAt(rest, k, upload);
    }
  }

  lemma AmountInRange(traffic: seq<UserTraffic>, uid: int, upload: bool)
    requires DistinctUids(traffic) && AllInRange(traffic)
    ensures 0 <= Amount(traffic, uid, upload) <= MAX_INT64
  {
    if i :| 0 <= i < |traffic| && traffic[i].uid == uid {
      AmountAt(traffic, i, upload);
    } else {
      AmountAbsent(traffic, uid, upload);
    }
  }

  lemma MentionsStep(traffic: seq<UserTraffic>, i: nat, uid: int)
    requires i < |traffic|
    ensures Mentions(traffic[..i + 1], uid) <==> Mentions(traffic[..i], uid) || traffic[i].uid == uid
  {
    var before, after := traffic[..i], traffic[..i + 1];
    assert after[i] == traffic[i] && forall k | 0 <= k < i :: after[k] == before[k];
  }

  /** The list that decides whether a merge has repeated users: repeats in the other one are summed. */
  function Base(primary: seq<UserTraffic>, extra: seq<UserTraffic>): seq<UserTraffic> {
    if primary == [] then extra else primary
  }

  /**
   The merged list names the users of both lists, and repeats one exactly when the base list does.
   For amounts in range it has one entry with the saturated sum for each user exactly when the base
   list repeats none.
   */
  method MergeUserTraffic(primary: seq<UserTraffic>, extra: seq<UserTraffic>) returns (merged: seq<UserTraffic>)
    ensures Names(merged, primary, extra)
    ensures DistinctUids(merged) <==> DistinctUids(Base(primary, extra))
    ensures AllInRange(primary) && AllInRange(extra) ==>
              (Merges(merged, primary, extra) <==> DistinctUids(Base(primary, extra)))
  {
    hide DistinctUids, AllInRange, Amount, Mentions, Merges, InRange, PositionsFit;
    NoMentions();
    MergesDistinct(primary, primary, extra);
    MergesDistinct(extra, primary, extra);
    MergesNone(primary);
    MergesNone(extra);
    if |extra| == 0 {
      return primary;
    }
    if |primary| == 0 {
      return extra;
    }
    var positions := Positions(primary);
    merged := primary;
    ghost var exact := DistinctUids(primary) && AllInRange(primary) && AllInRange(extra);
    assert extra[..0] == [];
    for i := 0 to |extra|
      invariant Names(merged, primary, extra[..i])
      invariant DistinctUids(merged) <==> DistinctUids(primary)
      invariant PositionsFit(positions, merged)
      invariant exact ==> Merges(merged, primary, extra[..i])
    {
      var traffic := extra[i];
      if traffic.uid in positions {
        var idx := PositionOf(positions, merged, traffic.uid);
        if exact {
          MergeInto(merged, primary, extra, i, idx);
        }
        ghost var before := merged;
        merged := merged[idx := UserTraffic(traffic.uid, SaturatingAddInt64(merged[idx].upload, traffic.upload),
                                            SaturatingAddInt64(merged[idx].download, traffic.download))];
        ListUpdated(positions, before, idx, merged[idx]);
        NamesStep(before, merged, primary, extra, i);
        continue;
      }
      ListAppended(positions, merged, traffic);
      NamesStep(merged, merged + [traffic], primary, extra, i);
      if exact {
        MergeNew(merged, primary, extra, i);
      }
      positions := positions[traffic.uid := |merged|];
      merged := merged + [traffic];
    }
    assert extra[..|extra|] == extra;
    MergesDistinct(merged, primary, extra);
  }

  lemma NamesStep(before: seq<UserTraffic>, after: seq<UserTraffic>, primary: seq<UserTraffic>, extra: seq<UserTraffic>,
                  i: nat)
    requires i < |extra| && Names(before, primary, extra[..i])
    requires forall uid :: Mentions(after, uid) <==> Mentions(before, uid) || extra[i].uid == uid
    ensures Names(after, primary, extra[..i + 1])
  {
    hide Mentions;
    forall uid ensures Mentions(after, uid) <==> Mentions(primary, uid) || Mentions(extra[..i + 1], uid) {
      MentionsStep(extra, i, uid);
    }
  }

  lemma MergesDistinct(merged: seq<UserTraffic>, primary: seq<UserTraffic>, extra: seq<UserTraffic>)
    ensures Merges(merged, primary, extra) ==> DistinctUids(merged)
  {}

  /** The position of a listed user. */
  method PositionOf(positions: map<int, int>, traffic: seq<UserTraffic>, uid: int) returns (idx: nat)
    requires PositionsFit(positions, traffic) && uid in positions
    ensures idx == positions[uid] && idx < |traffic| && traffic[idx].uid == uid && Mentions(traffic, uid)
  {
    idx := positions[uid];
  }

  /** Replacing the entry of a user by another one of that user. */
  lemma ListUpdated(positions: map<int, int>, traffic: seq<UserTraffic>, k: nat, t: UserTraffic)
    requires k < |traffic| && t.uid == traffic[k].uid && PositionsFit(positions, traffic)
    ensures PositionsFit(positions, traffic[k := t])
    ensures DistinctUids(traffic[k := t]) <==> DistinctUids(traffic)
    ensures forall uid :: Mentions(traffic[k := t], uid) <==> Mentions(traffic, uid)
  {
    hide Mentions;
    var next := traffic[k := t];
    if DistinctUids(next) {
      forall i, j | 0 <= i < j < |traffic| ensures traffic[i].uid != traffic[j].uid {
        assert next[i].uid != next[j].uid;
      }
    }
    forall uid ensures Mentions(traffic[k := t], uid) <==> Mentions(traffic, uid) {
      MentionsUpdated(traffic, k, t, uid);
    }
  }

  /** Adding the first entry of a user. */
  lemma ListAppended(positions: map<int, int>, traffic: seq<UserTraffic>, t: UserTraffic)
    requires PositionsFit(positions, traffic) && t.uid !in positions
    ensures !Mentions(traffic, t.uid)
    ensures PositionsFit(positions[t.uid := |traffic|], traffic + [t])
    ensures DistinctUids(traffic + [t]) <==> DistinctUids(traffic)
    ensures forall uid :: Mentions(traffic + [t], uid) <==> Mentions(traffic, uid) || t.uid == uid
  {
    var longer := traffic + [t];
    assert longer[..|traffic|] == traffic && longer[..|traffic| + 1] == longer;
    forall uid ensures Mentions(longer, uid) <==> Mentions(traffic, uid) || t.uid == uid {
      MentionsStep(longer, |traffic|, uid);
    }
    if DistinctUids(longer) {
      assert forall i | 0 <= i < |traffic| :: longer[i] == traffic[i];
    }
  }

  lemma {:induction false} AmountUpdated(traffic: seq<UserTraffic>, k: nat, t: UserTraffic, uid: int, upload: bool)
    requires k < |traffic| && t.uid == traffic[k].uid
    ensures Amount(traffic[k := t], uid, upload) ==
            Amount(traffic, uid, upload)
            + if t.uid != uid then 0
              else if upload then t.upload - traffic[k].upload
              else t.download - traffic[k].download
  {
    var n := |traffic| - 1;
    if k < n {
      AmountUpdated(traffic[..n], k, t, uid, upload);
      assert traffic[k := t][..n] == traffic[..n][k := t];
    } else {
      assert traffic[k := t][..n] == traffic[..n];
    }
  }

  lemma AmountStep(traffic: seq<UserTraffic>, i: nat, uid: int, upload: bool)
    requires i < |traffic|
    ensures Amount(traffic[..i + 1], uid, upload) ==
            Amount(traffic[..i], uid, upload)
            + if traffic[i].uid != uid then 0 else if upload then traffic[i].upload else traffic[i].download
  {
    assert traffic[..i + 1][..i] == traffic[..i];
  }

  lemma {:induction false} AmountNonNegative(traffic: seq<UserTraffic>, uid: int, upload: bool)
    requires AllInRange(traffic)
    ensures Amount(traffic, uid, upload) >= 0
  {
    if traffic != [] {
      AmountNonNegative(traffic[..|traffic| - 1], uid, upload);
    }
  }

  /** Adding the entry of a user that is already listed. */
  lemma MergeInto(merged: seq<UserTraffic>, primary: seq<UserTraffic>, extra: seq<UserTraffic>, i: nat, idx: nat)
    requires i < |extra| && AllInRange(extra) && AllInRange(primary) && Merges(merged, primary, extra[..i])
    requires idx < |merged| && merged[idx].uid == extra[i].uid
    ensures InRange(merged[idx]) && InRange(extra[i])
    ensures var t := UserTraffic(extra[i].uid, SaturatingAddInt64(merged[idx].upload, extra[i].upload),
                                 SaturatingAddInt64(merged[idx].download, extra[i].download));
            Merges(merged[idx := t], primary, extra[..i + 1])
  {
    var t := UserTraffic(extra[i].uid, SaturatingAddInt64(merged[idx].upload, extra[i].upload),
                         SaturatingAddInt64(merged[idx].download, extra[i].download));
    var merged' := merged[idx := t];
    assert AllInRange(merged') && DistinctUids(merged');
    forall uid ensures Mentions(merged', uid) <==> Mentions(primary, uid) || Mentions(extra[..i + 1], uid) {
      MentionsStep(extra, i, uid);
      assert Mentions(merged', uid) <==> Mentions(merged, uid) by { MentionsUpdated(merged, idx, t, uid); }
    }
    forall uid, upload
      ensures Amount(merged', uid, upload) ==
              Min(Amount(primary, uid, upload) + Amount(extra[..i + 1], uid, upload), MAX_INT64)
    {
      AmountUpdated(merged, idx, t, uid, upload);
      AmountStep(extra, i, uid, upload);
      AmountAt(merged, idx, upload);
      AmountNonNegative(primary, uid, upload);
      AmountNonNegative(extra[..i], uid, upload);
    }
  }

  lemma MentionsUpdated(traffic: seq<UserTraffic>, k: nat, t: UserTraffic, uid: int)
    requires k < |traffic| && t.uid == traffic[k].uid
    ensures Mentions(traffic[k := t], uid) <==> Mentions(traffic, uid)
  {
    assert forall i | 0 <= i < |traffic| :: traffic[k := t][i].uid == traffic[i].uid;
  }

  /** Adding the entry of a user that is not listed yet. */
  lemma MergeNew(merged: seq<UserTraffic>, primary: seq<UserTraffic>, extra: seq<UserTraffic>, i: nat)
    requires i < |extra| && AllInRange(extra) && AllInRange(primary) && Merges(merged, primary, extra[..i])
    requires !Mentions(merged, extra[i].uid)
    ensures Merges(merged + [extra[i]], primary, extra[..i + 1])
  {
    var t := extra[i];
    var merged' := merged + [t];
    assert merged'[..|merged|] == merged && merged'[|merged|] == t && merged'[..|merged| + 1] == merged';
    assert DistinctUids(merged') && AllInRange(merged');
    forall uid ensures Mentions(merged', uid) <==> Mentions(primary, uid) || Mentions(extra[..i + 1], uid) {
      MentionsStep(extra, i, uid);
      MentionsStep(merged', |merged|, uid);
    }
    forall uid, upload
      ensures Amount(merged', uid, upload) ==
              Min(Amount(primary, uid, upload) + Amount(extra[..i + 1], uid, upload), MAX_INT64)
    {
      AmountStep(extra, i, uid, upload);
      AmountStep(merged', |merged|, uid, upload);
      if uid == t.uid {
        AmountAbsent(merged, uid, upload);
        AmountAbsent(primary, uid, upload);
        AmountAbsent(extra[..i], uid, upload);
      }
    }
  }

  ghost predicate PositionsFit(positions: map<int, int>, traffic: seq<UserTraffic>) {
    && (forall uid :: uid in positions <==> Mentions(traffic, uid))
    && forall uid <- positions :: 0 <= positions[uid] < |traffic| && traffic[positions[uid]].uid == uid
  }

  method Positions(traffic: seq<UserTraffic>) returns (positions: map<int, int>)
    ensures PositionsFit(positions, traffic)
  {
    hide Mentions;
    positions := map[];
    assert traffic[..0] == [] && !exists uid :: Mentions([], uid) by { NoMentions(); }
    for i := 0 to |traffic|
      invariant PositionsFit(positions, traffic[..i])
    {
      assert traffic[..i + 1][i] == traffic[i] && forall k | 0 <= k < i :: traffic[..i + 1][k] == traffic[..i][k];
      forall uid ensures Mentions(traffic[..i + 1], uid) <==> Mentions(traffic[..i], uid) || traffic[i].uid == uid {
        MentionsStep(traffic, i, uid);
      }
      positions := positions[traffic[i].uid := i];
    }
    assert traffic[..|traffic|] == traffic;
  }

  lemma NoMentions()
    ensures forall uid :: !Mentions([], uid)
  {}

  lemma MergesNone(traffic: seq<UserTraffic>)
    ensures DistinctUids(traffic) && AllInRange(traffic) ==>
            Merges(traffic, traffic, []) && Merges(traffic, [], traffic)
  {
    if DistinctUids(traffic) && AllInRange(traffic) {
      forall uid, upload ensures 0 <= Amount(traffic, uid, upload) <= MAX_INT64 {
        AmountInRange(traffic, uid, upload);
      }
    }
  }

  /** The report's payload, by user id. */
  function Payload(traffic: seq<UserTraffic>): map<int, (int, int)> {
    if traffic == [] then map[]
    else
      var t := traffic[|traffic| - 1];
      Payload(traffic[..|traffic| - 1])[t.uid := (t.upload, t.download)]
  }

  /** The payload by user id drops nothing of a merged report. */
  lemma {:induction false} PayloadIsAmounts(traffic: seq<UserTraffic>, uid: int)
    requires DistinctUids(traffic)
    ensures uid in Payload(traffic) <==> Mentions(traffic, uid)
    ensures uid in Payload(traffic) ==>
              Payload(traffic)[uid] == (Amount(traffic, uid, true), Amount(traffic, uid, false))
  {
    if traffic != [] {
      var n := |traffic| - 1;
      PayloadIsAmounts(traffic[..n], uid);
      MentionsStep(traffic, n, uid);
      assert traffic[..n + 1] == traffic;
      if traffic[n].uid == uid {
        AmountAt(traffic, n, true);
        AmountAt(traffic, n, false);
      }
    }
  }

  // ---------- giving records back ----------

  /** The records given back before the edge refuses one. */
  function GivenBack(records: seq<Record>, accepts: Record -> bool): seq<Record> {
    if records == [] || !accepts(records[0]) then [] else [records[0]] + GivenBack(records[1..], accepts)
  }

  lemma {:induction false} AllGivenBack(records: seq<Record>, accepts: Record -> bool)
    requires forall r <- records :: accepts(r)
    ensures GivenBack(records, accepts) == records
  {
    if records != [] {
      AllGivenBack(records[1..], accepts);
    }
  }

  /** Gives records back one by one, stopping at the first that the edge refuses. */
  method RestoreEdgeTraffic(records: seq<Record>, accepts: Record -> bool) returns (restored: seq<Record>)
    ensures restored == GivenBack(NonZeroFrom(records), accepts)
  {
    restored := [];
    assert records[0..] == records;
    for i := 0 to |records|
      invariant restored + GivenBack(NonZeroFrom(records[i..]), accepts) == GivenBack(NonZeroFrom(records), accepts)
    {
      var record := records[i];
      assert records[i..][0] == record && records[i..][1..] == records[i + 1..];
      if record.user == "" || (record.upload == 0 && record.download == 0) {
        assert NonZeroFrom(records[i..]) == NonZeroFrom(records[i + 1..]);
        continue;
      }
      assert NonZeroFrom(records[i..]) == [record] + NonZeroFrom(records[i + 1..]);
      if !accepts(record) {
        return;
      }
      ghost var rest := GivenBack(NonZeroFrom(records[i + 1..]), accepts);
      assert restored + ([record] + rest) == restored + [record] + rest;
      restored := restored + [record];
    }
    assert records[|records|..] == [];
  }

  function NonZeroFrom(records: seq<Record>): seq<Record> {
    if records == [] then []
    else (if Counts(records[0]) then [records[0]] else []) + NonZeroFrom(records[1..])
  }

  lemma {:induction false} SortedOutCounts(sorter: Sorter, records: seq<Record>)
    ensures forall r <- sorter.Reported(records) + sorter.Restored(records) :: Counts(r)
  {
    hide EdgeTrafficUUID;
    if records != [] {
      SortedOutCounts(sorter, records[..|records| - 1]);
    }
  }

  lemma {:induction false} NonZeroMeans(records: seq<Record>)
    ensures NonZero(records) == S.Select(records, r => HasTraffic(r))
  {
    if records != [] {
      var n := |records| - 1;
      NonZeroMeans(records[..n]);
      assert records == records[..n] + [records[n]];
      S.SelectAppend(records[..n], [records[n]], r => HasTraffic(r));
      S.SelectOne(records[n], r => HasTraffic(r));
    }
  }

  lemma {:induction false} NonZeroFromAll(records: seq<Record>)
    requires forall r <- records :: Counts(r)
    ensures NonZeroFrom(records) == records
  {
    if records != [] {
      NonZeroFromAll(records[1..]);
    }
  }

  /** The records that are to be given back. */
  ghost function Returned(users: seq<UserInfo>, tag: string, minTraffic: int, records: seq<Record>,
                          reportSucceeds: bool): seq<Record>
  {
    if reportSucceeds then S.Select(records, r => HasTraffic(r) && !Billed(users, tag, minTraffic, r))
    else S.Select(records, r => HasTraffic(r))
  }

  lemma ReturnedAre(users: seq<UserInfo>, tag: string, minTraffic: int, records: seq<Record>)
    ensures Returned(users, tag, minTraffic, records, false) == NonZero(records)
    ensures Returned(users, tag, minTraffic, records, true) ==
            Sorter(tag, IdsByUuid(users), MinBytes(minTraffic)).Restored(records)
  {
    NonZeroMeans(records);
    DrainedMeans(users, tag, minTraffic, records);
  }

  /**
   The edge side of one report. When the edge takes everything back, a report without error leaves
   exactly the reported records with the panel, and a failed one returns every drained record.
   */
  method ReportEdgeTraffic(users: seq<UserInfo>, tag: string, records: seq<Record>, minTraffic: int,
                           accepts: Record -> bool, reportSucceeds: bool)
    returns (report: seq<UserTraffic>, givenBack: seq<Record>)
    ensures ReportFits(report, Sorter(tag, IdsByUuid(users), MinBytes(minTraffic)), records)
    ensures (forall r :: accepts(r)) ==>
              var sorter := Sorter(tag, IdsByUuid(users), MinBytes(minTraffic));
              multiset(givenBack) + (if reportSucceeds then multiset(sorter.Reported(records)) else multiset{})
              == multiset(NonZero(records))
    ensures Bills(report, users, tag, minTraffic, records)
    ensures (forall r :: accepts(r)) ==>
              multiset(givenBack) == multiset(Returned(users, tag, minTraffic, records, reportSucceeds))
  {
    hide ReportFits, IdsByUuid, Bills, Returned;
    ghost var sorter := Sorter(tag, IdsByUuid(users), MinBytes(minTraffic));
    ReturnedAre(users, tag, minTraffic, records);
    var reportRecords, restoreRecords;
    report, reportRecords, restoreRecords := DrainEdgeUserTraffic(users, tag, records, minTraffic);
    DrainPartitions(sorter, records);
    SortedOutCounts(sorter, records);
    NonZeroFromAll(reportRecords);
    NonZeroFromAll(restoreRecords);
    givenBack := RestoreEdgeTraffic(restoreRecords, accepts);
    ghost var all := forall r :: accepts(r);
    if all {
      AllGivenBack(restoreRecords, accepts);
      AllGivenBack(reportRecords, accepts);
    }
    if !reportSucceeds {
      var more := RestoreEdgeTraffic(reportRecords, accepts);
      givenBack := givenBack + more;
    }
  }
}
