/**
 One traffic report: what the core swapped out and what the edge drained are merged and sent to the
 panel by user id.
 */
module TrafficReport {
  import opened EdgeTraffic
  import opened Text
  import opened Users
  import T = Traffic
  import S = Lists

  /** The core's part of a report. */
  function CoreTraffic(items: seq<T.Item>): (traffic: seq<UserTraffic>)
    ensures |traffic| == |items|
  {
    seq(|items|, i requires 0 <= i < |items| => UserTraffic(items[i].uid, items[i].bytes.up, items[i].bytes.down))
  }

  /** What the core's items and the reported records of the edge add up to, saturated. */
  ghost predicate AddsUp(payload: map<int, (int, int)>, items: seq<T.Item>, sorter: Sorter, records: seq<Record>) {
    forall uid ::
      && (uid in payload <==> Mentions(CoreTraffic(items), uid) || uid in sorter.ReportedIds(records))
      && (uid in payload ==> payload[uid] == (Reported(items, sorter, records, uid, true),
                                              Reported(items, sorter, records, uid, false)))
  }

  function Reported(items: seq<T.Item>, sorter: Sorter, records: seq<Record>, uid: int, upload: bool): int {
    Min(Amount(CoreTraffic(items), uid, upload) + sorter.Sum(records, uid, upload), MAX_INT64)
  }

  /** The loop that keys a report by user id. */
  method BuildPayload(traffic: seq<UserTraffic>) returns (payload: map<int, (int, int)>)
    ensures payload == Payload(traffic)
  {
    payload := map[];
    for i := 0 to |traffic|
      invariant payload == Payload(traffic[..i])
    {
      assert traffic[..i + 1][..i] == traffic[..i];
      payload := payload[traffic[i].uid := (traffic[i].upload, traffic[i].download)];
    }
    assert traffic[..|traffic|] == traffic;
  }

  /**
   The payload of a report: for every user the saturated sum of the core's items and of the edge's
   reported records, and nothing else, when the core's items are in range and of different users.
   */
  method BuildReport(items: seq<T.Item>, users: seq<UserInfo>, tag: string, records: seq<Record>, minTraffic: int)
    returns (payload: map<int, (int, int)>, reportRecords: seq<Record>, restoreRecords: seq<Record>)
    ensures var sorter := Sorter(tag, IdsByUuid(users), MinBytes(minTraffic));
            && reportRecords == sorter.Reported(records) && restoreRecords == sorter.Restored(records)
            && (AllInRange(CoreTraffic(items)) && DistinctUids(CoreTraffic(items)) ==>
                AddsUp(payload, items, sorter, records))
  {
    hide ReportFits, Merges, DistinctUids, AllInRange, AddsUp, IdsByUuid;
    var edge;
    edge, reportRecords, restoreRecords := DrainEdgeUserTraffic(users, tag, records, minTraffic);
    var core := CoreTraffic(items);
    var merged := MergeUserTraffic(core, edge);
    payload := BuildPayload(merged);
    ghost var sorter := Sorter(tag, IdsByUuid(users), MinBytes(minTraffic));
    EdgeFits(edge, sorter, records);
    if AllInRange(core) && DistinctUids(core) {
      PayloadAddsUp(merged, items, edge, sorter, records);
    }
  }

  lemma EdgeFits(edge: seq<UserTraffic>, sorter: Sorter, records: seq<Record>)
    requires ReportFits(edge, sorter, records)
    ensures DistinctUids(edge) && AllInRange(edge)
    ensures forall uid :: Mentions(edge, uid) <==> uid in sorter.ReportedIds(records)
    ensures forall uid, upload :: Amount(edge, uid, upload) == Min(sorter.Sum(records, uid, upload), MAX_INT64)
  {
    forall uid, upload ensures Amount(edge, uid, upload) == Min(sorter.Sum(records, uid, upload), MAX_INT64) {
      if i :| 0 <= i < |edge| && edge[i].uid == uid {
        AmountAt(edge, i, upload);
      } else {
        AmountAbsent(edge, uid, upload);
        SumAbsent(sorter, records, uid, upload);
      }
    }
  }

  lemma PayloadAddsUp(merged: seq<UserTraffic>, items: seq<T.Item>, edge: seq<UserTraffic>, sorter: Sorter,
                      records: seq<Record>)
    requires Merges(merged, CoreTraffic(items), edge) && AllInRange(CoreTraffic(items))
    requires forall uid :: Mentions(edge, uid) <==> uid in sorter.ReportedIds(records)
    requires forall uid, upload :: Amount(edge, uid, upload) == Min(sorter.Sum(records, uid, upload), MAX_INT64)
    ensures AddsUp(Payload(merged), items, sorter, records)
  {
    hide Mentions, Amount, Payload;
    forall uid
      ensures uid in Payload(merged) <==> Mentions(CoreTraffic(items), uid) || uid in sorter.ReportedIds(records)
      ensures uid in Payload(merged) ==>
                Payload(merged)[uid] == (Reported(items, sorter, records, uid, true),
                                         Reported(items, sorter, records, uid, false))
    {
      PayloadIsAmounts(merged, uid);
      AmountNonNegative(CoreTraffic(items), uid, true);
      AmountNonNegative(CoreTraffic(items), uid, false);
    }
  }

  /**
   The report of a scan, whatever happens between the end of the scan and the call that sends it:
   with different ids at the end of the scan and counters in range, it adds up.
   */
  method SendReport(ghost states: seq<T.State>, ghost steps: seq<T.Step>, ghost m: nat, ghost n: nat,
                    items: seq<T.Item>,
                    users: seq<UserInfo>, tag: string, records: seq<Record>, minTraffic: int)
    returns (payload: map<int, (int, int)>)
    requires T.Trace(states, steps) && T.Initial(states[0]) && m < n < |states| && steps[m].FinishScan?
    requires (forall k | m < k <= n :: states[k].pc.Holding?) && T.DistinctIds(states[m])
    requires items == states[n].items && AllInRange(CoreTraffic(items))
    ensures AddsUp(payload, items, Sorter(tag, IdsByUuid(users), MinBytes(minTraffic)), records)
    ensures forall i | 0 <= i < |items| ::
              && items[i].uid == T.UidOf(states[m], items[i].user)
              && Contains(payload, items[i], Sorter(tag, IdsByUuid(users), MinBytes(minTraffic)), records)
    ensures Pays(payload, items, users, tag, minTraffic, records)
  {
    hide T.Trace, T.Initial, T.DistinctIds, AllInRange, AddsUp, IdsByUuid;
    T.SentItemsDistinct(states, steps, m, n);
    ghost var sorter := Sorter(tag, IdsByUuid(users), MinBytes(minTraffic));
    var reportRecords, restoreRecords;
    CoreDistinct(items);
    payload, reportRecords, restoreRecords := BuildReport(items, users, tag, records, minTraffic);
    forall i | 0 <= i < |items| ensures Contains(payload, items[i], sorter, records) {
      ItemReported(payload, items, i, sorter, records);
    }
    PaysWhat(payload, items, users, tag, minTraffic, records);
  }

  /** What is billed to a user, in one direction. */
  ghost function BilledBytes(users: seq<UserInfo>, tag: string, minTraffic: int, records: seq<Record>, uid: int,
                             upload: bool): nat
  {
    Bytes(S.Select(records, r => BilledTo(users, tag, minTraffic, r, uid)), upload)
  }

  /**
   The payload names the users with an item or a billed record, and no others; each with the bytes of
   its item and of its records, up to the largest signed value.
   */
  ghost predicate Pays(payload: map<int, (int, int)>, items: seq<T.Item>, users: seq<UserInfo>, tag: string,
                       minTraffic: int, records: seq<Record>) {
    && (forall i | 0 <= i < |items| ::
          var uid := items[i].uid;
          && uid in payload
          && payload[uid].0 == Min(items[i].bytes.up + BilledBytes(users, tag, minTraffic, records, uid, true),
                                   0x7fff_ffff_ffff_ffff)
          && payload[uid].1 == Min(items[i].bytes.down + BilledBytes(users, tag, minTraffic, records, uid, false),
                                   0x7fff_ffff_ffff_ffff))
    && (forall uid <- payload ::
          Owes(users, tag, minTraffic, records, uid) || exists i :: 0 <= i < |items| && items[i].uid == uid)
    && forall uid | Owes(users, tag, minTraffic, records, uid) && forall i | 0 <= i < |items| :: items[i].uid != uid ::
         && uid in payload
         && payload[uid].0 == Min(BilledBytes(users, tag, minTraffic, records, uid, true), 0x7fff_ffff_ffff_ffff)
         && payload[uid].1 == Min(BilledBytes(users, tag, minTraffic, records, uid, false), 0x7fff_ffff_ffff_ffff)
  }

  lemma PaysWhat(payload: map<int, (int, int)>, items: seq<T.Item>, users: seq<UserInfo>, tag: string,
                 minTraffic: int, records: seq<Record>)
    requires AddsUp(payload, items, Sorter(tag, IdsByUuid(users), MinBytes(minTraffic)), records)
    requires DistinctUids(CoreTraffic(items))
    ensures Pays(payload, items, users, tag, minTraffic, records)
  {
    hide IdsByUuid, MinBytes, Owes, DistinctUids, Amount;
    var sorter := Sorter(tag, IdsByUuid(users), MinBytes(minTraffic));
    forall uid
      ensures uid in sorter.ReportedIds(records) <==> Owes(users, tag, minTraffic, records, uid)
      ensures sorter.Sum(records, uid, true) == BilledBytes(users, tag, minTraffic, records, uid, true)
      ensures sorter.Sum(records, uid, false) == BilledBytes(users, tag, minTraffic, records, uid, false)
    {
      SumsMean(users, tag, minTraffic, records, uid);
    }
    hide BilledBytes;
    forall i | 0 <= i < |items| ensures Contains(payload, items[i], sorter, records) {
      ItemReported(payload, items, i, sorter, records);
    }
    forall uid | forall i | 0 <= i < |items| :: items[i].uid != uid
      ensures !Mentions(CoreTraffic(items), uid)
              && Amount(CoreTraffic(items), uid, true) == 0 && Amount(CoreTraffic(items), uid, false) == 0
    {
      AmountAbsent(CoreTraffic(items), uid, true);
      AmountAbsent(CoreTraffic(items), uid, false);
    }
    forall uid | Mentions(CoreTraffic(items), uid) ensures exists i :: 0 <= i < |items| && items[i].uid == uid {
      var i :| 0 <= i < |items| && CoreTraffic(items)[i].uid == uid;
    }
  }

  lemma CoreDistinct(items: seq<T.Item>)
    requires forall k, l | 0 <= k < l < |items| :: items[k].uid != items[l].uid
    ensures DistinctUids(CoreTraffic(items))
  {}

  /** The payload has an item's bytes under its user id, with what the edge reports for that id. */
  ghost predicate Contains(payload: map<int, (int, int)>, item: T.Item, sorter: Sorter, records: seq<Record>) {
    item.uid in payload
    && payload[item.uid] == (Min(item.bytes.up + sorter.Sum(records, item.uid, true), MAX_INT64),
                             Min(item.bytes.down + sorter.Sum(records, item.uid, false), MAX_INT64))
  }

  lemma ItemReported(payload: map<int, (int, int)>, items: seq<T.Item>, i: nat, sorter: Sorter, records: seq<Record>)
    requires AddsUp(payload, items, sorter, records) && i < |items| && DistinctUids(CoreTraffic(items))
    ensures Contains(payload, items[i], sorter, records)
  {
    var core := CoreTraffic(items);
    AmountAt(core, i, true);
    AmountAt(core, i, false);
    assert core[i].uid == items[i].uid && Mentions(core, items[i].uid);
  }
}
