/** The service worker (chrome-extension/background.js): merging scraped listings into
    local storage, reporting stats, and answering messages. */
module Background {
  import opened Wrappers
  import opened Annonce

  /** The entries of local storage the service worker reads and writes. */
  datatype Storage = Storage(
    extractedData: Option<seq<Record>>,
    extractionStats: Option<Obj>,
    lastExtraction: Option<string>)

  /** Two listings are the same when reference and bulletin date agree (`===`, so two
      missing references agree too). */
  predicate SameListing(a: Record, b: Record) {
    a.id == b.id && a.dateBulletin == b.dateBulletin
  }

  /** `existing.find(...)` finds a match. */
  predicate Known(existing: seq<Record>, r: Record) {
    exists e :: e in existing && SameListing(e, r)
  }

  /** The incoming listings with no match among the stored ones, in order. The stored list
      is the one read before the loop, so a listing is not compared with those appended
      before it. */
  function Fresh(existing: seq<Record>, incoming: seq<Record>): (r: seq<Record>)
    ensures |r| <= |incoming|
    ensures forall x :: x in r ==> x in incoming && !Known(existing, x)
  {
    if |incoming| == 0 then []
    else (if Known(existing, incoming[0]) then [] else [incoming[0]]) + Fresh(existing, incoming[1..])
  }

  /** `saveExtractionData`'s merge: the stored list, then each new listing it did not
      already hold. */
  function Merge(existing: seq<Record>, incoming: seq<Record>): (r: seq<Record>)
    ensures |existing| <= |r| <= |existing| + |incoming|
    ensures r[..|existing|] == existing
  {
    existing + Fresh(existing, incoming)
  }

  /** A listing is appended as many times as it comes in, when the stored list has no
      match for it, and not at all otherwise. */
  lemma {:induction false} FreshCount(existing: seq<Record>, incoming: seq<Record>, x: Record)
    ensures multiset(Fresh(existing, incoming))[x] ==
      if Known(existing, x) then 0 else multiset(incoming)[x]
  {
    if |incoming| > 0 {
      FreshCount(existing, incoming[1..], x);
      assert incoming == [incoming[0]] + incoming[1..];
    }
  }

  /** Two identical new listings in one batch are both appended. */
  lemma BatchDuplicatesKept(existing: seq<Record>, x: Record)
    requires !Known(existing, x)
    ensures Merge(existing, [x, x]) == existing + [x, x]
  {
    assert [x, x][1..] == [x];
    assert [x][1..] == [];
    assert Fresh(existing, []) == [];
    assert Fresh(existing, [x]) == [x];
    assert Fresh(existing, [x, x]) == [x, x];
  }

  /** Every incoming listing is known to the merged list. */
  lemma {:induction false} MergeKnowsAll(existing: seq<Record>, incoming: seq<Record>)
    ensures forall x :: x in incoming ==> Known(Merge(existing, incoming), x)
  {
    forall x | x in incoming ensures Known(Merge(existing, incoming), x) {
      if Known(existing, x) {
        var e :| e in existing && SameListing(e, x);
        assert e in Merge(existing, incoming);
      } else {
        FreshCount(existing, incoming, x);
        assert x in multiset(Fresh(existing, incoming));
        assert x in Merge(existing, incoming);
      }
    }
  }

  lemma {:induction false} NothingFresh(existing: seq<Record>, incoming: seq<Record>)
    requires forall x :: x in incoming ==> Known(existing, x)
    ensures Fresh(existing, incoming) == []
  {
    if |incoming| > 0 {
      assert incoming[0] in incoming;
      NothingFresh(existing, incoming[1..]);
    }
  }

  /** Saving the same batch twice stores it once. */
  lemma MergeIdempotent(existing: seq<Record>, incoming: seq<Record>)
    ensures Merge(Merge(existing, incoming), incoming) == Merge(existing, incoming)
  {
    MergeKnowsAll(existing, incoming);
    NothingFresh(Merge(existing, incoming), incoming);
  }

  /** `saveExtractionData`: the merged list and a stamp stored; a missing batch makes the
      loop throw, and the error is swallowed with storage untouched. */
  function SaveExtractionData(st: Storage, newData: Option<seq<Record>>, now: string): (r: Storage)
    ensures newData.None? ==> r == st
    ensures newData.Some? ==>
      && r.extractedData == Some(Merge(st.extractedData.GetOr([]), newData.value))
      && r.extractionStats == st.extractionStats
      && r.lastExtraction == Some(now)
  {
    match newData
    case None => st
    case Some(data) => st.(extractedData := Some(Merge(st.extractedData.GetOr([]), data)), lastExtraction := Some(now))
  }

  const DefaultStats: Obj := [("extracted", Int(0)), ("phones", Int(0)), ("total", Int(0))]

  /** `getExtractionStats`: the stored stats (zeros when there are none) with `totalData`
      set to the number of stored listings; `None` stands for a storage read that throws. */
  function GetExtractionStats(read: Option<Storage>): (r: Obj)
    ensures read.None? ==> r == DefaultStats + [("totalData", Int(0))]
    ensures read.Some? ==> Get(r, "totalData") == Some(Int(|read.value.extractedData.GetOr([])|))
    ensures read.Some? ==> forall key :: key != "totalData" ==>
      Get(r, key) == Get(read.value.extractionStats.GetOr(DefaultStats), key)
  {
    match read
    case None => DefaultStats + [("totalData", Int(0))]
    case Some(st) =>
      var stats := st.extractionStats.GetOr(DefaultStats);
      var r := Put(stats, "totalData", Int(|st.extractedData.GetOr([])|));
      assert forall key :: key != "totalData" ==> Get(r, key) == Get(stats, key) by {
        forall key | key != "totalData" ensures Get(r, key) == Get(stats, key) {
          GetPut(stats, "totalData", Int(|st.extractedData.GetOr([])|), key);
        }
      }
      GetPut(stats, "totalData", Int(|st.extractedData.GetOr([])|), "");
      r
  }

  /** A message to the service worker. */
  datatype Message = Message(action: string, data: Option<seq<Record>>, text: string)

  /** The answer passed to `sendResponse`. */
  datatype Reply = Reply(success: bool, data: Option<Obj>, error: Option<string>)

  const UnknownAction := "Action inconnue"

  /** `handleMessage`: stats on request, a batch merged into storage, a log line
      acknowledged; anything else refused. */
  function HandleMessage(m: Message, st: Storage, readOk: bool, now: string): (r: (Reply, Storage))
    ensures r.0.success <==> m.action in {"getStats", "saveData", "log"}
    ensures r.0.error.Some? <==> !r.0.success
    ensures !r.0.success ==> r.0.error == Some(UnknownAction)
    ensures r.0.data.Some? <==> m.action == "getStats"
    ensures m.action == "getStats" && readOk ==>
      Get(r.0.data.value, "totalData") == Some(Int(|st.extractedData.GetOr([])|))
    ensures m.action != "saveData" ==> r.1 == st
    ensures m.action == "saveData" && m.data.Some? ==>
      r.1.extractedData == Some(Merge(st.extractedData.GetOr([]), m.data.value))
  {
    if m.action == "getStats" then
      (Reply(true, Some(GetExtractionStats(if readOk then Some(st) else None)), None), st)
    else if m.action == "saveData" then (Reply(true, None, None), SaveExtractionData(st, m.data, now))
    else if m.action == "log" then (Reply(true, None, None), st)
    else (Reply(false, None, Some(UnknownAction)), st)
  }
}
