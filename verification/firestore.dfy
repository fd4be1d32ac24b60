/** Saving listings to Firestore (chrome-extension/firebase-config.js, `saveAnnonces` and
    `updateBulletinStats`). The REST calls become outcome oracles: `writes(k)` is `None`
    when the k-th PATCH succeeds and `Some(message)` when it throws. */
module Firestore {
  import opened Wrappers
  import opened Text
  import opened Annonce
  import opened FirestoreFormat

  /** Two collections of documents, by document id. */
  datatype Db = Db(annonces: map<string, Fields>, bulletins: map<string, Fields>)

  /** How many listings were saved, failed, or were reported as already existing. */
  datatype Tally = Tally(success: nat, errors: nat, duplicates: nat)

  const NotInitialised := "Firebase non initialis\U{00E9}"
  const AlreadyExists := "Document already exists"

  // ----- Document ids -----

  /** A nullable value inside a template literal: `null` is spelt out. */
  function IdText(id: Option<string>): (s: string)
    ensures id.None? ==> s == "null"
    ensures id.Some? ==> s == id.value
  {
    if id.Some? then id.value else "null"
  }

  /** The date part of a document id: slashes turned into dashes, `no-date` when the date
      is missing or empty. */
  function DateKey(date: Option<string>): (s: string)
    ensures !Truthy(date) ==> s == "no-date"
    ensures Truthy(date) ==> |s| == |date.value| && forall i :: 0 <= i < |s| ==> s[i] != '/'
    ensures Truthy(date) ==>
      forall i :: 0 <= i < |s| ==> s[i] == if date.value[i] == '/' then '-' else date.value[i]
  {
    if Truthy(date) then ReplaceChar(date.value, '/', '-') else "no-date"
  }

  function DocId(r: Record): string {
    IdText(r.id) + "_" + DateKey(r.dateBulletin)
  }

  /** A reference that `_` cannot be confused with: digits, or a missing one. */
  predicate PlainId(id: Option<string>) {
    forall i :: 0 <= i < |IdText(id)| ==> IdText(id)[i] != '_'
  }

  /** Document ids tell listings apart by reference and by bulletin date, as long as the
      references hold no underscore; dates that differ only by `/` against `-` collide. */
  lemma DocIdInjective(a: Record, b: Record)
    requires PlainId(a.id) && PlainId(b.id)
    ensures DocId(a) == DocId(b) <==>
      IdText(a.id) == IdText(b.id) && DateKey(a.dateBulletin) == DateKey(b.dateBulletin)
  {
    var x, y := IdText(a.id), IdText(b.id);
    FirstUnderscore(x, DateKey(a.dateBulletin));
    FirstUnderscore(y, DateKey(b.dateBulletin));
    if DocId(a) == DocId(b) {
      assert |x| == |y|;
      assert x == DocId(a)[..|x|] && y == DocId(b)[..|y|];
      assert DateKey(a.dateBulletin) == DocId(a)[|x| + 1..];
      assert DateKey(b.dateBulletin) == DocId(b)[|y| + 1..];
    }
  }

  /** In `x_rest`, with no underscore in `x`, the first underscore ends `x`. */
  lemma FirstUnderscore(x: string, rest: string)
    requires forall i :: 0 <= i < |x| ==> x[i] != '_'
    ensures (x + "_" + rest)[|x|] == '_'
    ensures forall i :: 0 <= i < |x| ==> (x + "_" + rest)[i] != '_'
  {
  }

  /** A listing with neither reference nor date is filed under `null_no-date`. */
  lemma DocIdWithoutIdOrDate(r: Record)
    requires r.id.None? && (r.dateBulletin.None? || r.dateBulletin == Some(""))
    ensures DocId(r) == "null_no-date"
  {
  }

  // ----- Listing documents -----

  /** `{...annonce, createdAt, lastUpdate}`, both stamps taken from the one clock reading. */
  function Stamped(r: Record, now: string): Obj {
    ToObj(r) + [("createdAt", Str(now)), ("lastUpdate", Str(now))]
  }

  function Document(r: Record, now: string): Fields {
    RecordEncodes(r, [("createdAt", Str(now)), ("lastUpdate", Str(now))]);
    Encode(Stamped(r, now)).value
  }

  predicate Duplicate(message: string) {
    Contains(message, AlreadyExists)
  }

  /** The document id and the document each listing is PATCHed as, in order. */
  function Entries(rs: seq<Record>, now: string): (es: seq<(string, Fields)>)
    ensures |es| == |rs| && forall k :: 0 <= k < |rs| ==> es[k] == (DocId(rs[k]), Document(rs[k], now))
  {
    seq(|rs|, k requires 0 <= k < |rs| => (DocId(rs[k]), Document(rs[k], now)))
  }

  /** The ids of the entries whose write went through, built entry by entry. */
  function Written(es: seq<(string, Fields)>, writes: nat -> Option<string>): set<string>
    decreases |es|
  {
    if |es| == 0 then {}
    else
      var k := |es| - 1;
      Written(es[..k], writes) + (if writes(k).None? then {es[k].0} else {})
  }

  /** An id is written exactly when some entry under it was written. */
  lemma {:induction false} WrittenIff(es: seq<(string, Fields)>, writes: nat -> Option<string>, d: string)
    ensures d in Written(es, writes) <==> exists k :: 0 <= k < |es| && writes(k).None? && es[k].0 == d
    decreases |es|
  {
    if |es| > 0 {
      var n := |es| - 1;
      var pre := es[..n];
      WrittenIff(pre, writes, d);
      if exists k :: 0 <= k < n && writes(k).None? && pre[k].0 == d {
        var k :| 0 <= k < n && writes(k).None? && pre[k].0 == d;
        assert pre[k] == es[k];
      }
      if exists k :: 0 <= k < |es| && writes(k).None? && es[k].0 == d {
        var k :| 0 <= k < |es| && writes(k).None? && es[k].0 == d;
        if k < n {
          assert pre[k] == es[k];
        }
      }
    }
  }

  /** The store after the PATCH loop: each entry whose write goes through replaces the
      whole document under its id. */
  function Apply(es: seq<(string, Fields)>, writes: nat -> Option<string>, store: map<string, Fields>)
    : (r: map<string, Fields>)
    ensures r.Keys == store.Keys + Written(es, writes)
    decreases |es|
  {
    if |es| == 0 then store
    else
      var k := |es| - 1;
      var s := Apply(es[..k], writes, store);
      if writes(k).None? then s[es[k].0 := es[k].1] else s
  }

  /** The number of positions below `n` whose write goes through. */
  function Successes(n: nat, writes: nat -> Option<string>): nat {
    if n == 0 then 0 else Successes(n - 1, writes) + (if writes(n - 1).None? then 1 else 0)
  }

  /** The counters of the loop after `n` listings: a failed write counts as a duplicate when
      its message says the document already exists, as an error otherwise. */
  function TallyOf(n: nat, writes: nat -> Option<string>): (t: Tally)
    ensures t.success + t.errors + t.duplicates == n
    ensures t.success == Successes(n, writes)
  {
    if n == 0 then Tally(0, 0, 0)
    else
      var t := TallyOf(n - 1, writes);
      match writes(n - 1)
      case None => t.(success := t.success + 1)
      case Some(m) =>
        if Duplicate(m) then t.(duplicates := t.duplicates + 1) else t.(errors := t.errors + 1)
  }

  /** The loop of `saveAnnonces`: each listing PATCHed under its document id, replacing the
      whole document; a failed write is counted and the loop goes on. */
  function WriteAll(rs: seq<Record>, now: string, writes: nat -> Option<string>, store: map<string, Fields>)
    : (r: (Tally, map<string, Fields>))
    ensures r.0.success + r.0.errors + r.0.duplicates == |rs|
    ensures r.0.success == Successes(|rs|, writes)
    ensures r.1.Keys == store.Keys + Written(Entries(rs, now), writes)
  {
    (TallyOf(|rs|, writes), Apply(Entries(rs, now), writes, store))
  }

  /** Entry `k` is the last entry under id `d` whose write went through. */
  predicate LastWrite(es: seq<(string, Fields)>, writes: nat -> Option<string>, d: string, k: nat) {
    && k < |es| && writes(k).None? && es[k].0 == d
    && forall j :: k < j < |es| && writes(j).None? ==> es[j].0 != d
  }

  /** The last write under `d` before the final entry is still the last one without it. */
  lemma LastWritePrefix(es: seq<(string, Fields)>, writes: nat -> Option<string>, d: string, k: nat)
    requires LastWrite(es, writes, d, k) && k < |es| - 1
    ensures LastWrite(es[..|es| - 1], writes, d, k)
  {
    var pre := es[..|es| - 1];
    assert pre[k] == es[k];
    forall j | k < j < |pre| && writes(j).None? ensures pre[j].0 != d {
      assert pre[j] == es[j];
    }
  }

  /** The store holds, under `d`, the last entry written under `d`. */
  lemma {:induction false} ApplyLast(es: seq<(string, Fields)>, writes: nat -> Option<string>,
                                     store: map<string, Fields>, d: string, k: nat)
    requires LastWrite(es, writes, d, k)
    ensures d in Apply(es, writes, store) && Apply(es, writes, store)[d] == es[k].1
    decreases |es|
  {
    var n := |es| - 1;
    if k < n {
      LastWritePrefix(es, writes, d, k);
      ApplyLast(es[..n], writes, store, d, k);
      assert es[..n][k] == es[k];
    }
  }

  /** An id no write reached keeps what the store held under it. */
  lemma {:induction false} ApplyUntouched(es: seq<(string, Fields)>, writes: nat -> Option<string>,
                                          store: map<string, Fields>, d: string)
    requires d !in Written(es, writes)
    ensures d in Apply(es, writes, store) <==> d in store
    ensures d in store ==> Apply(es, writes, store)[d] == store[d]
    decreases |es|
  {
    if |es| > 0 {
      ApplyUntouched(es[..|es| - 1], writes, store, d);
    }
  }

  /** A document ends up holding the last listing successfully written under its id,
      whatever failed before or after. */
  lemma LastWriteWins(rs: seq<Record>, now: string, writes: nat -> Option<string>,
                      store: map<string, Fields>, d: string, k: nat)
    requires LastWrite(Entries(rs, now), writes, d, k)
    ensures d in WriteAll(rs, now, writes, store).1
    ensures WriteAll(rs, now, writes, store).1[d] == Document(rs[k], now)
  {
    ApplyLast(Entries(rs, now), writes, store, d, k);
  }

  /** A document no write reached is left as it was, and none is created. */
  lemma Untouched(rs: seq<Record>, now: string, writes: nat -> Option<string>,
                  store: map<string, Fields>, d: string)
    requires d !in Written(Entries(rs, now), writes)
    ensures d in WriteAll(rs, now, writes, store).1 <==> d in store
    ensures d in store ==> WriteAll(rs, now, writes, store).1[d] == store[d]
  {
    ApplyUntouched(Entries(rs, now), writes, store, d);
  }

  /** Once every write of a batch has gone through, saving the same listings again adds no
      document, whatever the second round's writes do. */
  lemma RerunAddsNoKeys(rs: seq<Record>, now1: string, now2: string, first: nat -> Option<string>,
                        second: nat -> Option<string>, store: map<string, Fields>)
    requires forall k :: 0 <= k < |rs| ==> first(k).None?
    ensures var s1 := WriteAll(rs, now1, first, store).1;
      WriteAll(rs, now2, second, s1).1.Keys == s1.Keys
  {
    var e1, e2 := Entries(rs, now1), Entries(rs, now2);
    forall k | 0 <= k < |e1| ensures e1[k].0 == e2[k].0 {
      assert e1[k].0 == DocId(rs[k]) == e2[k].0;
    }
    WrittenSameIds(e1, e2, first, second);
  }

  /** Entries under the same ids, all written the first time: the second round writes no
      new id. */
  lemma WrittenSameIds(e1: seq<(string, Fields)>, e2: seq<(string, Fields)>,
                       first: nat -> Option<string>, second: nat -> Option<string>)
    requires |e1| == |e2|
    requires forall k :: 0 <= k < |e1| ==> e1[k].0 == e2[k].0 && first(k).None?
    ensures Written(e2, second) <= Written(e1, first)
  {
    forall d | d in Written(e2, second) ensures d in Written(e1, first) {
      WrittenIff(e2, second, d);
      WrittenIff(e1, first, d);
      var k :| 0 <= k < |e2| && second(k).None? && e2[k].0 == d;
      assert e1[k].0 == d;
    }
  }

  // ----- Bulletin statistics -----

  /** Listings counted per bulletin: those with a non-empty number and date. */
  predicate Grouped(r: Record) {
    Truthy(r.bulletin) && Truthy(r.dateBulletin)
  }

  function BulletinKey(r: Record): string
    requires Grouped(r)
  {
    r.bulletin.value + "_" + ReplaceChar(r.dateBulletin.value, '/', '-')
  }

  /** One bulletin: its number and date as the first listing of the group gave them, and
      the references of the listings in it. */
  datatype Group = Group(key: string, numero: string, date: string, ids: seq<Option<string>>)

  function IndexOf(gs: seq<Group>, key: string): (r: Option<nat>)
    ensures r.Some? ==> r.value < |gs| && gs[r.value].key == key
    ensures r.None? ==> forall i :: 0 <= i < |gs| ==> gs[i].key != key
    ensures r.Some? <==> exists i :: 0 <= i < |gs| && gs[i].key == key
  {
    if |gs| == 0 then None
    else if gs[|gs| - 1].key == key then Some(|gs| - 1)
    else IndexOf(gs[..|gs| - 1], key)
  }

  /** One step of the `forEach`: a new key opens a group at the end, a known key adds the
      reference to its group. */
  function AddToGroups(gs: seq<Group>, r: Record): seq<Group> {
    if !Grouped(r) then gs
    else
      var key := BulletinKey(r);
      match IndexOf(gs, key)
      case Some(p) => gs[p := gs[p].(ids := gs[p].ids + [r.id])]
      case None => gs + [Group(key, r.bulletin.value, r.dateBulletin.value, [r.id])]
  }

  function GroupBulletins(rs: seq<Record>): seq<Group> {
    if |rs| == 0 then [] else AddToGroups(GroupBulletins(rs[..|rs| - 1]), rs[|rs| - 1])
  }

  // Reference descriptions of the grouping.

  /** The references of the grouped listings filed under `key`, in listing order. */
  function IdsWithKey(rs: seq<Record>, key: string): seq<Option<string>> {
    if |rs| == 0 then []
    else
      var r := rs[|rs| - 1];
      IdsWithKey(rs[..|rs| - 1], key) + (if Grouped(r) && BulletinKey(r) == key then [r.id] else [])
  }

  /** The first grouped listing filed under `key`. */
  function FirstWith(rs: seq<Record>, key: string): (r: Option<Record>)
    ensures r.Some? ==> Grouped(r.value) && BulletinKey(r.value) == key
  {
    if |rs| == 0 then None
    else match FirstWith(rs[..|rs| - 1], key)
      case Some(f) => Some(f)
      case None =>
        var r := rs[|rs| - 1];
        if Grouped(r) && BulletinKey(r) == key then Some(r) else None
  }

  lemma {:induction false} NoFirstNoIds(rs: seq<Record>, key: string)
    ensures FirstWith(rs, key).None? ==> IdsWithKey(rs, key) == []
  {
    if |rs| > 0 {
      NoFirstNoIds(rs[..|rs| - 1], key);
    }
  }

  predicate DistinctKeys(gs: seq<Group>) {
    forall i, j :: 0 <= i < j < |gs| ==> gs[i].key != gs[j].key
  }

  /** A group exists for `key` exactly when some grouped listing has that key. */
  ghost predicate CoversKeys(gs: seq<Group>, rs: seq<Record>) {
    forall key :: FirstWith(rs, key).Some? <==> IndexOf(gs, key).Some?
  }

  /** `g` carries the number and date of the first listing with its key, and the
      references of all listings with its key. */
  predicate GroupOf(rs: seq<Record>, g: Group) {
    && g.ids == IdsWithKey(rs, g.key)
    && FirstWith(rs, g.key).Some?
    && g.numero == FirstWith(rs, g.key).value.bulletin.value
    && g.date == FirstWith(rs, g.key).value.dateBulletin.value
  }

  predicate Faithful(gs: seq<Group>, rs: seq<Record>) {
    forall i :: 0 <= i < |gs| ==> GroupOf(rs, gs[i])
  }

  lemma FirstWithStep(rs: seq<Record>, key: string)
    requires |rs| > 0
    ensures var pre, x := rs[..|rs| - 1], rs[|rs| - 1];
      && (FirstWith(rs, key).Some? <==> FirstWith(pre, key).Some? || (Grouped(x) && BulletinKey(x) == key))
      && (FirstWith(pre, key).Some? ==> FirstWith(rs, key) == FirstWith(pre, key))
  {
  }

  lemma AddKeepsDistinct(gs: seq<Group>, x: Record)
    requires DistinctKeys(gs)
    ensures DistinctKeys(AddToGroups(gs, x))
  {
  }

  lemma AddIndex(gs: seq<Group>, x: Record, key: string)
    ensures IndexOf(AddToGroups(gs, x), key).Some? <==>
      IndexOf(gs, key).Some? || (Grouped(x) && BulletinKey(x) == key)
  {
    var g1 := AddToGroups(gs, x);
    if Grouped(x) && IndexOf(gs, BulletinKey(x)).Some? {
      var p := IndexOf(gs, BulletinKey(x)).value;
      assert forall i :: 0 <= i < |gs| ==> g1[i].key == gs[i].key;
    } else if Grouped(x) {
      assert g1[|gs|].key == BulletinKey(x);
      assert forall i :: 0 <= i < |gs| ==> g1[i] == gs[i];
    }
  }

  lemma AddCovers(rs: seq<Record>, g0: seq<Group>)
    requires |rs| > 0 && CoversKeys(g0, rs[..|rs| - 1])
    ensures CoversKeys(AddToGroups(g0, rs[|rs| - 1]), rs)
  {
    forall key ensures FirstWith(rs, key).Some? <==> IndexOf(AddToGroups(g0, rs[|rs| - 1]), key).Some? {
      FirstWithStep(rs, key);
      AddIndex(g0, rs[|rs| - 1], key);
    }
  }

  lemma AddFaithful(rs: seq<Record>, g0: seq<Group>)
    requires |rs| > 0
    requires DistinctKeys(g0) && Faithful(g0, rs[..|rs| - 1]) && CoversKeys(g0, rs[..|rs| - 1])
    ensures Faithful(AddToGroups(g0, rs[|rs| - 1]), rs)
  {
    var pre, x := rs[..|rs| - 1], rs[|rs| - 1];
    var gs := AddToGroups(g0, x);
    forall i | 0 <= i < |gs| ensures GroupOf(rs, gs[i]) {
      var key := gs[i].key;
      FirstWithStep(rs, key);
      assert IdsWithKey(rs, key) ==
        IdsWithKey(pre, key) + (if Grouped(x) && BulletinKey(x) == key then [x.id] else []);
      if i < |g0| {
        assert GroupOf(pre, g0[i]);
        assert g0[i].key == key;
        assert FirstWith(pre, key).Some?;
        if Grouped(x) && BulletinKey(x) == key {
          assert IndexOf(g0, key) == Some(i);
          assert gs[i] == g0[i].(ids := g0[i].ids + [x.id]);
        } else {
          assert gs[i] == g0[i];
        }
      } else {
        assert Grouped(x) && key == BulletinKey(x) && IndexOf(g0, key).None?;
        assert FirstWith(pre, key).None?;
        NoFirstNoIds(pre, key);
      }
    }
  }

  /** The grouping has one group per bulletin key that occurs, keys distinct; each group
      carries the number and date of the first listing with that key and the references of
      all listings with that key, in order. */
  lemma {:induction false} GroupingSpec(rs: seq<Record>)
    ensures DistinctKeys(GroupBulletins(rs))
    ensures CoversKeys(GroupBulletins(rs), rs)
    ensures Faithful(GroupBulletins(rs), rs)
  {
    if |rs| > 0 {
      var pre := rs[..|rs| - 1];
      GroupingSpec(pre);
      var g0 := GroupBulletins(pre);
      AddKeepsDistinct(g0, rs[|rs| - 1]);
      AddCovers(rs, g0);
      AddFaithful(rs, g0);
    }
  }

  /** The bulletin document: number, date, count, references and a stamp. */
  function BulletinObj(g: Group, now: string): Obj {
    [ ("numero", Str(g.numero)), ("date", Str(g.date)), ("nombreAnnonces", Int(|g.ids|)),
      ("annonceIds", Arr(g.ids)), ("lastUpdate", Str(now)) ]
  }

  /** A bulletin document can be built exactly when every listing in it has a reference:
      a `null` reference makes `toString` throw. */
  lemma BulletinEncodes(g: Group, now: string)
    ensures Encode(BulletinObj(g, now)).Ok? <==> Complete(g.ids)
  {
    var o := BulletinObj(g, now);
    if Complete(g.ids) {
      forall k | 0 <= k < |o| ensures o[k].1.Arr? ==> Complete(o[k].1.items) { }
    } else {
      assert o[3].1 == Arr(g.ids);
    }
  }

  function BulletinDoc(g: Group, now: string): Fields
    requires Complete(g.ids)
  {
    BulletinEncodes(g, now);
    Encode(BulletinObj(g, now)).value
  }

  /** The bulletins whose document gets written: all references present, write succeeded. */
  predicate Posted(gs: seq<Group>, bwrites: nat -> Option<string>, i: nat) {
    i < |gs| && Complete(gs[i].ids) && bwrites(i).None?
  }

  /** The loop over the groups: a group whose document cannot be built or whose write
      fails is skipped, the error swallowed. */
  function WriteBulletins(gs: seq<Group>, now: string, bwrites: nat -> Option<string>,
                          store: map<string, Fields>): (r: map<string, Fields>)
    ensures store.Keys <= r.Keys
    decreases |gs|
  {
    if |gs| == 0 then store
    else
      var k := |gs| - 1;
      var s := WriteBulletins(gs[..k], now, bwrites, store);
      var e := Encode(BulletinObj(gs[k], now));
      if e.Ok? && bwrites(k).None? then s[gs[k].key := e.value] else s
  }

  /** The keys of the posted bulletins. */
  function PostedKeys(gs: seq<Group>, bwrites: nat -> Option<string>): set<string> {
    set i | 0 <= i < |gs| && Posted(gs, bwrites, i) :: gs[i].key
  }

  lemma PostedKeysStep(gs: seq<Group>, bwrites: nat -> Option<string>)
    requires |gs| > 0
    ensures var k := |gs| - 1;
      PostedKeys(gs, bwrites) ==
        PostedKeys(gs[..k], bwrites) + (if Posted(gs, bwrites, k) then {gs[k].key} else {})
  {
    var k := |gs| - 1;
    var pre := gs[..k];
    assert forall i :: 0 <= i < k ==> pre[i] == gs[i] && (Posted(pre, bwrites, i) <==> Posted(gs, bwrites, i));
  }

  /** The bulletins written are exactly the posted ones. */
  lemma {:induction false} BulletinKeys(gs: seq<Group>, now: string, bwrites: nat -> Option<string>,
                                        store: map<string, Fields>)
    ensures WriteBulletins(gs, now, bwrites, store).Keys == store.Keys + PostedKeys(gs, bwrites)
    decreases |gs|
  {
    if |gs| > 0 {
      var k := |gs| - 1;
      BulletinKeys(gs[..k], now, bwrites, store);
      BulletinEncodes(gs[k], now);
      PostedKeysStep(gs, bwrites);
    }
  }

  /** With distinct keys, every bulletin that was posted holds its own document. */
  lemma {:induction false} BulletinWritten(gs: seq<Group>, now: string, bwrites: nat -> Option<string>,
                                           store: map<string, Fields>, i: nat)
    requires DistinctKeys(gs)
    requires Posted(gs, bwrites, i)
    ensures var r := WriteBulletins(gs, now, bwrites, store);
      gs[i].key in r && r[gs[i].key] == BulletinDoc(gs[i], now)
    decreases |gs|
  {
    BulletinEncodes(gs[i], now);
    var k := |gs| - 1;
    if i < k {
      assert Posted(gs[..k], bwrites, i);
      BulletinWritten(gs[..k], now, bwrites, store, i);
      assert gs[k].key != gs[i].key;
    }
  }

  /** `saveAnnonces`: refused before initialisation; otherwise every listing written in
      turn, the tally returned, then the bulletin documents written. */
  function SaveAnnonces(initialised: bool, rs: seq<Record>, now: string, writes: nat -> Option<string>,
                        bwrites: nat -> Option<string>, db: Db): (r: Result<(Tally, Db)>)
    ensures !initialised <==> r.Fail?
    ensures r.Fail? ==> r.error == NotInitialised
    ensures r.Ok? ==> r.value.0.success + r.value.0.errors + r.value.0.duplicates == |rs|
    ensures r.Ok? ==> r.value.1.annonces.Keys == db.annonces.Keys + Written(Entries(rs, now), writes)
  {
    if !initialised then Fail(NotInitialised)
    else
      var (t, s) := WriteAll(rs, now, writes, db.annonces);
      Ok((t, Db(s, WriteBulletins(GroupBulletins(rs), now, bwrites, db.bulletins))))
  }
}
