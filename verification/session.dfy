/** The extraction session of the content script (chrome-extension/content.js): the
    start and stop flags, the loop over the listings of a page, the loop over pages in
    batch mode, and the save that ends a run.

    Everything the session meets from outside is fixed in advance in a `World`: the pages
    in the order the "next" links reach them, the page text once each phone request has
    been answered, the outcome of each Firestore write, and when the stop request lands.
    A stop request can land at any await; it only matters at the points where the code
    reads `shouldStop`, so it is given as the number of those reads that still see no
    stop. */
module Session {
  import opened Wrappers
  import opened Annonce
  import opened Patterns
  import opened Listing
  import opened Progress
  import opened Csv
  import opened Firestore

  /** The options the popup sends with `startExtraction`. */
  datatype Options = Options(batchMode: bool, extractPhones: bool, destination: Option<string>)

  datatype World = World(
    pages: seq<Page>,                // the current page, then the pages "next" leads to
    revealed: (nat, nat) -> string,  // the page text once listing j of page k has had its phone requested
    now: string,                     // every time stamp of the run
    loginPage: bool,                 // `isLoginPage()`
    stopAfter: Option<nat>,          // how many reads of `shouldStop` see no stop before one lands
    fault: Option<(nat, string)>,    // an error thrown as page k begins, and its message
    firebaseConfig: bool,            // whether a Firestore configuration is stored
    writes: nat -> Option<string>,   // the outcome of each listing write (`None`: written)
    bwrites: nat -> Option<string>,  // the outcome of each bulletin write
    db: Db)                          // the Firestore store before the run

  /** The extractor's fields; `checks` counts the reads of `shouldStop` so far. */
  datatype Extractor = Extractor(
    isExtracting: bool, shouldStop: bool, records: seq<Record>, stats: Stats, checks: nat)

  /** A freshly loaded content script. */
  const Loaded := Extractor(false, false, [], Stats(0, 0, 0), 0)

  // ----- Counters -----

  /** The number of listings with a phone number. */
  function PhoneCount(rs: seq<Record>): (n: nat)
    ensures n <= |rs|
  {
    if |rs| == 0 then 0
    else PhoneCount(rs[..|rs| - 1]) + (if Truthy(rs[|rs| - 1].telephone) then 1 else 0)
  }

  /** The counters agree with the listings held. */
  predicate Counted(e: Extractor) {
    e.stats.extracted == |e.records| && e.stats.phones == PhoneCount(e.records)
  }

  /** A listing kept: appended, counted, and its phone counted when it has one. */
  function Take(e: Extractor, a: Record): (r: Extractor)
    ensures Counted(e) ==> Counted(r)
    ensures r.records == e.records + [a]
    ensures r.stats.total == e.stats.total
    ensures r.shouldStop == e.shouldStop && r.isExtracting == e.isExtracting && r.checks == e.checks
  {
    var rs := e.records + [a];
    assert rs[..|rs| - 1] == e.records;
    e.(records := rs,
       stats := e.stats.(extracted := e.stats.extracted + 1,
                         phones := e.stats.phones + if Truthy(a.telephone) then 1 else 0))
  }

  // ----- Stop requests -----

  /** The read numbered `c` (from 0) sees the stop. */
  predicate StopSeen(w: World, c: nat) {
    w.stopAfter.Some? && w.stopAfter.value <= c
  }

  /** One read of `shouldStop`. */
  function Check(e: Extractor, w: World): (r: Extractor)
    ensures r.shouldStop <==> e.shouldStop || StopSeen(w, e.checks)
    ensures r.checks == e.checks + 1
    ensures r.records == e.records && r.stats == e.stats && r.isExtracting == e.isExtracting
  {
    e.(shouldStop := e.shouldStop || StopSeen(w, e.checks), checks := e.checks + 1)
  }

  /** `stopExtraction`: the flag that ends the loops is raised and the extractor reports
      itself idle at once. */
  function StopExtraction(e: Extractor): (r: Extractor)
    ensures r.shouldStop && !r.isExtracting
    ensures r.records == e.records && r.stats == e.stats
  {
    e.(shouldStop := true, isExtracting := false)
  }

  // ----- One page -----

  /** How the listings of page `k` are read: listing `i` of the page, among its siblings,
      with the page text its phone request reveals. */
  function Reader(opts: Options, w: World, k: nat): (read: (nat, Sited) -> Record)
    ensures forall i, s :: read(i, s) == ExtractAnnonceData(s, opts.extractPhones, w.revealed(k, i), w.now)
  {
    (i: nat, s: Sited) => ExtractAnnonceData(s, opts.extractPhones, w.revealed(k, i), w.now)
  }

  /** The `n` listings from position `i` on, read in order. */
  function Extracted(sites: seq<Sited>, i: nat, n: nat, read: (nat, Sited) -> Record): (rs: seq<Record>)
    requires i + n <= |sites|
    ensures |rs| == n
    ensures forall j :: 0 <= j < n ==> rs[j] == read(i + j, sites[i + j])
  {
    seq(n, j requires 0 <= j < n => read(i + j, sites[i + j]))
  }

  lemma ExtractedStep(sites: seq<Sited>, i: nat, n: nat, read: (nat, Sited) -> Record)
    requires i + n + 1 <= |sites|
    ensures [read(i, sites[i])] + Extracted(sites, i + 1, n, read) == Extracted(sites, i, n + 1, read)
  {
  }

  /** The loop of `extractCurrentPage` from listing `i` on: `shouldStop` is read before
      each listing, and every listing read is kept, with or without a reference. */
  function PageLoop(e: Extractor, sites: seq<Sited>, i: nat, read: (nat, Sited) -> Record, w: World)
    : (r: Extractor)
    requires i <= |sites|
    ensures Counted(e) ==> Counted(r)
    ensures r.stats.total == e.stats.total && r.isExtracting == e.isExtracting
    ensures |e.records| <= |r.records| <= |e.records| + (|sites| - i)
    ensures r.records == e.records + Extracted(sites, i, |r.records| - |e.records|, read)
    ensures |r.records| < |e.records| + (|sites| - i) ==> r.shouldStop
    ensures e.shouldStop ==> r.shouldStop
    ensures r.checks >= e.checks
    decreases |sites| - i
  {
    if i == |sites| then e
    else
      var c := Check(e, w);
      if c.shouldStop then c
      else
        var r := PageLoop(Take(c, read(i, sites[i])), sites, i + 1, read, w);
        ExtractedStep(sites, i, |r.records| - |e.records| - 1, read);
        r
  }

  /** The readers of every page. */
  function Readers(opts: Options, w: World): (readers: nat -> (nat, Sited) -> Record)
    ensures forall k :: readers(k) == Reader(opts, w, k)
  {
    k => Reader(opts, w, k)
  }

  /** `extractCurrentPage` on page `k`, its listings read by `read`. */
  function ExtractCurrentPage(e: Extractor, k: nat, read: (nat, Sited) -> Record, w: World): (r: Extractor)
    requires k < |w.pages|
    ensures Counted(e) ==> Counted(r)
    ensures r.stats.total == e.stats.total && r.isExtracting == e.isExtracting
    ensures e.records <= r.records
    ensures !r.shouldStop ==> |r.records| == |e.records| + |FindAnnonces(w.pages[k].rows)|
  {
    var sites := AnnonceSites(w.pages[k].rows);
    if |sites| == 0 then e else PageLoop(e, sites, 0, read, w)
  }

  /** The listings `extractCurrentPage` adds are the first listing rows of the page, read
      in page order. */
  lemma CurrentPageInOrder(e: Extractor, k: nat, read: (nat, Sited) -> Record, w: World)
    requires k < |w.pages|
    ensures var r := ExtractCurrentPage(e, k, read, w);
      && |r.records| <= |e.records| + |AnnonceSites(w.pages[k].rows)|
      && r.records == e.records + Extracted(AnnonceSites(w.pages[k].rows), 0, |r.records| - |e.records|, read)
  {
  }

  // ----- All pages -----

  /** The number of listing rows on the first `n` pages. */
  function SumCounts(pages: seq<Page>, n: nat): nat
    requires n <= |pages|
  {
    if n == 0 then 0 else SumCounts(pages, n - 1) + |FindAnnonces(pages[n - 1].rows)|
  }

  /** How a loop ended: the extractor, how many pages had their listings counted, the page
      the browser shows, and the error thrown, if any. */
  datatype Outcome = Outcome(e: Extractor, counted: nat, shown: nat, fault: Option<string>)

  /** Whether the "next" link of page `k` leads to a page of the world. */
  predicate HasNext(w: World, k: nat)
    requires k < |w.pages|
  {
    FindNextPageLink(w.pages[k].links).Some? && k + 1 < |w.pages|
  }

  /** `extractAllPages` from page `k` on, `discovered` listing rows counted so far: the
      stop flag is read before each page, the total becomes the running count, and after
      the page the "next" link is followed, even when a stop landed during the page. The
      lemmas below state what the loop keeps and how it ends. */
  function AllPages(e: Extractor, k: nat, discovered: nat, readers: nat -> (nat, Sited) -> Record, w: World)
    : (r: Outcome)
    requires k < |w.pages| && discovered == SumCounts(w.pages, k)
    ensures k <= r.counted <= |w.pages| && k <= r.shown < |w.pages|
    decreases |w.pages| - k
  {
    var c := Check(e, w);
    if c.shouldStop then Outcome(c, k, k, None)
    else if w.fault.Some? && w.fault.value.0 == k then Outcome(c, k, k, Some(w.fault.value.1))
    else
      var c2 := PageOfRun(c, k, discovered, readers(k), w);
      if !HasNext(w, k) then Outcome(c2, k + 1, k, None)
      else AllPages(c2, k + 1, c2.stats.total, readers, w)
  }

  /** One page of `extractAllPages`: the total raised to the running count, then the page's
      listings read. */
  function PageOfRun(c: Extractor, k: nat, discovered: nat, read: (nat, Sited) -> Record, w: World): (r: Extractor)
    requires k < |w.pages| && discovered == SumCounts(w.pages, k)
    ensures r.stats.total == SumCounts(w.pages, k + 1)
    ensures Counted(c) ==> Counted(r)
    ensures r.isExtracting == c.isExtracting && c.records <= r.records
  {
    var total := discovered + |FindAnnonces(w.pages[k].rows)|;
    ExtractCurrentPage(c.(stats := c.stats.(total := total)), k, read, w)
  }

  /** The loop over pages keeps the counters in step with the listings, only ever appends,
      and leaves the running flag alone. */
  lemma {:induction false} AllPagesKeeps(e: Extractor, k: nat, discovered: nat, readers: nat -> (nat, Sited) -> Record, w: World)
    requires k < |w.pages| && discovered == SumCounts(w.pages, k)
    ensures var r := AllPages(e, k, discovered, readers, w);
      && (Counted(e) ==> Counted(r.e))
      && r.e.isExtracting == e.isExtracting
      && e.records <= r.e.records
    decreases |w.pages| - k
  {
    var c := Check(e, w);
    if !c.shouldStop && !(w.fault.Some? && w.fault.value.0 == k) {
      var c2 := PageOfRun(c, k, discovered, readers(k), w);
      if HasNext(w, k) {
        AllPagesKeeps(c2, k + 1, c2.stats.total, readers, w);
      }
    }
  }

  /** Once a page has been counted the total is the number of listing rows on the pages
      counted; before that it is the one the loop started with. */
  lemma {:induction false} AllPagesTotal(e: Extractor, k: nat, discovered: nat, readers: nat -> (nat, Sited) -> Record, w: World)
    requires k < |w.pages| && discovered == SumCounts(w.pages, k)
    ensures var r := AllPages(e, k, discovered, readers, w);
      && (r.counted > k ==> r.e.stats.total == SumCounts(w.pages, r.counted))
      && (r.counted == k ==> r.e.stats.total == e.stats.total)
    decreases |w.pages| - k
  {
    var c := Check(e, w);
    if !c.shouldStop && !(w.fault.Some? && w.fault.value.0 == k) {
      var c2 := PageOfRun(c, k, discovered, readers(k), w);
      if HasNext(w, k) {
        AllPagesTotal(c2, k + 1, c2.stats.total, readers, w);
      }
    }
  }

  /** The loop ends on a thrown error, on a stop, or on a page with no "next" page. */
  lemma {:induction false} AllPagesEnds(e: Extractor, k: nat, discovered: nat, readers: nat -> (nat, Sited) -> Record, w: World)
    requires k < |w.pages| && discovered == SumCounts(w.pages, k)
    ensures var r := AllPages(e, k, discovered, readers, w);
      && (r.fault.Some? ==> w.fault == Some((r.shown, r.fault.value)))
      && (r.fault.None? && !r.e.shouldStop ==> !HasNext(w, r.shown))
    decreases |w.pages| - k
  {
    var c := Check(e, w);
    if !c.shouldStop && !(w.fault.Some? && w.fault.value.0 == k) {
      var c2 := PageOfRun(c, k, discovered, readers(k), w);
      if HasNext(w, k) {
        AllPagesEnds(c2, k + 1, c2.stats.total, readers, w);
      }
    }
  }

  // ----- A whole run -----

  /** Where the listings went after the local save. */
  datatype Delivery =
    | LocalOnly                        // nothing to send, or no Firestore configuration
    | CsvFile(text: string)           // the file offered for download
    | Firestore(tally: Tally, db: Db) // the tally and the store after the upload
    | UnknownDestination

  /** The last message to the popup. */
  datatype Sent = ExtractionComplete(stats: Stats) | ExtractionError(message: string)

  /** What a `startExtraction` call leaves behind: the extractor, the listings saved to local
      storage, the delivery, the final message, and the page on screen. */
  datatype Run = Run(e: Extractor, local: Option<seq<Record>>, delivered: Delivery, sent: Option<Sent>, shown: nat)

  /** `saveExtractedData` after the local save: the listings sent where the options say. */
  function Deliver(records: seq<Record>, opts: Options, w: World): (x: Delivery)
    ensures opts.destination == Some("csv") && |records| > 0 ==>
      x == CsvFile(ContentCsv(RecordRows(records)))
    ensures opts.destination == Some("firebase") && w.firebaseConfig ==>
      x.Firestore? && x.tally.success + x.tally.errors + x.tally.duplicates == |records|
    ensures opts.destination == Some("firebase") && w.firebaseConfig ==>
      var saved := SaveAnnonces(true, records, w.now, w.writes, w.bwrites, w.db);
      saved.Ok? && x == Firestore(saved.value.0, saved.value.1)
    ensures opts.destination == Some("firebase") && !w.firebaseConfig ==> x == LocalOnly
    ensures opts.destination == Some("csv") && |records| == 0 ==> x == LocalOnly
    ensures opts.destination != Some("csv") && opts.destination != Some("firebase") ==> x == UnknownDestination
  {
    if opts.destination == Some("firebase") then
      if w.firebaseConfig then
        var saved := SaveAnnonces(true, records, w.now, w.writes, w.bwrites, w.db);
        Firestore(saved.value.0, saved.value.1)
      else LocalOnly
    else if opts.destination == Some("csv") then
      if |records| == 0 then LocalOnly else CsvFile(ContentCsv(RecordRows(records)))
    else UnknownDestination
  }

  /** The CSV file a run delivers reads back as the cell texts of its listings, under the
      fifteen field names, when no text of a listing holds a line feed. */
  lemma DeliveredCsvReadsBack(records: seq<Record>, opts: Options, w: World)
    requires opts.destination == Some("csv") && |records| > 0
    requires forall i :: 0 <= i < |records| ==> OneLine(records[i])
    ensures var x := Deliver(records, opts, w);
      x.CsvFile? && Parse(x.text) == Cells(RecordRows(records), ContentRaw)
      && Parse(x.text)[0] == RecordKeys
  {
    ListingCsvRoundTrip(records);
  }

  /** The listings' total before the loop: the pagination estimate in batch mode, the
      listing rows of the page otherwise. */
  function InitialTotal(opts: Options, w: World): nat
    requires |w.pages| > 0
  {
    var count := |FindAnnonces(w.pages[0].rows)|;
    if opts.batchMode then EstimateOf(w.pages[0], count) as nat else count
  }

  /** The loop the options choose, from a reset extractor. */
  function Extraction(e: Extractor, opts: Options, w: World): (r: Outcome)
    requires |w.pages| > 0
    ensures Counted(e) ==> Counted(r.e)
    ensures r.e.isExtracting == e.isExtracting
    ensures r.shown < |w.pages|
    ensures r.fault.Some? ==> w.fault == Some((r.shown, r.fault.value))
  {
    if opts.batchMode then
      AllPagesKeeps(e, 0, 0, Readers(opts, w), w);
      AllPagesEnds(e, 0, 0, Readers(opts, w), w);
      AllPages(e, 0, 0, Readers(opts, w), w)
    else if w.fault.Some? && w.fault.value.0 == 0 then Outcome(e, 0, 0, Some(w.fault.value.1))
    else Outcome(ExtractCurrentPage(e, 0, Reader(opts, w, 0), w), 1, 0, None)
  }

  /** `startExtraction`: refused while a run is going on or on the login page; otherwise
      the listings are gathered from a reset extractor, saved locally and delivered, and
      `extractionComplete` is sent, unless the loop threw, in which case nothing is saved
      and `extractionError` is sent. Either way the extractor ends idle. */
  function StartExtraction(e: Extractor, opts: Options, w: World): (r: Run)
    requires |w.pages| > 0
    ensures e.isExtracting || w.loginPage ==> r == Run(e, None, LocalOnly, None, 0)
    ensures !e.isExtracting && !w.loginPage ==>
      && !r.e.isExtracting && Counted(r.e) && r.sent.Some?
      && (r.sent.value.ExtractionComplete? <==> r.local.Some?)
      && (r.local.Some? ==> r.local.value == r.e.records && r.sent.value.stats == r.e.stats
                            && r.delivered == Deliver(r.e.records, opts, w))
      && (r.sent.value.ExtractionError? ==> r.delivered == LocalOnly && w.fault.Some?
                                            && r.sent.value.message == w.fault.value.1)
    ensures !e.isExtracting && !w.loginPage && w.fault.None? ==> r.local == Some(r.e.records)
  {
    if e.isExtracting || w.loginPage then Run(e, None, LocalOnly, None, 0)
    else
      var reset := Extractor(true, false, [], Stats(0, 0, InitialTotal(opts, w)), 0);
      var o := Extraction(reset, opts, w);
      var done := o.e.(isExtracting := false);
      match o.fault
      case Some(msg) => Run(done, None, LocalOnly, Some(ExtractionError(msg)), o.shown)
      case None =>
        Run(done, Some(done.records), Deliver(done.records, opts, w), Some(ExtractionComplete(done.stats)), o.shown)
  }

  // ----- Properties of a run -----

  /** A run on one page that nothing stops or breaks keeps every listing row of the page,
      in page order, whether or not a reference was found in it. */
  lemma SinglePageKeepsAll(opts: Options, w: World)
    requires |w.pages| > 0 && !opts.batchMode && !w.loginPage
    requires w.stopAfter.None? && w.fault.None?
    ensures var r := StartExtraction(Loaded, opts, w);
      var sites := AnnonceSites(w.pages[0].rows);
      && |r.e.records| == |sites| == r.e.stats.extracted
      && r.e.records == Extracted(sites, 0, |sites|, Reader(opts, w, 0))
  {
    var reset := Extractor(true, false, [], Stats(0, 0, InitialTotal(opts, w)), 0);
    PageKeepsAll(reset, 0, Reader(opts, w, 0), w);
  }

  /** With no stop request, `extractCurrentPage` reads every listing row of the page. */
  lemma PageKeepsAll(e: Extractor, k: nat, read: (nat, Sited) -> Record, w: World)
    requires k < |w.pages| && w.stopAfter.None? && !e.shouldStop
    ensures var r := ExtractCurrentPage(e, k, read, w);
      var sites := AnnonceSites(w.pages[k].rows);
      !r.shouldStop && r.records == e.records + Extracted(sites, 0, |sites|, read)
  {
    var sites := AnnonceSites(w.pages[k].rows);
    if |sites| > 0 {
      NoStopNoShort(e, sites, 0, read, w);
    }
  }

  /** With no stop request, a page's loop runs to its end. */
  lemma {:induction false} NoStopNoShort(e: Extractor, sites: seq<Sited>, i: nat, read: (nat, Sited) -> Record, w: World)
    requires i <= |sites|
    requires w.stopAfter.None? && !e.shouldStop
    ensures !PageLoop(e, sites, i, read, w).shouldStop
    decreases |sites| - i
  {
    if i < |sites| {
      var c := Check(e, w);
      NoStopNoShort(Take(c, read(i, sites[i])), sites, i + 1, read, w);
    }
  }

  /** In batch mode, once a page has been counted the total is the number of listing rows
      on the pages counted so far. */
  lemma BatchTotalIsRunningSum(opts: Options, w: World)
    requires |w.pages| > 0 && opts.batchMode && !w.loginPage
    ensures var o := AllPages(Extractor(true, false, [], Stats(0, 0, InitialTotal(opts, w)), 0), 0, 0, Readers(opts, w), w);
      o.counted > 0 ==> StartExtraction(Loaded, opts, w).e.stats.total == SumCounts(w.pages, o.counted)
  {
    AllPagesTotal(Extractor(true, false, [], Stats(0, 0, InitialTotal(opts, w)), 0), 0, 0, Readers(opts, w), w);
  }

  /** A stop request does not prevent the save: with no error thrown, the run saves what it
      gathered and reports completion, however early the stop landed. */
  lemma StopStillSaves(opts: Options, w: World)
    requires |w.pages| > 0 && !w.loginPage && w.fault.None?
    ensures var r := StartExtraction(Loaded, opts, w);
      r.local == Some(r.e.records) && r.sent == Some(ExtractionComplete(r.e.stats))
  {
  }

  /** An error thrown as the first page begins leaves nothing saved. */
  lemma FaultSkipsSaving(opts: Options, w: World, msg: string)
    requires |w.pages| > 0 && !w.loginPage && w.stopAfter.None? && w.fault == Some((0, msg))
    ensures var r := StartExtraction(Loaded, opts, w);
      r.local.None? && r.delivered == LocalOnly && r.sent == Some(ExtractionError(msg))
  {
  }

  // ----- Messages -----

  /** The answer passed to `sendResponse`. */
  datatype Reply = Reply(success: bool, error: Option<string>)

  /** `handleMessage`: a run started or a stop requested; anything else refused. */
  function HandleMessage(e: Extractor, action: string, opts: Options, w: World): (r: (Reply, Run))
    requires |w.pages| > 0
    ensures r.0.success <==> action == "startExtraction" || action == "stopExtraction"
    ensures !r.0.success ==> r.0.error == Some("Action inconnue") && r.1.e == e
    ensures r.0.success ==> r.0.error.None?
    ensures action == "stopExtraction" ==> r.1.e.shouldStop && !r.1.e.isExtracting
    ensures action == "startExtraction" ==> r.1 == StartExtraction(e, opts, w)
  {
    if action == "startExtraction" then (Reply(true, None), StartExtraction(e, opts, w))
    else if action == "stopExtraction" then (Reply(true, None), Run(StopExtraction(e), None, LocalOnly, None, 0))
    else (Reply(false, Some("Action inconnue")), Run(e, None, LocalOnly, None, 0))
  }
}
