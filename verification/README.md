# BEP listing extractor — a Dafny model

This project models the core of a Chrome extension that scrapes property listings
(*annonces*) from the subscriber pages of the BEP site. The model covers four scripts.

- **The content script** (`chrome-extension/content.js`):
  - which table rows are listings;
  - what a listing row yields: reference, title, type, description, rent, charges,
    surface, availability, images, energy class, bulletin number and date, and phone;
  - the regular expressions behind those fields, including the phone lookup and the
    pagination estimate;
  - the extraction session: the start guards, the loop over the listings of a page, the
    loop over pages in batch mode, the stop flag, and the save;
  - the progress figures;
  - the CSV writer.
- **The Firestore layer** (`chrome-extension/firebase-config.js`):
  - document ids;
  - the conversion to and from the typed REST format;
  - the listing writes with their tally;
  - the per-bulletin documents.
- **The service worker** (`chrome-extension/background.js`): the merge of a batch into
  local storage, the stats query, and the message dispatcher.
- **The popup** (`chrome-extension/popup.js`):
  - the start guards and the retried message to the tab;
  - the handling of the content script's messages;
  - the 100-line log panel;
  - the time display;
  - the CSV export.

Everything the browser, the clock or the network supplies becomes a parameter:

- the page is a `Page` value: rows, links and body text;
- `revealed(k, i)` is the page text once listing `i` of page `k` has had its phone
  requested;
- the outcome of each REST write is an oracle `writes(k)`;
- the moment a stop message lands is `stopAfter`, the number of reads of `shouldStop`
  that still see no stop;
- an error thrown during the loop is `fault`;
- time stamps are one string `now`.

Regular expressions are run by a small backtracking matcher (`Regex`). It explores
alternatives in the order the JavaScript engine does, so the first success it finds is
the match JavaScript reports. Every pattern of the source is transcribed atom for atom
in `Patterns`.

Three behaviours of the code are easy to miss, and the model keeps them:

- A listing row whose reference cannot be parsed is still appended and counted.
- An error thrown during the page loop skips all saving, the local save included.
- After a stop lands in the middle of a page, the "next" link is still followed once
  before the page loop ends.

## Model

| member | source | states |
|---|---|---|
| `Listing.FindAnnonces` | chrome-extension/content.js:310-334 | the positions returned are exactly the listing rows of the page, each once, in page order |
| `Listing.IsAnnonceIff` | chrome-extension/content.js:315-330 | a row is kept iff it carries the hover handler and one of its bold texts, trimmed, is seven digits, optional spaces and a colon |
| `Patterns.LooksLikeHeaderIff` | chrome-extension/content.js:324 | the matcher accepts `^\d{7}\s*:` on a text iff the text has the header form, as a description written without the matcher |
| `Patterns.ParseIdTitleIff` | chrome-extension/content.js:360-363 | `^(\d{7})\s*:\s*(.+)$` succeeds on a trimmed text iff it has the header form with a non-empty, single-line remainder; the reference is then the seven digits and the title that remainder, one final star dropped, trimmed |
| `Listing.HeaderOfShape` | chrome-extension/content.js:359-363 | a bold text that parses yields a seven-digit reference and the trimmed, star-stripped remainder as its title |
| `Listing.FirstHeader` | chrome-extension/content.js:358-366 | a header is found iff some bold text parses; it is then the header of the first bold text that parses, with a seven-digit reference |
| `Listing.FirstHeaderAt` | chrome-extension/content.js:358-366 | when bold text `k` is the first that parses, the reference is its seven digits and the title its remainder after the colon, one final star dropped, trimmed |
| `Listing.HeaderFromFirstBold` | chrome-extension/content.js:358-366 | the record's reference and title come from the first bold text that parses, and from no later one |
| `Listing.ExtractAnnonceData` | chrome-extension/content.js:336-444 | the record has a reference iff a bold text parses, and reference and title are those of the first header; the energy class is the class cell's text, trimmed; the type is the nearest header above; the images are the row's links; the phone is looked up only under the guard; the status is "complete" exactly when a phone was found |
| `Listing.DescriptionWhenMarked` | chrome-extension/content.js:372-376 | the record has a description iff some font of the row contains "DESCRIPTION :" |
| `Listing.DescriptionFromFirstFont` | chrome-extension/content.js:373-404 | description, rent, charges, surface and availability all come from the first such font, and from no later one |
| `Patterns.RentShape` | chrome-extension/content.js:378-382 | a rent is found iff some position reads `LOYER`, white space, `:`, white space, a digit, more digits, an optional dot and digits, white space and `€`; it is then the amount read at the leftmost such position, followed by " €", and is a digit followed by digits and dots |
| `Patterns.ChargesShape` | chrome-extension/content.js:384-388 | charges are found iff some position reads `CHARGE` or `CHARGES`, white space, `:`, white space, an amount, white space and `€`; they are then the amount read at the leftmost such position, followed by " €" |
| `Patterns.SurfaceShape` | chrome-extension/content.js:390-394 | a surface is found iff some run of digits is followed by white space and `M²`; it is then the whole leftmost such run, with no digit just before it, followed by " M²" |
| `Patterns.AvailabilityShape` | chrome-extension/content.js:396-400 | an availability is found iff some position reads `DISPONIBLE` in any letter case, a white space character and at least one character that is not a comma; it is then the text after the white space up to the next comma or the end, trimmed, at the leftmost such position |
| `Listing.BulletinFromNearest` | chrome-extension/content.js:417-425 | bulletin number and date are read from the text `findBulletinInfo` returns, and are both absent when it returns none |
| `Patterns.BulletinShape` | chrome-extension/content.js:418-423 | a bulletin number is found iff some position reads `BULLETIN`, white space, `N°`, optional white space and a digit; it is then the whole run of digits at the leftmost such position, with a non-digit just before it |
| `Patterns.BulletinDateLeftmost` | chrome-extension/content.js:421-424 | a date is found iff some ten characters read `dd/dd/dddd`, and it is the leftmost such window |
| `Listing.FindPropertyType` | chrome-extension/content.js:446-461 | no type iff no row above is a `#FFAAAA` header with a font; otherwise the trimmed first font of the nearest such row |
| `Listing.FindBulletinInfo` | chrome-extension/content.js:463-487 | the nearest row above with a bulletin font wins; only when none exists above, the nearest one below; none iff no sibling has one |
| `Listing.PhoneOf` | chrome-extension/content.js:501-542 | a phone is looked for iff phones are wanted, the reference is truthy and the request button names a request number; it is then the lookup of the revealed page text, at least ten characters long |
| `Patterns.RequestIdDigits` | chrome-extension/content.js:513-518 | the request number captured from `sendreq(…)` is a non-empty run of digits |
| `Patterns.FindPhoneSpec` | chrome-extension/content.js:544-563 | no number iff none of the three patterns matches; otherwise the leftmost match of the first pattern that matches anywhere, separators removed, in that pattern's shape |
| `Patterns.PhoneShapes` | chrome-extension/content.js:546-550 | with separators removed, a French match is `0`, a digit 1-9 and eight digits; an international one is `+33`, a digit 1-9 and eight digits; a generic one is ten digits |
| `Patterns.IntlNeedsWordBefore` | chrome-extension/content.js:548 | because `\b` precedes `+`, an international number matches only right after a letter, digit or `_` |
| `Listing.FindNextPageLink` | chrome-extension/content.js:580-592 | none iff no page link says "Suivant", ">" or "Next"; otherwise the first such link in document order |
| `Listing.PageLinkCountPositions` | chrome-extension/content.js:164-165 | the count of `a[href*="page="]` links is the number of positions in the page's links whose `href` contains `page=` |
| `Patterns.FirstPositiveIsFirst` | chrome-extension/content.js:154-161 | the five figures are tried in order; the first positive one wins; none wins iff none is positive |
| `Patterns.EstimatePicksFirst` | chrome-extension/content.js:146-161 | the estimate is the figure of the first pagination pattern, in order, whose `parseInt` is positive |
| `Patterns.EstimateFallback` | chrome-extension/content.js:163-175 | with no positive figure, the estimate is the page count times (page links + 1), or the page count alone when there are no page links |
| `Patterns.EstimateTotal` | chrome-extension/content.js:141-176 | the estimate is never negative, and is zero only when no pagination figure is positive and the page has no listing rows |
| `Patterns.PaginationCapturesDigits` | chrome-extension/content.js:147-151 | each pagination pattern captures a non-empty run of digits |
| `Patterns.PaginationParsed` | chrome-extension/content.js:155-157 | `parseInt` of a pagination capture is a number (never `NaN`) and is never negative |
| `Patterns.FractionWins` | chrome-extension/content.js:148 | when there is no "Page … sur …" figure and the first digits of the text read `d1/d2`, the estimate is `d2` |
| `Patterns.DateReadAsPageCount` | chrome-extension/content.js:146-159 | a date in the page text is read as a page count: "12/05/2024" gives 5 |
| `Patterns.NoPageWord` | chrome-extension/content.js:147 | a text with no letter p matches no "Page … sur …" pattern |
| `Regex.Search` | chrome-extension/content.js:155 | the match reported is the leftmost start at which the pattern succeeds, and there is none iff it succeeds nowhere |
| `Regex.ManyBacktracks` | chrome-extension/content.js:360 | a greedy star tries the rest of the pattern after the longest stretch first, then gives back one character at a time |
| `Regex.AnchoredSearch` | chrome-extension/content.js:324 | a pattern starting with `^` can only match at the start of the text |
| `Regex.FoldedLitSteps` | chrome-extension/content.js:397 | under the `i` flag a literal matches the characters that fold to its own |
| `Session.StartExtraction` | chrome-extension/content.js:179-233 | refused while running or on the login page; otherwise the run ends idle with counters in step, and completion is reported iff the listings were saved locally, with the delivery the options choose; an error skips saving and is reported with its message |
| `Session.Extraction` | chrome-extension/content.js:210-217 | the loop the options choose keeps the counters in step, and any error it reports is the one thrown at the page it stopped on |
| `Session.ExtractCurrentPage` | chrome-extension/content.js:266-308 | the page's listings are appended to what was held, counters in step; with no stop, every listing row of the page is read |
| `Session.CurrentPageInOrder` | chrome-extension/content.js:276-292 | the listings appended are the first listing rows of the page, read in page order |
| `Session.PageLoop` | chrome-extension/content.js:276-305 | `shouldStop` is read before each listing; the loop falls short of the page's end only after a stop |
| `Session.Take` | chrome-extension/content.js:283-289 | a kept listing is appended and counted, its phone counted when it has one |
| `Session.PageKeepsAll` | chrome-extension/content.js:271-305 | with no stop request, every listing row of the page is read and appended |
| `Session.NoStopNoShort` | chrome-extension/content.js:276 | with no stop request, the listing loop runs to its end |
| `Session.SinglePageKeepsAll` | chrome-extension/content.js:280-292 | in single-page mode, with no stop and no error, every listing row is kept in page order, with or without a parsed reference |
| `Session.AllPages` | chrome-extension/content.js:235-264 | the loop over pages counts at least the pages it started from and ends on a page of the world |
| `Session.PageOfRun` | chrome-extension/content.js:243-251 | before a page is read, the total becomes the running count of listing rows, including that page |
| `Session.AllPagesKeeps` | chrome-extension/content.js:239-263 | the loop over pages only appends listings, keeps the counters in step, and leaves the running flag alone |
| `Session.AllPagesTotal` | chrome-extension/content.js:243-257 | once a page has been counted, the total is the number of listing rows on the pages counted |
| `Session.AllPagesEnds` | chrome-extension/content.js:239-259 | the loop ends on a thrown error, on a stop, or on a page whose "next" link leads nowhere |
| `Session.BatchTotalIsRunningSum` | chrome-extension/content.js:235-257 | in batch mode, once a page has been counted, the final total is the running count of listing rows on the pages counted, not the pagination estimate |
| `Session.StopStillSaves` | chrome-extension/content.js:210-223 | with no error, a run saves what it gathered and reports completion, however early a stop landed |
| `Session.FaultSkipsSaving` | chrome-extension/content.js:210-228 | an error thrown as the first page begins leaves nothing saved and reports that error |
| `Session.StopExtraction` | chrome-extension/content.js:594-598 | a stop raises the flag the loops read and reports the extractor idle at once |
| `Session.Deliver` | chrome-extension/content.js:600-627 | a CSV destination with listings gives the file content.js's own writer produces, and with no listing nothing is downloaded; a configured Firestore destination gives the tally and store of `saveAnnonces` over the listings, each listing counted exactly once as saved, failed or duplicate, and an unconfigured one saves locally only; any other destination is refused |
| `Session.DeliveredCsvReadsBack` | chrome-extension/content.js:617-619 | when no field of any listing holds a line feed, the delivered CSV file reads back as the listings' cell texts under the fifteen field names |
| `Session.HandleMessage` | chrome-extension/content.js:55-76 | "startExtraction" runs a start; "stopExtraction" stops; any other action is refused with "Action inconnue" and changes nothing |
| `Session.Check` | chrome-extension/content.js:276 | a read of `shouldStop` sees a stop once one was seen or the stop message has landed |
| `Progress.UpdateStats` | chrome-extension/content.js:764-790 | the counters are passed through; the elapsed time is rounded to within half a second; the estimates are zero until a listing is done and the total is known, and are then the time left and the whole run's time, each rounded to within half a second; progress is the rounded percentage, or zero with no total |
| `Progress.TotalTimeFormula` | chrome-extension/content.js:771-778 | the whole run's time is the total number of listings times the average time per listing done |
| `Progress.ProgressBounds` | chrome-extension/content.js:786 | progress stays within 0-100 while the count is within the total, and is exactly 100 when the count reaches it |
| `Progress.ProgressMonotone` | chrome-extension/content.js:786 | more listings done never lowers the progress shown |
| `Progress.RemainingFormula` | chrome-extension/content.js:771-777 | the time left is the listings still to do times the average time per listing done |
| `Progress.RemainingPlusElapsed` | chrome-extension/content.js:776-778 | before rounding, the time left plus the time spent is the whole run's time |
| `Progress.ShownTimesAddUp` | chrome-extension/content.js:783-785 | after rounding, the three times shown add up to within one second |
| `Progress.Round` | chrome-extension/content.js:783 | `Math.round` gives the integer within half a unit, halves rounded up |
| `Annonce.ToObj` | chrome-extension/content.js:337-353 | a listing object has the fifteen keys in declaration order; only `images` holds an array |
| `Csv.ContentEscape` | chrome-extension/content.js:700-703 | a value holding a comma or a quote is quoted with its quotes doubled, and any other value, one with a line feed included, is written unchanged; a value without a line feed is written correctly |
| `Csv.ContentCsvRoundTrip` | chrome-extension/content.js:685-711 | when no cell holds a line feed, the file content.js writes reads back cell for cell |
| `Csv.ContentCsvSplitsLines` | chrome-extension/content.js:700-708 | a description spanning two lines reads back as two records |
| `Csv.SafeEscape` | chrome-extension/content.js:700-703 | the corrected escape writes every value correctly, and quotes exactly the values holding a comma, quote, line feed or carriage return |
| `Csv.SafeContentCsvRoundTrip` | chrome-extension/content.js:685-711 | with the corrected escape, every file reads back cell for cell |
| `Csv.ListingCsvRoundTrip` | chrome-extension/content.js:685-711 | when no field of any listing holds a line feed, the listings file content.js writes reads back as the cell texts of the listings under the fifteen field names |
| `Csv.DoubleCounts` | chrome-extension/content.js:701 | doubling the quotes gives twice as many quotes and the same number of every other character |
| `Csv.DoubleLength` | chrome-extension/content.js:701 | doubling the quotes adds one character per quote, and leaves a text without quotes as it is |
| `Csv.QuotedBodyOf` | chrome-extension/content.js:701 | reading a quoted field whose quotes were doubled gives the text back, and stops right after the closing quote when a comma, a line feed or the end of the text follows |
| `Csv.ParseRender` | chrome-extension/content.js:689-708 | fields joined by commas and records by line feeds read back as the fields, when each was written correctly |
| `Csv.RecordKeysBare` | chrome-extension/content.js:688 | the header names taken from a listing need no quotes |
| `Text.Trim` | chrome-extension/content.js:321 | `trim` leaves a slice of the text with only white space cut at both ends, and no white space at either end of the result |
| `Text.TrimTrimmed` | chrome-extension/content.js:363 | trimming a text with no white space at its ends leaves it unchanged |
| `Decimal.ParseIntOfDigits` | chrome-extension/content.js:156-157 | `parseInt` of a string of decimal digits is their exact decimal value, numbers being unbounded integers |
| `Decimal.ParseIntOfIntToString` | chrome-extension/firebase-config.js:206 | `parseInt` reads back every unbounded integer that `toString` writes in plain decimal |
| `Firestore.SaveAnnonces` | chrome-extension/firebase-config.js:32-77 | refused before initialisation; otherwise every listing is tallied once, and the listing documents are those stored before plus those whose write went through |
| `Firestore.WriteAll` | chrome-extension/firebase-config.js:42-65 | successes, errors and duplicates add up to the listings; successes are the writes that went through; documents exist for exactly the stored ids and the written ones |
| `Firestore.TallyOf` | chrome-extension/firebase-config.js:55-63 | every listing is counted once: as a success when its write goes through, as a duplicate when the error says the document already exists, as an error otherwise |
| `Firestore.WrittenIff` | chrome-extension/firebase-config.js:42-55 | a document id is among those written iff some listing filed under it was written successfully |
| `Firestore.LastWriteWins` | chrome-extension/firebase-config.js:47-55 | a document ends up holding the last listing successfully written under its id |
| `Firestore.Untouched` | chrome-extension/firebase-config.js:42-65 | a document no write reached is left as it was, and none is created |
| `Firestore.RerunAddsNoKeys` | chrome-extension/firebase-config.js:45-54 | once a batch has been fully written, saving it again creates no document |
| `Firestore.DocIdInjective` | chrome-extension/firebase-config.js:45 | with underscore-free references, two listings share a document id iff their references and their dashed dates agree |
| `Firestore.DocIdWithoutIdOrDate` | chrome-extension/firebase-config.js:45 | a listing with neither reference nor date is filed under `null_no-date` |
| `Firestore.DateKey` | chrome-extension/firebase-config.js:45 | the date part is `no-date` for a missing or empty date, and is otherwise the date with every `/` turned into `-` and every other character kept |
| `Firestore.GroupingSpec` | chrome-extension/firebase-config.js:226-240 | one group per bulletin key that occurs, keys distinct; each group carries the number and date of its first listing and the references of all its listings, in order |
| `Firestore.BulletinEncodes` | chrome-extension/firebase-config.js:245-251 | a bulletin document can be built iff every listing in the group has a reference |
| `Firestore.BulletinKeys` | chrome-extension/firebase-config.js:243-259 | the bulletin documents written are exactly the groups that could be built and whose write went through |
| `Firestore.BulletinWritten` | chrome-extension/firebase-config.js:243-259 | with distinct keys, every bulletin written holds its own group's document |
| `FirestoreFormat.Encode` | chrome-extension/firebase-config.js:80-111 | conversion fails, with the `TypeError` message, iff some array holds a missing (`null`) element; it never adds a member |
| `FirestoreFormat.RoundTrip` | chrome-extension/firebase-config.js:197-221 | reading back a converted object gives every non-null member unchanged, except that an empty string inside an array comes back `undefined`; integers are unbounded |
| `FirestoreFormat.EmptyElementLost` | chrome-extension/firebase-config.js:214-216 | an array holding the empty string does not survive a round trip |
| `FirestoreFormat.ReadElement` | chrome-extension/firebase-config.js:215 | an array element reads back as itself, except the empty string, which becomes `undefined` |
| `FirestoreFormat.RecordEncodes` | chrome-extension/firebase-config.js:48-52 | a listing with its two stamps always converts |
| `Background.Merge` | chrome-extension/background.js:95-112 | the stored list is kept as a prefix, and at most the incoming listings are added |
| `Background.FreshCount` | chrome-extension/background.js:103-111 | an incoming listing is appended as many times as it arrives when storage has no match for it, and never otherwise |
| `Background.BatchDuplicatesKept` | chrome-extension/background.js:103-111 | two identical new listings in one batch are both appended |
| `Background.MergeKnowsAll` | chrome-extension/background.js:95-112 | after the merge every incoming listing has a match in storage |
| `Background.MergeIdempotent` | chrome-extension/background.js:95-117 | saving the same batch twice stores it once |
| `Background.SaveExtractionData` | chrome-extension/background.js:95-122 | the merged list and a stamp are stored; a missing batch leaves storage untouched |
| `Background.GetExtractionStats` | chrome-extension/background.js:79-93 | the stored stats, zeros when there are none, with `totalData` the number of stored listings; zeros throughout when the read fails |
| `Background.HandleMessage` | chrome-extension/background.js:52-77 | succeeds iff the action is "getStats", "saveData" or "log"; only "getStats" returns data and only "saveData" changes storage; anything else is refused with "Action inconnue" |
| `Annonce.GetPut` | chrome-extension/background.js:85-88 | reading a key after setting it gives the value set, and other keys are unchanged |
| `Popup.ReadFormatTime` | chrome-extension/popup.js:411-423 | the display reads back as the time exactly below an hour, and as the time rounded down to the minute from an hour on |
| `Popup.FormatTime` | chrome-extension/popup.js:414-422 | from a minute on, the display has two parts separated by a space |
| `Popup.AddLog` | chrome-extension/popup.js:425-439 | the stamped line is appended; past 100 lines the oldest one goes, and the others keep their order |
| `Popup.LoggedKeepsLast` | chrome-extension/popup.js:434-438 | after any number of lines the panel holds the last 100 of them, in order |
| `Popup.AddLogShift` | chrome-extension/popup.js:436-437 | every line but the new one is an older line, moved down one place when the oldest went |
| `Popup.SendMessageWithRetry` | chrome-extension/popup.js:261-285 | it fails iff all attempts fail, with the last error, a missing receiver explained; otherwise it stops at the first delivered attempt |
| `Popup.LastError` | chrome-extension/popup.js:273-278 | a "Receiving end does not exist" error is replaced by the reload advice; any other is passed on |
| `Popup.HandleMessage` | chrome-extension/popup.js:311-353 | "updateStats" stores each figure or zero when falsy; completion and error make the popup idle; "log" appends a line; unknown actions change nothing |
| `Popup.OrZero` | chrome-extension/popup.js:320-326 | `v || 0` keeps a truthy value and gives zero otherwise |
| `Popup.StatsReceived` | chrome-extension/popup.js:319-327 | the popup shows exactly the figures the content script sends |
| `Popup.StopExtraction` | chrome-extension/popup.js:291-303 | the popup turns idle; its log gains the warning line "Extraction arrêtée par l'utilisateur" exactly when the tab accepts the stop message, and is otherwise unchanged |
| `Popup.StopLogsWarning` | chrome-extension/popup.js:296-298 | after a stop the tab accepted, the panel ends with the warning line and keeps the latest older lines in order, within 100; after a refused stop it is unchanged |
| `Popup.StartExtraction` | chrome-extension/popup.js:186-259 | refused while running, without both credentials, or with Firestore chosen and not configured; started iff the tab is on the BEP site and some attempt is delivered, with the destination defaulting to "csv"; otherwise it ends idle with the error |
| `Popup.ExportData` | chrome-extension/popup.js:445-463 | nothing is exported iff nothing is stored; a format other than "csv" is refused; a CSV export counts every stored listing and its text is popup.js's own `convertToCSV` of them |
| `Popup.ExportReadsBack` | chrome-extension/popup.js:457-458 | when every text field either holds a comma or needs no quotes, and every listing has at most one image link, the exported file reads back as the text of every stored listing under the fifteen field names |
| `Csv.PopupCell` | chrome-extension/popup.js:507-512 | a string with a comma is quoted; a string without one is written unchanged, even when it holds a quote or a line feed; any other value is written as `join` writes it |
| `Csv.PopupCsvSplitsArrays` | chrome-extension/popup.js:500-518 | two image links read back as two cells under one header |
| `Csv.PopupCsvRoundTrip` | chrome-extension/popup.js:500-518 | when each string either holds a comma or needs no quotes, and each array has at most one element and that needs no quotes, the file popup.js writes reads back cell for cell |
| `Csv.PopupListingRoundTrip` | chrome-extension/popup.js:500-518 | under the same condition on each listing, the exported file reads back as the listings' cell texts under the fifteen field names |
| `Csv.SafePopupCsvRoundTrip` | chrome-extension/popup.js:500-518 | with the corrected cell escape, every exported file reads back cell for cell |

## Left out

- Auto-login (`checkForAutoLogin`, `performAutoLogin`): not part of the extraction core. `isLoginPage()` is an input.
- Logging (`log`, `sendMessage`, `debugAnnonceData`), console output and the content script's ready message are left out, because they change no state the model keeps.
- The delays are not modelled: 1 s between listings, 15 s for a phone, 3 s after a click, 2 s between pages, 500 ms before the start message, and 1 s between retries. Only the order of events matters to the properties.
- `goToNextPage` is not modelled as a click. It is the step from page `k` to page `k + 1` of the world, and the world's list of pages is a horizon on the number of pages.
- The `updateStats` message sent after each listing is not modelled as a sequence of messages. `Progress.UpdateStats` models one call, with the elapsed seconds as an exact rational input, and doubles are computed as exact rationals.
- `Session.PageLoop`: an error thrown while reading one listing is not modelled. `extractAnnonceData` catches every error of its own, so the `null` branch of the page loop cannot be reached.
- `Session.StartExtraction`: an error thrown during the loop is modelled as thrown as page `k` begins. `calculateTotalAnnonces` runs outside the `try`, and the model takes it to succeed.
- `Session.Deliver`: Firebase initialisation always succeeds. An error of the upload is caught by `sendToFirestore`, so it changes no outcome the model keeps.
- The CSV file name and the download (data URL or blob) are left out. The delivery carries the file's text.
- The local save overwrites `extractedData`. The background merge is modelled separately, as `Background.Merge`, because content.js never sends it a `saveData` message.
- The `FirebaseManager` operations outside saving are outside the core: `getDocument`, `updateDocument`, `createDocument`, `getAnnonces`, `deleteAnnonce`, `getStatistics`, `syncWithLocalStorage` and `cleanup`.
- `FirestoreFormat.Encode` does not model `doubleValue`, `timestampValue` or the JSON string of a nested object. No listing or bulletin document holds such a value.
- `Popup.StartExtraction`: the log lines of a click are not kept. A tab with no URL and an undefined tab are both the absent `tabUrl`. `sendMessageWithRetry` is always called with its default of 3 attempts.
- `Popup.StopExtraction`: whether the tab accepts the stop message is an input (`delivered`), and a refused message's swallowed error is not modelled. The content script's side of it is `Session.StopExtraction`.
- `Popup.StartExtraction`: the call is modelled as returning when the message is delivered. In the program the content script answers `startExtraction` only after the whole run (content.js:62-63), so by then `extractionComplete` has already made the popup idle (popup.js:244-249), and "started" describes a run that has ended.
- `Session.StopExtraction`: a stop and a start are modelled as atomic steps. In the program a stop clears `isExtracting` at once (content.js:594-596) while the page loop is still running, so a second `startExtraction` is accepted and resets `shouldStop` and `extractedAnnonces` under the first loop (content.js:195-198). The model does not show such interleavings.
- `Popup.OrZero`: `NaN` is not a value of the model, so it is not treated as falsy.
- `Popup.ExportData`: a failed storage read (the `catch` of `exportData`) is not modelled.
- The popup's display code is left out: `updateStats` rendering, `updateExtractionUI`, `updateConnectionStatus` texts, the stored-data loading, the credential and Firebase forms, and the timer that hides the stats.
- `Popup.FormatTime`: its own contract only says that a display from a minute on has two parts. What the display means is stated by `Popup.ReadFormatTime`.
- `Session.AllPages`: its own contract only bounds the pages it reaches. What it keeps, its total and how it ends are `Session.AllPagesKeeps`, `Session.AllPagesTotal` and `Session.AllPagesEnds`.
- `Regex.FoldedLitSteps`: case folding under the `i` flag is modelled for ASCII letters and `é` only. Those are the only letters the case-insensitive patterns use.
- `Decimal.ParseIntOfDigits`: `parseInt` is modelled for decimal and `0x` hexadecimal text. Text such as `Infinity` never reaches it from a digit capture.
- `Decimal.ParseIntOfIntToString`, `Decimal.ParseIntOfDigits` and `FirestoreFormat.RoundTrip`: numbers are unbounded integers, not doubles. In the program, `toString` writes an integer of magnitude 1e21 or more in exponent form, as in "1e+21", which `parseInt` reads back as 1. `parseInt` of a digit string beyond 2^53 also rounds to the nearest double, so "9007199254740993" gives 9007199254740992. The three lemmas hold for the program only below those bounds. No listing count, page figure or stored integer comes near them.
- `Listing.FindPropertyType` and `Listing.FindBulletinInfo`: a page is one table, so the siblings of a row are all the rows of the page. content.js:448-485 walks the siblings inside the row's own parent only, while content.js:310-334 collects listing rows from every table; on a page with several tables the model also looks at rows of the other tables.

## Findings

| source | as written | input that shows it | evidently intended | confidence | as-written member | corrected member |
|---|---|---|---|---|---|---|
| chrome-extension/content.js:700-703 | a value is quoted only when it holds a comma or a double quote, so a value holding a line feed is written bare | a listing whose description is "a\nb" | quote any value holding a line break too, as rule 6 of section 2 of RFC 4180 requires | not executed; high | `Csv.ContentCsvSplitsLines` | `Csv.SafeContentCsvRoundTrip` |
| chrome-extension/popup.js:507-512 | only a string holding a comma is quoted; the image array is written through its default string conversion, its elements joined by unquoted commas | a stored listing with images ["a", "b"] | write the array as one field, quoted when it holds a comma | not executed; high | `Csv.PopupCsvSplitsArrays` | `Csv.SafePopupCsvRoundTrip` |

The as-written writers are `Csv.ContentCsv` and `Csv.PopupCsv`, and `Session.Deliver` and
`Popup.ExportData` use them, as the program does. Their round trips are proved under the
conditions that avoid the defects (`Csv.ContentCsvRoundTrip`, `Csv.PopupCsvRoundTrip`).
The corrected writers are `Csv.SafeContentCsv` and `Csv.SafePopupCsv`, whose round trips
hold for every file.
