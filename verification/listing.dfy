/** The results page as the listing scanner reads it (chrome-extension/content.js): which
    table rows are listings, what one listing row yields, and the two walks over its
    sibling rows. The page is one table, so the sibling rows of a row are the rows before
    and after it in `Page.rows`. */
module Listing {
  import opened Wrappers
  import opened Text
  import opened Patterns
  import opened Annonce

  /** A table row, reduced to what the selectors read from it. */
  datatype Row = Row(
    onmouseover: Option<string>,   // the `onmouseover` attribute
    bgcolor: Option<string>,       // the `bgcolor` attribute
    bolds: seq<string>,            // the text of each `<b>` inside, in document order
    fonts: seq<string>,            // the text of each `<font>` inside
    imageLinks: seq<string>,       // the `href` of each `a[rel*="image"]` inside
    classe: Option<string>,        // the text of the first `td[background*="fleche_select2.png"] font`
    bulletinFont: Option<string>,  // the text of the first `font[style*="color: #AA0000"]`
    requestButton: Option<string>) // the `onclick` of the first `input[onclick*="sendreq"]`

  /** A link of the page: its `href` attribute and its text. */
  datatype Link = Link(href: string, text: string)

  /** A results page: its table rows, its links, and the text of its body. */
  datatype Page = Page(rows: seq<Row>, links: seq<Link>, text: string)

  // ----- Searches over a sequence -----

  /** The first element `f` accepts, mapped by `f`. */
  function FirstSome<T, U(==)>(xs: seq<T>, f: T -> Option<U>): (r: Option<U>)
    ensures r.None? <==> forall k :: 0 <= k < |xs| ==> f(xs[k]).None?
    ensures r.Some? ==> exists k :: 0 <= k < |xs| && f(xs[k]) == r && forall j :: 0 <= j < k ==> f(xs[j]).None?
  {
    if |xs| == 0 then None
    else if f(xs[0]).Some? then f(xs[0])
    else
      var r := FirstSome(xs[1..], f);
      assert forall k :: 0 <= k < |xs[1..]| ==> xs[1..][k] == xs[k + 1];
      if r.Some? then
        var k :| 0 <= k < |xs[1..]| && f(xs[1..][k]) == r && forall j :: 0 <= j < k ==> f(xs[1..][j]).None?;
        assert forall j :: 0 <= j < k + 1 ==> f(xs[j]).None? by {
          forall j | 0 <= j < k + 1 ensures f(xs[j]).None? {
            if j > 0 {
              assert xs[j] == xs[1..][j - 1];
            }
          }
        }
        r
      else
        r
  }

  /** The first element `f` accepts decides the result. */
  lemma FirstSomeAt<T, U>(xs: seq<T>, f: T -> Option<U>, k: nat)
    requires k < |xs| && f(xs[k]).Some? && forall j :: 0 <= j < k ==> f(xs[j]).None?
    ensures FirstSome(xs, f) == f(xs[k])
  {
    var r := FirstSome(xs, f);
    var m :| 0 <= m < |xs| && f(xs[m]) == r && forall j :: 0 <= j < m ==> f(xs[j]).None?;
    assert !(m < k) && !(k < m);
  }

  /** The last element `f` accepts, mapped by `f`: the nearest one walking backwards. */
  function LastSome<T, U(==)>(xs: seq<T>, f: T -> Option<U>): (r: Option<U>)
    ensures r.None? <==> forall k :: 0 <= k < |xs| ==> f(xs[k]).None?
    ensures r.Some? ==> exists k :: 0 <= k < |xs| && f(xs[k]) == r && forall j :: k < j < |xs| ==> f(xs[j]).None?
  {
    if |xs| == 0 then None
    else
      var n := |xs| - 1;
      if f(xs[n]).Some? then f(xs[n])
      else
        var r := LastSome(xs[..n], f);
        LastSomeBefore(xs, f, r);
        r
  }

  /** What the elements before the last tell about all of them, when the last is refused. */
  lemma LastSomeBefore<T, U>(xs: seq<T>, f: T -> Option<U>, r: Option<U>)
    requires |xs| > 0 && f(xs[|xs| - 1]).None?
    requires var p := xs[..|xs| - 1];
      && (r.None? <==> forall k :: 0 <= k < |p| ==> f(p[k]).None?)
      && (r.Some? ==> exists k :: 0 <= k < |p| && f(p[k]) == r && forall j :: k < j < |p| ==> f(p[j]).None?)
    ensures r.None? <==> forall k :: 0 <= k < |xs| ==> f(xs[k]).None?
    ensures r.Some? ==> exists k :: 0 <= k < |xs| && f(xs[k]) == r && forall j :: k < j < |xs| ==> f(xs[j]).None?
  {
    var n := |xs| - 1;
    var p := xs[..n];
    assert forall k :: 0 <= k < n ==> p[k] == xs[k];
    if r.Some? {
      var k :| 0 <= k < n && f(p[k]) == r && forall j :: k < j < n ==> f(p[j]).None?;
      assert f(xs[k]) == r;
      assert forall j :: k < j < |xs| ==> f(xs[j]).None?;
    }
  }

  /** The positions of the elements `keep` accepts, in order. */
  function Positions<T>(xs: seq<T>, keep: T -> bool): (found: seq<nat>)
    ensures forall k :: 0 <= k < |found| ==> found[k] < |xs| && keep(xs[found[k]])
    ensures forall i :: 0 <= i < |xs| && keep(xs[i]) ==> i in found
    ensures forall k, l :: 0 <= k < l < |found| ==> found[k] < found[l]
  {
    if |xs| == 0 then []
    else
      var n := |xs| - 1;
      var before := Positions(xs[..n], keep);
      assert forall i :: 0 <= i < n ==> xs[..n][i] == xs[i];
      if keep(xs[n]) then before + [n] else before
  }

  // ----- Which rows are listings -----

  /** `tr[onmouseover*="backgroundColor"]`. */
  predicate Hovered(r: Row) {
    r.onmouseover.Some? && Contains(r.onmouseover.value, "backgroundColor")
  }

  /** Some bold text, trimmed, passes `^\d{7}\s*:`. */
  predicate HasHeader(bolds: seq<string>) {
    exists k :: 0 <= k < |bolds| && LooksLikeHeader(Trim(bolds[k]))
  }

  predicate IsAnnonce(r: Row) {
    Hovered(r) && HasHeader(r.bolds)
  }

  /** `findAnnoncesOnPage`: the positions of the listing rows, in page order. */
  function FindAnnonces(rows: seq<Row>): (found: seq<nat>)
    ensures forall k :: 0 <= k < |found| ==> found[k] < |rows| && IsAnnonce(rows[found[k]])
    ensures forall i :: 0 <= i < |rows| && IsAnnonce(rows[i]) ==> i in found
    ensures forall k, l :: 0 <= k < l < |found| ==> found[k] < found[l]
  {
    Positions(rows, IsAnnonce)
  }

  /** A row is kept exactly when some bold text, trimmed, is seven digits, optional spaces
      and a colon. */
  lemma IsAnnonceIff(r: Row)
    ensures IsAnnonce(r) <==> Hovered(r) && exists k :: 0 <= k < |r.bolds| && HeaderShape(Trim(r.bolds[k]))
  {
    forall k | 0 <= k < |r.bolds| ensures LooksLikeHeader(Trim(r.bolds[k])) <==> HeaderShape(Trim(r.bolds[k])) {
      LooksLikeHeaderIff(Trim(r.bolds[k]));
    }
  }

  // ----- One listing row -----

  /** A bold text read as reference and title. */
  function HeaderOf(bold: string): Option<(string, string)> {
    ParseIdTitle(Trim(bold))
  }

  /** A header's reference is seven digits; its title is what follows the colon, one final
      star dropped, trimmed. */
  lemma HeaderOfShape(bold: string)
    ensures HeaderOf(bold).Some? ==>
      var t := Trim(bold);
      && HeaderShape(t) && HeaderOf(bold).value == (t[..7], Trim(DropFinalStar(Remainder(t))))
      && |HeaderOf(bold).value.0| == 7 && AllDigits(HeaderOf(bold).value.0)
  {
    ParseIdTitleIff(Trim(bold));
  }

  /** The first header of a row has a seven-digit reference. */
  lemma FirstHeaderShape(bolds: seq<string>)
    ensures FirstSome(bolds, HeaderOf).Some? ==>
      |FirstSome(bolds, HeaderOf).value.0| == 7 && AllDigits(FirstSome(bolds, HeaderOf).value.0)
  {
    var header := FirstSome(bolds, HeaderOf);
    if header.Some? {
      var k :| 0 <= k < |bolds| && HeaderOf(bolds[k]) == header;
      HeaderOfShape(bolds[k]);
    }
  }

  /** The reference and title of the first bold text that has the full header form. */
  function FirstHeader(bolds: seq<string>): (h: Option<(string, string)>)
    ensures h.Some? <==> exists k :: 0 <= k < |bolds| && HeaderOf(bolds[k]).Some?
    ensures h.Some? ==> exists k :: && 0 <= k < |bolds| && h == HeaderOf(bolds[k])
                                    && forall j :: 0 <= j < k ==> HeaderOf(bolds[j]).None?
    ensures h.Some? ==> |h.value.0| == 7 && AllDigits(h.value.0)
  {
    FirstHeaderShape(bolds);
    FirstSome(bolds, HeaderOf)
  }

  /** The first bold text with the full header form gives the reference, its seven digits,
      and the title, the rest after the colon with one final star dropped, trimmed; later
      bold texts are not read. */
  lemma FirstHeaderAt(bolds: seq<string>, k: nat)
    requires k < |bolds| && HeaderOf(bolds[k]).Some?
    requires forall j :: 0 <= j < k ==> HeaderOf(bolds[j]).None?
    ensures var t := Trim(bolds[k]);
      HeaderShape(t) && FirstHeader(bolds) == Some((t[..7], Trim(DropFinalStar(Remainder(t)))))
  {
    FirstSomeAt(bolds, HeaderOf, k);
    HeaderOfShape(bolds[k]);
  }

  /** A font text that holds the description. */
  function DescriptionFont(text: string): (r: Option<string>)
    ensures r.Some? <==> Contains(text, "DESCRIPTION :")
    ensures r.Some? ==> r.value == text
  {
    if Contains(text, "DESCRIPTION :") then Some(text) else None
  }

  /** The text of the first font that holds the description. */
  function FirstDescription(fonts: seq<string>): (d: Option<string>)
    ensures d.Some? <==> exists k :: 0 <= k < |fonts| && Contains(fonts[k], "DESCRIPTION :")
    ensures forall k ::
      (&& 0 <= k < |fonts| && Contains(fonts[k], "DESCRIPTION :")
       && forall j :: 0 <= j < k ==> !Contains(fonts[j], "DESCRIPTION :"))
      ==> d == Some(fonts[k])
  {
    var d := FirstSome(fonts, DescriptionFont);
    assert d.Some? ==> exists k :: && 0 <= k < |fonts| && DescriptionFont(fonts[k]) == d
                                   && forall j :: 0 <= j < k ==> DescriptionFont(fonts[j]).None?;
    d
  }

  /** A row with `bgcolor="#FFAAAA"` and a font: a section header naming a property type. */
  function TypeHeader(r: Row): (t: Option<string>)
    ensures t.Some? <==> r.bgcolor == Some("#FFAAAA") && |r.fonts| > 0
    ensures t.Some? ==> t.value == Trim(r.fonts[0])
  {
    if r.bgcolor == Some("#FFAAAA") && |r.fonts| > 0 then Some(Trim(r.fonts[0])) else None
  }

  function BulletinFont(r: Row): Option<string> {
    r.bulletinFont
  }

  /** A row in its table: the rows above it, top to bottom, the row, and the rows below. */
  datatype Sited = Sited(above: seq<Row>, row: Row, below: seq<Row>)

  /** The row at `i` with its siblings. */
  function SiteOf(rows: seq<Row>, i: nat): (s: Sited)
    requires i < |rows|
    ensures s.above + [s.row] + s.below == rows && |s.above| == i
  {
    Sited(rows[..i], rows[i], rows[i + 1..])
  }

  /** `findPropertyType`: the type named by the nearest section header above the row; a
      header row without a font is passed over. */
  function FindPropertyType(above: seq<Row>): (t: Option<string>)
    ensures t.None? <==> forall j :: 0 <= j < |above| ==> TypeHeader(above[j]).None?
    ensures t.Some? ==> exists j :: && 0 <= j < |above| && TypeHeader(above[j]) == t
                                    && forall l :: j < l < |above| ==> TypeHeader(above[l]).None?
  {
    LastSome(above, TypeHeader)
  }

  /** `findBulletinInfo`: the bulletin text of the nearest row above that has one, else of
      the nearest row below. */
  function FindBulletinInfo(above: seq<Row>, below: seq<Row>): (b: Option<string>)
    ensures b.None? <==> && (forall j :: 0 <= j < |above| ==> above[j].bulletinFont.None?)
                         && (forall j :: 0 <= j < |below| ==> below[j].bulletinFont.None?)
    ensures (exists j :: 0 <= j < |above| && above[j].bulletinFont.Some?) ==>
      exists j :: && 0 <= j < |above| && b == above[j].bulletinFont
                  && forall l :: j < l < |above| ==> above[l].bulletinFont.None?
    ensures (forall j :: 0 <= j < |above| ==> above[j].bulletinFont.None?) && b.Some? ==>
      exists j :: && 0 <= j < |below| && b == below[j].bulletinFont
                  && forall l :: 0 <= l < j ==> below[l].bulletinFont.None?
  {
    var up := LastSome(above, BulletinFont);
    if up.Some? then up else FirstSome(below, BulletinFont)
  }

  /** The phone number of a listing: looked for only when phones are wanted, the listing
      has a reference, and its request button names a request number; then the first
      number of the page text, as it reads once the request has been answered. */
  function PhoneOf(row: Row, id: Option<string>, extractPhones: bool, revealed: string): (p: Option<string>)
    ensures p.Some? ==> extractPhones && Truthy(id) && row.requestButton.Some? && HasRequestId(row.requestButton.value)
    ensures extractPhones && Truthy(id) && row.requestButton.Some? && HasRequestId(row.requestButton.value) ==>
      p == FindPhone(revealed)
    ensures p.Some? ==> |p.value| >= 10
  {
    if extractPhones && Truthy(id) && row.requestButton.Some? && HasRequestId(row.requestButton.value) then
      FindPhoneSpec(revealed);
      FindPhone(revealed)
    else None
  }

  function TrimmedOf(o: Option<string>): Option<string> {
    match o
    case None => None
    case Some(s) => Some(Trim(s))
  }

  /** `f` applied to the text, when there is one. */
  function Then(o: Option<string>, f: string -> Option<string>): Option<string> {
    match o
    case None => None
    case Some(s) => f(s)
  }

  /** `extractAnnonceData` for a listing row among its siblings: `revealed` is the page
      text once the phone request has been answered, `now` the extraction time stamp. */
  function ExtractAnnonceData(s: Sited, extractPhones: bool, revealed: string, now: string): (a: Record)
    ensures a.id.Some? <==> exists k :: 0 <= k < |s.row.bolds| && HeaderOf(s.row.bolds[k]).Some?
    ensures a.id.Some? ==> |a.id.value| == 7 && AllDigits(a.id.value) && a.titre.Some?
    ensures var h := FirstHeader(s.row.bolds);
      && a.id == (if h.Some? then Some(h.value.0) else None)
      && a.titre == (if h.Some? then Some(h.value.1) else None)
    ensures a.classeEnergetique == TrimmedOf(s.row.classe)
    ensures a.propertyType == FindPropertyType(s.above)
    ensures a.images == s.row.imageLinks
    ensures a.telephone == PhoneOf(s.row, a.id, extractPhones, revealed)
    ensures a.statut == "complete" <==> a.telephone.Some?
    ensures a.statut == "complete" || a.statut == "extracted"
    ensures a.dateExtraction == now
  {
    var row := s.row;
    var header := FirstHeader(row.bolds);
    var id := if header.Some? then Some(header.value.0) else None;
    var titre := if header.Some? then Some(header.value.1) else None;
    var desc := FirstDescription(row.fonts);
    var phone := PhoneOf(row, id, extractPhones, revealed);
    var statut := if Truthy(phone) then "complete" else "extracted";
    Record(
      id, titre, FindPropertyType(s.above),
      TrimmedOf(desc), Then(desc, RentOf), Then(desc, ChargesOf), Then(desc, SurfaceOf),
      Then(desc, AvailabilityOf), row.imageLinks, TrimmedOf(row.classe),
      BulletinField(s, BulletinOf), BulletinField(s, BulletinDateOf), phone, now, statut)
  }

  /** A field read from the bulletin text `findBulletinInfo` finds for the row. */
  function BulletinField(s: Sited, f: string -> Option<string>): Option<string> {
    Then(FindBulletinInfo(s.above, s.below), f)
  }

  /** The reference and title of a listing come from its first bold text with the full
      header form, and from no later one. */
  lemma HeaderFromFirstBold(s: Sited, extractPhones: bool, revealed: string, now: string, k: nat)
    requires k < |s.row.bolds| && HeaderOf(s.row.bolds[k]).Some?
    requires forall j :: 0 <= j < k ==> HeaderOf(s.row.bolds[j]).None?
    ensures var a := ExtractAnnonceData(s, extractPhones, revealed, now);
      var t := Trim(s.row.bolds[k]);
      HeaderShape(t) && a.id == Some(t[..7]) && a.titre == Some(Trim(DropFinalStar(Remainder(t))))
  {
    var a := ExtractAnnonceData(s, extractPhones, revealed, now);
    FirstHeaderAt(s.row.bolds, k);
    var h := FirstHeader(s.row.bolds);
    assert a.id == Some(h.value.0) && a.titre == Some(h.value.1);
  }

  /** A description is kept exactly when a font of the row holds one. */
  lemma DescriptionWhenMarked(s: Sited, extractPhones: bool, revealed: string, now: string)
    ensures var a := ExtractAnnonceData(s, extractPhones, revealed, now);
      a.description.Some? <==> exists k :: 0 <= k < |s.row.fonts| && Contains(s.row.fonts[k], "DESCRIPTION :")
  {
    var d := FirstDescription(s.row.fonts);
    assert ExtractAnnonceData(s, extractPhones, revealed, now).description == TrimmedOf(d);
  }

  /** Only the first description font is read: every field comes from it. */
  lemma DescriptionFromFirstFont(s: Sited, extractPhones: bool, revealed: string, now: string, k: nat)
    requires k < |s.row.fonts|
    requires Contains(s.row.fonts[k], "DESCRIPTION :")
    requires forall j :: 0 <= j < k ==> !Contains(s.row.fonts[j], "DESCRIPTION :")
    ensures var a := ExtractAnnonceData(s, extractPhones, revealed, now);
      var text := s.row.fonts[k];
      && a.description == Some(Trim(text))
      && a.loyer == RentOf(text) && a.charges == ChargesOf(text)
      && a.surface == SurfaceOf(text) && a.disponibilite == AvailabilityOf(text)
  {
    assert FirstDescription(s.row.fonts) == Some(s.row.fonts[k]);
  }

  /** The bulletin fields come from the nearest bulletin text, above first. */
  lemma BulletinFromNearest(s: Sited, extractPhones: bool, revealed: string, now: string)
    ensures var a := ExtractAnnonceData(s, extractPhones, revealed, now);
      var b := FindBulletinInfo(s.above, s.below);
      && (b.None? ==> a.bulletin.None? && a.dateBulletin.None?)
      && (b.Some? ==> a.bulletin == BulletinOf(b.value) && a.dateBulletin == BulletinDateOf(b.value))
  {
  }

  /** The listing rows of a page, each with its siblings, in page order. */
  function AnnonceSites(rows: seq<Row>): (sites: seq<Sited>)
    ensures |sites| == |FindAnnonces(rows)|
    ensures forall j :: 0 <= j < |sites| ==> IsAnnonce(sites[j].row)
    ensures forall j :: 0 <= j < |sites| ==> sites[j] == SiteOf(rows, FindAnnonces(rows)[j])
  {
    var found := FindAnnonces(rows);
    seq(|found|, j requires 0 <= j < |found| => SiteOf(rows, found[j]))
  }

  // ----- Pagination -----

  /** `a[href*="page="]`. */
  predicate PageLink(l: Link) {
    Contains(l.href, "page=")
  }

  /** A page link whose text says it leads forward. */
  function NextLink(l: Link): (r: Option<Link>)
    ensures r.Some? <==>
      PageLink(l) && (Contains(l.text, "Suivant") || Contains(l.text, ">") || Contains(l.text, "Next"))
    ensures r.Some? ==> r.value == l
  {
    if PageLink(l) && (Contains(l.text, "Suivant") || Contains(l.text, ">") || Contains(l.text, "Next")) then Some(l)
    else None
  }

  /** `findNextPageLink`: the first page link, in document order, whose text contains
      "Suivant", ">" or "Next". */
  function FindNextPageLink(links: seq<Link>): (r: Option<Link>)
    ensures r.None? <==> forall k :: 0 <= k < |links| ==> NextLink(links[k]).None?
    ensures r.Some? ==> exists k :: && 0 <= k < |links| && r == Some(links[k]) && NextLink(links[k]).Some?
                                    && forall j :: 0 <= j < k ==> NextLink(links[j]).None?
  {
    FirstSome(links, NextLink)
  }

  /** The number of page links, as `querySelectorAll('a[href*="page="]').length`. */
  function PageLinkCount(links: seq<Link>): (n: nat)
    ensures n <= |links|
    ensures n == 0 <==> forall k :: 0 <= k < |links| ==> !PageLink(links[k])
  {
    if |links| == 0 then 0
    else
      assert forall k :: 0 <= k < |links| - 1 ==> links[1..][k] == links[k + 1];
      (if PageLink(links[0]) then 1 else 0) + PageLinkCount(links[1..])
  }

  /** The positions of the page links, counted independently of the walk above. */
  function PageLinkPositions(links: seq<Link>): set<nat> {
    set k: nat | k < |links| && PageLink(links[k])
  }

  lemma {:induction false} PageLinkCountSnoc(links: seq<Link>, l: Link)
    ensures PageLinkCount(links + [l]) == PageLinkCount(links) + (if PageLink(l) then 1 else 0)
  {
    if |links| == 0 {
      assert (links + [l])[1..] == [];
    } else {
      assert (links + [l])[1..] == links[1..] + [l];
      PageLinkCountSnoc(links[1..], l);
    }
  }

  /** The count of page links is the number of positions that hold one. */
  lemma {:induction false} PageLinkCountPositions(links: seq<Link>)
    ensures PageLinkCount(links) == |PageLinkPositions(links)|
    decreases |links|
  {
    if |links| == 0 {
      assert PageLinkPositions(links) == {};
    } else {
      var n := |links| - 1;
      var init := links[..n];
      assert links == init + [links[n]];
      PageLinkCountPositions(init);
      PageLinkCountSnoc(init, links[n]);
      if PageLink(links[n]) {
        assert PageLinkPositions(links) == PageLinkPositions(init) + {n};
        assert n !in PageLinkPositions(init);
      } else {
        assert PageLinkPositions(links) == PageLinkPositions(init);
      }
    }
  }

  /** `estimateTotalFromPagination` on this page. */
  function EstimateOf(p: Page, currentCount: nat): int {
    EstimateTotal(p.text, PageLinkCount(p.links), currentCount)
  }
}
