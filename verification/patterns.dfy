/** The text patterns of the listing scanner (chrome-extension/content.js), each regular
    expression transcribed atom for atom, and the recognisers built on them. */
module Patterns {
  import opened Wrappers
  import opened Text
  import opened Decimal
  import opened Regex

  // ----- Listing headers: "1234567 : Title" -----

  /** `^\\d{7}\\s*:`, the test that keeps a row. */
  const HeaderStart: Pattern :=
    [Start] + (Times(Digit, 7) + ([Many(Space)] + [One(Exactly(':'))]))

  /** What `(.+)$` and the group around it leave to match after the colon and spaces. */
  const TitleTail: Pattern :=
    [Mark] + ([One(NotLineEnd)] + ([Many(NotLineEnd)] + TitleClose))

  const TitleClose: Pattern := [Mark] + [End]

  /** `^(\\d{7})\\s*:\\s*(.+)$`, the reference-and-title parse. */
  const HeaderLine: Pattern := [Start] + ([Mark] + (Times(Digit, 7) + AfterDigits))

  const AfterDigits: Pattern := [Mark] + ([Many(Space)] + ([One(Exactly(':'))] + AfterColon))

  const AfterColon: Pattern := [Many(Space)] + TitleTail

  /** A bold text that marks a listing row. */
  predicate LooksLikeHeader(t: string) {
    Search(HeaderStart, t).Some?
  }

  /** `s.replace(/\\*$/, '')`: one star at the very end removed. */
  function DropFinalStar(s: string): (r: string)
    ensures |s| > 0 && s[|s| - 1] == '*' ==> r == s[..|s| - 1]
    ensures !(|s| > 0 && s[|s| - 1] == '*') ==> r == s
  {
    if |s| > 0 && s[|s| - 1] == '*' then s[..|s| - 1] else s
  }

  /** The reference and the title of a bold text, when it has the full header form. */
  function ParseIdTitle(t: string): Option<(string, string)> {
    match Search(HeaderLine, t)
    case None => None
    case Some(m) => Some((Group(t, m, 1), Trim(DropFinalStar(Group(t, m, 2)))))
  }

  // Reference descriptions, stated without the matcher.

  /** Seven digits, optional spaces, then a colon. */
  predicate HeaderShape(t: string) {
    && |t| >= 7 && AllDigits(t[..7])
    && var r := TrimStart(t[7..]); |r| > 0 && r[0] == ':'
  }

  /** What follows the colon of a header, leading spaces removed. */
  function Remainder(t: string): string
    requires HeaderShape(t)
  {
    TrimStart(TrimStart(t[7..])[1..])
  }

  predicate NoLineBreak(s: string) {
    forall i :: 0 <= i < |s| ==> !IsLineTerminator(s[i])
  }

  // ----- Proofs about the header patterns -----

  /** Where the colon of a header sits. */
  function ColonAt(t: string): nat
    requires |t| >= 7
  {
    Stretch(Space, t, 7)
  }

  lemma ColonFound(t: string)
    requires |t| >= 7
    ensures Run([Many(Space)] + [One(Exactly(':'))], t, 7) ==
      (if ColonAt(t) < |t| && t[ColonAt(t)] == ':' then Some(Hit(ColonAt(t) + 1, [])) else None)
  {
    var e := ColonAt(t);
    forall j | 7 <= j < e ensures Run([One(Exactly(':'))], t, j).None? {
      assert Holds(Space, t[j]);
      OneFails(Exactly(':'), [], t, j);
      assert [One(Exactly(':'))] + [] == [One(Exactly(':'))];
    }
    ManyTakesAll(Space, [One(Exactly(':'))], t, 7);
    OneSteps(Exactly(':'), [], t, e);
    assert [One(Exactly(':'))] + [] == [One(Exactly(':'))];
  }

  /** The row filter accepts exactly the texts of the form "seven digits, spaces, colon". */
  lemma LooksLikeHeaderIff(t: string)
    ensures LooksLikeHeader(t) <==> HeaderShape(t)
  {
    var q := Times(Digit, 7) + ([Many(Space)] + [One(Exactly(':'))]);
    AnchoredSearch(q, t);
    HeaderStartRun(t);
  }

  lemma HeaderStartRun(t: string)
    ensures Run(Times(Digit, 7) + ([Many(Space)] + [One(Exactly(':'))]), t, 0).Some?
      <==> HeaderShape(t)
  {
    var rest := [Many(Space)] + [One(Exactly(':'))];
    TimesSteps(Digit, 7, rest, t, 0);
    if |t| >= 7 {
      ColonFound(t);
      StretchTrims(t, 7);
      SevenDigits(t);
      var e, r := ColonAt(t), TrimStart(t[7..]);
      assert r == t[e..];
      assert |r| > 0 ==> r[0] == t[e];
    }
  }

  lemma SevenDigits(t: string)
    requires |t| >= 7
    ensures AllDigits(t[..7]) <==> forall x :: 0 <= x < 7 ==> Holds(Digit, t[x])
  {
  }

  /** `(.+)$` from `j`: the rest of the text, provided it is non-empty and has no line break. */
  lemma TitleTailRun(t: string, j: nat)
    requires j <= |t|
    ensures Run(TitleTail, t, j) ==
      if j < |t| && NoLineBreak(t[j..]) then Some(Hit(|t|, [j, |t|])) else None
  {
    MarkSteps([One(NotLineEnd)] + ([Many(NotLineEnd)] + TitleClose), t, j);
    OneSteps(NotLineEnd, [Many(NotLineEnd)] + TitleClose, t, j);
    if j < |t| && !IsLineTerminator(t[j]) {
      TextRun(t, j + 1);
      if Stretch(NotLineEnd, t, j + 1) == |t| {
        assert [j] + [|t|] == [j, |t|];
        forall x | 0 <= x < |t[j..]| ensures !IsLineTerminator(t[j..][x]) {
          assert t[j..][x] == t[j + x];
          if x > 0 { assert Holds(NotLineEnd, t[j + x]); }
        }
      } else {
        var e := Stretch(NotLineEnd, t, j + 1);
        assert t[j..][e - j] == t[e];
      }
    }
  }

  /** `.*` then the closing mark and `$`: succeeds only by reaching the end of the text. */
  lemma TextRun(t: string, i: nat)
    requires i <= |t|
    ensures Run([Many(NotLineEnd)] + TitleClose, t, i) ==
      if Stretch(NotLineEnd, t, i) == |t| then Some(Hit(|t|, [|t|])) else None
  {
    var e := Stretch(NotLineEnd, t, i);
    forall x | i <= x < e ensures Run(TitleClose, t, x).None? {
      CloseRun(t, x);
    }
    ManyTakesAll(NotLineEnd, TitleClose, t, i);
    CloseRun(t, e);
  }

  lemma CloseRun(t: string, x: nat)
    requires x <= |t|
    ensures Run(TitleClose, t, x) == if x == |t| then Some(Hit(|t|, [|t|])) else None
  {
    MarkSteps([End], t, x);
    assert [End][0] == End && [End][1..] == [];
    assert Run([End], t, x) == if x == |t| then Some(Hit(x, [])) else None;
    assert [x] + [] == [x];
  }

  lemma NoLineBreakSuffix(t: string, a: nat, b: nat)
    requires a <= b <= |t|
    requires NoLineBreak(t[a..])
    ensures NoLineBreak(t[b..])
  {
    forall i | 0 <= i < |t[b..]| ensures !IsLineTerminator(t[b..][i]) {
      assert t[b..][i] == t[a..][i + b - a];
    }
  }

  /** The spaces after the colon and `(.+)$`, on a text with no space at its end. */
  lemma AfterColonRun(t: string, c: nat)
    requires c <= |t|
    requires |t| > 0 ==> !IsSpace(t[|t| - 1])
    ensures var e2 := Stretch(Space, t, c);
      Run(AfterColon, t, c) ==
        if e2 < |t| && NoLineBreak(t[e2..]) then Some(Hit(|t|, [e2, |t|])) else None
  {
    var e2 := Stretch(Space, t, c);
    ManyBacktracks(Space, TitleTail, t, c);
    TitleTailRun(t, e2);
    if e2 < |t| {
      if !NoLineBreak(t[e2..]) {
        forall x | c <= x <= e2 ensures Run(TitleTail, t, x).None? {
          TitleTailRun(t, x);
          if x < |t| && NoLineBreak(t[x..]) {
            NoLineBreakSuffix(t, x, e2);
          }
        }
        BacktrackNone(TitleTail, t, c, e2);
      }
    } else {
      assert c < e2 ==> Holds(Space, t[e2 - 1]);
    }
  }

  /** Optional spaces then the colon, from index 7; `rest` is what follows the colon. */
  lemma ColonThen(t: string, rest: Pattern)
    requires |t| >= 7
    ensures Run([Many(Space)] + ([One(Exactly(':'))] + rest), t, 7) ==
      if ColonAt(t) < |t| && t[ColonAt(t)] == ':' then Run(rest, t, ColonAt(t) + 1) else None
  {
    var e := ColonAt(t);
    forall j | 7 <= j < e ensures Run([One(Exactly(':'))] + rest, t, j).None? {
      assert Holds(Space, t[j]);
      OneFails(Exactly(':'), rest, t, j);
    }
    ManyTakesAll(Space, [One(Exactly(':'))] + rest, t, 7);
    OneSteps(Exactly(':'), rest, t, e);
  }

  /** The colon the matcher looks for is the one the reference description finds. */
  lemma ShapeAt(t: string)
    requires |t| >= 7
    ensures HeaderShape(t) <==> AllDigits(t[..7]) && ColonAt(t) < |t| && t[ColonAt(t)] == ':'
  {
    StretchTrims(t, 7);
  }

  /** Where the title starts, in matcher terms, is where the reference description puts it. */
  lemma RemainderAt(t: string)
    requires HeaderShape(t)
    ensures ColonAt(t) + 1 <= |t|
    ensures Remainder(t) == t[Stretch(Space, t, ColonAt(t) + 1)..]
  {
    ShapeAt(t);
    StretchTrims(t, 7);
    var e := ColonAt(t);
    assert TrimStart(t[7..]) == t[e..];
    assert TrimStart(t[7..])[1..] == t[e + 1..];
    StretchTrims(t, e + 1);
  }

  /** The part of `^(\d{7})\s*:\s*(.+)$` after its seven digits. */
  lemma AfterDigitsRun(t: string)
    requires |t| >= 7
    requires |t| > 0 ==> !IsSpace(t[|t| - 1])
    ensures var e := ColonAt(t);
      Run(AfterDigits, t, 7) ==
        if e < |t| && t[e] == ':' then
          var e2 := Stretch(Space, t, e + 1);
          if e2 < |t| && NoLineBreak(t[e2..]) then Some(Hit(|t|, [7, e2, |t|])) else None
        else None
  {
    MarkSteps([Many(Space)] + ([One(Exactly(':'))] + AfterColon), t, 7);
    ColonThen(t, AfterColon);
    var e := ColonAt(t);
    if e < |t| && t[e] == ':' {
      var e2 := Stretch(Space, t, e + 1);
      AfterColonRun(t, e + 1);
      assert [7] + [e2, |t|] == [7, e2, |t|];
    }
  }

  /** Where the matcher starts the title: after the colon and the spaces that follow it. */
  function TitleAt(t: string): nat
    requires |t| >= 7 && ColonAt(t) < |t|
  {
    Stretch(Space, t, ColonAt(t) + 1)
  }

  /** The whole header-line pattern, in terms of positions found without the matcher. */
  predicate HeaderLineFits(t: string) {
    && |t| >= 7 && AllDigits(t[..7]) && ColonAt(t) < |t| && t[ColonAt(t)] == ':'
    && TitleAt(t) < |t| && NoLineBreak(t[TitleAt(t)..])
  }

  lemma HeaderLineSearch(t: string)
    requires |t| > 0 ==> !IsSpace(t[|t| - 1])
    ensures Search(HeaderLine, t) ==
      if HeaderLineFits(t) then Some(Match(0, |t|, [0, 7, TitleAt(t), |t|])) else None
  {
    var q := [Mark] + (Times(Digit, 7) + AfterDigits);
    AnchoredSearch(q, t);
    MarkSteps(Times(Digit, 7) + AfterDigits, t, 0);
    TimesSteps(Digit, 7, AfterDigits, t, 0);
    if |t| >= 7 {
      SevenDigits(t);
      AfterDigitsRun(t);
      if HeaderLineFits(t) {
        assert [0] + [7, TitleAt(t), |t|] == [0, 7, TitleAt(t), |t|];
      }
    }
  }

  lemma ParseIdTitleFits(t: string)
    requires |t| > 0 ==> !IsSpace(t[|t| - 1])
    ensures ParseIdTitle(t) ==
      if HeaderLineFits(t) then Some((t[..7], Trim(DropFinalStar(t[TitleAt(t)..])))) else None
  {
    HeaderLineSearch(t);
    if HeaderLineFits(t) {
      var m := Match(0, |t|, [0, 7, TitleAt(t), |t|]);
      assert Group(t, m, 1) == t[..7];
      assert Group(t, m, 2) == t[TitleAt(t)..];
    }
  }

  /** The matcher's positions against the reference description of a header. */
  lemma FitsIffShape(t: string)
    ensures HeaderLineFits(t) <==>
      HeaderShape(t) && |Remainder(t)| > 0 && NoLineBreak(Remainder(t))
    ensures HeaderLineFits(t) ==> Remainder(t) == t[TitleAt(t)..]
  {
    if |t| >= 7 {
      ShapeAt(t);
      if HeaderShape(t) {
        RemainderAt(t);
      }
    }
  }

  /** On a trimmed bold text, the header parse succeeds exactly when the text has the header
      form and something without a line break follows the colon; the reference is then the
      seven digits and the title that remainder with one final star dropped, trimmed. */
  lemma ParseIdTitleIff(t: string)
    requires |t| > 0 ==> !IsSpace(t[0]) && !IsSpace(t[|t| - 1])
    ensures ParseIdTitle(t).Some? <==>
      HeaderShape(t) && |Remainder(t)| > 0 && NoLineBreak(Remainder(t))
    ensures ParseIdTitle(t).Some? ==>
      ParseIdTitle(t).value == (t[..7], Trim(DropFinalStar(Remainder(t))))
  {
    ParseIdTitleFits(t);
    FitsIffShape(t);
  }

  // ----- Patterns with one capture group -----

  /** A pattern of the form `lead (first rest) post`, whose only group is the one shown. */
  datatype Capturing = Capturing(lead: Pattern, first: Class, rest: Pattern, post: Pattern)

  function Whole(c: Capturing): Pattern {
    c.lead + ([Mark] + ([One(c.first)] + (c.rest + ([Mark] + c.post))))
  }

  /** `match[1]` of the leftmost match, when there is one. */
  function Capture(c: Capturing, t: string): Option<string> {
    match Search(Whole(c), t)
    case None => None
    case Some(m) => Some(Group(t, m, 1))
  }

  /** `\s*:\s*` then an amount `\d+\.?\d*` and `\s*€`, as in the rent and charges patterns. */
  const AmountRest: Pattern := [Many(Digit)] + ([Maybe(Exactly('.'))] + [Many(Digit)])
  const EuroTail: Pattern := [Many(Space)] + [One(Exactly('\U{20AC}'))]
  const ColonSpaces: Pattern := [Many(Space)] + ([One(Exactly(':'))] + [Many(Space)])

  /** `/LOYER\s*:\s*(\d+\.?\d*)\s*€/` */
  const Rent: Capturing := Capturing(Lit("LOYER") + ColonSpaces, Digit, AmountRest, EuroTail)

  /** `/CHARGES?\s*:\s*(\d+\.?\d*)\s*€/` */
  const Charges: Capturing :=
    Capturing(Lit("CHARGE") + ([Maybe(Exactly('S'))] + ColonSpaces), Digit, AmountRest, EuroTail)

  /** `/(\d+)\s*M²/` */
  const Surface: Capturing :=
    Capturing([], Digit, [Many(Digit)], [Many(Space)] + ([One(Exactly('M'))] + [One(Exactly('\U{00B2}'))]))

  /** `/DISPONIBLE\s+([^,]+)/i` */
  const Availability: Capturing :=
    Capturing(FoldedLit("DISPONIBLE") + ([One(Space)] + [Many(Space)]), NotComma, [Many(NotComma)], [])

  /** `/BULLETIN\s+N°\s*(\d+)/` */
  const BulletinNo: Capturing :=
    Capturing(Lit("BULLETIN") + ([One(Space)] + ([Many(Space)] + (Lit("N\U{00B0}") + [Many(Space)]))),
      Digit, [Many(Digit)], [])

  /** `/(\d{2}\/\d{2}\/\d{4})/` */
  const DateStamp: Capturing :=
    Capturing([], Digit, [One(Digit)] + ([One(Exactly('/'))] + (Times(Digit, 2) +
      ([One(Exactly('/'))] + Times(Digit, 4)))), [])

  /** `/sendreq\((\d+)\)/`, on the `onclick` attribute of the request button. */
  const RequestId: Capturing := Capturing(Lit("sendreq("), Digit, [Many(Digit)], [One(Exactly(')'))])

  // ----- The description fields -----

  /** The rent: the amount followed by " €". */
  function RentOf(text: string): Option<string> {
    match Capture(Rent, text)
    case None => None
    case Some(a) => Some(a + " \U{20AC}")
  }

  function ChargesOf(text: string): Option<string> {
    match Capture(Charges, text)
    case None => None
    case Some(a) => Some(a + " \U{20AC}")
  }

  function SurfaceOf(text: string): Option<string> {
    match Capture(Surface, text)
    case None => None
    case Some(a) => Some(a + " M\U{00B2}")
  }

  function AvailabilityOf(text: string): Option<string> {
    match Capture(Availability, text)
    case None => None
    case Some(a) => Some(Trim(a))
  }

  // ----- Facts about captures -----

  predicate IsAmountChar(c: char) {
    IsDigit(c) || c == '.'
  }

  /** Every capture is non-empty and is made of the characters its group allows. */
  lemma CaptureWithin(c: Capturing, t: string, P: char -> bool)
    requires MarkFree(c.lead) && MarkFree(c.rest) && Consumes(c.rest, P)
    requires forall x :: Holds(c.first, x) ==> P(x)
    ensures Capture(c, t).Some? ==>
      var g := Capture(c, t).value;
      |g| > 0 && Holds(c.first, g[0]) && forall x :: 0 <= x < |g| ==> P(g[x])
  {
    var p := Whole(c);
    match Search(p, t)
    case None =>
    case Some(m) =>
      CaptureShape(c.lead, c.first, c.rest, c.post, t, m.start, P);
      var g := Group(t, m, 1);
      forall x | 0 <= x < |g| ensures P(g[x]) {
        assert g[x] == t[m.marks[0] + x];
      }
  }

  lemma AmountPatterns()
    ensures MarkFree(Rent.lead) && MarkFree(Charges.lead) && MarkFree(AmountRest)
    ensures Consumes(AmountRest, IsAmountChar)
  {
    assert MarkFree(ColonSpaces);
    LitMarkFree("LOYER");
    MarkFreeAppend(Lit("LOYER"), ColonSpaces);
    LitMarkFree("CHARGE");
    MarkFreeAppend([Maybe(Exactly('S'))], ColonSpaces);
    MarkFreeAppend(Lit("CHARGE"), [Maybe(Exactly('S'))] + ColonSpaces);
  }

  /** An amount as the rent and charges patterns capture it: a digit, then digits and dots. */
  predicate IsAmount(a: string) {
    |a| > 0 && IsDigit(a[0]) && forall x :: 0 <= x < |a| ==> IsAmountChar(a[x])
  }

  /** The rent is an amount followed by " €": the amount of the leftmost place where
      `LOYER`, white space, `:`, white space, an amount, white space and `€` follow one
      another; there is one exactly when some position of the text reads so. */
  lemma RentShape(text: string)
    ensures RentOf(text).Some? ==>
      exists a :: IsAmount(a) && RentOf(text).value == a + " \U{20AC}"
    ensures RentOf(text).Some? <==> exists i :: 0 <= i <= |text| && RentAt(text, i)
    ensures forall i :: 0 <= i <= |text| && RentAt(text, i) && (forall j :: 0 <= j < i ==> !RentAt(text, j)) ==>
      RentOf(text) == Some(RentValue(text, i) + " \U{20AC}")
  {
    AmountCaptures(text);
    RentFound(text);
    RentLeftmost(text);
  }

  /** The charges are an amount followed by " €": the amount of the leftmost place where
      `CHARGE` or `CHARGES`, white space, `:`, white space, an amount, white space and `€`
      follow one another; there is one exactly when some position of the text reads so. */
  lemma ChargesShape(text: string)
    ensures ChargesOf(text).Some? ==>
      exists a :: IsAmount(a) && ChargesOf(text).value == a + " \U{20AC}"
    ensures ChargesOf(text).Some? <==> exists i :: 0 <= i <= |text| && ChargesAt(text, i)
    ensures forall i :: 0 <= i <= |text| && ChargesAt(text, i) && (forall j :: 0 <= j < i ==> !ChargesAt(text, j)) ==>
      ChargesOf(text) == Some(ChargesValue(text, i) + " \U{20AC}")
  {
    AmountCaptures(text);
    ChargesFound(text);
    ChargesLeftmost(text);
  }

  /** What the rent and charges patterns capture is an amount. */
  lemma AmountCaptures(text: string)
    ensures Capture(Rent, text).Some? ==> IsAmount(Capture(Rent, text).value)
    ensures Capture(Charges, text).Some? ==> IsAmount(Capture(Charges, text).value)
  {
    AmountPatterns();
    CaptureWithin(Rent, text, IsAmountChar);
    CaptureWithin(Charges, text, IsAmountChar);
  }

  /** The rent pattern matches somewhere exactly when some position reads as RentAt says. */
  lemma RentFound(text: string)
    ensures Capture(Rent, text).Some? <==> exists i :: 0 <= i <= |text| && RentAt(text, i)
  {
    RentRunIff(text);
    CaptureFound(Rent, text, (i: nat) => RentAt(text, i));
  }

  lemma RentRunIff(text: string)
    ensures forall j :: 0 <= j <= |text| ==> (Run(Whole(Rent), text, j).Some? <==> RentAt(text, j))
  {
    forall j | 0 <= j <= |text| ensures Run(Whole(Rent), text, j).Some? <==> RentAt(text, j) {
      RentRun(text, j);
    }
  }

  /** The capture of the rent pattern, at its leftmost match. */
  lemma RentLeftmost(text: string)
    ensures forall i :: 0 <= i <= |text| && RentAt(text, i) && (forall j :: 0 <= j < i ==> !RentAt(text, j)) ==>
      Capture(Rent, text) == Some(RentValue(text, i))
  {
    forall i | 0 <= i <= |text| && RentAt(text, i) && (forall j :: 0 <= j < i ==> !RentAt(text, j))
      ensures Capture(Rent, text) == Some(RentValue(text, i))
    {
      RentCapturedAt(text, i);
    }
  }

  lemma RentCapturedAt(text: string, i: nat)
    requires i <= |text| && RentAt(text, i) && forall j :: 0 <= j < i ==> !RentAt(text, j)
    ensures Capture(Rent, text) == Some(RentValue(text, i))
  {
    RentRunIff(text);
    RentRun(text, i);
    var a := AmountStart(text, i + 5);
    CaptureLeftmost(Rent, text, i, (j: nat) => RentAt(text, j), AmountHit(text, a));
  }

  /** The charges pattern matches somewhere exactly when some position reads as ChargesAt says. */
  lemma ChargesFound(text: string)
    ensures Capture(Charges, text).Some? <==> exists i :: 0 <= i <= |text| && ChargesAt(text, i)
  {
    ChargesRunIff(text);
    CaptureFound(Charges, text, (i: nat) => ChargesAt(text, i));
  }

  lemma ChargesRunIff(text: string)
    ensures forall j :: 0 <= j <= |text| ==> (Run(Whole(Charges), text, j).Some? <==> ChargesAt(text, j))
  {
    forall j | 0 <= j <= |text| ensures Run(Whole(Charges), text, j).Some? <==> ChargesAt(text, j) {
      ChargesRun(text, j);
    }
  }

  /** The capture of the charges pattern, at its leftmost match. */
  lemma ChargesLeftmost(text: string)
    ensures forall i :: 0 <= i <= |text| && ChargesAt(text, i) && (forall j :: 0 <= j < i ==> !ChargesAt(text, j)) ==>
      Capture(Charges, text) == Some(ChargesValue(text, i))
  {
    forall i | 0 <= i <= |text| && ChargesAt(text, i) && (forall j :: 0 <= j < i ==> !ChargesAt(text, j))
      ensures Capture(Charges, text) == Some(ChargesValue(text, i))
    {
      ChargesCapturedAt(text, i);
    }
  }

  lemma ChargesCapturedAt(text: string, i: nat)
    requires i <= |text| && ChargesAt(text, i) && forall j :: 0 <= j < i ==> !ChargesAt(text, j)
    ensures Capture(Charges, text) == Some(ChargesValue(text, i))
  {
    ChargesRunIff(text);
    ChargesRun(text, i);
    var a := AmountStart(text, ChargesWord(text, i));
    CaptureLeftmost(Charges, text, i, (j: nat) => ChargesAt(text, j), AmountHit(text, a));
  }

  /** A group `(k+)` that ends the pattern runs to the first character that is not `k`. */
  lemma GreedyCapture(c: Capturing, t: string)
    requires MarkFree(c.lead) && c.rest == [Many(c.first)] && c.post == []
    ensures Capture(c, t).Some? ==>
      var g := Capture(c, t).value;
      && |g| > 0 && (forall x :: 0 <= x < |g| ==> Holds(c.first, g[x]))
      && exists i :: OccursAt(t, g, i) && (i + |g| == |t| || !Holds(c.first, t[i + |g|]))
  {
    match Search(Whole(c), t)
    case None =>
    case Some(m) =>
      var j := GreedyMarks(c, t, m);
      StretchGroup(c.first, t, m, j);
  }

  /** The marks of a match of a pattern ending in `(k+)`: the group starts at a `k` and
      stretches over the `k`s after it. */
  lemma GreedyMarks(c: Capturing, t: string, m: Match) returns (j: nat)
    requires MarkFree(c.lead) && c.rest == [Many(c.first)] && c.post == []
    requires Search(Whole(c), t) == Some(m)
    ensures j < |t| && Holds(c.first, t[j]) && m.marks == [j, Stretch(c.first, t, j + 1)]
  {
    var tail := [Mark] + ([One(c.first)] + ([Many(c.first)] + ([Mark] + [])));
    assert Whole(c) == c.lead + tail;
    SplitRun(c.lead, tail, t, m.start, x => true);
    j :| m.start <= j <= |t| && Run(tail, t, j) == Run(Whole(c), t, m.start);
    PlusGroup(c.first, t, j);
  }

  /** The group between those marks is a maximal run of `k`s. */
  lemma StretchGroup(k: Class, t: string, m: Match, j: nat)
    requires j < |t| && Holds(k, t[j]) && m.marks == [j, Stretch(k, t, j + 1)]
    ensures var g := Group(t, m, 1);
      && |g| > 0 && (forall x :: 0 <= x < |g| ==> Holds(k, g[x]))
      && OccursAt(t, g, j) && (j + |g| == |t| || !Holds(k, t[j + |g|]))
  {
    var e := Stretch(k, t, j + 1);
    var g := t[j..e];
    assert m.marks[0] == j && m.marks[1] == e;
    assert Group(t, m, 1) == g;
    RunOf(k, t, j, e);
    assert j + |g| == e;
    assert e == |t| || !Holds(k, t[e]);
    assert OccursAt(t, g, j);
  }

  /** A `k` followed by the longest stretch of `k`s after it is a run of `k`s. */
  lemma RunOf(k: Class, t: string, j: nat, e: nat)
    requires j < |t| && Holds(k, t[j]) && e == Stretch(k, t, j + 1)
    ensures var g := t[j..e];
      && |g| > 0 && (forall x :: 0 <= x < |g| ==> Holds(k, g[x]))
      && (e == |t| || !Holds(k, t[e]))
  {
    forall x | 0 <= x < e - j ensures Holds(k, t[j..e][x]) {
      assert t[j..e][x] == t[j + x];
    }
  }

  /** `a` occurs in `s` right before a comma or the end of `s`. */
  predicate BeforeComma(s: string, a: string) {
    exists i :: 0 <= i <= |s| && OccursAt(s, a, i) && (i + |a| == |s| || (i + |a| < |s| && s[i + |a|] == ','))
  }

  predicate NoComma(a: string) {
    forall x :: 0 <= x < |a| ==> a[x] != ','
  }

  /** The availability is the text after `DISPONIBLE` and its spaces up to the first comma
      (or the end), trimmed; the part it was cut from holds no comma. */
  lemma AvailabilityShape(text: string)
    ensures AvailabilityOf(text).Some? ==>
      exists a :: AvailabilityOf(text).value == Trim(a) && |a| > 0 && NoComma(a) && BeforeComma(text, a)
    ensures AvailabilityOf(text).Some? <==> exists i :: 0 <= i <= |text| && AvailabilityAt(text, i)
    ensures forall i :: 0 <= i <= |text| && AvailabilityAt(text, i) && (forall j :: 0 <= j < i ==> !AvailabilityAt(text, j)) ==>
      AvailabilityOf(text) == Some(Trim(AvailabilityText(text, i)))
  {
    AvailabilityPieces(text);
    AvailabilityFound(text);
    AvailabilityLeftmost(text);
  }

  /** What the availability pattern captures holds no comma and stands before a comma or the end. */
  lemma AvailabilityPieces(text: string)
    ensures AvailabilityOf(text).Some? ==>
      exists a :: AvailabilityOf(text).value == Trim(a) && |a| > 0 && NoComma(a) && BeforeComma(text, a)
  {
    if Capture(Availability, text).Some? {
      var a := Capture(Availability, text).value;
      AvailabilityCapture(text);
      assert NoComma(a) by {
        forall x | 0 <= x < |a| ensures a[x] != ',' {
          assert Holds(NotComma, a[x]);
        }
      }
      assert BeforeComma(text, a);
      assert AvailabilityOf(text).value == Trim(a);
    }
  }

  /** The availability pattern matches somewhere exactly when some position reads as AvailabilityAt says. */
  lemma AvailabilityFound(text: string)
    ensures AvailabilityOf(text).Some? <==> exists i :: 0 <= i <= |text| && AvailabilityAt(text, i)
  {
    AvailabilityRunIff(text);
    CaptureFound(Availability, text, (i: nat) => AvailabilityAt(text, i));
  }

  lemma AvailabilityRunIff(text: string)
    ensures forall j :: 0 <= j <= |text| ==> (Run(Whole(Availability), text, j).Some? <==> AvailabilityAt(text, j))
  {
    forall j | 0 <= j <= |text| ensures Run(Whole(Availability), text, j).Some? <==> AvailabilityAt(text, j) {
      AvailabilityRun(text, j);
    }
  }

  /** The capture of the availability pattern, at its leftmost match. */
  lemma AvailabilityLeftmost(text: string)
    ensures forall i :: 0 <= i <= |text| && AvailabilityAt(text, i) && (forall j :: 0 <= j < i ==> !AvailabilityAt(text, j)) ==>
      AvailabilityOf(text) == Some(Trim(AvailabilityText(text, i)))
  {
    forall i | 0 <= i <= |text| && AvailabilityAt(text, i) && (forall j :: 0 <= j < i ==> !AvailabilityAt(text, j))
      ensures AvailabilityOf(text) == Some(Trim(AvailabilityText(text, i)))
    {
      AvailabilityCapturedAt(text, i);
    }
  }

  lemma AvailabilityCapturedAt(text: string, i: nat)
    requires i <= |text| && AvailabilityAt(text, i) && forall j :: 0 <= j < i ==> !AvailabilityAt(text, j)
    ensures AvailabilityOf(text) == Some(Trim(AvailabilityText(text, i)))
  {
    AvailabilityRunIff(text);
    AvailabilityRun(text, i);
    var g := AvailabilityGroup(text, i);
    var e := Stretch(NotComma, text, g + 1);
    CaptureLeftmost(Availability, text, i, (j: nat) => AvailabilityAt(text, j), Hit(e, [g, e]));
    AvailabilityTrimmed(text, i);
  }

  lemma AvailabilityCapture(text: string)
    ensures Capture(Availability, text).Some? ==>
      var g := Capture(Availability, text).value;
      && |g| > 0 && (forall x :: 0 <= x < |g| ==> Holds(NotComma, g[x]))
      && exists i :: OccursAt(text, g, i) && (i + |g| == |text| || !Holds(NotComma, text[i + |g|]))
  {
    AvailabilityLead();
    GreedyCapture(Availability, text);
  }

  lemma AvailabilityLead()
    ensures MarkFree(Availability.lead)
  {
    LitMarkFree("DISPONIBLE");
    MarkFreeAppend(FoldedLit("DISPONIBLE"), [One(Space)] + [Many(Space)]);
  }

  function BulletinOf(text: string): Option<string> {
    Capture(BulletinNo, text)
  }

  /** The bulletin number is the whole run of digits after `BULLETIN`, white space, `N°`
      and white space; there is one exactly when some position of the text reads so, and
      it is read at the leftmost such position. */
  lemma BulletinShape(text: string)
    ensures BulletinOf(text).Some? ==>
      var b := BulletinOf(text).value;
      && |b| > 0 && AllDigits(b)
      && exists i :: OccursAt(text, b, i) && (i + |b| == |text| || !IsDigit(text[i + |b|]))
    ensures BulletinOf(text).Some? <==> exists i :: 0 <= i <= |text| && BulletinAt(text, i)
    ensures forall i :: 0 <= i <= |text| && BulletinAt(text, i) && (forall j :: 0 <= j < i ==> !BulletinAt(text, j)) ==>
      BulletinOf(text) == Some(BulletinValue(text, i))
  {
    GreedyCapture(BulletinNo, text);
    BulletinFound(text);
    BulletinLeftmost(text);
  }

  /** The bulletin pattern matches somewhere exactly when some position reads as BulletinAt says. */
  lemma BulletinFound(text: string)
    ensures Capture(BulletinNo, text).Some? <==> exists i :: 0 <= i <= |text| && BulletinAt(text, i)
  {
    BulletinRunIff(text);
    CaptureFound(BulletinNo, text, (i: nat) => BulletinAt(text, i));
  }

  lemma BulletinRunIff(text: string)
    ensures forall j :: 0 <= j <= |text| ==> (Run(Whole(BulletinNo), text, j).Some? <==> BulletinAt(text, j))
  {
    forall j | 0 <= j <= |text| ensures Run(Whole(BulletinNo), text, j).Some? <==> BulletinAt(text, j) {
      BulletinRun(text, j);
    }
  }

  /** The capture of the bulletin pattern, at its leftmost match. */
  lemma BulletinLeftmost(text: string)
    ensures forall i :: 0 <= i <= |text| && BulletinAt(text, i) && (forall j :: 0 <= j < i ==> !BulletinAt(text, j)) ==>
      Capture(BulletinNo, text) == Some(BulletinValue(text, i))
  {
    forall i | 0 <= i <= |text| && BulletinAt(text, i) && (forall j :: 0 <= j < i ==> !BulletinAt(text, j))
      ensures Capture(BulletinNo, text) == Some(BulletinValue(text, i))
    {
      BulletinCapturedAt(text, i);
    }
  }

  lemma BulletinCapturedAt(text: string, i: nat)
    requires i <= |text| && BulletinAt(text, i) && forall j :: 0 <= j < i ==> !BulletinAt(text, j)
    ensures Capture(BulletinNo, text) == Some(BulletinValue(text, i))
  {
    BulletinRunIff(text);
    BulletinRun(text, i);
    var d := BulletinDigits(text, i);
    CaptureLeftmost(BulletinNo, text, i, (j: nat) => BulletinAt(text, j), DigitsHit(text, d));
  }

  // ----- Where the description fields are found, told without the matcher -----

  /** A capturing pattern that matches at `i`, and at no earlier position, captures what
      lies between the two marks of that match. */
  lemma CaptureAt(c: Capturing, t: string, i: nat)
    requires i <= |t| && Run(Whole(c), t, i).Some?
    requires forall j :: 0 <= j < i ==> Run(Whole(c), t, j).None?
    ensures var h := Run(Whole(c), t, i).value;
      |h.marks| >= 2 && h.marks[0] <= h.marks[1] <= |t| ==> Capture(c, t) == Some(t[h.marks[0]..h.marks[1]])
  {
    SearchAt(Whole(c), t, i);
  }

  /** A capture exists exactly when some position satisfies a description of where the
      pattern matches. */
  lemma CaptureFound(c: Capturing, t: string, at: nat -> bool)
    requires forall i :: 0 <= i <= |t| ==> (Run(Whole(c), t, i).Some? <==> at(i))
    ensures Capture(c, t).Some? <==> exists i :: 0 <= i <= |t| && at(i)
  {
  }

  /** The capture at the first position a description of where the pattern matches picks. */
  lemma CaptureLeftmost(c: Capturing, t: string, i: nat, at: nat -> bool, h: Hit)
    requires forall j :: 0 <= j <= |t| ==> (Run(Whole(c), t, j).Some? <==> at(j))
    requires i <= |t| && at(i) && forall j :: 0 <= j < i ==> !at(j)
    requires Run(Whole(c), t, i) == Some(h) && |h.marks| == 2 && h.marks[0] <= h.marks[1] <= |t|
    ensures Capture(c, t) == Some(t[h.marks[0]..h.marks[1]])
  {
    CaptureAt(c, t, i);
  }

  /** `BULLETIN`, white space, `N°` and white space from `i`, then a digit. */
  predicate BulletinAt(t: string, i: nat) {
    i + 9 <= |t| && t[i..i + 8] == "BULLETIN" && IsSpace(t[i + 8]) && SignAt(t, i + 9)
  }

  /** White space, `N°`, white space and a digit from `x`. */
  predicate SignAt(t: string, x: nat) {
    x <= |t| &&
    var n := Stretch(Space, t, x);
    n + 2 <= |t| && t[n..n + 2] == "N\U{00B0}" && DigitAfter(t, n + 2)
  }

  /** White space and a digit from `x`. */
  predicate DigitAfter(t: string, x: nat) {
    x <= |t| && Stretch(Space, t, x) < |t| && IsDigit(t[Stretch(Space, t, x)])
  }

  /** Where the bulletin number starts: after `N°` and its white space, so the character
      before it is not a digit. */
  function BulletinDigits(t: string, i: nat): (d: nat)
    requires BulletinAt(t, i)
    ensures 0 < d < |t| && IsDigit(t[d]) && !IsDigit(t[d - 1])
  {
    var n := Stretch(Space, t, i + 9);
    var d := Stretch(Space, t, n + 2);
    assert t[n + 1] == t[n..n + 2][1];
    assert n + 2 < d ==> Holds(Space, t[d - 1]);
    d
  }

  /** The group `(\d+)` from `d`: the digits there, as far as they go. */
  function DigitsHit(t: string, d: nat): Hit
    requires d < |t|
  {
    Hit(Stretch(Digit, t, d + 1), [d, Stretch(Digit, t, d + 1)])
  }

  /** What follows `BULLETIN` and its first white-space character in the bulletin pattern. */
  const BulletinAfterWord: Pattern := [Many(Space)] + (Lit("N\U{00B0}") + BulletinAfterNo)
  const BulletinAfterNo: Pattern := [Many(Space)] + DigitsGroup

  lemma BulletinWhole()
    ensures Whole(BulletinNo) == Lit("BULLETIN") + ([One(Space)] + BulletinAfterWord)
  {
  }

  /** White space, then the group of digits. */
  lemma BulletinNoRun(t: string, x: nat)
    requires x <= |t|
    ensures Run(BulletinAfterNo, t, x) ==
      if DigitAfter(t, x) then Some(DigitsHit(t, Stretch(Space, t, x))) else None
  {
    ManyThenGroup(Space, Digit, [Many(Digit)] + ([Mark] + []), t, x);
    PlusGroup(Digit, t, Stretch(Space, t, x));
  }

  /** White space, `N°`, then the rest. */
  lemma BulletinWordRun(t: string, x: nat)
    requires x <= |t|
    ensures Run(BulletinAfterWord, t, x) ==
      if SignAt(t, x) then Some(DigitsHit(t, Stretch(Space, t, Stretch(Space, t, x) + 2))) else None
  {
    ManyLitSteps(Space, "N\U{00B0}", BulletinAfterNo, t, x);
    var n := Stretch(Space, t, x);
    if n + 2 <= |t| && t[n..n + 2] == "N\U{00B0}" {
      BulletinNoRun(t, n + 2);
    }
  }

  /** `BULLETIN` and one white-space character, then the rest. */
  lemma BulletinLead(t: string, i: nat)
    requires i <= |t|
    ensures Run(Whole(BulletinNo), t, i) ==
      if i + 9 <= |t| && t[i..i + 8] == "BULLETIN" && IsSpace(t[i + 8]) then Run(BulletinAfterWord, t, i + 9)
      else None
  {
    BulletinWhole();
    LitOneSteps("BULLETIN", Space, BulletinAfterWord, t, i);
  }

  lemma BulletinRun(t: string, i: nat)
    requires i <= |t|
    ensures Run(Whole(BulletinNo), t, i) ==
      if BulletinAt(t, i) then Some(DigitsHit(t, BulletinDigits(t, i))) else None
  {
    BulletinLead(t, i);
    if i + 9 <= |t| {
      BulletinWordRun(t, i + 9);
    }
  }

  /** Digits from `i`, then white space and `M²`. */
  predicate SurfaceAt(t: string, i: nat) {
    i < |t| && IsDigit(t[i]) && UnitAfter(t, Stretch(Digit, t, i + 1))
  }

  /** White space and `M²` from `x`. */
  predicate UnitAfter(t: string, x: nat) {
    x <= |t| &&
    var f := Stretch(Space, t, x);
    f + 2 <= |t| && t[f] == 'M' && t[f + 1] == '\U{00B2}'
  }

  /** What follows the group of the surface pattern. */
  const SurfaceTail: Pattern := [Many(Space)] + ([One(Exactly('M'))] + ([One(Exactly('\U{00B2}'))] + []))

  lemma SurfaceWhole()
    ensures Whole(Surface) == [Mark] + ([One(Digit)] + ([Many(Digit)] + ([Mark] + SurfaceTail)))
  {
  }

  lemma SurfaceTailRun(t: string, x: nat)
    requires x <= |t|
    ensures Run(SurfaceTail, t, x) == if UnitAfter(t, x) then Some(Hit(Stretch(Space, t, x) + 2, [])) else None
  {
    ManyOneSteps(Space, Exactly('M'), [One(Exactly('\U{00B2}'))] + [], t, x);
    var f := Stretch(Space, t, x);
    if f < |t| && t[f] == 'M' {
      OneSteps(Exactly('\U{00B2}'), [], t, f + 1);
    }
  }

  lemma SurfaceTailFails(t: string, x: nat)
    requires x < |t| && IsDigit(t[x])
    ensures Run(SurfaceTail, t, x).None?
  {
    SurfaceTailRun(t, x);
    StretchTo(Space, t, x, x);
  }

  /** The unit cannot follow straight on from a digit. */
  lemma SurfaceTailsFail(t: string, i: nat)
    ensures forall x :: i < x < |t| && Holds(Digit, t[x]) ==> Run(SurfaceTail, t, x).None?
  {
    forall x | i < x < |t| && Holds(Digit, t[x]) ensures Run(SurfaceTail, t, x).None? {
      SurfaceTailFails(t, x);
    }
  }

  lemma SurfaceRun(t: string, i: nat)
    requires i <= |t|
    ensures Run(Whole(Surface), t, i) ==
      if SurfaceAt(t, i) then
        var e := Stretch(Digit, t, i + 1);
        Some(Hit(Stretch(Space, t, e) + 2, [i, e]))
      else None
  {
    SurfaceWhole();
    SurfaceTailsFail(t, i);
    PlusGroupThen(Digit, SurfaceTail, t, i);
    if i < |t| && Holds(Digit, t[i]) {
      var e := Stretch(Digit, t, i + 1);
      SurfaceTailRun(t, e);
      assert [i, e] + [] == [i, e];
      assert SurfaceAt(t, i) == UnitAfter(t, e);
    } else {
      assert !SurfaceAt(t, i);
    }
  }

  /** Where an amount `\d+\.?\d*` that starts with the digit at `j` ends: after its digits,
      and when a dot follows them, after the dot and the digits that follow it. */
  function AmountEnd(t: string, j: nat): (p: nat)
    requires j < |t|
    ensures j < p <= |t|
  {
    var d := Stretch(Digit, t, j + 1);
    if d < |t| && t[d] == '.' then Stretch(Digit, t, d + 1) else d
  }

  /** White space and `€` from `p`. */
  predicate EuroAfter(t: string, p: nat) {
    p <= |t| && Stretch(Space, t, p) < |t| && t[Stretch(Space, t, p)] == '\U{20AC}'
  }

  /** An amount from `j`, then white space and `€`. */
  predicate AmountAt(t: string, j: nat) {
    j < |t| && IsDigit(t[j]) && EuroAfter(t, AmountEnd(t, j))
  }

  /** White space, `:`, white space, an amount, white space and `€` from `c`: what the rent
      and charges patterns ask for after their word. */
  predicate AmountAfter(t: string, c: nat) {
    c <= |t| &&
    var a := Stretch(Space, t, c);
    a < |t| && t[a] == ':' && AmountAt(t, Stretch(Space, t, a + 1))
  }

  /** Where that amount starts. */
  function AmountStart(t: string, c: nat): (j: nat)
    requires AmountAfter(t, c)
    ensures j < |t| && IsDigit(t[j])
  {
    Stretch(Space, t, Stretch(Space, t, c) + 1)
  }

  /** The match of the amount group from `j`: the amount is the group, and the match ends
      after the euro sign. */
  function AmountHit(t: string, j: nat): Hit
    requires j < |t|
  {
    Hit(Stretch(Space, t, AmountEnd(t, j)) + 1, [j, AmountEnd(t, j)])
  }

  /** The rent pattern from `i`. */
  predicate RentAt(t: string, i: nat) {
    i + 5 <= |t| && t[i..i + 5] == "LOYER" && AmountAfter(t, i + 5)
  }

  /** Where the charges pattern looks for its colon: after `CHARGE`, and after the `S` that
      follows it, if one does. */
  function ChargesWord(t: string, i: nat): nat {
    if i + 6 < |t| && t[i + 6] == 'S' then i + 7 else i + 6
  }

  /** The charges pattern from `i`. */
  predicate ChargesAt(t: string, i: nat) {
    i + 6 <= |t| && t[i..i + 6] == "CHARGE" && AmountAfter(t, ChargesWord(t, i))
  }

  /** The group of the amount patterns and what follows it. */
  const AmountGroup: Pattern := [Mark] + ([One(Digit)] + (AmountRest + ([Mark] + EuroTail)))

  /** The closing mark, white space and `€`. */
  lemma EuroRun(t: string, p: nat)
    requires p <= |t|
    ensures Run([Mark] + EuroTail, t, p) ==
      if EuroAfter(t, p) then Some(Hit(Stretch(Space, t, p) + 1, [p])) else None
  {
    MarkSteps(EuroTail, t, p);
    assert EuroTail == [Many(Space)] + ([One(Exactly('\U{20AC}'))] + []);
    ManyOneSteps(Space, Exactly('\U{20AC}'), [], t, p);
    assert [p] + [] == [p];
  }

  /** It fails on a digit or a dot. */
  lemma EuroFails(t: string, x: nat)
    requires x < |t| && IsAmountChar(t[x])
    ensures Run([Mark] + EuroTail, t, x).None?
  {
    EuroRun(t, x);
    StretchTo(Space, t, x, x);
  }

  lemma DigitsThenEuro(t: string, x: nat)
    requires x <= |t|
    ensures Run([Many(Digit)] + ([Mark] + EuroTail), t, x) == Run([Mark] + EuroTail, t, Stretch(Digit, t, x))
  {
    forall y | x <= y < Stretch(Digit, t, x) ensures Run([Mark] + EuroTail, t, y).None? {
      assert Holds(Digit, t[y]);
      EuroFails(t, y);
    }
    ManyTakesAll(Digit, [Mark] + EuroTail, t, x);
  }

  /** `\.?\d*` and the euro sign: the dot is kept only when the sign follows the digits
      after it. */
  lemma DotThenEuro(t: string, x: nat)
    requires x <= |t|
    ensures Run([Maybe(Exactly('.'))] + ([Many(Digit)] + ([Mark] + EuroTail)), t, x) ==
      if x < |t| && t[x] == '.' then Run([Mark] + EuroTail, t, Stretch(Digit, t, x + 1))
      else Run([Mark] + EuroTail, t, Stretch(Digit, t, x))
  {
    MaybeSteps(Exactly('.'), [Many(Digit)] + ([Mark] + EuroTail), t, x);
    DigitsThenEuro(t, x);
    if x < |t| && t[x] == '.' {
      DigitsThenEuro(t, x + 1);
      StretchTo(Digit, t, x, x);
      EuroFails(t, x);
    }
  }

  /** `\.?\d*` and the euro sign after the first digits of an amount. */
  const AmountTail: Pattern := [Maybe(Exactly('.'))] + ([Many(Digit)] + ([Mark] + EuroTail))

  /** Right after the first run of digits, the rest of the amount and the sign are tried
      at `AmountEnd`. */
  lemma AmountTailAtEnd(t: string, j: nat)
    requires j < |t|
    ensures Run(AmountTail, t, Stretch(Digit, t, j + 1)) == Run([Mark] + EuroTail, t, AmountEnd(t, j))
  {
    var d := Stretch(Digit, t, j + 1);
    DotThenEuro(t, d);
    if !(d < |t| && t[d] == '.') {
      StretchTo(Digit, t, d, d);
    }
  }

  /** Inside the first run of digits, they can only be taken up to its end. */
  lemma AmountTailInside(t: string, j: nat, x: nat)
    requires j < |t| && j < x < Stretch(Digit, t, j + 1)
    ensures Run(AmountTail, t, x) == Run([Mark] + EuroTail, t, Stretch(Digit, t, j + 1))
  {
    assert Holds(Digit, t[x]);
    DotThenEuro(t, x);
    StretchTo(Digit, t, x, Stretch(Digit, t, j + 1));
  }

  /** After the first digit of an amount, backtracking cannot help: the amount runs to
      `AmountEnd` or the pattern fails. */
  lemma AmountRun(t: string, j: nat)
    requires j < |t| && IsDigit(t[j])
    ensures Run(AmountRest + ([Mark] + EuroTail), t, j + 1) == Run([Mark] + EuroTail, t, AmountEnd(t, j))
  {
    assert AmountRest + ([Mark] + EuroTail) == [Many(Digit)] + AmountTail;
    var d := Stretch(Digit, t, j + 1);
    ManyBacktracks(Digit, AmountTail, t, j + 1);
    AmountTailAtEnd(t, j);
    if Run(AmountTail, t, d).None? && d > j + 1 {
      if d < |t| && t[d] == '.' {
        EuroFails(t, d);
      }
      forall x | j + 1 <= x <= d - 1 ensures Run(AmountTail, t, x).None? {
        AmountTailInside(t, j, x);
      }
      BacktrackNone(AmountTail, t, j + 1, d - 1);
    }
  }

  /** The amount group from `j`. */
  lemma AmountGroupRun(t: string, j: nat)
    requires j <= |t|
    ensures Run(AmountGroup, t, j) == if AmountAt(t, j) then Some(AmountHit(t, j)) else None
  {
    var q := AmountRest + ([Mark] + EuroTail);
    MarkSteps([One(Digit)] + q, t, j);
    OneSteps(Digit, q, t, j);
    if j < |t| && IsDigit(t[j]) {
      AmountRun(t, j);
      EuroRun(t, AmountEnd(t, j));
      assert [j] + [AmountEnd(t, j)] == [j, AmountEnd(t, j)];
    }
  }

  lemma AmountTailWhole()
    ensures ColonSpaces + AmountGroup == [Many(Space)] + ([One(Exactly(':'))] + ([Many(Space)] +
      ([Mark] + ([One(Digit)] + (AmountRest + ([Mark] + EuroTail))))))
  {
  }

  /** White space and `:`, then the rest. */
  lemma AmountColonRun(t: string, c: nat)
    requires c <= |t|
    ensures Run(ColonSpaces + AmountGroup, t, c) ==
      var a := Stretch(Space, t, c);
      if a < |t| && t[a] == ':' then Run(AmountGroup, t, Stretch(Space, t, a + 1)) else None
  {
    AmountTailWhole();
    ColonThenDigits(AmountRest + ([Mark] + EuroTail), t, c);
  }

  /** What follows the word of the rent and charges patterns. */
  lemma AmountTailRun(t: string, c: nat)
    requires c <= |t|
    ensures Run(ColonSpaces + AmountGroup, t, c) ==
      if AmountAfter(t, c) then Some(AmountHit(t, AmountStart(t, c))) else None
  {
    var a := Stretch(Space, t, c);
    if a < |t| && t[a] == ':' {
      AmountTailColon(t, c);
    } else {
      AmountColonRun(t, c);
      assert !AmountAfter(t, c);
    }
  }

  /** The same, once the colon is found. */
  lemma AmountTailColon(t: string, c: nat)
    requires c <= |t|
    requires Stretch(Space, t, c) < |t| && t[Stretch(Space, t, c)] == ':'
    ensures Run(ColonSpaces + AmountGroup, t, c) ==
      if AmountAfter(t, c) then Some(AmountHit(t, AmountStart(t, c))) else None
  {
    var j := Stretch(Space, t, Stretch(Space, t, c) + 1);
    AmountColonRun(t, c);
    AmountGroupRun(t, j);
    AmountAfterColon(t, c);
    if AmountAt(t, j) {
      assert AmountAfter(t, c) && AmountStart(t, c) == j;
    } else {
      assert !AmountAfter(t, c);
    }
  }

  /** Past the colon, an amount follows exactly when one starts after the spaces. */
  lemma AmountAfterColon(t: string, c: nat)
    requires c <= |t|
    requires Stretch(Space, t, c) < |t| && t[Stretch(Space, t, c)] == ':'
    ensures var j := Stretch(Space, t, Stretch(Space, t, c) + 1);
      && (AmountAfter(t, c) <==> AmountAt(t, j))
      && (AmountAfter(t, c) ==> AmountStart(t, c) == j)
  {
  }

  lemma RentRun(t: string, i: nat)
    requires i <= |t|
    ensures Run(Whole(Rent), t, i) ==
      if RentAt(t, i) then Some(AmountHit(t, AmountStart(t, i + 5))) else None
  {
    assert Whole(Rent) == Lit("LOYER") + (ColonSpaces + AmountGroup);
    LitSteps("LOYER", ColonSpaces + AmountGroup, t, i);
    if i + 5 <= |t| {
      AmountTailRun(t, i + 5);
    }
  }

  lemma ChargesWhole()
    ensures Whole(Charges) == Lit("CHARGE") + ([Maybe(Exactly('S'))] + (ColonSpaces + AmountGroup))
  {
  }

  /** `CHARGE`, the optional `S`, then the rest. */
  lemma ChargesLead(t: string, i: nat)
    requires i <= |t|
    ensures Run(Whole(Charges), t, i) ==
      if i + 6 <= |t| && t[i..i + 6] == "CHARGE" then
        var taken := if i + 6 < |t| && t[i + 6] == 'S' then Run(ColonSpaces + AmountGroup, t, i + 7) else None;
        if taken.Some? then taken else Run(ColonSpaces + AmountGroup, t, i + 6)
      else None
  {
    ChargesWhole();
    LitSteps("CHARGE", [Maybe(Exactly('S'))] + (ColonSpaces + AmountGroup), t, i);
    if i + 6 <= |t| {
      MaybeSteps(Exactly('S'), ColonSpaces + AmountGroup, t, i + 6);
    }
  }

  lemma ChargesRun(t: string, i: nat)
    requires i <= |t|
    ensures Run(Whole(Charges), t, i) ==
      if ChargesAt(t, i) then Some(AmountHit(t, AmountStart(t, ChargesWord(t, i)))) else None
  {
    ChargesLead(t, i);
    if i + 6 <= |t| {
      AmountTailRun(t, i + 6);
      if i + 6 < |t| && t[i + 6] == 'S' {
        AmountTailRun(t, i + 7);
        StretchTo(Space, t, i + 6, i + 6);
      }
    }
  }

  /** `DISPONIBLE` in any case, then white space, from `i`; after that white space, a
      character other than a comma, or else at least two white-space characters before it
      (the last of which the group then takes). */
  predicate AvailabilityAt(t: string, i: nat) {
    FoldsAt("DISPONIBLE", t, i) && i + 10 < |t| && IsSpace(t[i + 10]) && GroupAfterSpaces(t, i + 11)
  }

  /** From `x`, just after a white-space character: the white space that follows, then a
      character other than a comma, or a white-space character to give back. */
  predicate GroupAfterSpaces(t: string, x: nat) {
    x <= |t| &&
    var f := Stretch(Space, t, x);
    (f < |t| && t[f] != ',') || f > x
  }

  /** Where the availability group starts. */
  function AvailabilityGroup(t: string, i: nat): (g: nat)
    requires AvailabilityAt(t, i)
    ensures g < |t| && t[g] != ','
  {
    var f := Stretch(Space, t, i + 11);
    assert i + 11 < f ==> Holds(Space, t[f - 1]);
    if f < |t| && t[f] != ',' then f else f - 1
  }

  /** The digits the bulletin pattern captures when it matches at `i`. */
  function BulletinValue(t: string, i: nat): string
    requires BulletinAt(t, i)
  {
    var d := BulletinDigits(t, i);
    t[d..Stretch(Digit, t, d + 1)]
  }

  /** The digits the surface pattern captures when it matches at `i`. */
  function SurfaceValue(t: string, i: nat): string
    requires SurfaceAt(t, i)
  {
    t[i..Stretch(Digit, t, i + 1)]
  }

  /** The amount the rent pattern captures when it matches at `i`. */
  function RentValue(t: string, i: nat): string
    requires RentAt(t, i)
  {
    var a := AmountStart(t, i + 5);
    t[a..AmountEnd(t, a)]
  }

  /** The amount the charges pattern captures when it matches at `i`. */
  function ChargesValue(t: string, i: nat): string
    requires ChargesAt(t, i)
  {
    var a := AmountStart(t, ChargesWord(t, i));
    t[a..AmountEnd(t, a)]
  }

  /** The text after `DISPONIBLE` and its white space, up to the next comma or the end. */
  function AvailabilityText(t: string, i: nat): string
    requires AvailabilityAt(t, i)
  {
    var f := Stretch(Space, t, i + 11);
    t[f..Stretch(NotComma, t, f)]
  }

  /** The group `([^,]+)` of the availability pattern. */
  const NotCommaGroup: Pattern := [Mark] + ([One(NotComma)] + ([Many(NotComma)] + ([Mark] + [])))

  lemma AvailabilityWhole()
    ensures Whole(Availability) == FoldedLit("DISPONIBLE") + ([One(Space)] + ([Many(Space)] + NotCommaGroup))
  {
  }

  /** `DISPONIBLE` and one white-space character, then the rest. */
  lemma AvailabilityLeadRun(t: string, i: nat)
    requires i <= |t|
    ensures Run(Whole(Availability), t, i) ==
      if FoldsAt("DISPONIBLE", t, i) && i + 10 < |t| && IsSpace(t[i + 10])
      then Run([Many(Space)] + NotCommaGroup, t, i + 11) else None
  {
    AvailabilityWhole();
    FoldedLitSteps("DISPONIBLE", [One(Space)] + ([Many(Space)] + NotCommaGroup), t, i);
    if FoldsAt("DISPONIBLE", t, i) {
      OneSteps(Space, [Many(Space)] + NotCommaGroup, t, i + 10);
    }
  }

  /** `\s*([^,]+)` after a white-space character: the white space is given back one
      character when no other character follows it. */
  lemma SpacesGroupRun(t: string, x: nat)
    requires 0 < x <= |t| && IsSpace(t[x - 1])
    ensures Run([Many(Space)] + NotCommaGroup, t, x) ==
      if GroupAfterSpaces(t, x) then
        var f := Stretch(Space, t, x);
        var g := if f < |t| && t[f] != ',' then f else f - 1;
        Some(Hit(Stretch(NotComma, t, g + 1), [g, Stretch(NotComma, t, g + 1)]))
      else None
  {
    var f := Stretch(Space, t, x);
    ManyBacktracks(Space, NotCommaGroup, t, x);
    PlusGroup(NotComma, t, f);
    if !(f < |t| && t[f] != ',') && f > x {
      assert Holds(Space, t[f - 1]);
      PlusGroup(NotComma, t, f - 1);
    }
  }

  lemma AvailabilityRun(t: string, i: nat)
    requires i <= |t|
    ensures Run(Whole(Availability), t, i) ==
      if AvailabilityAt(t, i) then
        var g := AvailabilityGroup(t, i);
        Some(Hit(Stretch(NotComma, t, g + 1), [g, Stretch(NotComma, t, g + 1)]))
      else None
  {
    AvailabilityLeadRun(t, i);
    if FoldsAt("DISPONIBLE", t, i) && i + 10 < |t| && IsSpace(t[i + 10]) {
      SpacesGroupRun(t, i + 11);
      assert AvailabilityAt(t, i) == GroupAfterSpaces(t, i + 11);
    } else {
      assert !AvailabilityAt(t, i);
    }
  }

  /** A lone white-space character before a comma or the end trims to what follows it. */
  lemma GivenBack(t: string, g: nat)
    requires g < |t| && IsSpace(t[g]) && (g + 1 == |t| || t[g + 1] == ',')
    ensures Trim(t[g..Stretch(NotComma, t, g + 1)]) == Trim(t[g + 1..Stretch(NotComma, t, g + 1)]) == ""
  {
    StretchTo(NotComma, t, g + 1, g + 1);
    assert t[g..g + 1][0] == t[g];
    TrimSpaces(t[g..g + 1]);
    TrimSpaces(t[g + 1..g + 1]);
  }

  /** Trimmed, the group is the text up to the next comma, trimmed. */
  lemma AvailabilityTrimmed(t: string, i: nat)
    requires AvailabilityAt(t, i)
    ensures var g := AvailabilityGroup(t, i);
      Trim(t[g..Stretch(NotComma, t, g + 1)]) == Trim(AvailabilityText(t, i))
  {
    var f := Stretch(Space, t, i + 11);
    var g := AvailabilityGroup(t, i);
    assert AvailabilityText(t, i) == t[f..Stretch(NotComma, t, f)];
    assert g == f || (g == f - 1 && i + 11 < f);
    GroupTrims(t, f, g);
  }

  /** The group opens on the first character after the white space when that is not a
      comma, and otherwise on the last white-space character, given back; either way it
      trims to the text from the end of the white space up to the next comma. */
  lemma GroupTrims(t: string, f: nat, g: nat)
    requires f <= |t| && g < |t| && t[g] != ','
    requires f < |t| && t[f] != ',' ==> g == f
    requires !(f < |t| && t[f] != ',') ==> g + 1 == f && Holds(Space, t[g])
    ensures Trim(t[g..Stretch(NotComma, t, g + 1)]) == Trim(t[f..Stretch(NotComma, t, f)])
  {
    if f < |t| && t[f] != ',' {
      NotCommaFrom(t, f);
    } else {
      GivenBack(t, g);
    }
  }

  /** From a character other than a comma, the run up to the next comma is the same
      whether it is counted from that character or the one after. */
  lemma NotCommaFrom(t: string, f: nat)
    requires f < |t| && t[f] != ','
    ensures Stretch(NotComma, t, f + 1) == Stretch(NotComma, t, f)
  {
    assert Holds(NotComma, t[f]);
    StretchStep(NotComma, t, f);
  }

  // ----- The bulletin date -----

  /** `dd/dd/dddd`. */
  predicate DateShape(d: string) {
    && |d| == 10 && d[2] == '/' && d[5] == '/'
    && forall x :: 0 <= x < 10 && x != 2 && x != 5 ==> IsDigit(d[x])
  }

  predicate DateAt(t: string, i: nat) {
    i + 10 <= |t| && DateShape(t[i..i + 10])
  }

  function BulletinDateOf(text: string): Option<string> {
    Capture(DateStamp, text)
  }

  /** `/dd/dddd` and the closing mark of the date group. */
  const DateTail: Pattern :=
    [One(Exactly('/'))] + (Times(Digit, 2) + ([One(Exactly('/'))] + (Times(Digit, 4) + ([Mark] + []))))

  lemma DateWhole()
    ensures Whole(DateStamp) == [Mark] + ([One(Digit)] + ([One(Digit)] + DateTail))
  {
  }

  predicate DateTailAt(t: string, j: nat) {
    && j + 8 <= |t| && t[j] == '/' && t[j + 3] == '/'
    && IsDigit(t[j + 1]) && IsDigit(t[j + 2])
    && forall x :: j + 4 <= x < j + 8 ==> IsDigit(t[x])
  }

  lemma DateTailRun(t: string, j: nat)
    requires j <= |t|
    ensures Run(DateTail, t, j) == if DateTailAt(t, j) then Some(Hit(j + 8, [j + 8])) else None
  {
    var close := [Mark] + [];
    var q4 := Times(Digit, 4) + close;
    var q3 := [One(Exactly('/'))] + q4;
    var q2 := Times(Digit, 2) + q3;
    OneSteps(Exactly('/'), q2, t, j);
    if j < |t| && t[j] == '/' {
      TimesSteps(Digit, 2, q3, t, j + 1);
      if j + 3 <= |t| {
        OneSteps(Exactly('/'), q4, t, j + 3);
        if j + 4 <= |t| {
          TimesSteps(Digit, 4, close, t, j + 4);
          if j + 8 <= |t| {
            MarkSteps([], t, j + 8);
            assert [j + 8] + [] == [j + 8];
          }
        }
      }
    }
  }

  lemma DateRun(t: string, i: nat)
    requires i <= |t|
    ensures Run(Whole(DateStamp), t, i) ==
      if DateAt(t, i) then Some(Hit(i + 10, [i, i + 10])) else None
  {
    DateWhole();
    MarkSteps([One(Digit)] + ([One(Digit)] + DateTail), t, i);
    OneSteps(Digit, [One(Digit)] + DateTail, t, i);
    if i + 1 <= |t| {
      OneSteps(Digit, DateTail, t, i + 1);
      if i + 2 <= |t| {
        DateTailRun(t, i + 2);
        assert [i] + [i + 10] == [i, i + 10];
        if i + 10 <= |t| {
          DateAtSplit(t, i);
        }
      }
    }
  }

  /** A date is two digits followed by the rest of the date. */
  lemma DateAtSplit(t: string, i: nat)
    requires i + 10 <= |t|
    ensures DateAt(t, i) <==> IsDigit(t[i]) && IsDigit(t[i + 1]) && DateTailAt(t, i + 2)
  {
    var d := t[i..i + 10];
    assert forall x :: 0 <= x < 10 ==> d[x] == t[i + x];
    if IsDigit(t[i]) && IsDigit(t[i + 1]) && DateTailAt(t, i + 2) {
      forall x | 0 <= x < 10 && x != 2 && x != 5 ensures IsDigit(d[x]) {
        if x >= 6 {
          assert i + 2 + 4 <= i + x < i + 2 + 8;
        }
      }
    }
    if DateAt(t, i) {
      forall x | i + 6 <= x < i + 10 ensures IsDigit(t[x]) {
        assert d[x - i] == t[x];
      }
    }
  }

  /** The bulletin date is the leftmost `dd/dd/dddd` in the text, and there is one exactly
      when some ten characters have that shape. */
  lemma BulletinDateLeftmost(text: string)
    ensures BulletinDateOf(text).Some? <==> exists i :: 0 <= i <= |text| && DateAt(text, i)
    ensures BulletinDateOf(text).Some? ==>
      exists i :: && 0 <= i <= |text| && DateAt(text, i) && BulletinDateOf(text).value == text[i..i + 10]
                  && forall j :: 0 <= j < i ==> !DateAt(text, j)
  {
    forall i | 0 <= i <= |text| ensures Run(Whole(DateStamp), text, i).Some? <==> DateAt(text, i) {
      DateRun(text, i);
    }
    match Search(Whole(DateStamp), text)
    case None =>
    case Some(m) =>
      DateRun(text, m.start);
      assert Group(text, m, 1) == text[m.start..m.start + 10];
  }

  // ----- The pagination total -----

  /** `/Page\s+\d+\s+sur\s+(\d+)/i` */
  const PageOf: Capturing :=
    Capturing(FoldedLit("Page") + ([One(Space)] + ([Many(Space)] + ([One(Digit)] + ([Many(Digit)] +
      ([One(Space)] + ([Many(Space)] + (FoldedLit("sur") + ([One(Space)] + [Many(Space)])))))))),
      Digit, [Many(Digit)], [])

  /** `/\d+\/(\d+)/` */
  const Fraction: Capturing :=
    Capturing([One(Digit)] + ([Many(Digit)] + [One(Exactly('/'))]), Digit, [Many(Digit)], [])

  /** `/sur\s+(\d+)/i` */
  const OutOf: Capturing :=
    Capturing(FoldedLit("sur") + ([One(Space)] + [Many(Space)]), Digit, [Many(Digit)], [])

  /** `/total:\s*(\d+)/i` */
  const TotalColon: Capturing :=
    Capturing(FoldedLit("total:") + [Many(Space)], Digit, [Many(Digit)], [])

  /** `/(\d+)\s+résultats?/i` */
  const ResultCount: Capturing :=
    Capturing([], Digit, [Many(Digit)],
      [One(Space)] + ([Many(Space)] + (FoldedLit("r\U{00E9}sultat") + [Maybe(Folded('s'))])))

  /** The five pagination patterns, in the order they are tried. */
  const PaginationPatterns: seq<Capturing> := [PageOf, Fraction, OutOf, TotalColon, ResultCount]

  /** `parseInt(match[1])` for a pattern that matches the text. */
  function Parsed(c: Capturing, text: string): Option<int> {
    match Capture(c, text)
    case Some(g) => ParseInt(g)
    case None => None
  }

  /** The number each pattern yields, in order. */
  function Numbers(ps: seq<Capturing>, text: string): (ns: seq<Option<int>>)
    ensures |ns| == |ps| && forall k :: 0 <= k < |ps| ==> ns[k] == Parsed(ps[k], text)
  {
    seq(|ps|, k requires 0 <= k < |ps| => Parsed(ps[k], text))
  }

  predicate Positive(o: Option<int>) {
    o.Some? && o.value > 0
  }

  /** The first of the numbers that is positive. */
  function FirstPositive(ns: seq<Option<int>>): (r: Option<int>)
    ensures r.Some? ==> r.value > 0
  {
    if |ns| == 0 then None
    else if Positive(ns[0]) then ns[0]
    else FirstPositive(ns[1..])
  }

  /** The numbers are tried in order and the first positive one wins; none wins when none
      is positive. */
  lemma {:induction false} FirstPositiveIsFirst(ns: seq<Option<int>>)
    ensures FirstPositive(ns).None? <==> forall k :: 0 <= k < |ns| ==> !Positive(ns[k])
    ensures forall k ::
      (0 <= k < |ns| && Positive(ns[k]) && forall j :: 0 <= j < k ==> !Positive(ns[j]))
      ==> FirstPositive(ns) == ns[k]
    ensures FirstPositive(ns).Some? ==> FirstPositive(ns).value > 0
    decreases |ns|
  {
    if |ns| > 0 {
      var tl := ns[1..];
      FirstPositiveIsFirst(tl);
      assert forall k :: 0 <= k < |tl| ==> tl[k] == ns[k + 1];
      if !Positive(ns[0]) {
        forall k | 0 <= k < |ns| && Positive(ns[k]) && forall j :: 0 <= j < k ==> !Positive(ns[j])
          ensures FirstPositive(ns) == ns[k]
        {
          assert k > 0;
          assert forall j :: 0 <= j < k - 1 ==> !Positive(tl[j]) by {
            forall j | 0 <= j < k - 1 ensures !Positive(tl[j]) {
              assert tl[j] == ns[j + 1];
            }
          }
        }
      }
    }
  }

  lemma FirstPositiveAt(ns: seq<Option<int>>, k: nat)
    requires k < |ns| && Positive(ns[k]) && forall j :: 0 <= j < k ==> !Positive(ns[j])
    ensures FirstPositive(ns) == ns[k]
  {
    FirstPositiveIsFirst(ns);
  }

  lemma FirstPositiveNone(ns: seq<Option<int>>)
    requires forall k :: 0 <= k < |ns| ==> !Positive(ns[k])
    ensures FirstPositive(ns).None?
  {
    FirstPositiveIsFirst(ns);
  }

  /** The total number of listings guessed from the page: a pagination figure if the text
      has one, else the page count times the number of pages the page links suggest. */
  function EstimateTotal(text: string, pageLinks: nat, currentCount: nat): (r: int)
    ensures r >= 0
    ensures r == 0 <==> currentCount == 0 && FirstPositive(Numbers(PaginationPatterns, text)).None?
  {
    match FirstPositive(Numbers(PaginationPatterns, text))
    case Some(n) => n
    case None =>
      if pageLinks > 0 then
        ScaledCount(currentCount, pageLinks);
        currentCount * (pageLinks + 1)
      else currentCount
  }

  /** Scaling a count by a number of pages keeps it at least the count, and zero only when
      the count is. */
  lemma ScaledCount(c: nat, k: nat)
    ensures c <= c * (k + 1)
    ensures c * (k + 1) == 0 ==> c == 0
  {
    assert c * (k + 1) == c * k + c;
  }

  /** With no pattern yielding a positive number, the estimate is the page count scaled by
      the page links, or the page count alone. */
  lemma EstimateFallback(text: string, pageLinks: nat, currentCount: nat)
    requires forall k :: 0 <= k < 5 ==> !Positive(Parsed(PaginationPatterns[k], text))
    ensures EstimateTotal(text, pageLinks, currentCount) ==
      if pageLinks > 0 then currentCount * (pageLinks + 1) else currentCount
  {
    var ns := Numbers(PaginationPatterns, text);
    assert forall k :: 0 <= k < |ns| ==> !Positive(ns[k]);
    FirstPositiveNone(ns);
  }

  /** The first pattern, in order, that yields a positive number gives the estimate. */
  lemma EstimatePicksFirst(text: string, pageLinks: nat, currentCount: nat, k: nat)
    requires k < 5 && Positive(Parsed(PaginationPatterns[k], text))
    requires forall j :: 0 <= j < k ==> !Positive(Parsed(PaginationPatterns[j], text))
    ensures EstimateTotal(text, pageLinks, currentCount) == Parsed(PaginationPatterns[k], text).value
  {
    NumbersAgree(text, k);
    EstimateAt(text, pageLinks, currentCount, k);
  }

  /** What the patterns yield, as `Numbers` lists it. */
  lemma NumbersAgree(text: string, k: nat)
    requires k < 5
    ensures Numbers(PaginationPatterns, text)[k] == Parsed(PaginationPatterns[k], text)
    ensures (forall j :: 0 <= j < k ==> !Positive(Parsed(PaginationPatterns[j], text))) ==>
      forall j :: 0 <= j < k ==> !Positive(Numbers(PaginationPatterns, text)[j])
  {
  }

  lemma EstimateAt(text: string, pageLinks: nat, currentCount: nat, k: nat)
    requires k < 5 && Positive(Numbers(PaginationPatterns, text)[k])
    requires forall j :: 0 <= j < k ==> !Positive(Numbers(PaginationPatterns, text)[j])
    ensures EstimateTotal(text, pageLinks, currentCount) == Numbers(PaginationPatterns, text)[k].value
  {
    FirstPositiveAt(Numbers(PaginationPatterns, text), k);
  }

  /** A group `(\d+)` captures a non-empty run of digits. */
  lemma DigitCapture(c: Capturing, text: string)
    requires MarkFree(c.lead) && c.first == Digit && c.rest == [Many(Digit)]
    ensures Capture(c, text).Some? ==> |Capture(c, text).value| > 0 && AllDigits(Capture(c, text).value)
  {
    CaptureWithin(c, text, IsDigit);
  }

  /** Each pagination pattern captures a non-empty run of digits. */
  lemma PaginationCapturesDigits(k: nat, text: string)
    requires k < |PaginationPatterns|
    ensures Capture(PaginationPatterns[k], text).Some? ==>
      |Capture(PaginationPatterns[k], text).value| > 0 && AllDigits(Capture(PaginationPatterns[k], text).value)
  {
    PaginationLeads();
    DigitCapture(PaginationPatterns[k], text);
  }

  /** Every pagination pattern ends in a lone group `(\d+)`. */
  lemma PaginationLeads()
    ensures forall k :: 0 <= k < |PaginationPatterns| ==>
      && MarkFree(PaginationPatterns[k].lead)
      && PaginationPatterns[k].first == Digit && PaginationPatterns[k].rest == [Many(Digit)]
  {
    PageOfLead();
    var spaces := [One(Space)] + [Many(Space)];
    LitMarkFree("sur");
    MarkFreeAppend(FoldedLit("sur"), spaces);
    LitMarkFree("total:");
    MarkFreeAppend(FoldedLit("total:"), [Many(Space)]);
  }

  lemma PageOfLead()
    ensures MarkFree(PageOf.lead)
  {
    var spaces := [One(Space)] + [Many(Space)];
    LitMarkFree("sur");
    MarkFreeAppend(FoldedLit("sur"), spaces);
    var q := FoldedLit("sur") + spaces;
    MarkFreeAppend([Many(Space)], q);
    MarkFreeAppend([One(Space)], [Many(Space)] + q);
    MarkFreeAppend([Many(Digit)], [One(Space)] + ([Many(Space)] + q));
    MarkFreeAppend([One(Digit)], [Many(Digit)] + ([One(Space)] + ([Many(Space)] + q)));
    var r := [One(Digit)] + ([Many(Digit)] + ([One(Space)] + ([Many(Space)] + q)));
    MarkFreeAppend([Many(Space)], r);
    MarkFreeAppend([One(Space)], [Many(Space)] + r);
    LitMarkFree("Page");
    MarkFreeAppend(FoldedLit("Page"), [One(Space)] + ([Many(Space)] + r));
  }

  /** `parseInt` of what a pagination pattern captures is never `NaN` nor negative. */
  lemma PaginationParsed(k: nat, text: string)
    requires k < |PaginationPatterns|
    ensures Parsed(PaginationPatterns[k], text).Some? <==> Capture(PaginationPatterns[k], text).Some?
    ensures Parsed(PaginationPatterns[k], text).Some? ==> Parsed(PaginationPatterns[k], text).value >= 0
  {
    PaginationCapturesDigits(k, text);
    if Capture(PaginationPatterns[k], text).Some? {
      ParseIntOfDigits(Capture(PaginationPatterns[k], text).value);
    }
  }

  /** The closing `(\d+)` of the pagination patterns. */
  const DigitsGroup: Pattern := [Mark] + ([One(Digit)] + ([Many(Digit)] + ([Mark] + [])))

  predicate NoDigit(s: string) {
    forall x :: 0 <= x < |s| ==> !IsDigit(s[x])
  }

  /** `\d+\/(\d+)` where the first digits of the text are the run `[p0, sl)`, a slash
      at `sl`, and the run `[sl + 1, en)`: the capture is the second run. */
  lemma FractionAt(t: string, p0: nat, sl: nat, en: nat)
    requires p0 < sl && sl + 1 < en <= |t|
    requires forall x :: 0 <= x < p0 ==> !IsDigit(t[x])
    requires forall x :: p0 <= x < sl ==> IsDigit(t[x])
    requires t[sl] == '/'
    requires forall x :: sl + 1 <= x < en ==> IsDigit(t[x])
    requires en == |t| || !IsDigit(t[en])
    ensures Capture(Fraction, t) == Some(t[sl + 1..en])
  {
    var st := sl + 1;
    assert Whole(Fraction) == [One(Digit)] + ([Many(Digit)] + ([One(Exactly('/'))] + DigitsGroup));
    PlusThen(Digit, Exactly('/'), DigitsGroup, t, p0, sl);
    OneSteps(Exactly('/'), DigitsGroup, t, sl);
    PlusGroup(Digit, t, st);
    StretchTo(Digit, t, st + 1, en);
    forall j | 0 <= j < p0 ensures Run(Whole(Fraction), t, j).None? {
      OneFails(Digit, [Many(Digit)] + ([One(Exactly('/'))] + DigitsGroup), t, j);
    }
    SearchAt(Whole(Fraction), t, p0);
  }

  /** `\d+\/(\d+)` on a text whose first digits are `d1/d2`: it captures `d2`, so the second
      field of a date such as 12/05/2024 is read as a page count. */
  lemma FractionCapture(pre: string, d1: string, d2: string, rest: string)
    requires NoDigit(pre)
    requires |d1| > 0 && AllDigits(d1) && |d2| > 0 && AllDigits(d2)
    requires |rest| == 0 || !IsDigit(rest[0])
    ensures Capture(Fraction, pre + d1 + "/" + d2 + rest) == Some(d2)
  {
    var t := pre + d1 + "/" + d2 + rest;
    var p0 := |pre|;
    var sl := p0 + |d1|;
    var st := sl + 1;
    var en := st + |d2|;
    assert forall x :: 0 <= x < p0 ==> !IsDigit(t[x]) by {
      forall x | 0 <= x < p0 ensures t[x] == pre[x] { }
    }
    assert forall x :: p0 <= x < sl ==> IsDigit(t[x]) by {
      forall x | p0 <= x < sl ensures t[x] == d1[x - p0] { }
    }
    assert t[sl] == '/';
    assert forall x :: st <= x < en ==> IsDigit(t[x]) by {
      forall x | st <= x < en ensures t[x] == d2[x - st] { }
    }
    assert en < |t| ==> t[en] == rest[0];
    FractionAt(t, p0, sl, en);
    assert t[st..en] == d2;
  }

  /** A text without the letter p (either case) never matches the "Page … sur …" pattern. */
  lemma NoPageWord(t: string)
    requires forall x :: 0 <= x < |t| ==> t[x] != 'p' && t[x] != 'P'
    ensures Capture(PageOf, t).None?
  {
    var w := Whole(PageOf);
    var tail := w[4..];
    assert w[..4] == FoldedLit("Page");
    assert w == FoldedLit("Page") + tail;
    forall j | 0 <= j <= |t| ensures Run(w, t, j).None? {
      FoldedLitSteps("Page", tail, t, j);
      if j + 4 <= |t| {
        assert Canon(t[j]) != Canon("Page"[0]);
      }
    }
  }

  /** When the text has no "Page … sur …" figure and its first digits are `d1/d2`, the
      estimate is the value of `d2`, whatever the page links say. */
  lemma FractionWins(pre: string, d1: string, d2: string, rest: string, pageLinks: nat, count: nat)
    requires NoDigit(pre)
    requires |d1| > 0 && AllDigits(d1) && |d2| > 0 && AllDigits(d2)
    requires |rest| == 0 || !IsDigit(rest[0])
    requires Capture(PageOf, pre + d1 + "/" + d2 + rest).None?
    requires Value(d2, 10) > 0
    ensures EstimateTotal(pre + d1 + "/" + d2 + rest, pageLinks, count) == Value(d2, 10)
  {
    FractionCapture(pre, d1, d2, rest);
    var t := pre + d1 + "/" + d2 + rest;
    ParseIntOfDigits(d2);
    SecondPatternWins(t, Value(d2, 10), pageLinks, count);
  }

  /** No "Page … sur …" figure and a positive `\d+/(\d+)` figure: the second wins. */
  lemma SecondPatternWins(t: string, n: nat, pageLinks: nat, count: nat)
    requires !Positive(Parsed(PageOf, t))
    requires Parsed(Fraction, t) == Some(n) && n > 0
    ensures EstimateTotal(t, pageLinks, count) == n
  {
    var ns := Numbers(PaginationPatterns, t);
    NumbersHead(t);
    SecondPositive(ns);
  }

  lemma NumbersHead(t: string)
    ensures Numbers(PaginationPatterns, t)[0] == Parsed(PageOf, t)
    ensures Numbers(PaginationPatterns, t)[1] == Parsed(Fraction, t)
  {
    var ps := PaginationPatterns;
    assert ps[0] == PageOf && ps[1] == Fraction;
    NumbersAt(ps, t, 0);
    NumbersAt(ps, t, 1);
  }

  lemma NumbersAt(ps: seq<Capturing>, t: string, k: nat)
    requires k < |ps|
    ensures Numbers(ps, t)[k] == Parsed(ps[k], t)
  {
  }

  lemma SecondPositive(ns: seq<Option<int>>)
    requires |ns| >= 2 && !Positive(ns[0]) && Positive(ns[1])
    ensures FirstPositive(ns) == ns[1]
  {
    assert ns[1..][0] == ns[1];
  }

  /** A bulletin date in the page text is taken for a page count: 12/05/2024 gives 5. */
  lemma DateReadAsPageCount(pageLinks: nat, count: nat)
    ensures EstimateTotal("12/05/2024", pageLinks, count) == 5
  {
    assert "" + "12" + "/" + "05" + "/2024" == "12/05/2024";
    NoPageWord("12/05/2024");
    assert Value("05", 10) == 5 by {
      assert "05"[..1] == "0";
      assert ""[..0] == "";
    }
    FractionWins("", "12", "05", "/2024", pageLinks, count);
  }

  // ----- Phone numbers -----

  /** `\d{2}[\s.-]?` followed by `q`. */
  function Pair(q: Pattern): Pattern {
    [One(Digit)] + ([One(Digit)] + ([Maybe(Separator)] + q))
  }

  /** `(?:\d{2}[\s.-]?){4}` followed by `q`. */
  function FourPairs(q: Pattern): Pattern {
    Pair(Pair(Pair(Pair(q))))
  }

  /** `/\b(?:0[1-9][\s.-]?(?:\d{2}[\s.-]?){4})\b/g` */
  const PhoneFrench: Pattern :=
    [Boundary] + ([One(Exactly('0'))] + ([One(NonZeroDigit)] + ([Maybe(Separator)] + FourPairs([Boundary]))))

  /** `/\b(?:\+33[\s.-]?[1-9][\s.-]?(?:\d{2}[\s.-]?){4})\b/g` */
  const PhoneIntl: Pattern :=
    [Boundary] + ([One(Exactly('+'))] + ([One(Exactly('3'))] + ([One(Exactly('3'))] +
      ([Maybe(Separator)] + ([One(NonZeroDigit)] + ([Maybe(Separator)] + FourPairs([Boundary])))))))

  /** `/\b(?:\d{2}[\s.-]?\d{2}[\s.-]?\d{2}[\s.-]?\d{2}[\s.-]?\d{2})\b/g` */
  const PhoneAny: Pattern :=
    [Boundary] + Pair(Pair(Pair(Pair([One(Digit)] + ([One(Digit)] + [Boundary])))))

  /** The phone patterns, in the order they are tried. */
  const PhonePatterns: seq<Pattern> := [PhoneFrench, PhoneIntl, PhoneAny]

  predicate IsSeparator(c: char) {
    IsSpace(c) || c == '.' || c == '-'
  }

  /** `s.replace(/[\s.-]/g, '')` */
  function Strip(s: string): string {
    RemoveAll(s, IsSeparator)
  }

  /** The leftmost match of the first pattern that matches anywhere, separators removed. */
  function FirstPhone(ps: seq<Pattern>, text: string): Option<string> {
    if |ps| == 0 then None
    else match Search(ps[0], text)
      case Some(m) => Some(Strip(Matched(text, m)))
      case None => FirstPhone(ps[1..], text)
  }

  function FindPhone(text: string): Option<string> {
    FirstPhone(PhonePatterns, text)
  }

  // Shapes of the numbers found.

  /** `w` spells, character by character, the classes `ks`. */
  predicate Fits(w: string, ks: seq<Class>) {
    |w| == |ks| && forall x :: 0 <= x < |w| ==> Holds(ks[x], w[x])
  }

  /** Every success of `p` covers text that, separators removed, spells `ks`. */
  predicate Shaped(p: Pattern, s: string, ks: seq<Class>) {
    forall i :: 0 <= i <= |s| && Run(p, s, i).Some? ==> Fits(Strip(s[i..Run(p, s, i).value.end]), ks)
  }

  /** A class that never holds a separator. */
  predicate Solid(k: Class) {
    k == Digit || k == NonZeroDigit || (k.Exactly? && !IsSeparator(k.c))
  }

  lemma StripFirst(s: string, i: nat, e: nat)
    requires i < e <= |s|
    ensures Strip(s[i..e]) == (if IsSeparator(s[i]) then [] else [s[i]]) + Strip(s[i + 1..e])
  {
    assert s[i..e][0] == s[i] && s[i..e][1..] == s[i + 1..e];
  }

  lemma ShapedOne(k: Class, q: Pattern, s: string, ks: seq<Class>)
    requires Solid(k) && Shaped(q, s, ks)
    ensures Shaped([One(k)] + q, s, [k] + ks)
  {
    forall i | 0 <= i <= |s| && Run([One(k)] + q, s, i).Some?
      ensures Fits(Strip(s[i..Run([One(k)] + q, s, i).value.end]), [k] + ks)
    {
      ShapedOneAt(k, q, s, ks, i);
    }
  }

  lemma ShapedOneAt(k: Class, q: Pattern, s: string, ks: seq<Class>, i: nat)
    requires Solid(k) && Shaped(q, s, ks)
    requires i <= |s| && Run([One(k)] + q, s, i).Some?
    ensures Fits(Strip(s[i..Run([One(k)] + q, s, i).value.end]), [k] + ks)
  {
    OneSteps(k, q, s, i);
    var e := Run(q, s, i + 1).value.end;
    StripFirst(s, i, e);
    var w := Strip(s[i + 1..e]);
    assert Fits(w, ks);
    assert Strip(s[i..e]) == [s[i]] + w;
    assert forall x :: 0 < x <= |w| ==> ([s[i]] + w)[x] == w[x - 1];
  }

  lemma ShapedSeparator(q: Pattern, s: string, ks: seq<Class>)
    requires Shaped(q, s, ks)
    ensures Shaped([Maybe(Separator)] + q, s, ks)
  {
    var p := [Maybe(Separator)] + q;
    assert p[0] == Maybe(Separator) && p[1..] == q;
    forall i | 0 <= i <= |s| && Run(p, s, i).Some?
      ensures Fits(Strip(s[i..Run(p, s, i).value.end]), ks)
    {
      if i < |s| && Holds(Separator, s[i]) && Run(q, s, i + 1).Some? {
        StripFirst(s, i, Run(q, s, i + 1).value.end);
      }
    }
  }

  lemma ShapedBoundary(q: Pattern, s: string, ks: seq<Class>)
    requires Shaped(q, s, ks)
    ensures Shaped([Boundary] + q, s, ks)
  {
    var p := [Boundary] + q;
    assert p[0] == Boundary && p[1..] == q;
  }

  lemma ShapedEnd(s: string)
    ensures Shaped([Boundary], s, [])
  {
    forall i | 0 <= i <= |s| && Run([Boundary], s, i).Some?
      ensures Fits(Strip(s[i..Run([Boundary], s, i).value.end]), [])
    {
      assert [Boundary][1..] == [];
    }
  }

  lemma ShapedPair(q: Pattern, s: string, ks: seq<Class>)
    requires Shaped(q, s, ks)
    ensures Shaped(Pair(q), s, [Digit, Digit] + ks)
  {
    ShapedSeparator(q, s, ks);
    ShapedOne(Digit, [Maybe(Separator)] + q, s, ks);
    ShapedOne(Digit, [One(Digit)] + ([Maybe(Separator)] + q), s, [Digit] + ks);
    assert [Digit] + ([Digit] + ks) == [Digit, Digit] + ks;
  }

  /** Eight digits with optional separators, then `\b`. */
  lemma ShapedFourPairs(s: string)
    ensures Shaped(FourPairs([Boundary]), s, [Digit, Digit, Digit, Digit, Digit, Digit, Digit, Digit])
  {
    ShapedEnd(s);
    ShapedPair([Boundary], s, []);
    ShapedPair(Pair([Boundary]), s, [Digit, Digit] + []);
    ShapedPair(Pair(Pair([Boundary])), s, [Digit, Digit] + ([Digit, Digit] + []));
    ShapedPair(Pair(Pair(Pair([Boundary]))), s, [Digit, Digit] + ([Digit, Digit] + ([Digit, Digit] + [])));
    assert [Digit, Digit] + ([Digit, Digit] + ([Digit, Digit] + ([Digit, Digit] + [])))
      == [Digit, Digit, Digit, Digit, Digit, Digit, Digit, Digit];
  }

  const EightDigits: seq<Class> := [Digit, Digit, Digit, Digit, Digit, Digit, Digit, Digit]

  lemma ShapedFrench(s: string)
    ensures Shaped(PhoneFrench, s, [Exactly('0'), NonZeroDigit] + EightDigits)
  {
    ShapedFourPairs(s);
    var q := FourPairs([Boundary]);
    ShapedSeparator(q, s, EightDigits);
    ShapedOne(NonZeroDigit, [Maybe(Separator)] + q, s, EightDigits);
    ShapedOne(Exactly('0'), [One(NonZeroDigit)] + ([Maybe(Separator)] + q), s, [NonZeroDigit] + EightDigits);
    ShapedBoundary([One(Exactly('0'))] + ([One(NonZeroDigit)] + ([Maybe(Separator)] + q)), s,
      [Exactly('0')] + ([NonZeroDigit] + EightDigits));
    assert [Exactly('0')] + ([NonZeroDigit] + EightDigits) == [Exactly('0'), NonZeroDigit] + EightDigits;
  }

  lemma ShapedIntl(s: string)
    ensures Shaped(PhoneIntl, s, [Exactly('+'), Exactly('3'), Exactly('3'), NonZeroDigit] + EightDigits)
  {
    ShapedFourPairs(s);
    var q0 := FourPairs([Boundary]);
    var q1 := [Maybe(Separator)] + q0;
    var q2 := [One(NonZeroDigit)] + q1;
    var q3 := [Maybe(Separator)] + q2;
    var q4 := [One(Exactly('3'))] + q3;
    var q5 := [One(Exactly('3'))] + q4;
    var q6 := [One(Exactly('+'))] + q5;
    ShapedSeparator(q0, s, EightDigits);
    ShapedOne(NonZeroDigit, q1, s, EightDigits);
    ShapedSeparator(q2, s, [NonZeroDigit] + EightDigits);
    ShapedOne(Exactly('3'), q3, s, [NonZeroDigit] + EightDigits);
    ShapedOne(Exactly('3'), q4, s, [Exactly('3')] + ([NonZeroDigit] + EightDigits));
    ShapedOne(Exactly('+'), q5, s, [Exactly('3')] + ([Exactly('3')] + ([NonZeroDigit] + EightDigits)));
    ShapedBoundary(q6, s, [Exactly('+')] + ([Exactly('3')] + ([Exactly('3')] + ([NonZeroDigit] + EightDigits))));
    assert [Exactly('+')] + ([Exactly('3')] + ([Exactly('3')] + ([NonZeroDigit] + EightDigits)))
      == [Exactly('+'), Exactly('3'), Exactly('3'), NonZeroDigit] + EightDigits;
  }

  lemma ShapedAny(s: string)
    ensures Shaped(PhoneAny, s, [Digit, Digit] + EightDigits)
  {
    var last := [One(Digit)] + ([One(Digit)] + [Boundary]);
    ShapedEnd(s);
    ShapedOne(Digit, [Boundary], s, []);
    ShapedOne(Digit, [One(Digit)] + [Boundary], s, [Digit] + []);
    ShapedPair(last, s, [Digit, Digit]);
    ShapedPair(Pair(last), s, [Digit, Digit] + [Digit, Digit]);
    ShapedPair(Pair(Pair(last)), s, [Digit, Digit] + ([Digit, Digit] + [Digit, Digit]));
    ShapedPair(Pair(Pair(Pair(last))), s, [Digit, Digit] + ([Digit, Digit] + ([Digit, Digit] + [Digit, Digit])));
    ShapedBoundary(Pair(Pair(Pair(Pair(last)))), s,
      [Digit, Digit] + ([Digit, Digit] + ([Digit, Digit] + ([Digit, Digit] + [Digit, Digit]))));
    assert [Digit] + ([Digit] + []) == [Digit, Digit];
    assert [Digit, Digit] + ([Digit, Digit] + ([Digit, Digit] + ([Digit, Digit] + [Digit, Digit])))
      == [Digit, Digit] + EightDigits;
  }

  /** `0`, a digit 1-9, then eight digits. */
  predicate FrenchNumber(w: string) {
    |w| == 10 && w[0] == '0' && '1' <= w[1] <= '9' && forall x :: 2 <= x < 10 ==> IsDigit(w[x])
  }

  /** `+33`, a digit 1-9, then eight digits. */
  predicate IntlNumber(w: string) {
    && |w| == 12 && w[..3] == "+33" && '1' <= w[3] <= '9'
    && forall x :: 4 <= x < 12 ==> IsDigit(w[x])
  }

  predicate TenDigits(w: string) {
    |w| == 10 && AllDigits(w)
  }

  /** What each phone pattern finds, separators removed. */
  lemma PhoneShapes(text: string)
    ensures Search(PhoneFrench, text).Some? ==> FrenchNumber(Strip(Matched(text, Search(PhoneFrench, text).value)))
    ensures Search(PhoneIntl, text).Some? ==> IntlNumber(Strip(Matched(text, Search(PhoneIntl, text).value)))
    ensures Search(PhoneAny, text).Some? ==> TenDigits(Strip(Matched(text, Search(PhoneAny, text).value)))
  {
    FrenchShape(text);
    IntlShape(text);
    AnyShape(text);
  }

  lemma FrenchShape(text: string)
    ensures Search(PhoneFrench, text).Some? ==> FrenchNumber(Strip(Matched(text, Search(PhoneFrench, text).value)))
  {
    ShapedFrench(text);
    ShapedSearch(PhoneFrench, text, [Exactly('0'), NonZeroDigit] + EightDigits);
    if Search(PhoneFrench, text).Some? {
      FitsFrench(Strip(Matched(text, Search(PhoneFrench, text).value)));
    }
  }

  lemma IntlShape(text: string)
    ensures Search(PhoneIntl, text).Some? ==> IntlNumber(Strip(Matched(text, Search(PhoneIntl, text).value)))
  {
    ShapedIntl(text);
    ShapedSearch(PhoneIntl, text, [Exactly('+'), Exactly('3'), Exactly('3'), NonZeroDigit] + EightDigits);
    if Search(PhoneIntl, text).Some? {
      FitsIntl(Strip(Matched(text, Search(PhoneIntl, text).value)));
    }
  }

  lemma AnyShape(text: string)
    ensures Search(PhoneAny, text).Some? ==> TenDigits(Strip(Matched(text, Search(PhoneAny, text).value)))
  {
    ShapedAny(text);
    ShapedSearch(PhoneAny, text, [Digit, Digit] + EightDigits);
    if Search(PhoneAny, text).Some? {
      FitsTen(Strip(Matched(text, Search(PhoneAny, text).value)));
    }
  }

  /** The leftmost match of a shaped pattern, separators removed, spells its classes. */
  lemma ShapedSearch(p: Pattern, s: string, ks: seq<Class>)
    requires Shaped(p, s, ks)
    ensures Search(p, s).Some? ==> Fits(Strip(Matched(s, Search(p, s).value)), ks)
  {
    if Search(p, s).Some? {
      var m := Search(p, s).value;
      assert Run(p, s, m.start).Some? && Run(p, s, m.start).value.end == m.end;
      assert Matched(s, m) == s[m.start..m.end];
    }
  }

  lemma FitsFrench(w: string)
    requires Fits(w, [Exactly('0'), NonZeroDigit] + EightDigits)
    ensures FrenchNumber(w)
  {
    var ks := [Exactly('0'), NonZeroDigit] + EightDigits;
    assert Holds(ks[0], w[0]) && Holds(ks[1], w[1]);
    forall x | 2 <= x < 10 ensures IsDigit(w[x]) {
      assert Holds(ks[x], w[x]) && ks[x] == Digit;
    }
  }

  lemma FitsIntl(w: string)
    requires Fits(w, [Exactly('+'), Exactly('3'), Exactly('3'), NonZeroDigit] + EightDigits)
    ensures IntlNumber(w)
  {
    var ks := [Exactly('+'), Exactly('3'), Exactly('3'), NonZeroDigit] + EightDigits;
    assert Holds(ks[0], w[0]) && Holds(ks[1], w[1]) && Holds(ks[2], w[2]) && Holds(ks[3], w[3]);
    assert w[..3] == "+33";
    forall x | 4 <= x < 12 ensures IsDigit(w[x]) {
      assert Holds(ks[x], w[x]) && ks[x] == Digit;
    }
  }

  lemma FitsTen(w: string)
    requires Fits(w, [Digit, Digit] + EightDigits)
    ensures TenDigits(w)
  {
    var ks := [Digit, Digit] + EightDigits;
    forall x | 0 <= x < 10 ensures IsDigit(w[x]) {
      assert Holds(ks[x], w[x]) && ks[x] == Digit;
    }
  }

  /** The phone lookup: no number exactly when no pattern matches; otherwise the leftmost
      match of the first pattern that matches anywhere, whatever the later patterns would
      find earlier in the text, with its separators removed. */
  lemma FindPhoneSpec(text: string)
    ensures FindPhone(text).None? <==>
      Search(PhoneFrench, text).None? && Search(PhoneIntl, text).None? && Search(PhoneAny, text).None?
    ensures Search(PhoneFrench, text).Some? ==>
      FindPhone(text) == Some(Strip(Matched(text, Search(PhoneFrench, text).value)))
        && FrenchNumber(FindPhone(text).value)
    ensures Search(PhoneFrench, text).None? && Search(PhoneIntl, text).Some? ==>
      FindPhone(text) == Some(Strip(Matched(text, Search(PhoneIntl, text).value)))
        && IntlNumber(FindPhone(text).value)
    ensures Search(PhoneFrench, text).None? && Search(PhoneIntl, text).None? && Search(PhoneAny, text).Some? ==>
      FindPhone(text) == Some(Strip(Matched(text, Search(PhoneAny, text).value)))
        && TenDigits(FindPhone(text).value)
  {
    var ps := PhonePatterns;
    var t1 := ps[1..];
    var t2 := t1[1..];
    assert ps[0] == PhoneFrench && t1[0] == PhoneIntl && t2[0] == PhoneAny && |t2| == 1;
    assert FirstPhone(t2[1..], text) == None;
    assert FirstPhone(t2, text) ==
      if Search(PhoneAny, text).Some? then Some(Strip(Matched(text, Search(PhoneAny, text).value))) else None;
    assert FirstPhone(t1, text) ==
      if Search(PhoneIntl, text).Some? then Some(Strip(Matched(text, Search(PhoneIntl, text).value)))
      else FirstPhone(t2, text);
    PhoneShapes(text);
  }

  /** `\b` before `+` holds only after a word character, so an international number is
      found only when a letter, digit or `_` sits right before its `+`. */
  lemma IntlNeedsWordBefore(text: string)
    ensures Search(PhoneIntl, text).Some? ==>
      var st := Search(PhoneIntl, text).value.start;
      st < |text| && text[st] == '+' && st > 0 && IsWordChar(text[st - 1])
  {
    if Search(PhoneIntl, text).Some? {
      var st := Search(PhoneIntl, text).value.start;
      var q := PhoneIntl[1..];
      assert PhoneIntl[0] == Boundary;
      assert q == [One(Exactly('+'))] + q[1..];
      OneSteps(Exactly('+'), q[1..], text, st);
      assert !IsWordChar('+');
    }
  }

  /** The surface is a run of digits followed by " M²": the leftmost digits that white
      space and `M²` follow, taken from the start of their run; there is one exactly when
      some position of the text reads so. */
  lemma SurfaceShape(text: string)
    ensures SurfaceOf(text).Some? ==>
      exists d :: |d| > 0 && AllDigits(d) && SurfaceOf(text).value == d + " M\U{00B2}"
    ensures SurfaceOf(text).Some? <==> exists i :: 0 <= i <= |text| && SurfaceAt(text, i)
    ensures forall i :: 0 <= i <= |text| && SurfaceAt(text, i) && (forall j :: 0 <= j < i ==> !SurfaceAt(text, j)) ==>
      && (i == 0 || !IsDigit(text[i - 1]))
      && SurfaceOf(text) == Some(SurfaceValue(text, i) + " M\U{00B2}")
  {
    DigitCapture(Surface, text);
    SurfaceFound(text);
    SurfaceLeftmost(text);
    if SurfaceOf(text).Some? {
      var d := Capture(Surface, text).value;
      assert SurfaceOf(text).value == d + " M\U{00B2}";
    }
  }

  /** The surface pattern matches somewhere exactly when some position reads as SurfaceAt says. */
  lemma SurfaceFound(text: string)
    ensures Capture(Surface, text).Some? <==> exists i :: 0 <= i <= |text| && SurfaceAt(text, i)
  {
    SurfaceRunIff(text);
    CaptureFound(Surface, text, (i: nat) => SurfaceAt(text, i));
  }

  lemma SurfaceRunIff(text: string)
    ensures forall j :: 0 <= j <= |text| ==> (Run(Whole(Surface), text, j).Some? <==> SurfaceAt(text, j))
  {
    forall j | 0 <= j <= |text| ensures Run(Whole(Surface), text, j).Some? <==> SurfaceAt(text, j) {
      SurfaceRun(text, j);
    }
  }

  /** A surface that starts after a digit also starts one position earlier. */
  lemma SurfaceRunStart(text: string, i: nat)
    requires 0 < i && SurfaceAt(text, i) && !SurfaceAt(text, i - 1)
    ensures !IsDigit(text[i - 1])
  {
    if IsDigit(text[i - 1]) {
      StretchStep(Digit, text, i);
    }
  }

  /** The capture of the surface pattern, at its leftmost match, which starts a run of digits. */
  lemma SurfaceLeftmost(text: string)
    ensures forall i :: 0 <= i <= |text| && SurfaceAt(text, i) && (forall j :: 0 <= j < i ==> !SurfaceAt(text, j)) ==>
      && (i == 0 || !IsDigit(text[i - 1]))
      && Capture(Surface, text) == Some(SurfaceValue(text, i))
  {
    forall i | 0 <= i <= |text| && SurfaceAt(text, i) && (forall j :: 0 <= j < i ==> !SurfaceAt(text, j))
      ensures i == 0 || !IsDigit(text[i - 1])
      ensures Capture(Surface, text) == Some(SurfaceValue(text, i))
    {
      SurfaceCapturedAt(text, i);
      if i > 0 {
        SurfaceRunStart(text, i);
      }
    }
  }

  lemma SurfaceCapturedAt(text: string, i: nat)
    requires i <= |text| && SurfaceAt(text, i) && forall j :: 0 <= j < i ==> !SurfaceAt(text, j)
    ensures Capture(Surface, text) == Some(SurfaceValue(text, i))
  {
    SurfaceRunIff(text);
    SurfaceRun(text, i);
    var e := Stretch(Digit, text, i + 1);
    CaptureLeftmost(Surface, text, i, (j: nat) => SurfaceAt(text, j), Hit(Stretch(Space, text, e) + 2, [i, e]));
  }

  /** Whether the request button's `onclick` names a request number (`sendreq(123)`). */
  predicate HasRequestId(onclick: string) {
    Capture(RequestId, onclick).Some?
  }

  /** The request number found in `onclick` is a non-empty run of digits. */
  lemma RequestIdDigits(onclick: string)
    ensures HasRequestId(onclick) ==>
      |Capture(RequestId, onclick).value| > 0 && AllDigits(Capture(RequestId, onclick).value)
  {
    DigitCapture(RequestId, onclick);
  }
}
