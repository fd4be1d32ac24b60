/** The extension popup (chrome-extension/popup.js): the guards in front of a start, the
    retried message to the content script, the handling of the content script's messages,
    the log panel and the time display.

    The popup's DOM is reduced to the values it shows; the browser's answers (the stored
    entries, the active tab's address, the outcome of each `chrome.tabs.sendMessage`) are
    inputs. */
module Popup {
  import opened Wrappers
  import opened Text
  import opened Decimal
  import opened Annonce
  import opened Progress
  import Session
  import Csv

  // ----- Time display -----

  /** `formatTime`: seconds under a minute as "Ns", under an hour as "Mm Ss", beyond as
      "Hh Mm", the seconds then dropped. */
  function FormatTime(seconds: int): (t: string)
    ensures 60 <= seconds ==> |t| >= 5 && ' ' in t
  {
    if seconds < 60 then IntToString(seconds) + "s"
    else if seconds < 3600 then TwoUnits(seconds / 60, 'm', seconds % 60, 's')
    else TwoUnits(seconds / 3600, 'h', seconds % 3600 / 60, 'm')
  }

  /** Two amounts, each followed by its unit letter, separated by a space. */
  function TwoUnits(a: nat, u: char, b: nat, v: char): string {
    (NatToString(a) + [u]) + [' '] + (NatToString(b) + [v])
  }

  /** The text before the first `c`, and the text after it. */
  function SplitAt(t: string, c: char): (r: Option<(string, string)>)
    ensures r.None? <==> c !in t
    ensures r.Some? ==> t == r.value.0 + [c] + r.value.1 && c !in r.value.0
  {
    if |t| == 0 then None
    else if t[0] == c then Some(([], t[1..]))
    else
      match SplitAt(t[1..], c)
      case None => None
      case Some((a, b)) => Some(([t[0]] + a, b))
  }

  lemma {:induction false} SplitAtFirst(a: string, c: char, b: string)
    requires c !in a
    ensures SplitAt(a + [c] + b, c) == Some((a, b))
  {
    if |a| > 0 {
      assert (a + [c] + b)[0] == a[0] && a[0] != c;
      assert (a + [c] + b)[1..] == a[1..] + [c] + b;
      SplitAtFirst(a[1..], c, b);
      assert [a[0]] + a[1..] == a;
    } else {
      assert (a + [c] + b)[1..] == b;
    }
  }

  /** A whole number written in decimal digits, with a minus sign when negative. */
  function Number(t: string): Option<int> {
    if |t| > 1 && t[0] == '-' && AllIn(t[1..], 10) then Some(0 - Decimal.Value(t[1..], 10))
    else if |t| > 0 && AllIn(t, 10) then Some(Decimal.Value(t, 10))
    else None
  }

  /** The number written before the unit letter `u` that ends `t`. */
  function Amount(t: string, u: char): Option<int> {
    if |t| > 0 && t[|t| - 1] == u then Number(t[..|t| - 1]) else None
  }

  /** `x` units of `p` seconds and `y` units of `q` seconds, when both were read. */
  function Both(x: Option<int>, y: Option<int>, p: int, q: int): Option<int> {
    if x.Some? && y.Some? then Some(x.value * p + y.value * q) else None
  }

  /** A displayed time read back as seconds. */
  function ReadTime(t: string): Option<int> {
    match SplitAt(t, ' ')
    case None => Amount(t, 's')
    case Some((a, b)) =>
      if |a| > 0 && a[|a| - 1] == 'm' then Both(Amount(a, 'm'), Amount(b, 's'), 60, 1)
      else Both(Amount(a, 'h'), Amount(b, 'm'), 3600, 60)
  }

  lemma AmountOf(n: nat, u: char)
    ensures Amount(NatToString(n) + [u], u) == Some(n)
  {
    var s := NatToString(n);
    var t := s + [u];
    ValueOfNatToString(n);
    assert t[..|t| - 1] == s;
    NumberOfDigits(s, n);
  }

  /** A run of decimal digits reads as its value. */
  lemma NumberOfDigits(s: string, v: nat)
    requires |s| > 0 && AllDigits(s) && AllIn(s, 10) && Decimal.Value(s, 10) == v
    ensures Number(s) == Some(v)
  {
    assert IsDigit(s[0]);
  }

  /** A minus sign before a run of decimal digits reads as the negated value. */
  lemma NumberOfSigned(s: string, v: nat)
    requires |s| > 0 && AllIn(s, 10) && Decimal.Value(s, 10) == v
    ensures Number("-" + s) == Some(-(v as int))
  {
    var x := "-" + s;
    assert x[0] == '-' && x[1..] == s;
  }

  /** Digits and a minus sign are not spaces. */
  lemma NoSpaceInSigned(s: string)
    requires AllDigits(s)
    ensures ' ' !in s && ' ' !in "-" + s
  {
    var x := "-" + s;
    forall k | 0 <= k < |x| ensures x[k] != ' ' {
      if k > 0 {
        assert x[k] == s[k - 1] && IsDigit(s[k - 1]);
      }
    }
    forall k | 0 <= k < |s| ensures s[k] != ' ' {
      assert IsDigit(s[k]);
    }
  }

  lemma NoSpaceInNumber(n: nat)
    ensures ' ' !in NatToString(n)
  {
    var s := NatToString(n);
    forall i | 0 <= i < |s| ensures s[i] != ' ' {
      assert IsDigit(s[i]);
    }
  }

  /** Reading the display back gives the time exactly below an hour, and the time rounded
      down to the minute from an hour on. */
  lemma ReadFormatTime(seconds: int)
    ensures ReadTime(FormatTime(seconds)) == Some(if seconds < 3600 then seconds else seconds - seconds % 60)
  {
    if seconds < 60 {
      ReadSeconds(seconds);
    } else if seconds < 3600 {
      ReadUnderAnHour(seconds);
    } else {
      ReadFromAnHour(seconds);
    }
  }

  lemma ReadUnderAnHour(seconds: int)
    requires 60 <= seconds < 3600
    ensures ReadTime(TwoUnits(seconds / 60, 'm', seconds % 60, 's')) == Some(seconds)
  {
    ReadMinutes(seconds / 60, seconds % 60, seconds);
  }

  lemma ReadFromAnHour(seconds: int)
    requires 3600 <= seconds
    ensures ReadTime(TwoUnits(seconds / 3600, 'h', seconds % 3600 / 60, 'm')) == Some(seconds - seconds % 60)
  {
    HoursAndMinutes(seconds);
    ReadHours(seconds / 3600, seconds % 3600 / 60, seconds - seconds % 60);
  }

  /** Whole hours and whole minutes make up the time less its seconds. */
  lemma HoursAndMinutes(seconds: nat)
    ensures (seconds / 3600) * 3600 + (seconds % 3600 / 60) * 60 == seconds - seconds % 60
  {
    var q, r := seconds / 3600, seconds % 3600;
    var m, x := r / 60, r % 60;
    assert seconds == q * 3600 + r;
    assert r == m * 60 + x;
    assert seconds == (q * 60 + m) * 60 + x;
    ModOf(seconds, q * 60 + m, x);
  }

  lemma ModOf(n: int, a: int, b: int)
    requires n == a * 60 + b && 0 <= b < 60
    ensures n % 60 == b
  {
  }

  lemma ReadSeconds(seconds: int)
    requires seconds < 60
    ensures ReadTime(IntToString(seconds) + "s") == Some(seconds)
  {
    var x := IntToString(seconds);
    var t := x + "s";
    NumberOfInt(seconds);
    assert t[..|t| - 1] == x;
    assert ' ' !in t by {
      forall k | 0 <= k < |t| ensures t[k] != ' ' {
        if k < |x| {
          assert t[k] == x[k];
        }
      }
    }
    ReadPlain(t);
  }

  /** Any integer's text reads back as that integer, and holds no space. */
  lemma NumberOfInt(i: int)
    ensures Number(IntToString(i)) == Some(i)
    ensures ' ' !in IntToString(i)
  {
    var s := NatToString(if i < 0 then -i else i);
    ValueOfNatToString(if i < 0 then -i else i);
    NoSpaceInSigned(s);
    if i < 0 {
      assert IntToString(i) == "-" + s;
      NumberOfSigned(s, -i);
    } else {
      assert IntToString(i) == s;
      NumberOfDigits(s, i);
    }
  }

  /** A display without a space is read as a single amount of seconds. */
  lemma ReadPlain(t: string)
    requires ' ' !in t
    ensures ReadTime(t) == Amount(t, 's')
  {
    assert SplitAt(t, ' ').None?;
  }

  /** A time with a space reads as minutes and seconds or as hours and minutes. */
  lemma ReadSplit(a: string, b: string)
    requires ' ' !in a && |a| > 0
    ensures a[|a| - 1] == 'm' ==> ReadTime(a + [' '] + b) == Both(Amount(a, 'm'), Amount(b, 's'), 60, 1)
    ensures a[|a| - 1] != 'm' ==> ReadTime(a + [' '] + b) == Both(Amount(a, 'h'), Amount(b, 'm'), 3600, 60)
  {
    SplitAtFirst(a, ' ', b);
  }

  lemma ReadMinutes(minutes: nat, seconds: nat, total: int)
    requires minutes * 60 + seconds == total
    ensures ReadTime(TwoUnits(minutes, 'm', seconds, 's')) == Some(total)
  {
    var a, b := NatToString(minutes) + "m", NatToString(seconds) + "s";
    NoSpaceInNumber(minutes);
    assert ' ' !in a && a[|a| - 1] == 'm';
    ReadSplit(a, b);
    AmountOf(minutes, 'm');
    AmountOf(seconds, 's');
  }

  lemma ReadHours(hours: nat, minutes: nat, total: int)
    requires hours * 3600 + minutes * 60 == total
    ensures ReadTime(TwoUnits(hours, 'h', minutes, 'm')) == Some(total)
  {
    var a, b := NatToString(hours) + "h", NatToString(minutes) + "m";
    NoSpaceInNumber(hours);
    assert ' ' !in a && a[|a| - 1] == 'h';
    ReadSplit(a, b);
    AmountOf(hours, 'h');
    AmountOf(minutes, 'm');
  }

  // ----- Log panel -----

  /** A line of the log panel: its class and its text. */
  datatype LogEntry = LogEntry(kind: string, text: string)

  const MaxLogs := 100

  /** `addLog`: the line, stamped with the local time, appended; past 100 lines the oldest
      one goes. An absent type reads as "info". */
  function AddLog(logs: seq<LogEntry>, text: string, kind: Option<string>, clock: string): (r: seq<LogEntry>)
    ensures |r| == if |logs| < MaxLogs then |logs| + 1 else |logs|
    ensures |logs| <= MaxLogs ==> |r| <= MaxLogs
    ensures r[|r| - 1] == LogEntry(kind.GetOr("info"), "[" + clock + "] " + text)
    ensures |logs| < MaxLogs ==> r[..|logs|] == logs
    ensures |logs| >= MaxLogs ==> r[..|r| - 1] == logs[1..]
  {
    var all := logs + [LogEntry(kind.GetOr("info"), "[" + clock + "] " + text)];
    if |all| > MaxLogs then all[1..] else all
  }

  /** The panel after a run of lines, from an empty one. */
  function Logged(texts: seq<string>, clock: string): seq<LogEntry>
  {
    if |texts| == 0 then [] else AddLog(Logged(texts[..|texts| - 1], clock), texts[|texts| - 1], None, clock)
  }

  function Line(text: string, clock: string): LogEntry {
    LogEntry("info", "[" + clock + "] " + text)
  }

  /** After any number of lines the panel holds the last 100 of them, in order. */
  lemma {:induction false} LoggedKeepsLast(texts: seq<string>, clock: string)
    ensures var r := Logged(texts, clock);
      var n := |texts|;
      && |r| == (if n < MaxLogs then n else MaxLogs)
      && forall j :: 0 <= j < |r| ==> r[j] == Line(texts[n - |r| + j], clock)
  {
    var n := |texts|;
    if n > 0 {
      var prev := texts[..n - 1];
      LoggedKeepsLast(prev, clock);
      var before := Logged(prev, clock);
      var r := Logged(texts, clock);
      forall j | 0 <= j < |r| ensures r[j] == Line(texts[n - |r| + j], clock) {
        if j < |r| - 1 {
          var d := if |before| < MaxLogs then 0 else 1;
          AddLogShift(before, texts[n - 1], None, clock, j);
          assert r[j] == before[j + d];
          assert before[j + d] == Line(prev[n - 1 - |before| + j + d], clock);
        }
      }
    }
  }

  /** Every line but the new one is an older line, moved down one place when the oldest
      went. */
  lemma AddLogShift(logs: seq<LogEntry>, text: string, kind: Option<string>, clock: string, j: nat)
    requires j < |AddLog(logs, text, kind, clock)| - 1
    ensures var d := if |logs| < MaxLogs then 0 else 1;
      j + d < |logs| && AddLog(logs, text, kind, clock)[j] == logs[j + d]
  {
    var r := AddLog(logs, text, kind, clock);
    if |logs| < MaxLogs {
      assert r[j] == r[..|logs|][j];
    } else {
      assert r[j] == r[..|r| - 1][j];
    }
  }

  // ----- Messages to the content script -----

  const NotLoaded := "Le script d'extraction n'est pas chargé. Rechargez la page BEP et réessayez."

  /** The error the last failed attempt reports: a missing receiver is explained. */
  function LastError(message: string): (e: string)
    ensures Contains(message, "Receiving end does not exist") ==> e == NotLoaded
    ensures !Contains(message, "Receiving end does not exist") ==> e == message
  {
    if Contains(message, "Receiving end does not exist") then NotLoaded else message
  }

  /** `sendMessageWithRetry`: up to `maxRetries` attempts, `attempt(i)` the error attempt
      `i` meets (`None`: delivered). The number of attempts made is returned on success;
      when `maxRetries` is not positive nothing is sent and the call still succeeds. */
  method SendMessageWithRetry(maxRetries: int, attempt: nat -> Option<string>) returns (r: Result<nat>)
    ensures maxRetries <= 0 ==> r == Ok(0)
    ensures r.Fail? <==> maxRetries > 0 && forall j :: 0 <= j < maxRetries ==> attempt(j).Some?
    ensures r.Ok? && maxRetries > 0 ==>
      && 1 <= r.value <= maxRetries && attempt(r.value - 1).None?
      && forall j :: 0 <= j < r.value - 1 ==> attempt(j).Some?
    ensures r.Fail? ==> r.error == LastError(attempt(maxRetries - 1).value)
  {
    var i := 0;
    while i < maxRetries
      invariant 0 <= i && (i < maxRetries || maxRetries <= 0)
      invariant forall j :: 0 <= j < i ==> attempt(j).Some?
    {
      match attempt(i) {
        case None =>
          return Ok(i + 1);
        case Some(message) =>
          if i == maxRetries - 1 {
            return Fail(LastError(message));
          }
      }
      i := i + 1;
    }
    return Ok(0);
  }

  // ----- Popup state -----

  /** What the popup holds: the run flag, the figures last received, the figures stored
      for the next opening, the status line and the log panel. */
  datatype State = State(
    isExtracting: bool,
    extracted: Value, total: Value, phones: Value, progress: Value,
    elapsedTime: Value, estimatedTimeRemaining: Value, estimatedTotalTime: Value,
    stored: Option<Obj>,
    status: (string, string),
    logs: seq<LogEntry>)

  /** JavaScript truthiness of a value read from an object (`None`: undefined). */
  predicate TruthyValue(v: Option<Value>) {
    match v
    case None => false
    case Some(Null) => false
    case Some(Str(s)) => s != ""
    case Some(Int(i)) => i != 0
    case Some(Bool(b)) => b
    case Some(Arr(_)) => true
  }

  /** `v || 0`. */
  function OrZero(v: Option<Value>): (r: Value)
    ensures TruthyValue(v) ==> Some(r) == v
    ensures !TruthyValue(v) ==> r == Int(0)
  {
    if TruthyValue(v) then v.value else Int(0)
  }

  /** `${v}`: how a value reads inside a template string. */
  function ValueText(v: Option<Value>): string {
    match v
    case None => "undefined"
    case Some(Null) => "null"
    case Some(Str(s)) => s
    case Some(Int(i)) => IntToString(i)
    case Some(Bool(b)) => if b then "true" else "false"
    case Some(Arr(items)) => Join(seq(|items|, k requires 0 <= k < |items| => items[k].GetOr("")), ",")
  }

  /** A message from the content script; `data` is `None` when the message has none. */
  datatype Message = Message(
    action: string, version: Option<Value>, data: Option<Obj>, text: string, kind: Option<string>,
    error: Option<Value>)

  /** The figures shown, as `updateStats` stores them. */
  function StoredStats(p: State): Obj {
    [("extracted", p.extracted), ("total", p.total), ("phones", p.phones), ("progress", p.progress)]
  }

  /** `handleMessage`, the local time being `clock`. Reading a field of missing `data`
      throws and ends the handler where it stands. */
  function HandleMessage(p: State, m: Message, clock: string): (r: State)
    ensures m.action == "updateStats" && m.data.Some? ==>
      && r.extracted == OrZero(Get(m.data.value, "extracted"))
      && r.total == OrZero(Get(m.data.value, "total"))
      && r.phones == OrZero(Get(m.data.value, "phones"))
      && r.progress == OrZero(Get(m.data.value, "progress"))
      && r.elapsedTime == OrZero(Get(m.data.value, "elapsedTime"))
      && r.estimatedTimeRemaining == OrZero(Get(m.data.value, "estimatedTimeRemaining"))
      && r.estimatedTotalTime == OrZero(Get(m.data.value, "estimatedTotalTime"))
      && r.stored == Some(StoredStats(r)) && r.isExtracting == p.isExtracting
    ensures m.action in {"extractionComplete", "extractionError"} ==> !r.isExtracting
    ensures m.action !in {"extractionComplete", "extractionError"} ==> r.isExtracting == p.isExtracting
    ensures m.action == "log" ==> r.logs == AddLog(p.logs, m.text, m.kind, clock)
    ensures m.action !in {"contentScriptReady", "updateStats", "log", "extractionComplete", "extractionError"} ==>
      r == p
    ensures m.action == "updateStats" && m.data.None? ==> r == p
  {
    match m.action
    case "contentScriptReady" =>
      var version := if TruthyValue(m.version) then ValueText(m.version) else "inconnue";
      p.(logs := AddLog(p.logs, "\U{2705} Script d'extraction chargé et prêt - " + version, Some("success"), clock),
         status := ("connected", "Prêt pour l'extraction"))
    case "updateStats" =>
      if m.data.None? then p
      else
        var d := m.data.value;
        var q := p.(extracted := OrZero(Get(d, "extracted")), total := OrZero(Get(d, "total")),
                    phones := OrZero(Get(d, "phones")), progress := OrZero(Get(d, "progress")),
                    elapsedTime := OrZero(Get(d, "elapsedTime")),
                    estimatedTimeRemaining := OrZero(Get(d, "estimatedTimeRemaining")),
                    estimatedTotalTime := OrZero(Get(d, "estimatedTotalTime")));
        q.(stored := Some(StoredStats(q)))
    case "log" =>
      p.(logs := AddLog(p.logs, m.text, m.kind, clock))
    case "extractionComplete" =>
      var q := p.(isExtracting := false, status := ("connected", "Extraction terminée"));
      if m.data.None? then q
      else
        var d := m.data.value;
        q.(logs := AddLog(q.logs, "Extraction terminée: " + ValueText(Get(d, "extracted")) + " annonces, "
                                  + ValueText(Get(d, "phones")) + " téléphones", Some("success"), clock))
    case "extractionError" =>
      p.(isExtracting := false, status := ("connected", "Erreur d'extraction"),
         logs := AddLog(p.logs, "Erreur: " + ValueText(m.error), Some("error"), clock))
    case _ => p
  }

  /** The `updateStats` payload of the content script, as an object. */
  function Payload(d: StatsData): Obj {
    [("extracted", Int(d.extracted)), ("phones", Int(d.phones)), ("total", Int(d.total)),
     ("elapsedTime", Int(d.elapsedTime)), ("estimatedTimeRemaining", Int(d.estimatedTimeRemaining)),
     ("estimatedTotalTime", Int(d.estimatedTotalTime)), ("progress", Int(d.progress))]
  }

  /** The popup shows exactly the figures the content script sends: a zero read as falsy
      falls back to the same zero. */
  lemma StatsReceived(p: State, d: StatsData, clock: string)
    ensures var r := HandleMessage(p, Message("updateStats", None, Some(Payload(d)), "", None, None), clock);
      && r.extracted == Int(d.extracted) && r.phones == Int(d.phones) && r.total == Int(d.total)
      && r.progress == Int(d.progress) && r.elapsedTime == Int(d.elapsedTime)
      && r.estimatedTimeRemaining == Int(d.estimatedTimeRemaining)
      && r.estimatedTotalTime == Int(d.estimatedTotalTime)
  {
    PayloadFields(d);
  }

  lemma PayloadFields(d: StatsData)
    ensures OrZero(Get(Payload(d), "extracted")) == Int(d.extracted)
    ensures OrZero(Get(Payload(d), "phones")) == Int(d.phones)
    ensures OrZero(Get(Payload(d), "total")) == Int(d.total)
    ensures OrZero(Get(Payload(d), "elapsedTime")) == Int(d.elapsedTime)
    ensures OrZero(Get(Payload(d), "estimatedTimeRemaining")) == Int(d.estimatedTimeRemaining)
    ensures OrZero(Get(Payload(d), "estimatedTotalTime")) == Int(d.estimatedTotalTime)
    ensures OrZero(Get(Payload(d), "progress")) == Int(d.progress)
  {
    PayloadFigure(d, 0);
    PayloadFigure(d, 1);
    PayloadFigure(d, 2);
    PayloadFigure(d, 3);
    PayloadFigure(d, 4);
    PayloadFigure(d, 5);
    PayloadFigure(d, 6);
  }

  lemma PayloadFigure(d: StatsData, k: nat)
    requires k < 7
    ensures OrZero(Get(Payload(d), Payload(d)[k].0)) == Payload(d)[k].1
  {
    PayloadField(d, k);
  }

  lemma PayloadField(d: StatsData, k: nat)
    requires k < 7
    ensures Get(Payload(d), Payload(d)[k].0) == Some(Payload(d)[k].1)
  {
    PayloadKeys(d);
    GetAt(Payload(d), k);
  }

  /** The payload names each figure once. */
  lemma PayloadKeys(d: StatsData)
    ensures forall i, j :: 0 <= i < j < |Payload(d)| ==> Payload(d)[i].0 != Payload(d)[j].0
  {
    var o := Payload(d);
    assert o[0].0[1] == 'x' && o[1].0[0] == 'p' && o[2].0[0] == 't' && o[3].0[1] == 'l';
    assert o[4].0[1] == 's' && o[5].0[1] == 's' && o[6].0[0] == 'p';
    assert o[4].0[10] == 'i' && o[5].0[10] == 'o';
    assert o[1].0[1] == 'h' && o[6].0[1] == 'r';
  }

  /** The value under a key that occurs once, at `k`. */
  lemma GetAt(o: Obj, k: nat)
    requires k < |o| && forall j :: 0 <= j < |o| && j != k ==> o[j].0 != o[k].0
    ensures Get(o, o[k].0) == Some(o[k].1)
  {
    var r := Get(o, o[k].0);
    assert HasKey(o, o[k].0);
    var j :| 0 <= j < |o| && o[j] == (o[k].0, r.value);
  }

  // ----- Starting and stopping -----

  /** The stored credentials; a field is `None` when missing. */
  datatype Credentials = Credentials(username: Option<string>, password: Option<string>)

  /** How a click on "start" ended. */
  datatype Start =
    | AlreadyRunning
    | MissingCredentials
    | FirebaseMissing
    | Started(options: Session.Options, attempts: nat)
    | StartFailed(message: string)

  const WrongSite := "Veuillez naviguer vers le site BEP (abonnes.beplogement.com)"

  const StoppedByUser := "Extraction arrêtée par l'utilisateur"

  /** `stopExtraction`: the popup turns idle and asks the content script to stop; the
      warning line is logged only when the tab accepts the message (`delivered`). */
  function StopExtraction(p: State, delivered: bool, clock: string): (r: State)
    ensures !r.isExtracting && r.status == ("connected", "Extraction arrêtée")
    ensures delivered ==> r.logs == AddLog(p.logs, StoppedByUser, Some("warning"), clock)
    ensures !delivered ==> r.logs == p.logs
    ensures r.stored == p.stored && r.extracted == p.extracted && r.total == p.total
  {
    var logs := if delivered then AddLog(p.logs, StoppedByUser, Some("warning"), clock) else p.logs;
    p.(isExtracting := false, status := ("connected", "Extraction arrêtée"), logs := logs)
  }

  /** After a stop the tab accepted, the panel ends with the warning line, stays within 100
      lines, and the lines before it are the latest lines of the old panel, in order; a
      refused stop leaves the panel as it was. */
  lemma StopLogsWarning(p: State, delivered: bool, clock: string)
    requires |p.logs| <= MaxLogs
    ensures var r := StopExtraction(p, delivered, clock);
      && |r.logs| <= MaxLogs
      && (delivered ==>
            && |r.logs| > 0
            && r.logs[|r.logs| - 1] == LogEntry("warning", "[" + clock + "] " + StoppedByUser)
            && exists k :: 0 <= k <= |p.logs| && r.logs[..|r.logs| - 1] == p.logs[k..])
      && (!delivered ==> r.logs == p.logs)
  {
    if delivered {
      var r := StopExtraction(p, delivered, clock);
      if |p.logs| < MaxLogs {
        assert r.logs[..|r.logs| - 1] == p.logs[0..];
      } else {
        assert r.logs[..|r.logs| - 1] == p.logs[1..];
      }
    }
  }

  /** `startExtraction`: refused while a run is on, without a user name and password, or
      with Firestore chosen and not configured; the destination defaults to "csv". Then
      the popup turns busy and sends the options to the tab, which must be on the BEP
      site; if that fails the popup stops again. The log lines of the click are not
      kept. */
  method StartExtraction(p: State, creds: Option<Credentials>, firebaseConfig: bool, radio: Option<string>,
                         extractPhones: bool, batchMode: bool, tabUrl: Option<string>,
                         attempt: nat -> Option<string>)
    returns (r: State, outcome: Start)
    ensures p.isExtracting <==> outcome == AlreadyRunning
    ensures outcome.MissingCredentials? <==>
      !p.isExtracting && !(creds.Some? && Truthy(creds.value.username) && Truthy(creds.value.password))
    ensures outcome.FirebaseMissing? <==>
      && !p.isExtracting && creds.Some? && Truthy(creds.value.username) && Truthy(creds.value.password)
      && radio == Some("firebase") && !firebaseConfig
    ensures outcome in {AlreadyRunning, MissingCredentials, FirebaseMissing} ==> r == p
    ensures outcome.Started? ==>
      && r.isExtracting && tabUrl.Some? && Contains(tabUrl.value, "abonnes.beplogement.com")
      && outcome.options == Session.Options(batchMode, extractPhones, Some(radio.GetOr("csv")))
      && 1 <= outcome.attempts <= 3
    ensures outcome.StartFailed? ==> !r.isExtracting
    ensures outcome.StartFailed? && !(tabUrl.Some? && Contains(tabUrl.value, "abonnes.beplogement.com")) ==>
      outcome.message == WrongSite
    ensures outcome.StartFailed? && tabUrl.Some? && Contains(tabUrl.value, "abonnes.beplogement.com") ==>
      (forall j :: 0 <= j < 3 ==> attempt(j).Some?) && outcome.message == LastError(attempt(2).value)
    ensures
      && !p.isExtracting && creds.Some? && Truthy(creds.value.username) && Truthy(creds.value.password)
      && !(radio == Some("firebase") && !firebaseConfig)
      && tabUrl.Some? && Contains(tabUrl.value, "abonnes.beplogement.com")
      && (exists j :: 0 <= j < 3 && attempt(j).None?)
      ==> outcome.Started?
  {
    if p.isExtracting {
      return p, AlreadyRunning;
    }
    if !(creds.Some? && Truthy(creds.value.username) && Truthy(creds.value.password)) {
      return p, MissingCredentials;
    }
    var destination := radio.GetOr("csv");
    if destination == "firebase" && !firebaseConfig {
      return p, FirebaseMissing;
    }
    var busy := p.(isExtracting := true, status := ("processing", "Extraction en cours..."));
    // On failure the stop message goes to a tab that did not answer, so it is not
    // delivered and logs nothing.
    if !(tabUrl.Some? && Contains(tabUrl.value, "abonnes.beplogement.com")) {
      return StopExtraction(busy, false, ""), StartFailed(WrongSite);
    }
    var options := Session.Options(batchMode, extractPhones, Some(destination));
    var sent := SendMessageWithRetry(3, attempt);
    match sent {
      case Ok(n) =>
        return busy, Started(options, n);
      case Fail(message) =>
        return StopExtraction(busy, false, ""), StartFailed(message);
    }
  }

  // ----- Exporting -----

  /** How a click on "export" ended. */
  datatype Export =
    | NothingToExport
    | UnsupportedFormat
    | CsvExport(content: string, count: nat)

  /** `exportData`: the stored listings (none when nothing is stored) written as CSV by
      popup.js's own `convertToCSV`; an empty store or another format is refused. */
  function ExportData(stored: Option<seq<Record>>, format: string): (x: Export)
    ensures x == NothingToExport <==> |stored.GetOr([])| == 0
    ensures x == UnsupportedFormat <==> |stored.GetOr([])| > 0 && format != "csv"
    ensures x.CsvExport? ==> x.count == |stored.value| && format == "csv"
    ensures x.CsvExport? ==> x.content == Csv.PopupCsv(Csv.RecordRows(stored.value))
  {
    var data := stored.GetOr([]);
    if |data| == 0 then NothingToExport
    else if format == "csv" then CsvExport(Csv.PopupCsv(Csv.RecordRows(data)), |data|)
    else UnsupportedFormat
  }

  /** The exported file reads back as the text of every stored listing's fields, under the
      fifteen field names, when every listing is written plainly: a text either holds a
      comma or needs no quotes, and there is at most one image link
      (`Csv.PopupCsvSplitsArrays` shows two links splitting into two cells). */
  lemma ExportReadsBack(data: seq<Record>)
    requires |data| > 0
    requires forall i :: 0 <= i < |data| ==> Csv.PopupPlainRecord(data[i])
    ensures ExportData(Some(data), "csv").CsvExport?
    ensures var t := Csv.Cells(Csv.RecordRows(data), Csv.PopupRaw);
      && Csv.Parse(ExportData(Some(data), "csv").content) == t
      && t[0] == RecordKeys && |t| == |data| + 1
  {
    Csv.PopupListingRoundTrip(data);
  }
}
