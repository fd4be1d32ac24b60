/** The two CSV writers (chrome-extension/content.js `convertToCSV`, chrome-extension/popup.js
    `convertToCSV`) and a reader for the format of RFC 4180 to check them against: records
    end at a line feed, fields are separated by commas, a field that starts with a double
    quote runs to the matching closing quote, and `""` inside it stands for one quote. */
module Csv {
  import opened Wrappers
  import opened Text
  import opened Decimal
  import opened Annonce

  // ----- Writing -----

  predicate Has(s: string, ch: char) {
    exists i :: 0 <= i < |s| && s[i] == ch
  }

  /** Every double quote doubled. `DoubleCounts` says what that adds, and `QuotedBodyOf`
      reads `c` back from it. */
  function Double(c: string): (r: string)
    ensures |r| >= |c|
  {
    if |c| == 0 then ""
    else (if c[0] == '"' then "\"\"" else [c[0]]) + Double(c[1..])
  }

  /** Doubling gives twice as many quotes and the same number of every other character. */
  lemma {:induction false} DoubleCounts(c: string)
    ensures multiset(Double(c))['"'] == 2 * multiset(c)['"']
    ensures forall x :: x != '"' ==> multiset(Double(c))[x] == multiset(c)[x]
  {
    if |c| > 0 {
      DoubleCounts(c[1..]);
      DoubleHead(c);
    }
  }

  /** The characters of `Double(c)`: those of its first piece and of the rest. */
  lemma DoubleHead(c: string)
    requires |c| > 0
    ensures multiset(c) == multiset{c[0]} + multiset(c[1..])
    ensures multiset(Double(c)) ==
      (if c[0] == '"' then multiset{'"', '"'} else multiset{c[0]}) + multiset(Double(c[1..]))
  {
    assert c == [c[0]] + c[1..];
    if c[0] == '"' {
      assert multiset("\"\"" + Double(c[1..])) == multiset{'"', '"'} + multiset(Double(c[1..]));
    } else {
      assert multiset([c[0]] + Double(c[1..])) == multiset{c[0]} + multiset(Double(c[1..]));
    }
  }

  /** Doubling adds one character per quote, and keeps a text without quotes as it is. */
  lemma {:induction false} DoubleLength(c: string)
    ensures |Double(c)| == |c| + multiset(c)['"']
    ensures multiset(c)['"'] == 0 ==> Double(c) == c
  {
    if |c| > 0 {
      DoubleLength(c[1..]);
      assert c == [c[0]] + c[1..];
      assert multiset(c)['"'] == multiset([c[0]])['"'] + multiset(c[1..])['"'];
    }
  }

  /** A field enclosed in double quotes, inner quotes doubled. */
  function Quote(c: string): string {
    "\"" + Double(c) + "\""
  }

  /** A field that needs no quotes: no comma, no quote, no line feed. */
  predicate Bare(c: string) {
    forall i :: 0 <= i < |c| ==> c[i] != ',' && c[i] != '"' && c[i] != '\n'
  }

  /** `e` is a correct way to write the field `c`. */
  predicate Written(c: string, e: string) {
    (e == c && Bare(c)) || e == Quote(c)
  }

  function Lines(table: seq<seq<string>>): (r: seq<string>)
    ensures |r| == |table| && forall i :: 0 <= i < |table| ==> r[i] == Join(table[i], ",")
  {
    seq(|table|, i requires 0 <= i < |table| => Join(table[i], ","))
  }

  /** Fields joined by commas, records by line feeds, no line feed at the end. */
  function Render(table: seq<seq<string>>): string {
    Join(Lines(table), "\n")
  }

  // ----- Reading -----

  /** A field end: the end of the text, a comma, or a line feed. */
  predicate Stop(rest: string) {
    |rest| == 0 || rest[0] == ',' || rest[0] == '\n'
  }

  /** An unquoted field: everything up to the next comma or line feed. */
  function Unquoted(s: string): (r: (string, string))
    ensures |r.1| <= |s| && Stop(r.1)
  {
    if Stop(s) then ("", s)
    else
      var (f, rest) := Unquoted(s[1..]);
      ([s[0]] + f, rest)
  }

  /** The inside of a quoted field, from after the opening quote: `""` stands for a quote,
      a lone quote closes the field. An unterminated field runs to the end of the text. */
  function QuotedBody(s: string): (r: (string, string))
    ensures |r.1| < |s| || (|s| == 0 && r.1 == "")
  {
    if |s| == 0 then ("", "")
    else if s[0] == '"' then
      if |s| > 1 && s[1] == '"' then
        var (f, rest) := QuotedBody(s[2..]);
        (['"'] + f, rest)
      else ("", s[1..])
    else
      var (f, rest) := QuotedBody(s[1..]);
      ([s[0]] + f, rest)
  }

  /** One field and what follows it. */
  function Field(s: string): (r: (string, string))
    ensures |r.1| <= |s|
  {
    if |s| > 0 && s[0] == '"' then QuotedBody(s[1..]) else Unquoted(s)
  }

  /** The fields of one record, and what follows the record. */
  function Fields(s: string): (r: (seq<string>, string))
    ensures |r.0| >= 1 && |r.1| <= |s|
    decreases |s|
  {
    var (f, rest) := Field(s);
    if |rest| > 0 && rest[0] == ',' then
      var (fs, rest2) := Fields(rest[1..]);
      ([f] + fs, rest2)
    else ([f], rest)
  }

  /** The records of a text: a record ends at a line feed, and the text ends the last. */
  function Parse(s: string): (r: seq<seq<string>>)
    ensures |r| >= 1
    decreases |s|
  {
    var (fs, rest) := Fields(s);
    if |rest| > 0 && rest[0] == '\n' then [fs] + Parse(rest[1..]) else [fs]
  }

  // ----- The round trip -----

  lemma {:induction false} UnquotedBare(c: string, rest: string)
    requires Bare(c) && Stop(rest)
    ensures Unquoted(c + rest) == (c, rest)
  {
    if |c| > 0 {
      assert (c + rest)[0] == c[0] && !Stop(c + rest);
      assert (c + rest)[1..] == c[1..] + rest;
      UnquotedBare(c[1..], rest);
      assert [c[0]] + c[1..] == c;
    } else {
      assert c + rest == rest;
    }
  }

  lemma {:induction false} QuotedBodyOf(c: string, rest: string)
    requires Stop(rest)
    ensures QuotedBody(Double(c) + "\"" + rest) == (c, rest)
  {
    var s := Double(c) + "\"" + rest;
    if |c| == 0 {
      assert s == "\"" + rest;
      assert s[1..] == rest;
    } else {
      QuotedBodyOf(c[1..], rest);
      if c[0] == '"' {
        assert Double(c) == "\"\"" + Double(c[1..]);
        assert s == "\"\"" + (Double(c[1..]) + "\"" + rest);
        assert |s| > 1 && s[0] == '"' && s[1] == '"';
        assert s[2..] == Double(c[1..]) + "\"" + rest;
        assert ['"'] + c[1..] == c;
      } else {
        assert Double(c) == [c[0]] + Double(c[1..]);
        assert s == [c[0]] + (Double(c[1..]) + "\"" + rest);
        assert s[0] == c[0] && s[0] != '"';
        assert s[1..] == Double(c[1..]) + "\"" + rest;
        assert [c[0]] + c[1..] == c;
      }
    }
  }

  lemma FieldOf(c: string, e: string, rest: string)
    requires Written(c, e) && Stop(rest)
    ensures Field(e + rest) == (c, rest)
  {
    if e == Quote(c) {
      assert (e + rest)[0] == '"';
      assert (e + rest)[1..] == Double(c) + "\"" + rest;
      QuotedBodyOf(c, rest);
    } else {
      assert |c| > 0 ==> (e + rest)[0] == c[0];
      assert |c| == 0 ==> e + rest == rest;
      UnquotedBare(c, rest);
    }
  }

  /** A record written field by field reads back as those fields. */
  lemma {:induction false} FieldsOf(cells: seq<string>, es: seq<string>, rest: string)
    requires |cells| == |es| >= 1
    requires forall j :: 0 <= j < |es| ==> Written(cells[j], es[j])
    requires |rest| == 0 || rest[0] == '\n'
    ensures Fields(Join(es, ",") + rest) == (cells, rest)
    decreases |es|
  {
    if |es| == 1 {
      assert Join(es, ",") == es[0];
      FieldOf(cells[0], es[0], rest);
      assert cells == [cells[0]];
    } else {
      var tail := Join(es[1..], ",") + rest;
      var s := Join(es, ",") + rest;
      assert s == es[0] + ("," + tail);
      FieldOf(cells[0], es[0], "," + tail);
      assert Field(s) == (cells[0], "," + tail);
      assert ("," + tail)[1..] == tail;
      assert Fields(s) == ([cells[0]] + Fields(tail).0, Fields(tail).1);
      FieldsOf(cells[1..], es[1..], rest);
      assert cells == [cells[0]] + cells[1..];
    }
  }

  /** Reading back a rendered table gives the fields as they were before escaping,
      provided each was written correctly. */
  lemma {:induction false} ParseRender(t: seq<seq<string>>, et: seq<seq<string>>)
    requires |t| == |et| >= 1
    requires forall i :: 0 <= i < |t| ==> |t[i]| == |et[i]| >= 1
    requires forall i, j :: 0 <= i < |t| && 0 <= j < |t[i]| ==> Written(t[i][j], et[i][j])
    ensures Parse(Render(et)) == t
    decreases |et|
  {
    var ls := Lines(et);
    if |et| == 1 {
      assert Render(et) == Join(et[0], ",") + "";
      FieldsOf(t[0], et[0], "");
    } else {
      assert Lines(et[1..]) == ls[1..];
      var rest := Render(et[1..]);
      assert Render(et) == Join(et[0], ",") + ("\n" + rest);
      FieldsOf(t[0], et[0], "\n" + rest);
      assert ("\n" + rest)[1..] == rest;
      ParseRender(t[1..], et[1..]);
      assert t == [t[0]] + t[1..];
    }
  }

  // ----- Tables of objects -----

  /** `Object.keys(data[0])` as the header row, then for each object the value under each
      header, turned into text by `cell`. */
  function Cells(rows: seq<Obj>, cell: Option<Value> -> string): (t: seq<seq<string>>)
    requires |rows| > 0
    ensures |t| == |rows| + 1
    ensures forall i :: 0 <= i < |t| ==> |t[i]| == |rows[0]|
  {
    var headers := seq(|rows[0]|, j requires 0 <= j < |rows[0]| => rows[0][j].0);
    [headers] + seq(|rows|, i requires 0 <= i < |rows| =>
      seq(|headers|, j requires 0 <= j < |headers| => cell(Get(rows[i], headers[j]))))
  }

  /** The elements of an array as `join` writes them: `undefined` as the empty string. */
  function Texts(items: seq<Option<string>>): (r: seq<string>)
    ensures |r| == |items|
  {
    seq(|items|, k requires 0 <= k < |items| => items[k].GetOr(""))
  }

  // content.js

  /** The text of a cell before escaping: arrays joined with `;`, falsy values empty. */
  function ContentRaw(v: Option<Value>): string {
    match v
    case None => ""
    case Some(Null) => ""
    case Some(Str(s)) => s
    case Some(Int(i)) => if i == 0 then "" else IntToString(i)
    case Some(Bool(b)) => if b then "true" else ""
    case Some(Arr(items)) => Join(Texts(items), ";")
  }

  /** content.js quotes a value holding a comma or a quote, but not one holding a line
      feed. */
  function ContentEscape(s: string): (e: string)
    ensures Has(s, ',') || Has(s, '"') ==> e == Quote(s)
    ensures !Has(s, ',') && !Has(s, '"') ==> e == s
    ensures !Has(s, '\n') ==> Written(s, e)
  {
    if Has(s, ',') || Has(s, '"') then Quote(s) else s
  }

  function ContentCell(v: Option<Value>): string {
    ContentEscape(ContentRaw(v))
  }

  /** `convertToCSV` of content.js, as written. */
  function ContentCsv(rows: seq<Obj>): string {
    if |rows| == 0 then "" else Render(Cells(rows, ContentCell))
  }

  predicate BareKeys(o: Obj) {
    forall j :: 0 <= j < |o| ==> Bare(o[j].0)
  }

  /** No cell text holds a line feed. */
  predicate NoLineFeed(rows: seq<Obj>, raw: Option<Value> -> string)
    requires |rows| > 0
  {
    forall i, j :: 0 <= i < |rows| && 0 <= j < |rows[0]| ==> !Has(raw(Get(rows[i], rows[0][j].0)), '\n')
  }

  /** Header cells are written as they are; they read back when they need no quotes. */
  lemma HeadersWritten(rows: seq<Obj>, cell: Option<Value> -> string, raw: Option<Value> -> string)
    requires |rows| > 0 && BareKeys(rows[0])
    ensures forall j :: 0 <= j < |rows[0]| ==> Written(Cells(rows, raw)[0][j], Cells(rows, cell)[0][j])
  {
  }

  /** The content.js file reads back cell for cell when no value holds a line feed. */
  lemma ContentCsvRoundTrip(rows: seq<Obj>)
    requires |rows| > 0 && |rows[0]| > 0 && BareKeys(rows[0])
    requires NoLineFeed(rows, ContentRaw)
    ensures Parse(ContentCsv(rows)) == Cells(rows, ContentRaw)
  {
    var t, et := Cells(rows, ContentRaw), Cells(rows, ContentCell);
    HeadersWritten(rows, ContentCell, ContentRaw);
    forall i, j | 0 <= i < |t| && 0 <= j < |t[i]| ensures Written(t[i][j], et[i][j]) {
      if i > 0 {
        assert t[i][j] == ContentRaw(Get(rows[i - 1], rows[0][j].0));
        assert et[i][j] == ContentCell(Get(rows[i - 1], rows[0][j].0));
        assert !Has(t[i][j], '\n');
      }
    }
    ParseRender(t, et);
  }

  /** The table of a single object with a single member. */
  lemma CellsOne(key: string, v: Value, cell: Option<Value> -> string)
    ensures Cells([[(key, v)]], cell) == [[key], [cell(Some(v))]]
  {
    var rows: seq<Obj> := [[(key, v)]];
    assert Get(rows[0], key) == Some(v);
    var t := Cells(rows, cell);
    assert t[0] == [key];
    assert t[1] == [cell(Some(v))];
  }

  /** Three one-field records. */
  lemma RenderThree(a: string, b: string, c: string)
    ensures Render([[a], [b], [c]]) == a + "\n" + b + "\n" + c
  {
    var t := [[a], [b], [c]];
    assert Join([a], ",") == a && Join([b], ",") == b && Join([c], ",") == c;
    assert Lines(t) == [a, b, c];
    assert [a, b, c][1..] == [b, c] && [b, c][1..] == [c];
    assert Join([b, c], "\n") == b + "\n" + c;
    assert Join([a, b, c], "\n") == a + "\n" + (b + "\n" + c);
  }

  /** A description spanning two lines is read back as two records. */
  lemma ContentCsvSplitsLines()
    ensures Cells([[("description", Str("a\nb"))]], ContentRaw) == [["description"], ["a\nb"]]
    ensures Parse(ContentCsv([[("description", Str("a\nb"))]])) == [["description"], ["a"], ["b"]]
  {
    ContentCsvTwoLines();
    ParseBareThree();
  }

  lemma ContentCsvTwoLines()
    ensures Cells([[("description", Str("a\nb"))]], ContentRaw) == [["description"], ["a\nb"]]
    ensures ContentCsv([[("description", Str("a\nb"))]]) == Render([["description"], ["a"], ["b"]])
  {
    var rows: seq<Obj> := [[("description", Str("a\nb"))]];
    CellsOne("description", Str("a\nb"), ContentRaw);
    CellsOne("description", Str("a\nb"), ContentCell);
    var v := "a\nb";
    assert v[0] == 'a' && v[1] == '\n' && v[2] == 'b';
    assert !Has(v, ',') && !Has(v, '"');
    assert ContentCell(Some(Str(v))) == v;
    var et := [["description"], [v]];
    assert Join(["description"], ",") == "description" && Join([v], ",") == v;
    assert Lines(et) == ["description", v];
    assert ["description", v][1..] == [v];
    assert Cells(rows, ContentCell) == et;
    assert Render(et) == Join(["description", v], "\n");
    assert Join(["description", v], "\n") == "description" + "\n" + v;
    assert ContentCsv(rows) == "description" + "\n" + v;
    RenderThree("description", "a", "b");
  }

  lemma ParseBareThree()
    ensures Parse(Render([["description"], ["a"], ["b"]])) == [["description"], ["a"], ["b"]]
  {
    var t := [["description"], ["a"], ["b"]];
    forall i, j | 0 <= i < |t| && 0 <= j < |t[i]| ensures Written(t[i][j], t[i][j]) {
      assert Bare(t[i][j]);
    }
    ParseRender(t, t);
  }

  /** The escape content.js evidently intends: line feeds and carriage returns quoted too. */
  function SafeEscape(s: string): (e: string)
    ensures Written(s, e)
    ensures Has(s, ',') || Has(s, '"') || Has(s, '\n') || Has(s, '\r') <==> e == Quote(s) && e != s
  {
    if Has(s, ',') || Has(s, '"') || Has(s, '\n') || Has(s, '\r') then
      assert |Quote(s)| > |s|;
      Quote(s)
    else
      assert |Quote(s)| > |s|;
      s
  }

  function SafeContentCell(v: Option<Value>): string {
    SafeEscape(ContentRaw(v))
  }

  /** `convertToCSV` of content.js with the corrected escape. */
  function SafeContentCsv(rows: seq<Obj>): string {
    if |rows| == 0 then "" else Render(Cells(rows, SafeContentCell))
  }

  /** With the corrected escape, every file reads back cell for cell. */
  lemma SafeContentCsvRoundTrip(rows: seq<Obj>)
    requires |rows| > 0 && |rows[0]| > 0 && BareKeys(rows[0])
    ensures Parse(SafeContentCsv(rows)) == Cells(rows, ContentRaw)
  {
    var t, et := Cells(rows, ContentRaw), Cells(rows, SafeContentCell);
    HeadersWritten(rows, SafeContentCell, ContentRaw);
    forall i, j | 0 <= i < |t| && 0 <= j < |t[i]| ensures Written(t[i][j], et[i][j]) {
      if i > 0 {
        assert t[i][j] == ContentRaw(Get(rows[i - 1], rows[0][j].0));
        assert et[i][j] == SafeEscape(t[i][j]);
      }
    }
    ParseRender(t, et);
  }

  // popup.js

  /** What `join(',')` writes for a value: `null` and `undefined` empty, arrays with their
      elements joined by commas, numbers and booleans spelt out. */
  function PopupRaw(v: Option<Value>): string {
    match v
    case None => ""
    case Some(Null) => ""
    case Some(Str(s)) => s
    case Some(Int(i)) => IntToString(i)
    case Some(Bool(b)) => if b then "true" else "false"
    case Some(Arr(items)) => Join(Texts(items), ",")
  }

  /** popup.js quotes only a string holding a comma; an array is written unquoted. */
  function PopupCell(v: Option<Value>): (e: string)
    ensures v.Some? && v.value.Str? && Has(v.value.s, ',') ==> e == Quote(v.value.s)
    ensures v.Some? && v.value.Str? && !Has(v.value.s, ',') ==> e == v.value.s
    ensures !(v.Some? && v.value.Str?) ==> e == PopupRaw(v)
  {
    if v.Some? && v.value.Str? && Has(v.value.s, ',') then Quote(v.value.s) else PopupRaw(v)
  }

  /** `convertToCSV` of popup.js, as written. */
  function PopupCsv(rows: seq<Obj>): string {
    if |rows| == 0 then "" else Render(Cells(rows, PopupCell))
  }

  /** Two image links come back as two cells under one header. */
  lemma PopupCsvSplitsArrays()
    ensures Cells([[("images", Arr([Some("a"), Some("b")]))]], PopupRaw) == [["images"], ["a,b"]]
    ensures Parse(PopupCsv([[("images", Arr([Some("a"), Some("b")]))]])) == [["images"], ["a", "b"]]
  {
    var v := Arr([Some("a"), Some("b")]);
    var rows: seq<Obj> := [[("images", v)]];
    assert Texts([Some("a"), Some("b")]) == ["a", "b"];
    assert Join(["a", "b"], ",") == "a,b" by {
      assert ["a", "b"][1..] == ["b"];
    }
    CellsOne("images", v, PopupRaw);
    CellsOne("images", v, PopupCell);
    var et := [["images"], ["a,b"]];
    assert Join(["images"], ",") == "images" && Join(["a,b"], ",") == "a,b";
    assert Lines(et) == ["images", "a,b"];
    var t := [["images"], ["a", "b"]];
    assert Lines(t) == ["images", "a,b"];
    assert PopupCsv(rows) == Render(t);
    forall i, j | 0 <= i < |t| && 0 <= j < |t[i]| ensures Written(t[i][j], t[i][j]) {
      assert Bare(t[i][j]);
    }
    ParseRender(t, t);
  }

  /** The cell popup.js evidently intends: the written text quoted whenever it needs it. */
  function SafePopupCell(v: Option<Value>): string {
    SafeEscape(PopupRaw(v))
  }

  function SafePopupCsv(rows: seq<Obj>): string {
    if |rows| == 0 then "" else Render(Cells(rows, SafePopupCell))
  }

  lemma SafePopupCsvRoundTrip(rows: seq<Obj>)
    requires |rows| > 0 && |rows[0]| > 0 && BareKeys(rows[0])
    ensures Parse(SafePopupCsv(rows)) == Cells(rows, PopupRaw)
  {
    var t, et := Cells(rows, PopupRaw), Cells(rows, SafePopupCell);
    HeadersWritten(rows, SafePopupCell, PopupRaw);
    forall i, j | 0 <= i < |t| && 0 <= j < |t[i]| ensures Written(t[i][j], et[i][j]) {
      if i > 0 {
        assert t[i][j] == PopupRaw(Get(rows[i - 1], rows[0][j].0));
        assert et[i][j] == SafeEscape(t[i][j]);
      }
    }
    ParseRender(t, et);
  }

  /** The values popup.js writes so that they read back: a string either holds a comma, and
      is quoted, or needs no quotes; an array has at most one element, which needs none. */
  predicate PopupPlain(v: Option<Value>) {
    match v
    case Some(Str(s)) => Has(s, ',') || Bare(s)
    case Some(Arr(items)) => |items| <= 1 && forall k :: 0 <= k < |items| ==> Bare(items[k].GetOr(""))
    case _ => true
  }

  lemma PopupCellWritten(v: Option<Value>)
    requires PopupPlain(v)
    ensures Written(PopupRaw(v), PopupCell(v))
  {
    match v
    case None =>
    case Some(Null) =>
    case Some(Str(s)) =>
    case Some(Int(i)) => IntBare(i);
    case Some(Bool(b)) =>
      var t := PopupRaw(v);
      assert t == "true" || t == "false";
      assert Bare(t);
    case Some(Arr(items)) =>
      if |items| == 1 {
        assert Texts(items) == [items[0].GetOr("")];
      }
  }

  /** The text of an integer needs no quotes. */
  lemma IntBare(i: int)
    ensures Bare(IntToString(i))
  {
    var t := IntToString(i);
    forall k | 0 <= k < |t| ensures t[k] != ',' && t[k] != '"' && t[k] != '\n' {
      if i >= 0 || k > 0 {
        assert IsDigit(t[k]) by {
          if i < 0 {
            assert t[k] == t[1..][k - 1];
          }
        }
      }
    }
  }

  /** The popup.js file reads back cell for cell when every value is written plainly. */
  lemma PopupCsvRoundTrip(rows: seq<Obj>)
    requires |rows| > 0 && |rows[0]| > 0 && BareKeys(rows[0])
    requires forall i, j :: 0 <= i < |rows| && 0 <= j < |rows[0]| ==> PopupPlain(Get(rows[i], rows[0][j].0))
    ensures Parse(PopupCsv(rows)) == Cells(rows, PopupRaw)
  {
    var t, et := Cells(rows, PopupRaw), Cells(rows, PopupCell);
    HeadersWritten(rows, PopupCell, PopupRaw);
    forall i, j | 0 <= i < |t| && 0 <= j < |t[i]| ensures Written(t[i][j], et[i][j]) {
      if i > 0 {
        var v := Get(rows[i - 1], rows[0][j].0);
        assert t[i][j] == PopupRaw(v) && et[i][j] == PopupCell(v);
        PopupCellWritten(v);
      }
    }
    ParseRender(t, et);
  }

  // Listings

  function RecordRows(rs: seq<Record>): (rows: seq<Obj>)
    ensures |rows| == |rs| && forall i :: 0 <= i < |rs| ==> rows[i] == ToObj(rs[i])
  {
    seq(|rs|, i requires 0 <= i < |rs| => ToObj(rs[i]))
  }

  lemma RecordKeysBare(r: Record)
    ensures BareKeys(ToObj(r))
  {
    KeysBare();
  }

  /** The fifteen field names need no quotes. */
  lemma KeysBare()
    ensures forall j :: 0 <= j < |RecordKeys| ==> Bare(RecordKeys[j])
  {
    forall j | 0 <= j < |RecordKeys| ensures Bare(RecordKeys[j]) {
      LettersBare(RecordKeys[j]);
    }
  }

  predicate Letters(c: string) {
    forall i :: 0 <= i < |c| ==> 'a' <= c[i] <= 'z' || 'A' <= c[i] <= 'Z'
  }

  lemma LettersBare(c: string)
    requires Letters(c)
    ensures Bare(c)
  {
  }

  /** The value `ToObj(r)` holds under its `k`-th key: keys are distinct, so the lookup
      finds the declared member. */
  lemma GetRecordKey(r: Record, k: nat)
    requires k < |RecordKeys|
    ensures Get(ToObj(r), RecordKeys[k]) == Some(ToObj(r)[k].1)
  {
    KeysDistinct();
    GetDistinct(ToObj(r), k);
  }

  lemma KeysDistinct()
    ensures forall a, b :: 0 <= a < b < |RecordKeys| ==> RecordKeys[a] != RecordKeys[b]
  {
  }

  lemma {:induction false} GetDistinct(o: Obj, k: nat)
    requires k < |o|
    requires forall a, b :: 0 <= a < b < |o| ==> o[a].0 != o[b].0
    ensures Get(o, o[k].0) == Some(o[k].1)
    decreases k
  {
    if k > 0 {
      assert o[0].0 != o[k].0;
      assert o[1..][k - 1] == o[k];
      GetDistinct(o[1..], k - 1);
    }
  }

  /** The text a listing holds under its `k`-th key, the images aside; `None` for `null`. */
  function FieldText(r: Record, k: nat): Option<string>
    requires k < |RecordKeys| && k != 8
  {
    if k == 0 then r.id else if k == 1 then r.titre else if k == 2 then r.propertyType
    else if k == 3 then r.description else if k == 4 then r.loyer else if k == 5 then r.charges
    else if k == 6 then r.surface else if k == 7 then r.disponibilite
    else if k == 9 then r.classeEnergetique else if k == 10 then r.bulletin
    else if k == 11 then r.dateBulletin else if k == 12 then r.telephone
    else if k == 13 then Some(r.dateExtraction) else Some(r.statut)
  }

  lemma ToObjText(r: Record, k: nat)
    requires k < |RecordKeys| && k != 8
    ensures ToObj(r)[k].1 == OrNull(FieldText(r, k))
  {
  }

  /** A listing none of whose texts, image links included, holds a line feed. */
  predicate OneLine(r: Record) {
    && (forall k :: 0 <= k < |RecordKeys| && k != 8 && FieldText(r, k).Some? ==> !Has(FieldText(r, k).value, '\n'))
    && forall k :: 0 <= k < |r.images| ==> !Has(r.images[k], '\n')
  }

  /** A join holds a character only when a part or the separator does. */
  lemma {:induction false} JoinAvoids(parts: seq<string>, sep: string, ch: char)
    requires !Has(sep, ch)
    requires forall k :: 0 <= k < |parts| ==> !Has(parts[k], ch)
    ensures !Has(Join(parts, sep), ch)
    decreases |parts|
  {
    if |parts| > 1 {
      JoinAvoids(parts[1..], sep, ch);
      var j := Join(parts[1..], sep);
      var t := parts[0] + sep + j;
      forall i | 0 <= i < |t| ensures t[i] != ch {
        if i < |parts[0]| {
          assert t[i] == parts[0][i];
        } else if i < |parts[0]| + |sep| {
          assert t[i] == sep[i - |parts[0]|];
        } else {
          assert t[i] == j[i - |parts[0]| - |sep|];
        }
      }
    }
  }

  lemma OneLineCells(r: Record, k: nat)
    requires OneLine(r) && k < |RecordKeys|
    ensures !Has(ContentRaw(Get(ToObj(r), RecordKeys[k])), '\n')
  {
    GetRecordKey(r, k);
    if k != 8 {
      ToObjText(r, k);
    } else {
      var items := Strings(r.images).items;
      assert forall x :: 0 <= x < |items| ==> Texts(items)[x] == r.images[x];
      assert !Has(";", '\n');
      JoinAvoids(Texts(items), ";", '\n');
    }
  }

  /** The listings file content.js downloads reads back as the cell texts of the listings,
      under the fifteen field names, when no text of a listing holds a line feed. */
  lemma ListingCsvRoundTrip(rs: seq<Record>)
    requires |rs| > 0
    requires forall i :: 0 <= i < |rs| ==> OneLine(rs[i])
    ensures Parse(ContentCsv(RecordRows(rs))) == Cells(RecordRows(rs), ContentRaw)
    ensures Cells(RecordRows(rs), ContentRaw)[0] == RecordKeys
  {
    var rows: seq<Obj> := RecordRows(rs);
    RecordKeysBare(rs[0]);
    forall i: int, j: int | 0 <= i < |rows| && 0 <= j < |rows[0]|
      ensures !Has(ContentRaw(Get(rows[i], rows[0][j].0)), '\n')
    {
      OneLineCells(rs[i], j);
    }
    ContentCsvRoundTrip(rows);
  }

  /** A listing popup.js exports so that it reads back: every text either holds a comma or
      needs no quotes, and there is at most one image link, which needs none. */
  predicate PopupPlainRecord(r: Record) {
    && (forall k :: 0 <= k < |RecordKeys| && k != 8 && FieldText(r, k).Some? ==>
          Has(FieldText(r, k).value, ',') || Bare(FieldText(r, k).value))
    && |r.images| <= 1 && forall k :: 0 <= k < |r.images| ==> Bare(r.images[k])
  }

  lemma PopupPlainCells(r: Record, k: nat)
    requires PopupPlainRecord(r) && k < |RecordKeys|
    ensures PopupPlain(Get(ToObj(r), RecordKeys[k]))
  {
    GetRecordKey(r, k);
    if k != 8 {
      ToObjText(r, k);
    }
  }

  /** The file popup.js exports reads back as the cell texts of the stored listings, under
      the fifteen field names, when every listing is written plainly. */
  lemma PopupListingRoundTrip(rs: seq<Record>)
    requires |rs| > 0
    requires forall i :: 0 <= i < |rs| ==> PopupPlainRecord(rs[i])
    ensures Parse(PopupCsv(RecordRows(rs))) == Cells(RecordRows(rs), PopupRaw)
    ensures Cells(RecordRows(rs), PopupRaw)[0] == RecordKeys
  {
    var rows: seq<Obj> := RecordRows(rs);
    RecordKeysBare(rs[0]);
    forall i: int, j: int | 0 <= i < |rows| && 0 <= j < |rows[0]|
      ensures PopupPlain(Get(rows[i], rows[0][j].0))
    {
      PopupPlainCells(rs[i], j);
    }
    PopupCsvRoundTrip(rows);
  }
}
