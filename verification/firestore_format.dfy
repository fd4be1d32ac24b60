/** The conversion between plain objects and the typed fields of a Firestore REST document
    (chrome-extension/firebase-config.js, `convertToFirestoreFormat` and
    `convertFromFirestoreFormat`). */
module FirestoreFormat {
  import opened Wrappers
  import opened Text
  import opened Decimal
  import opened Annonce

  /** A typed field of a REST document. Arrays are written with string elements only. */
  datatype Field =
    | StringValue(s: string)
    | IntegerValue(digits: string)
    | BooleanValue(b: bool)
    | ArrayValue(values: seq<string>)

  /** The `fields` member of a document, in key order. */
  type Fields = seq<(string, Field)>

  /** What reading a field back yields: `PNum(None)` is `NaN`, an array element `None` is
      `undefined`. */
  datatype Plain =
    | PStr(s: string)
    | PNum(n: Option<int>)
    | PBool(b: bool)
    | PArr(items: seq<Option<string>>)

  /** The message of the `TypeError` that `null.toString()` raises: a listing with no
      reference carries `id: null` into the references of its bulletin. */
  const NullToString := "Cannot read properties of null (reading 'toString')"

  predicate Complete(items: seq<Option<string>>) {
    forall k :: 0 <= k < |items| ==> items[k].Some?
  }

  /** No array of `o` holds a missing element. */
  predicate Encodable(o: Obj) {
    forall k :: 0 <= k < |o| ==> (o[k].1.Arr? ==> Complete(o[k].1.items))
  }

  function Present(items: seq<Option<string>>): (r: seq<string>)
    requires Complete(items)
    ensures |r| == |items| && forall k :: 0 <= k < |r| ==> items[k] == Some(r[k])
  {
    seq(|items|, k requires 0 <= k < |items| => items[k].value)
  }

  /** `convertToFirestoreFormat`: members holding `null` are skipped, strings, integers and
      booleans become typed fields, an array becomes an array of strings; a missing
      (`null`) array element makes the conversion throw. */
  function Encode(o: Obj): (r: Result<Fields>)
    ensures r.Ok? <==> Encodable(o)
    ensures r.Fail? ==> r.error == NullToString
    ensures r.Ok? ==> |r.value| <= |o|
  {
    if |o| == 0 then Ok([])
    else
      var key := o[0].0;
      var v := o[0].1;
      if v.Arr? && !Complete(v.items) then
        assert !Encodable(o) by { assert !(o[0].1.Arr? ==> Complete(o[0].1.items)); }
        Fail(NullToString)
      else
        match Encode(o[1..])
        case Fail(e) =>
          assert !Encodable(o) by {
            var k :| 0 <= k < |o[1..]| && !(o[1..][k].1.Arr? ==> Complete(o[1..][k].1.items));
            assert o[1..][k] == o[k + 1];
          }
          Fail(e)
        case Ok(rest) =>
          assert Encodable(o) by {
            forall k | 0 <= k < |o| ensures o[k].1.Arr? ==> Complete(o[k].1.items) {
              if k > 0 { assert o[k] == o[1..][k - 1]; }
            }
          }
          match v
          case Null => Ok(rest)
          case Str(s) => Ok([(key, StringValue(s))] + rest)
          case Int(i) => Ok([(key, IntegerValue(IntToString(i)))] + rest)
          case Bool(b) => Ok([(key, BooleanValue(b))] + rest)
          case Arr(items) => Ok([(key, ArrayValue(Present(items)))] + rest)
  }

  /** An array element read back: `v.stringValue || …` turns the empty string into
      `undefined`. */
  function ReadElement(s: string): (r: Option<string>)
    ensures r.None? <==> s == ""
    ensures r.Some? ==> r.value == s
  {
    if s == "" then None else Some(s)
  }

  /** `convertFromFirestoreFormat` on one field. */
  function DecodeField(f: Field): Plain {
    match f
    case StringValue(s) => PStr(s)
    case IntegerValue(d) => PNum(ParseInt(d))
    case BooleanValue(b) => PBool(b)
    case ArrayValue(vs) => PArr(seq(|vs|, k requires 0 <= k < |vs| => ReadElement(vs[k])))
  }

  /** `convertFromFirestoreFormat`: every field read back under its key, in order. */
  function Decode(fs: Fields): (r: seq<(string, Plain)>)
    ensures |r| == |fs|
    ensures forall k :: 0 <= k < |fs| ==> r[k] == (fs[k].0, DecodeField(fs[k].1))
  {
    seq(|fs|, k requires 0 <= k < |fs| => (fs[k].0, DecodeField(fs[k].1)))
  }

  // ----- The round trip -----

  /** What a value should read back as after a store and a load: the same value, except
      that an empty string inside an array comes back `undefined`. */
  function Reread(v: Value): Plain
    requires !v.Null?
    requires v.Arr? ==> Complete(v.items)
  {
    match v
    case Str(s) => PStr(s)
    case Int(i) => PNum(Some(i))
    case Bool(b) => PBool(b)
    case Arr(items) =>
      PArr(seq(|items|, k requires 0 <= k < |items| => if items[k] == Some("") then None else items[k]))
  }

  /** The members of `o` that survive a store and a load, as they read back. */
  function Survivors(o: Obj): seq<(string, Plain)>
    requires Encodable(o)
  {
    if |o| == 0 then []
    else
      assert Encodable(o[1..]) by {
        forall k | 0 <= k < |o[1..]| ensures o[1..][k].1.Arr? ==> Complete(o[1..][k].1.items) {
          assert o[1..][k] == o[k + 1];
        }
      }
      assert o[0].1.Arr? ==> Complete(o[0].1.items);
      if o[0].1.Null? then Survivors(o[1..])
      else [(o[0].0, Reread(o[0].1))] + Survivors(o[1..])
  }

  lemma DecodeOne(key: string, f: Field, rest: Fields)
    ensures Decode([(key, f)] + rest) == [(key, DecodeField(f))] + Decode(rest)
  {
    var l := [(key, f)] + rest;
    assert forall k :: 1 <= k < |l| ==> l[k] == rest[k - 1];
  }

  /** Loading what was stored gives back every non-null member, unchanged, except that an
      empty string inside an array comes back `undefined`. */
  lemma {:induction false} RoundTrip(o: Obj)
    requires Encodable(o)
    ensures Decode(Encode(o).value) == Survivors(o)
  {
    if |o| > 0 {
      assert Encodable(o[1..]) by {
        forall k | 0 <= k < |o[1..]| ensures o[1..][k].1.Arr? ==> Complete(o[1..][k].1.items) {
          assert o[1..][k] == o[k + 1];
        }
      }
      RoundTrip(o[1..]);
      var rest := Encode(o[1..]).value;
      var key := o[0].0;
      match o[0].1
      case Null =>
      case Str(s) => DecodeOne(key, StringValue(s), rest);
      case Int(i) =>
        DecodeOne(key, IntegerValue(IntToString(i)), rest);
        ParseIntOfIntToString(i);
      case Bool(b) => DecodeOne(key, BooleanValue(b), rest);
      case Arr(items) =>
        assert Complete(items);
        DecodeOne(key, ArrayValue(Present(items)), rest);
        assert DecodeField(ArrayValue(Present(items))) == Reread(o[0].1);
    }
  }

  /** An array holding the empty string does not survive a round trip as it was. */
  lemma EmptyElementLost()
    ensures Encode([("images", Arr([Some("")]))]).Ok?
    ensures Decode(Encode([("images", Arr([Some("")]))]).value) == [("images", PArr([None]))]
  {
    var o: Obj := [("images", Arr([Some("")]))];
    assert o[1..] == [];
    assert Encode(o[1..]) == Ok([]);
    assert Complete([Some("")]);
    assert Present([Some("")]) == [""];
    assert o[0] == ("images", Arr([Some("")]));
    var f: Fields := [("images", ArrayValue([""]))];
    assert f + [] == f;
    assert Encode(o) == Ok([("images", ArrayValue([""]))]);
    DecodeOne("images", ArrayValue([""]), []);
    assert DecodeField(ArrayValue([""])) == PArr([None]);
  }

  /** A listing always converts: its only array, the image links, has no hole. */
  lemma RecordEncodes(r: Record, extra: Obj)
    requires forall k :: 0 <= k < |extra| ==> extra[k].1.Str?
    ensures Encode(ToObj(r) + extra).Ok?
  {
    RecordEncodable(r);
    assert Encodable(extra);
    EncodableAppend(ToObj(r), extra);
  }

  lemma RecordEncodable(r: Record)
    ensures Encodable(ToObj(r))
  {
    var o := ToObj(r);
    forall k | 0 <= k < |o| ensures o[k].1.Arr? ==> Complete(o[k].1.items) {
      if k == 8 {
        assert o[k].1 == Strings(r.images);
      }
    }
  }

  lemma EncodableAppend(a: Obj, b: Obj)
    requires Encodable(a) && Encodable(b)
    ensures Encodable(a + b)
  {
    var o := a + b;
    forall k | 0 <= k < |o| ensures o[k].1.Arr? ==> Complete(o[k].1.items) {
      if k < |a| {
        assert o[k] == a[k];
      } else {
        assert o[k] == b[k - |a|];
      }
    }
  }
}
