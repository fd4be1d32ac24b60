/** The listing record content.js builds, and the plain JavaScript objects the other
    components pass around (storage entries, message payloads, Firestore documents). */
module Annonce {
  import opened Wrappers

  /** The values a listing or a stats object can hold. `Null` is JavaScript's `null`; an
      array element is `None` when it is `undefined`. */
  datatype Value =
    | Null
    | Str(s: string)
    | Int(i: int)
    | Bool(b: bool)
    | Arr(items: seq<Option<string>>)

  /** A plain object: its own keys in insertion order, each with its value. */
  type Obj = seq<(string, Value)>

  /** A scraped listing, fields in the order the object literal declares them.
      `None` stands for `null`. */
  datatype Record = Record(
    id: Option<string>,
    titre: Option<string>,
    propertyType: Option<string>,
    description: Option<string>,
    loyer: Option<string>,
    charges: Option<string>,
    surface: Option<string>,
    disponibilite: Option<string>,
    images: seq<string>,
    classeEnergetique: Option<string>,
    bulletin: Option<string>,
    dateBulletin: Option<string>,
    telephone: Option<string>,
    dateExtraction: string,
    statut: string)

  /** The keys of a listing object, as `Object.keys` lists them. */
  const RecordKeys: seq<string> := [
    "id", "titre", "type", "description", "loyer", "charges", "surface", "disponibilite",
    "images", "classeEnergetique", "bulletin", "dateBulletin", "telephone",
    "dateExtraction", "statut"]

  function OrNull(o: Option<string>): (v: Value)
    ensures o.None? <==> v == Null
    ensures o.Some? ==> v == Str(o.value)
  {
    match o
    case None => Null
    case Some(s) => Str(s)
  }

  /** A string sequence as an array with no `undefined` element. */
  function Strings(xs: seq<string>): (v: Value)
    ensures v.Arr? && |v.items| == |xs|
    ensures forall k :: 0 <= k < |xs| ==> v.items[k] == Some(xs[k])
  {
    Arr(seq(|xs|, k requires 0 <= k < |xs| => Some(xs[k])))
  }

  /** A listing seen as the object it is in JavaScript. */
  function ToObj(r: Record): (o: Obj)
    ensures |o| == |RecordKeys|
    ensures forall k :: 0 <= k < |o| ==> o[k].0 == RecordKeys[k]
    ensures o[8] == ("images", Strings(r.images))
    ensures forall k :: 0 <= k < |o| && k != 8 ==> !o[k].1.Arr?
  {
    [ ("id", OrNull(r.id)), ("titre", OrNull(r.titre)), ("type", OrNull(r.propertyType)),
      ("description", OrNull(r.description)), ("loyer", OrNull(r.loyer)),
      ("charges", OrNull(r.charges)), ("surface", OrNull(r.surface)),
      ("disponibilite", OrNull(r.disponibilite)), ("images", Strings(r.images)),
      ("classeEnergetique", OrNull(r.classeEnergetique)), ("bulletin", OrNull(r.bulletin)),
      ("dateBulletin", OrNull(r.dateBulletin)), ("telephone", OrNull(r.telephone)),
      ("dateExtraction", Str(r.dateExtraction)), ("statut", Str(r.statut)) ]
  }

  /** JavaScript truthiness of a nullable string: present and not empty. */
  predicate Truthy(o: Option<string>) {
    o.Some? && o.value != ""
  }

  predicate HasKey(o: Obj, key: string) {
    exists k :: 0 <= k < |o| && o[k].0 == key
  }

  /** `o[key] = v`: an existing key keeps its place and takes the new value; a new key is
      added at the end. */
  function Put(o: Obj, key: string, v: Value): (r: Obj)
    ensures HasKey(o, key) ==> |r| == |o|
    ensures !HasKey(o, key) ==> r == o + [(key, v)]
    ensures forall k :: 0 <= k < |o| ==> r[k] == (if o[k].0 == key then (key, v) else o[k])
  {
    if HasKey(o, key) then seq(|o|, k requires 0 <= k < |o| => if o[k].0 == key then (key, v) else o[k])
    else o + [(key, v)]
  }

  /** `o[key]`: the value under the first occurrence of `key`, if any. */
  function Get(o: Obj, key: string): (r: Option<Value>)
    ensures r.Some? <==> HasKey(o, key)
    ensures r.Some? ==> exists k :: 0 <= k < |o| && o[k] == (key, r.value)
  {
    if |o| == 0 then None
    else if o[0].0 == key then Some(o[0].1)
    else
      var r := Get(o[1..], key);
      assert HasKey(o, key) ==> HasKey(o[1..], key) by {
        if HasKey(o, key) {
          var k :| 0 <= k < |o| && o[k].0 == key;
          assert o[1..][k - 1] == o[k];
        }
      }
      r
  }

  /** Reading a key after writing it gives the value written; other keys are untouched. */
  lemma {:induction false} GetPut(o: Obj, key: string, v: Value, other: string)
    ensures Get(Put(o, key, v), key) == Some(v)
    ensures other != key ==> Get(Put(o, key, v), other) == Get(o, other)
  {
    var r := Put(o, key, v);
    if HasKey(o, key) {
      GetSame(o, r, key, v, other);
    } else {
      GetAppend(o, key, v, other);
    }
  }

  lemma {:induction false} GetSame(o: Obj, r: Obj, key: string, v: Value, other: string)
    requires |r| == |o|
    requires forall k :: 0 <= k < |o| ==> r[k] == (if o[k].0 == key then (key, v) else o[k])
    requires HasKey(o, key)
    ensures Get(r, key) == Some(v)
    ensures other != key ==> Get(r, other) == Get(o, other)
    decreases |o|
  {
    if o[0].0 != key {
      assert HasKey(o[1..], key) by {
        var k :| 0 <= k < |o| && o[k].0 == key;
        assert o[1..][k - 1] == o[k];
      }
      GetSame(o[1..], r[1..], key, v, other);
    } else if other != key && o[0].0 != other && |o| > 1 && HasKey(o[1..], key) {
      GetSame(o[1..], r[1..], key, v, other);
    } else if other != key && o[0].0 != other {
      GetUnchanged(o[1..], r[1..], key, v, other);
    }
  }

  lemma {:induction false} GetUnchanged(o: Obj, r: Obj, key: string, v: Value, other: string)
    requires |r| == |o| && other != key
    requires forall k :: 0 <= k < |o| ==> r[k] == (if o[k].0 == key then (key, v) else o[k])
    ensures Get(r, other) == Get(o, other)
    decreases |o|
  {
    if |o| > 0 && o[0].0 != other {
      GetUnchanged(o[1..], r[1..], key, v, other);
    }
  }

  lemma {:induction false} GetAppend(o: Obj, key: string, v: Value, other: string)
    requires !HasKey(o, key)
    ensures Get(o + [(key, v)], key) == Some(v)
    ensures other != key ==> Get(o + [(key, v)], other) == Get(o, other)
    decreases |o|
  {
    if |o| > 0 {
      assert (o + [(key, v)])[1..] == o[1..] + [(key, v)];
      assert !HasKey(o[1..], key);
      GetAppend(o[1..], key, v, other);
    }
  }
}
