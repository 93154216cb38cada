/** JSON objects and the per-key difference shown in the revision report. */
module JsonDiff {
  import opened Wrappers

  datatype Json =
    | Null | Bool(b: bool) | Number(n: int) | Text(s: string)
    | Array(items: seq<Json>) | Object(fields: map<string, Json>)

  /** The to_jsonb image of a row. */
  type Image = map<string, Json>

  /** None is SQL NULL: no image, or no such key. It differs from the JSON value Null. */
  function Get(o: Option<Image>, k: string): Option<Json> {
    if o.Some? && k in o.value then Some(o.value[k]) else None
  }

  /** Building an object stores SQL NULL as JSON Null. */
  function Stored(v: Option<Json>): Json {
    if v.Some? then v.value else Null
  }

  datatype Change = Change(was: Json, now: Json)

  type Changes = map<string, Change>

  function Keys(o: Option<Image>): set<string> {
    if o.Some? then o.value.Keys else {}
  }

  function Diff(before: Option<Image>, after: Option<Image>): Changes {
    map k | k in Keys(before) + Keys(after) && Get(before, k) != Get(after, k) ::
      Change(Stored(Get(before, k)), Stored(Get(after, k)))
  }

  /** Writes the new values of a difference into an object. */
  function Apply(o: Image, d: Changes): Image {
    o + (map k | k in d :: d[k].now)
  }

  /** Two differences in a row; keys that end where they began drop out. */
  function Compose(d: Changes, e: Changes): Changes {
    map k | k in d.Keys + e.Keys && !(k in d && k in e && d[k].was == e[k].now) ::
      if k in d && k in e then Change(d[k].was, e[k].now) else if k in d then d[k] else e[k]
  }

  /** The report is empty exactly when nothing changed. */
  lemma NoChange(o: Image, n: Image)
    ensures Diff(Some(o), Some(n)) == map[] <==> o == n
  {
    var d := Diff(Some(o), Some(n));
    if d == map[] {
      forall k
        ensures k in o <==> k in n
        ensures k in o && k in n ==> o[k] == n[k]
      {
        assert k !in d;
      }
    }
  }

  /** Applying a difference gives the new object exactly when no key was dropped. */
  lemma ApplyDiff(o: Image, n: Image)
    ensures Apply(o, Diff(Some(o), Some(n))) == n <==> o.Keys <= n.Keys
  {
    var d := Diff(Some(o), Some(n));
    var r := Apply(o, d);
    assert r.Keys == o.Keys + n.Keys;
    if o.Keys <= n.Keys {
      forall k | k in n
        ensures r[k] == n[k]
      {
        assert k in d <==> Get(Some(o), k) != Get(Some(n), k);
      }
    } else {
      var k :| k in o && k !in n;
      assert k in r;
    }
  }

  /** Absent at one end and JSON Null at the other: the report shows both the same way. */
  predicate Blurred(x: Option<Json>, z: Option<Json>) {
    (x == None && z == Some(Null)) || (x == Some(Null) && z == None)
  }

  /** The key goes from absent to Null, or back, through another value. */
  predicate BlurredByWay(a: Option<Image>, b: Option<Image>, c: Option<Image>, k: string) {
    Blurred(Get(a, k), Get(c, k)) && Get(b, k) != Get(a, k) && Get(b, k) != Get(c, k)
  }

  predicate SameAt(d: Changes, e: Changes, k: string) {
    (k in d <==> k in e) && (k in d ==> d[k] == e[k])
  }

  lemma ComposeKey(a: Option<Image>, b: Option<Image>, c: Option<Image>, k: string)
    ensures SameAt(Compose(Diff(a, b), Diff(b, c)), Diff(a, c), k) <==> !BlurredByWay(a, b, c, k)
  {
    assert k in Diff(a, b) <==> Get(a, k) != Get(b, k);
    assert k in Diff(b, c) <==> Get(b, k) != Get(c, k);
    assert k in Diff(a, c) <==> Get(a, k) != Get(c, k);
  }

  lemma SameEverywhere(d: Changes, e: Changes)
    ensures d == e <==> forall k :: SameAt(d, e, k)
  {
    if forall k :: SameAt(d, e, k) {
      forall k
        ensures k in d <==> k in e
        ensures k in d ==> d[k] == e[k]
      {
        assert SameAt(d, e, k);
      }
    }
  }

  /** Composed differences give the overall one, unless a key is blurred by way of another value. */
  lemma ComposeExact(a: Option<Image>, b: Option<Image>, c: Option<Image>)
    ensures Compose(Diff(a, b), Diff(b, c)) == Diff(a, c) <==> !exists k :: BlurredByWay(a, b, c, k)
  {
    var both, whole := Compose(Diff(a, b), Diff(b, c)), Diff(a, c);
    SameEverywhere(both, whole);
    forall k
      ensures SameAt(both, whole, k) <==> !BlurredByWay(a, b, c, k)
    {
      ComposeKey(a, b, c, k);
    }
  }

  /** A column that is filled and emptied again: the composed report has nothing, the overall one shows it. */
  lemma ComposeLoses()
    ensures
      var filled, emptied := map["note" := Text("x")], map["note" := Null];
      Compose(Diff(None, Some(filled)), Diff(Some(filled), Some(emptied))) != Diff(None, Some(emptied))
  {
    var filled, emptied: Image := map["note" := Text("x")], map["note" := Null];
    ComposeExact(None, Some(filled), Some(emptied));
    assert BlurredByWay(None, Some(filled), Some(emptied), "note");
  }
}
