/** Parsed JSON values, as `JSON.parse` produces them, and the deep
    comparison `lodash.isEqual` performs on them. */
module Json {

  /** A JSON value. Objects are maps from member name to value, so the order
      in which members were written cannot be observed. Numbers are kept as
      the (abstract) value the parser produced. */
  datatype Json =
    | JNull
    | JBool(b: bool)
    | JNumber(n: real)
    | JString(s: string)
    | JArray(items: seq<Json>)
    | JObject(members: map<string, Json>)

  /** Deep structural comparison: scalars by value, arrays element by element
      in order, objects by their set of member names and member by member.
      Values of different kinds are never equal. */
  function DeepEqual(a: Json, b: Json): (r: bool)
    ensures r ==> a == b
    decreases a
  {
    match (a, b)
    case (JNull, JNull) => true
    case (JBool(x), JBool(y)) => x == y
    case (JNumber(x), JNumber(y)) => x == y
    case (JString(x), JString(y)) => x == y
    case (JArray(xs), JArray(ys)) =>
      var same := |xs| == |ys| && forall i :: 0 <= i < |xs| ==> DeepEqual(xs[i], ys[i]);
      assert same ==> xs == ys by {
        if same {
          assert forall i :: 0 <= i < |xs| ==> xs[i] == ys[i];
        }
      }
      same
    case (JObject(m), JObject(n)) =>
      var same := m.Keys == n.Keys && forall k :: k in m ==> DeepEqual(m[k], n[k]);
      assert same ==> m == n by {
        if same {
          assert forall k :: k in m ==> m[k] == n[k];
        }
      }
      same
    case _ => false
  }

  /** Deep comparison coincides with equality of parsed values; in particular
      it is reflexive and symmetric, and two objects with the same members
      compare equal whatever order their members were written in. */
  lemma {:induction false} DeepEqualIsEquality(a: Json, b: Json)
    ensures DeepEqual(a, b) <==> a == b
    decreases a
  {
    match (a, b)
    case (JArray(xs), JArray(ys)) =>
      forall i | 0 <= i < |xs| && i < |ys| {
        DeepEqualIsEquality(xs[i], ys[i]);
      }
      if DeepEqual(a, b) {
        assert xs == ys;
      }
    case (JObject(m), JObject(n)) =>
      forall k | k in m && k in n {
        DeepEqualIsEquality(m[k], n[k]);
      }
      if DeepEqual(a, b) {
        assert m == n;
      }
    case _ =>
  }
}
