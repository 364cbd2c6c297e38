/**
 * The JSON value tree of the MySQL JSON column type. Arrays own their elements in order; an
 * object is a B-tree map from text keys to values, modelled as its entries in iteration
 * (ascending key) order.
 */
module JsonValue {
  import opened Wrappers
  import opened Seqs

  newtype Int64 = x: int | -0x8000_0000_0000_0000 <= x < 0x8000_0000_0000_0000

  /** An f64 is carried and never computed on here, so only its IEEE 754 bit pattern is kept. */
  datatype F64 = F64(bits: bv64)

  datatype Json =
    | Null
    | Boolean(b: bool)
    | I64(n: Int64)
    | Double(d: F64)
    | String(s: string)
    | Array(elems: seq<Json>)
    | Object(entries: seq<(string, Json)>)

  /** Lexicographic order on strings by code point, which is the byte order of their UTF-8 form
      and so the order of a B-tree map keyed by Rust strings. */
  predicate StringLess(a: string, b: string)
    decreases |a|
  {
    if a == [] then b != []
    else b != [] && (a[0] < b[0] || (a[0] == b[0] && StringLess(a[1..], b[1..])))
  }

  lemma {:induction false} StringLessIrreflexive(a: string)
    ensures !StringLess(a, a)
    decreases |a|
  {
    if a != [] {
      StringLessIrreflexive(a[1..]);
    }
  }

  /** The entries of a B-tree map come in strictly ascending key order, so keys are unique. */
  predicate KeysAscending(e: seq<(string, Json)>)
  {
    forall i, k :: 0 <= i < k < |e| ==> StringLess(e[i].0, e[k].0)
  }

  /** Every object in the tree is a well-formed map. */
  predicate Valid(j: Json)
  {
    match j
    case Array(a) => forall i :: 0 <= i < |a| ==> Valid(a[i])
    case Object(e) => KeysAscending(e) && forall i :: 0 <= i < |e| ==> Valid(e[i].1)
    case _ => true
  }

  /** The values of an object in iteration order (`map.keys()` followed by `map[key]`). */
  function Values(e: seq<(string, Json)>): (r: seq<Json>)
    ensures |r| == |e| && forall k :: 0 <= k < |e| ==> r[k] == e[k].1
  {
    seq(|e|, i requires 0 <= i < |e| => e[i].1)
  }

  /** The map an object's entries stand for. */
  function AsMap(e: seq<(string, Json)>): map<string, Json>
  {
    if e == [] then map[] else AsMap(e[1..])[e[0].0 := e[0].1]
  }

  /** Where `contains_key(k)` finds key `k`, the first such entry. */
  function KeyIndex(e: seq<(string, Json)>, k: string): (r: Option<nat>)
    ensures r.Some? ==> r.value < |e| && e[r.value].0 == k
    ensures r.Some? ==> forall i :: 0 <= i < r.value ==> e[i].0 != k
    ensures r.None? ==> forall i :: 0 <= i < |e| ==> e[i].0 != k
  {
    if e == [] then None
    else if e[0].0 == k then Some(0)
    else match KeyIndex(e[1..], k)
      case None => None
      case Some(i) => Some(i + 1)
  }

  lemma {:induction false} AsMapKeys(e: seq<(string, Json)>)
    ensures AsMap(e).Keys == set i | 0 <= i < |e| :: e[i].0
  {
    if e != [] {
      AsMapKeys(e[1..]);
      var tail := set i | 0 <= i < |e[1..]| :: e[1..][i].0;
      var all := set i | 0 <= i < |e| :: e[i].0;
      assert all == tail + {e[0].0} by {
        forall x | x in all ensures x in tail + {e[0].0} {
          var i :| 0 <= i < |e| && e[i].0 == x;
          if i > 0 {
            assert e[1..][i - 1].0 == x;
          }
        }
      }
    }
  }

  /** Looking a key up in the entries agrees with the map they stand for. */
  lemma {:induction false} KeyIndexIsLookup(e: seq<(string, Json)>, k: string)
    ensures KeyIndex(e, k).Some? <==> k in AsMap(e)
    ensures KeyIndex(e, k).Some? ==> AsMap(e)[k] == e[KeyIndex(e, k).value].1
  {
    if e != [] {
      KeyIndexIsLookup(e[1..], k);
    }
  }

  /** Ascending keys are distinct: the map has one key per entry. */
  lemma {:induction false} AsMapSize(e: seq<(string, Json)>)
    requires KeysAscending(e)
    ensures |AsMap(e)| == |e|
  {
    if e != [] {
      assert KeysAscending(e[1..]);
      AsMapSize(e[1..]);
      AsMapKeys(e[1..]);
      if e[0].0 in AsMap(e[1..]) {
        var i :| 0 <= i < |e[1..]| && e[1..][i].0 == e[0].0;
        assert StringLess(e[0].0, e[i + 1].0);
        StringLessIrreflexive(e[0].0);
      }
    }
  }

  /** The node itself followed by the descendants of each child, depth first and in pre-order. */
  function Descendants(j: Json): seq<Json>
  {
    [j] + match j
      case Array(a) => Flatten(seq(|a|, i requires 0 <= i < |a| => Descendants(a[i])))
      case Object(e) =>
        var vs := Values(e);
        Flatten(seq(|vs|, i requires 0 <= i < |vs| => Descendants(vs[i])))
      case _ => []
  }

  /** The descendants of an array element are descendants of the array. */
  lemma ElementDescendants(a: seq<Json>, i: nat, x: Json)
    requires i < |a| && x in Descendants(a[i])
    ensures x in Descendants(Array(a))
  {
    var ss := seq(|a|, i requires 0 <= i < |a| => Descendants(a[i]));
    FlattenMember(ss, x);
    assert x in ss[i];
  }

  /** The descendants of an object's value are descendants of the object. */
  lemma EntryDescendants(e: seq<(string, Json)>, i: nat, x: Json)
    requires i < |e| && x in Descendants(e[i].1)
    ensures x in Descendants(Object(e))
  {
    var vs := Values(e);
    var ss := seq(|vs|, i requires 0 <= i < |vs| => Descendants(vs[i]));
    FlattenMember(ss, x);
    assert x in ss[i];
  }

  /** Every sub-tree of a well-formed document is well-formed. */
  lemma {:induction false} DescendantsValid(j: Json, x: Json)
    requires Valid(j) && x in Descendants(j)
    ensures Valid(x)
  {
    if x != j {
      match j
      case Array(a) =>
        var ss := seq(|a|, i requires 0 <= i < |a| => Descendants(a[i]));
        FlattenMember(ss, x);
        var i :| 0 <= i < |ss| && x in ss[i];
        DescendantsValid(a[i], x);
      case Object(e) =>
        var vs := Values(e);
        var ss := seq(|vs|, i requires 0 <= i < |vs| => Descendants(vs[i]));
        FlattenMember(ss, x);
        var i :| 0 <= i < |ss| && x in ss[i];
        DescendantsValid(e[i].1, x);
    }
  }
}
