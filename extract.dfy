/**
 * Path extraction: the recursive matcher `extract_json` and the combinator `Json::extract`
 * that merges the matches of several path expressions and decides whether to wrap them.
 */
module Extraction {
  import opened Wrappers
  import opened Seqs
  import opened JsonValue
  import opened PathExpr

  /**
   * The values in `j` matched by `legs`, in traversal order and with duplicates. An `Index`
   * leg treats a non-array as a one-element array; a `Key` leg matches only objects; a
   * `DoubleAsterisk` leg applies the rest at this node, then the whole leg list at each child.
   */
  function ExtractJson(j: Json, legs: seq<PathLeg>): seq<Json>
    decreases j, |legs|
  {
    if legs == [] then [j]
    else
      var rest := legs[1..];
      match legs[0]
      case Index(i) =>
        (match j
         case Array(a) =>
           if i == AnyIndex then Flatten(seq(|a|, k requires 0 <= k < |a| => ExtractJson(a[k], rest)))
           else if 0 <= i.n < |a| then ExtractJson(a[i.n], rest)
           else []
         case _ =>
           if i == AnyIndex || i.n == 0 then ExtractJson(j, rest) else [])
      case Key(key) =>
        (match j
         case Object(e) =>
           if key == KeyAsterisk then
             var vs := Values(e);
             Flatten(seq(|vs|, k requires 0 <= k < |vs| => ExtractJson(vs[k], rest)))
           else
             (match KeyIndex(e, key)
              case Some(k) => ExtractJson(e[k].1, rest)
              case None => [])
         case _ => [])
      case DoubleAsterisk =>
        ExtractJson(j, rest) +
        match j
        case Array(a) => Flatten(seq(|a|, k requires 0 <= k < |a| => ExtractJson(a[k], legs)))
        case Object(e) =>
          var vs := Values(e);
          Flatten(seq(|vs|, k requires 0 <= k < |vs| => ExtractJson(vs[k], legs)))
        case _ => []
  }

  /** The matches of `legs` in each of `xs` in turn, concatenated. */
  function ExtractOver(xs: seq<Json>, legs: seq<PathLeg>): seq<Json>
  {
    if xs == [] then [] else ExtractJson(xs[0], legs) + ExtractOver(xs[1..], legs)
  }

  lemma {:induction false} FlattenIsExtractOver(xs: seq<Json>, legs: seq<PathLeg>)
    ensures Flatten(seq(|xs|, k requires 0 <= k < |xs| => ExtractJson(xs[k], legs))) == ExtractOver(xs, legs)
  {
    var ss := seq(|xs|, k requires 0 <= k < |xs| => ExtractJson(xs[k], legs));
    if xs != [] {
      assert ss[1..] == seq(|xs[1..]|, k requires 0 <= k < |xs[1..]| => ExtractJson(xs[1..][k], legs));
      FlattenIsExtractOver(xs[1..], legs);
    }
  }

  lemma {:induction false} ExtractOverAppend(a: seq<Json>, b: seq<Json>, legs: seq<PathLeg>)
    ensures ExtractOver(a + b, legs) == ExtractOver(a, legs) + ExtractOver(b, legs)
  {
    if a == [] {
      assert a + b == b;
    } else {
      assert (a + b)[1..] == a[1..] + b;
      ExtractOverAppend(a[1..], b, legs);
    }
  }

  /** With no legs left, everything remaining from each value is the value itself. */
  lemma {:induction false} ExtractOverNoLegs(xs: seq<Json>)
    ensures ExtractOver(xs, []) == xs
  {
    if xs != [] {
      ExtractOverNoLegs(xs[1..]);
    }
  }

  lemma ExtractEmptyLegs(j: Json)
    ensures ExtractJson(j, []) == [j]
  {
  }

  /** An `Index` leg on an array: the wildcard concatenates over the elements in order, an index
      in range selects that element, any other index matches nothing. */
  lemma ExtractIndexOnArray(a: seq<Json>, i: ArrayIndex, rest: seq<PathLeg>)
    ensures i == AnyIndex ==> ExtractJson(Array(a), [Index(i)] + rest) == ExtractOver(a, rest)
    ensures i.At? && 0 <= i.n < |a| ==> ExtractJson(Array(a), [Index(i)] + rest) == ExtractJson(a[i.n], rest)
    ensures i.At? && !(0 <= i.n < |a|) ==> ExtractJson(Array(a), [Index(i)] + rest) == []
  {
    assert ([Index(i)] + rest)[1..] == rest;
    FlattenIsExtractOver(a, rest);
  }

  /** An `Index` leg on anything but an array sees it as a one-element array. */
  lemma ExtractIndexAutowrap(j: Json, i: ArrayIndex, rest: seq<PathLeg>)
    requires !j.Array?
    ensures ExtractJson(j, [Index(i)] + rest) ==
            if i == AnyIndex || i == At(0) then ExtractJson(j, rest) else []
  {
    assert ([Index(i)] + rest)[1..] == rest;
  }

  /** A `Key` leg matches only objects: the wildcard key concatenates over the values in key
      order, another key selects the value the map holds for it, if any. */
  lemma ExtractKey(j: Json, key: string, rest: seq<PathLeg>)
    ensures !j.Object? ==> ExtractJson(j, [Key(key)] + rest) == []
    ensures j.Object? && key == KeyAsterisk ==>
              ExtractJson(j, [Key(key)] + rest) == ExtractOver(Values(j.entries), rest)
    ensures j.Object? && key != KeyAsterisk && key in AsMap(j.entries) ==>
              ExtractJson(j, [Key(key)] + rest) == ExtractJson(AsMap(j.entries)[key], rest)
    ensures j.Object? && key != KeyAsterisk && key !in AsMap(j.entries) ==>
              ExtractJson(j, [Key(key)] + rest) == []
  {
    assert ([Key(key)] + rest)[1..] == rest;
    if j.Object? {
      var e := j.entries;
      FlattenIsExtractOver(Values(e), rest);
      KeyIndexIsLookup(e, key);
    }
  }

  /** `$[*]` on an array gives back its elements; `$.*` on a well-formed object gives its values,
      one per key, in ascending key order. */
  lemma ExtractWildcardAlone(j: Json)
    ensures j.Array? ==> ExtractJson(j, [Index(AnyIndex)]) == j.elems
    ensures j.Object? ==> ExtractJson(j, [Key(KeyAsterisk)]) == Values(j.entries)
    ensures j.Object? && Valid(j) ==> |ExtractJson(j, [Key(KeyAsterisk)])| == |AsMap(j.entries)|
  {
    if j.Array? {
      ExtractIndexOnArray(j.elems, AnyIndex, []);
      assert [Index(AnyIndex)] + [] == [Index(AnyIndex)];
      ExtractOverNoLegs(j.elems);
    }
    if j.Object? {
      ExtractKey(j, KeyAsterisk, []);
      assert [Key(KeyAsterisk)] + [] == [Key(KeyAsterisk)];
      ExtractOverNoLegs(Values(j.entries));
      if Valid(j) {
        AsMapSize(j.entries);
      }
    }
  }

  /** The children of a node in traversal order. */
  function Children(j: Json): seq<Json>
  {
    match j
    case Array(a) => a
    case Object(e) => Values(e)
    case _ => []
  }

  /** A `DoubleAsterisk` leg: the rest applied at this node, followed by the whole leg list
      replayed at each child in order. */
  lemma ExtractDoubleAsterisk(j: Json, rest: seq<PathLeg>)
    ensures ExtractJson(j, [DoubleAsterisk] + rest) ==
            ExtractJson(j, rest) + ExtractOver(Children(j), [DoubleAsterisk] + rest)
  {
    var legs := [DoubleAsterisk] + rest;
    assert legs[1..] == rest;
    match j
    case Array(a) =>
      FlattenIsExtractOver(a, legs);
    case Object(e) =>
      FlattenIsExtractOver(Values(e), legs);
    case _ =>
  }

  /** `**` keeps every match of the rest at the root, in front, and adds nothing under a leaf. */
  lemma ExtractDoubleAsteriskPrefix(j: Json, rest: seq<PathLeg>)
    ensures ExtractJson(j, rest) <= ExtractJson(j, [DoubleAsterisk] + rest)
    ensures Children(j) == [] ==> ExtractJson(j, [DoubleAsterisk] + rest) == ExtractJson(j, rest)
  {
    ExtractDoubleAsterisk(j, rest);
  }

  /** The descendants of each of `xs` in turn. */
  function DescendantsOver(xs: seq<Json>): seq<Json>
  {
    if xs == [] then [] else Descendants(xs[0]) + DescendantsOver(xs[1..])
  }

  lemma {:induction false} FlattenIsDescendantsOver(xs: seq<Json>)
    ensures Flatten(seq(|xs|, k requires 0 <= k < |xs| => Descendants(xs[k]))) == DescendantsOver(xs)
  {
    var ss := seq(|xs|, k requires 0 <= k < |xs| => Descendants(xs[k]));
    if xs != [] {
      assert ss[1..] == seq(|xs[1..]|, k requires 0 <= k < |xs[1..]| => Descendants(xs[1..][k]));
      FlattenIsDescendantsOver(xs[1..]);
    }
  }

  lemma DescendantsUnfold(j: Json)
    ensures Descendants(j) == [j] + DescendantsOver(Children(j))
  {
    match j
    case Array(a) =>
      FlattenIsDescendantsOver(a);
    case Object(e) =>
      FlattenIsDescendantsOver(Values(e));
    case _ =>
  }

  lemma {:induction false} ReplayOverChildren(xs: seq<Json>, rest: seq<PathLeg>)
    requires forall k :: 0 <= k < |xs| ==>
               ExtractJson(xs[k], [DoubleAsterisk] + rest) == ExtractOver(Descendants(xs[k]), rest)
    ensures ExtractOver(xs, [DoubleAsterisk] + rest) == ExtractOver(DescendantsOver(xs), rest)
  {
    if xs != [] {
      ReplayOverChildren(xs[1..], rest);
      ExtractOverAppend(Descendants(xs[0]), DescendantsOver(xs[1..]), rest);
    }
  }

  /**
   * The reference traversal for `**`: applying `[**] + rest` to a node is the same as applying
   * `rest` to the node and to every one of its descendants, in depth-first pre-order.
   */
  lemma {:induction false} DoubleAsteriskIsEveryDescendant(j: Json, rest: seq<PathLeg>)
    ensures ExtractJson(j, [DoubleAsterisk] + rest) == ExtractOver(Descendants(j), rest)
  {
    ExtractDoubleAsterisk(j, rest);
    DescendantsUnfold(j);
    match j {
      case Array(a) =>
        forall k | 0 <= k < |a|
          ensures ExtractJson(a[k], [DoubleAsterisk] + rest) == ExtractOver(Descendants(a[k]), rest)
        {
          DoubleAsteriskIsEveryDescendant(a[k], rest);
        }
      case Object(e) =>
        forall k | 0 <= k < |Values(e)|
          ensures ExtractJson(Values(e)[k], [DoubleAsterisk] + rest)
               == ExtractOver(Descendants(Values(e)[k]), rest)
        {
          DoubleAsteriskIsEveryDescendant(e[k].1, rest);
        }
      case _ =>
    }
    ReplayOverChildren(Children(j), rest);
    ExtractOverAppend([j], DescendantsOver(Children(j)), rest);
    assert ExtractOver([j], rest) == ExtractJson(j, rest);
  }

  lemma {:induction false} ExtractOverMember(xs: seq<Json>, legs: seq<PathLeg>, x: Json)
    requires x in ExtractOver(xs, legs)
    ensures exists k :: 0 <= k < |xs| && x in ExtractJson(xs[k], legs)
  {
    if x !in ExtractJson(xs[0], legs) {
      ExtractOverMember(xs[1..], legs, x);
      var k :| 0 <= k < |xs[1..]| && x in ExtractJson(xs[1..][k], legs);
      assert xs[1..][k] == xs[k + 1];
    }
  }

  /** Every match is a sub-tree of the document: extraction only selects, it never builds. */
  lemma {:induction false} MatchIsSubtree(j: Json, legs: seq<PathLeg>, x: Json)
    requires x in ExtractJson(j, legs)
    ensures x in Descendants(j)
    decreases j, |legs|
  {
    if legs == [] {
      return;
    }
    var rest := legs[1..];
    assert legs == [legs[0]] + rest;
    match legs[0]
    case Index(i) =>
      match j {
        case Array(a) =>
          ExtractIndexOnArray(a, i, rest);
          if i == AnyIndex {
            ExtractOverMember(a, rest, x);
            var k :| 0 <= k < |a| && x in ExtractJson(a[k], rest);
            MatchIsSubtree(a[k], rest, x);
            ElementDescendants(a, k, x);
          } else {
            MatchIsSubtree(a[i.n], rest, x);
            ElementDescendants(a, i.n, x);
          }
        case _ =>
          ExtractIndexAutowrap(j, i, rest);
          MatchIsSubtree(j, rest, x);
      }
    case Key(key) =>
      ExtractKey(j, key, rest);
      match j {
        case Object(e) =>
          if key == KeyAsterisk {
            ExtractOverMember(Values(e), rest, x);
            var k :| 0 <= k < |Values(e)| && x in ExtractJson(Values(e)[k], rest);
            MatchIsSubtree(e[k].1, rest, x);
            EntryDescendants(e, k, x);
          } else {
            KeyIndexIsLookup(e, key);
            var k := KeyIndex(e, key).value;
            MatchIsSubtree(e[k].1, rest, x);
            EntryDescendants(e, k, x);
          }
        case _ =>
      }
    case DoubleAsterisk =>
      ExtractDoubleAsterisk(j, rest);
      if x in ExtractJson(j, rest) {
        MatchIsSubtree(j, rest, x);
      } else {
        ExtractOverMember(Children(j), legs, x);
        var k :| 0 <= k < |Children(j)| && x in ExtractJson(Children(j)[k], legs);
        match j {
          case Array(a) =>
            MatchIsSubtree(a[k], legs, x);
            ElementDescendants(a, k, x);
          case Object(e) =>
            MatchIsSubtree(e[k].1, legs, x);
            EntryDescendants(e, k, x);
        }
      }
  }

  /** Matches taken from a well-formed document are well-formed documents. */
  lemma MatchesValid(j: Json, legs: seq<PathLeg>)
    requires Valid(j)
    ensures forall x :: x in ExtractJson(j, legs) ==> Valid(x)
  {
    forall x | x in ExtractJson(j, legs)
      ensures Valid(x)
    {
      MatchIsSubtree(j, legs, x);
      DescendantsValid(j, x);
    }
  }

  /** A path without `[*]`, `.*` or `**` selects at most one value. */
  lemma {:induction false} AsteriskFreeMatchesAtMostOne(j: Json, legs: seq<PathLeg>)
    requires !ContainsAsterisk(legs)
    ensures |ExtractJson(j, legs)| <= 1
    decreases j, |legs|
  {
    if legs != [] {
      var rest := legs[1..];
      assert !IsWildcard(legs[0]);
      forall i | 0 <= i < |rest|
        ensures !IsWildcard(rest[i])
      {
        assert rest[i] == legs[i + 1];
      }
      assert legs == [legs[0]] + rest;
      match legs[0]
      case Index(i) =>
        match j {
          case Array(a) =>
            ExtractIndexOnArray(a, i, rest);
            if 0 <= i.n < |a| {
              AsteriskFreeMatchesAtMostOne(a[i.n], rest);
            }
          case _ =>
            ExtractIndexAutowrap(j, i, rest);
            AsteriskFreeMatchesAtMostOne(j, rest);
        }
      case Key(key) =>
        match j {
          case Object(e) =>
            if KeyIndex(e, key).Some? {
              AsteriskFreeMatchesAtMostOne(e[KeyIndex(e, key).value].1, rest);
            }
          case _ =>
        }
    }
  }

  /** The matches of each path expression in turn, as the loop in `extract` appends them. */
  function AllMatches(doc: Json, exprs: seq<PathExpression>): seq<Json>
  {
    if exprs == [] then []
    else AllMatches(doc, exprs[..|exprs| - 1]) + ExtractJson(doc, exprs[|exprs| - 1].legs)
  }

  lemma {:induction false} AllMatchesAppend(doc: Json, a: seq<PathExpression>, b: seq<PathExpression>)
    ensures AllMatches(doc, a + b) == AllMatches(doc, a) + AllMatches(doc, b)
    decreases |b|
  {
    if b == [] {
      assert a + b == a;
    } else {
      assert (a + b)[..|a + b| - 1] == a + b[..|b| - 1];
      AllMatchesAppend(doc, a, b[..|b| - 1]);
    }
  }

  lemma AllMatchesSingle(doc: Json, e: PathExpression)
    ensures AllMatches(doc, [e]) == ExtractJson(doc, e.legs)
  {
    assert [e][..0] == [];
  }

  lemma {:induction false} AllMatchesValid(doc: Json, exprs: seq<PathExpression>)
    requires Valid(doc)
    ensures forall x :: x in AllMatches(doc, exprs) ==> Valid(x)
    decreases |exprs|
  {
    if exprs != [] {
      AllMatchesValid(doc, exprs[..|exprs| - 1]);
      MatchesValid(doc, exprs[|exprs| - 1].legs);
    }
  }

  /**
   * `Json::extract`: no match gives `None`; one path expression with one match gives that
   * value bare; anything else gives every match, in order, wrapped in one array.
   */
  method Extract(doc: Json, exprs: seq<PathExpression>) returns (r: Option<Json>)
    ensures r.None? <==> AllMatches(doc, exprs) == []
    ensures |exprs| == 1 && |AllMatches(doc, exprs)| == 1 ==> r == Some(AllMatches(doc, exprs)[0])
    ensures AllMatches(doc, exprs) != [] && !(|exprs| == 1 && |AllMatches(doc, exprs)| == 1) ==>
              r == Some(Array(AllMatches(doc, exprs)))
    ensures Valid(doc) && r.Some? ==> Valid(r.value)
  {
    var elems: seq<Json> := [];
    for k := 0 to |exprs|
      invariant elems == AllMatches(doc, exprs[..k])
    {
      assert exprs[..k + 1][..k] == exprs[..k];
      elems := elems + ExtractJson(doc, exprs[k].legs);
    }
    assert exprs[..|exprs|] == exprs;
    if Valid(doc) {
      AllMatchesValid(doc, exprs);
    }
    if elems == [] {
      return None;
    }
    if |exprs| == 1 && |elems| == 1 {
      return Some(elems[0]);
    }
    return Some(Array(elems));
  }

  /** Whether the autowrap rule may return a match bare: one path expression that cannot match
      more than one value. */
  predicate MayUnwrap(exprs: seq<PathExpression>)
  {
    |exprs| == 1 && !ContainsAsterisk(exprs[0].legs)
  }

  /** The autowrap rule as MySQL states it: wrap whenever a path could match several values. */
  function ExtractIntended(doc: Json, exprs: seq<PathExpression>): (r: Option<Json>)
    ensures r.None? <==> AllMatches(doc, exprs) == []
  {
    var m := AllMatches(doc, exprs);
    if m == [] then None
    else if MayUnwrap(exprs) && |m| == 1 then Some(m[0])
    else Some(Array(m))
  }

  /** A single path with an asterisk can match exactly one value, and `extract` then returns it
      bare: `$[*]` on `[true]` gives `true` where the intended rule gives `[true]`. */
  lemma WildcardSingleMatch()
    ensures ContainsAsterisk(PathExpression([Index(AnyIndex)]).legs)
    ensures AllMatches(Array([Boolean(true)]), [PathExpression([Index(AnyIndex)])]) == [Boolean(true)]
    ensures ExtractIntended(Array([Boolean(true)]), [PathExpression([Index(AnyIndex)])])
         == Some(Array([Boolean(true)]))
  {
    assert IsWildcard([Index(AnyIndex)][0]);
    AllMatchesSingle(Array([Boolean(true)]), PathExpression([Index(AnyIndex)]));
    ExtractWildcardAlone(Array([Boolean(true)]));
  }

  /** Under the intended rule a path with an asterisk is always wrapped, and a single path
      without one is always unwrapped, exactly as `extract` does for it. */
  lemma ExtractIntendedShape(doc: Json, exprs: seq<PathExpression>)
    ensures !MayUnwrap(exprs) && ExtractIntended(doc, exprs).Some? ==>
              ExtractIntended(doc, exprs) == Some(Array(AllMatches(doc, exprs)))
    ensures MayUnwrap(exprs) && AllMatches(doc, exprs) != [] ==>
              |AllMatches(doc, exprs)| == 1 &&
              ExtractIntended(doc, exprs) == Some(AllMatches(doc, exprs)[0])
  {
    if MayUnwrap(exprs) {
      assert exprs == [exprs[0]];
      AllMatchesSingle(doc, exprs[0]);
      AsteriskFreeMatchesAtMostOne(doc, exprs[0].legs);
    }
  }
}
