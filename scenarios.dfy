/** The cases of the unit tests in functions.rs, stated over the model. */
module Scenarios {
  import opened Wrappers
  import opened JsonValue
  import opened PathExpr
  import opened Extraction
  import opened Unquoting

  function Path(legs: seq<PathLeg>): seq<PathExpression>
  {
    [PathExpression(legs)]
  }

  /** `{"a": "a1", "b": 20.08, "c": false}`, with the double 20.08 left as `d`. */
  function SmallObject(d: F64): Json
  {
    Object([("a", String("a1")), ("b", Double(d)), ("c", Boolean(false))])
  }

  lemma ExtractIndexCases(d: F64)
    ensures AllMatches(Null, []) == []
    ensures AllMatches(Array([Boolean(true), I64(2017)]), Path([Index(At(0))])) == [Boolean(true)]
    ensures AllMatches(Array([Boolean(true), I64(2017)]), Path([Index(AnyIndex)]))
         == [Boolean(true), I64(2017)]
    ensures AllMatches(Array([Boolean(true), I64(2107)]), Path([Index(At(2))])) == []
    ensures AllMatches(Double(d), Path([Index(At(0))])) == [Double(d)]
  {
    AllMatchesSingle(Array([Boolean(true), I64(2017)]), PathExpression([Index(At(0))]));
    AllMatchesSingle(Array([Boolean(true), I64(2017)]), PathExpression([Index(AnyIndex)]));
    ExtractWildcardAlone(Array([Boolean(true), I64(2017)]));
    AllMatchesSingle(Array([Boolean(true), I64(2107)]), PathExpression([Index(At(2))]));
    AllMatchesSingle(Double(d), PathExpression([Index(At(0))]));
  }

  /** Key `c` is the third entry of the small object; key `d` is absent. */
  lemma SmallObjectKeys(d: F64)
    ensures ExtractJson(SmallObject(d), [Key("c")]) == [Boolean(false)]
    ensures ExtractJson(SmallObject(d), [Key("d")]) == []
  {
    var e := SmallObject(d).entries;
    assert e[0].0 == "a" && e[1].0 == "b" && e[2].0 == "c";
    assert "a" != "c" && "b" != "c" && "a" != "d" && "b" != "d" && "c" != "d";
    assert KeyIndex(e, "c") == Some(2);
    assert KeyIndex(e, "d") == None;
  }

  /** `.*` gives the small object's values in key order. */
  lemma SmallObjectValues(d: F64)
    ensures ExtractJson(SmallObject(d), [Key(KeyAsterisk)]) == [String("a1"), Double(d), Boolean(false)]
  {
    ExtractWildcardAlone(SmallObject(d));
    var vs := Values(SmallObject(d).entries);
    assert vs[0] == String("a1") && vs[1] == Double(d) && vs[2] == Boolean(false);
    assert vs == [String("a1"), Double(d), Boolean(false)];
  }

  lemma ExtractKeyCases(d: F64)
    ensures AllMatches(SmallObject(d), Path([Key("c")])) == [Boolean(false)]
    ensures AllMatches(SmallObject(d), Path([Key(KeyAsterisk)])) == [String("a1"), Double(d), Boolean(false)]
    ensures AllMatches(SmallObject(d), Path([Key("d")])) == []
  {
    var o := SmallObject(d);
    SmallObjectKeys(d);
    SmallObjectValues(d);
    AllMatchesSingle(o, PathExpression([Key("c")]));
    AllMatchesSingle(o, PathExpression([Key(KeyAsterisk)]));
    AllMatchesSingle(o, PathExpression([Key("d")]));
  }

  lemma {:induction false} NothingOver(xs: seq<Json>, legs: seq<PathLeg>)
    requires forall i :: 0 <= i < |xs| ==> ExtractJson(xs[i], legs) == []
    ensures ExtractOver(xs, legs) == []
  {
    if xs != [] {
      assert ExtractJson(xs[0], legs) == [];
      NothingOver(xs[1..], legs);
    }
  }

  /** `$**.c` finds nothing under a scalar. */
  lemma LeafDoubleAsterisk(x: Json)
    requires !x.Array? && !x.Object?
    ensures ExtractJson(x, [DoubleAsterisk, Key("c")]) == []
  {
    assert [DoubleAsterisk, Key("c")] == [DoubleAsterisk] + [Key("c")];
    ExtractDoubleAsterisk(x, [Key("c")]);
  }

  lemma SmallObjectDoubleAsterisk(d: F64)
    ensures ExtractJson(SmallObject(d), [DoubleAsterisk, Key("c")]) == [Boolean(false)]
  {
    var legs := [DoubleAsterisk, Key("c")];
    var o := SmallObject(d);
    SmallObjectKeys(d);
    assert legs == [DoubleAsterisk] + [Key("c")];
    ExtractDoubleAsterisk(o, [Key("c")]);
    var vs := [String("a1"), Double(d), Boolean(false)];
    assert Children(o) == vs;
    forall i | 0 <= i < |vs|
      ensures ExtractJson(vs[i], legs) == []
    {
      LeafDoubleAsterisk(vs[i]);
    }
    NothingOver(vs, legs);
  }

  lemma ExtractDoubleAsteriskLeaf()
    ensures AllMatches(I64(21), Path([DoubleAsterisk, Key("c")])) == []
  {
    AllMatchesSingle(I64(21), PathExpression([DoubleAsterisk, Key("c")]));
    LeafDoubleAsterisk(I64(21));
  }

  lemma ExtractDoubleAsteriskNestedObject(d: F64)
    ensures AllMatches(Object([("g", SmallObject(d))]), Path([DoubleAsterisk, Key("c")])) == [Boolean(false)]
  {
    var legs := [DoubleAsterisk, Key("c")];
    var root := Object([("g", SmallObject(d))]);
    AllMatchesSingle(root, PathExpression(legs));
    assert legs == [DoubleAsterisk] + [Key("c")];
    ExtractDoubleAsterisk(root, [Key("c")]);
    SmallObjectDoubleAsterisk(d);
    assert Children(root) == [SmallObject(d)];
    assert ExtractOver([SmallObject(d)], legs) == [Boolean(false)];
  }

  lemma ExtractDoubleAsteriskNestedArray(d: F64)
    ensures AllMatches(Array([SmallObject(d), Boolean(true)]), Path([DoubleAsterisk, Key("c")])) == [Boolean(false)]
  {
    var legs := [DoubleAsterisk, Key("c")];
    var root := Array([SmallObject(d), Boolean(true)]);
    AllMatchesSingle(root, PathExpression(legs));
    assert legs == [DoubleAsterisk] + [Key("c")];
    ExtractDoubleAsterisk(root, [Key("c")]);
    SmallObjectDoubleAsterisk(d);
    LeafDoubleAsterisk(Boolean(true));
    assert [SmallObject(d), Boolean(true)][1..] == [Boolean(true)];
    assert ExtractOver([Boolean(true)], legs) == [];
  }

  /** What `extract` itself returns for the index test cases. */
  method ExtractIndexOutcomes(d: F64) returns (none: Option<Json>, first: Option<Json>, all: Option<Json>,
                                              outside: Option<Json>, scalar: Option<Json>)
    ensures none == None
    ensures first == Some(Boolean(true))
    ensures all == Some(Array([Boolean(true), I64(2017)]))
    ensures outside == None
    ensures scalar == Some(Double(d))
  {
    ExtractIndexCases(d);
    none := Extract(Null, []);
    first := Extract(Array([Boolean(true), I64(2017)]), Path([Index(At(0))]));
    all := Extract(Array([Boolean(true), I64(2017)]), Path([Index(AnyIndex)]));
    outside := Extract(Array([Boolean(true), I64(2107)]), Path([Index(At(2))]));
    scalar := Extract(Double(d), Path([Index(At(0))]));
  }

  /** What `extract` itself returns for the key and `**` test cases. */
  method ExtractKeyOutcomes(d: F64) returns (present: Option<Json>, values: Option<Json>, absent: Option<Json>,
                                            leaf: Option<Json>, nested: Option<Json>, inArray: Option<Json>)
    ensures present == Some(Boolean(false))
    ensures values == Some(Array([String("a1"), Double(d), Boolean(false)]))
    ensures absent == None
    ensures leaf == None
    ensures nested == Some(Boolean(false))
    ensures inArray == Some(Boolean(false))
  {
    ExtractKeyCases(d);
    ExtractDoubleAsteriskLeaf();
    ExtractDoubleAsteriskNestedObject(d);
    ExtractDoubleAsteriskNestedArray(d);
    present := Extract(SmallObject(d), Path([Key("c")]));
    values := Extract(SmallObject(d), Path([Key(KeyAsterisk)]));
    absent := Extract(SmallObject(d), Path([Key("d")]));
    leaf := Extract(I64(21), Path([DoubleAsterisk, Key("c")]));
    nested := Extract(Object([("g", SmallObject(d))]), Path([DoubleAsterisk, Key("c")]));
    inArray := Extract(Array([SmallObject(d), Boolean(true)]), Path([DoubleAsterisk, Key("c")]));
  }

  /** `extract` returns the single wildcard match bare, where the intended rule wraps it. */
  method WildcardSingleMatchOutcome() returns (got: Option<Json>, intended: Option<Json>)
    ensures got == Some(Boolean(true))
    ensures intended == Some(Array([Boolean(true)]))
  {
    WildcardSingleMatch();
    got := Extract(Array([Boolean(true)]), [PathExpression([Index(AnyIndex)])]);
    intended := ExtractIntended(Array([Boolean(true)]), [PathExpression([Index(AnyIndex)])]);
  }

  lemma DecodeCases()
    ensures DecodeEscapedUnicode("5e8a") == Ok('床')
    ensures DecodeEscapedUnicode("524d") == Ok('前')
    ensures DecodeEscapedUnicode("660e") == Ok('明')
    ensures DecodeEscapedUnicode("6708") == Ok('月')
    ensures DecodeEscapedUnicode("5149") == Ok('光')
  {
    assert DecodeEscapedUnicode("5e8a") == Ok('床') by { DecodeHexDigits("5e8a", '床'); }
    assert DecodeEscapedUnicode("524d") == Ok('前') by { DecodeHexDigits("524d", '前'); }
    assert DecodeEscapedUnicode("660e") == Ok('明') by { DecodeHexDigits("660e", '明'); }
    assert DecodeEscapedUnicode("6708") == Ok('月') by { DecodeHexDigits("6708", '月'); }
    assert DecodeEscapedUnicode("5149") == Ok('光') by { DecodeHexDigits("5149", '光'); }
  }

  lemma SimpleEscapeAlone(c: char)
    requires c != 'u'
    ensures Unescaped(['\\', c]) == Ok([SimpleEscape(c)])
  {
    SimpleEscapeDecoded([], c, []);
    assert [] + ['\\', c] + [] == ['\\', c];
    assert [] + [SimpleEscape(c)] + [] == [SimpleEscape(c)];
  }

  lemma UnquoteShortEscapeCases()
    ensures Unescaped("\\b") == Ok("\U{08}")
    ensures Unescaped("\\f") == Ok("\U{0C}")
    ensures Unescaped("\\n") == Ok("\U{0A}")
    ensures Unescaped("\\r") == Ok("\U{0D}")
    ensures Unescaped("\\t") == Ok("\U{09}")
    ensures Unescaped("\\\\") == Ok("\\")
    ensures Unescaped("\\a") == Ok("a")
  {
    SimpleEscapeAlone('b');
    SimpleEscapeAlone('f');
    SimpleEscapeAlone('n');
    SimpleEscapeAlone('r');
    SimpleEscapeAlone('t');
    SimpleEscapeAlone('\\');
    SimpleEscapeAlone('a');
  }

  lemma UnquoteUnicodeCases()
    ensures Unescaped("\\u597d") == Ok("好")
    ensures Unescaped("0\\u597d0") == Ok("0好0")
  {
    DecodeHexDigits("597d", '好');
    assert "597d"[..4] == "597d" && "597d"[4..] == [];
    UnicodeEscapeDecoded([], "597d", '好');
    assert [] + ['\\', 'u'] + "597d" == "\\u597d";
    assert [] + ['好'] + [] == "好";
    assert "597d0"[..4] == "597d" && "597d0"[4..] == "0";
    UnescapedNoBackslash("0");
    UnicodeEscapeDecoded("0", "597d0", '好');
    assert "0" + ['\\', 'u'] + "597d0" == "0\\u597d0";
    assert "0" + ['好'] + "0" == "0好0";
  }

  lemma UnquoteOtherCases()
    ensures Unescaped("[") == Ok("[")
    ensures Unescaped("\\") == Err(IncompleteEscape)
    ensures Unescaped("\\u59") == Err(InvalidUnicode)
  {
    UnescapedNoBackslash("[");
    BadUnicodeEscape([], "59");
    assert [] + ['\\', 'u'] + "59" == "\\u59";
  }
}
