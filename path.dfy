/** The legs of a parsed path expression, as the extraction reads them. */
module PathExpr {

  /** The array index of an `Index` leg: the `[*]` wildcard, or a number. */
  datatype ArrayIndex = AnyIndex | At(n: int)

  datatype PathLeg =
    | Index(i: ArrayIndex)
    | Key(k: string)
    | DoubleAsterisk

  /** The key of a `.*` leg. */
  const KeyAsterisk: string := "*"

  /** A parsed path expression; only its legs matter to extraction. */
  datatype PathExpression = PathExpression(legs: seq<PathLeg>)

  /** A leg that can match more than one value. */
  predicate IsWildcard(leg: PathLeg)
  {
    match leg
    case Index(i) => i == AnyIndex
    case Key(k) => k == KeyAsterisk
    case DoubleAsterisk => true
  }

  predicate ContainsAsterisk(legs: seq<PathLeg>)
  {
    exists i :: 0 <= i < |legs| && IsWildcard(legs[i])
  }
}
