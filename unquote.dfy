/**
 * JSON_UNQUOTE on a string value: a left-to-right scan that decodes the escape sequences of
 * the MySQL 5.7 JSON_UNQUOTE table, dropping the backslash of any other escape.
 */
module Unquoting {
  import opened Wrappers
  import opened JsonValue

  /** The two ways unquoting fails; neither returns any partial output. */
  datatype UnquoteError = IncompleteEscape | InvalidUnicode

  /** Number of hex digits that follow `\u`. */
  const EscapedUnicodeLen: nat := 4

  /** The value of a base-16 digit of either case, as `char::to_digit(16)` gives it. */
  function HexDigit(c: char): (r: Option<nat>)
    ensures r.Some? ==> r.value < 16
  {
    if '0' <= c <= '9' then Some(c as nat - '0' as nat)
    else if 'a' <= c <= 'f' then Some(c as nat - 'a' as nat + 10)
    else if 'A' <= c <= 'F' then Some(c as nat - 'A' as nat + 10)
    else None
  }

  /** The value of a run of hex digits, most significant first; `None` if one is not a digit. */
  function HexValue(s: string): Option<nat>
  {
    if s == [] then Some(0)
    else match HexValue(s[..|s| - 1])
      case None => None
      case Some(v) =>
        match HexDigit(s[|s| - 1])
        case None => None
        case Some(d) => Some(v * 16 + d)
  }

  /** `u32::from_str_radix(s, 16)`: an optional leading `+`, then at least one hex digit, and a
      value that fits in 32 bits. */
  function FromStrRadix16(s: string): (r: Option<nat>)
    ensures r.Some? ==> r.value < 0x1_0000_0000
  {
    if s == [] then None
    else
      var digits := if s[0] == '+' then s[1..] else s;
      if digits == [] then None
      else match HexValue(digits)
        case None => None
        case Some(v) => if v < 0x1_0000_0000 then Some(v) else None
  }

  /** What `char::from_u32` accepts: a code point that is not a surrogate. */
  predicate IsScalarValue(u: nat)
  {
    u < 0xD800 || 0xE000 <= u < 0x11_0000
  }

  /** `decode_escaped_unicode`: the hex text of a `\u` escape as a character. */
  function DecodeEscapedUnicode(s: string): (r: Result<char, UnquoteError>)
    ensures r.Err? ==> r.error == InvalidUnicode
  {
    match FromStrRadix16(s)
    case None => Err(InvalidUnicode)
    case Some(u) => if IsScalarValue(u) then Ok(u as char) else Err(InvalidUnicode)
  }

  /** What an escape other than `\u` decodes to: the JSON_UNQUOTE table for `\" \b \f \n \r \t \\`,
      and the escaped character itself for any other. */
  function SimpleEscape(c: char): char
  {
    match c
    case '"' => '"'
    case 'b' => '\U{08}'
    case 'f' => '\U{0C}'
    case 'n' => '\U{0A}'
    case 'r' => '\U{0D}'
    case 't' => '\U{09}'
    case '\\' => '\\'
    case _ => c
  }

  /** `x` in front of a successful result; an error stays an error, without partial output. */
  function Prepend(x: string, r: Result<string, UnquoteError>): Result<string, UnquoteError>
  {
    match r
    case Ok(v) => Ok(x + v)
    case Err(e) => Err(e)
  }

  /** The unquoted text of `s`, decoded one escape sequence or character at a time. */
  function Unescaped(s: string): Result<string, UnquoteError>
    decreases |s|
  {
    if s == [] then Ok([])
    else if s[0] != '\\' then Prepend([s[0]], Unescaped(s[1..]))
    else if |s| == 1 then Err(IncompleteEscape)
    else if s[1] != 'u' then Prepend([SimpleEscape(s[1])], Unescaped(s[2..]))
    else if |s| < 2 + EscapedUnicodeLen then Err(InvalidUnicode)
    else match DecodeEscapedUnicode(s[2..2 + EscapedUnicodeLen])
      case Err(e) => Err(e)
      case Ok(c) => Prepend([c], Unescaped(s[2 + EscapedUnicodeLen..]))
  }

  lemma PrependPrepend(x: string, y: string, r: Result<string, UnquoteError>)
    ensures Prepend(x, Prepend(y, r)) == Prepend(x + y, r)
  {
    if r.Ok? {
      assert (x + y) + r.value == x + (y + r.value);
    }
  }

  /** `unquote_string`: the scan over the characters of `s`, building the result in `ret`. */
  method UnquoteString(s: string) returns (r: Result<string, UnquoteError>)
    ensures r == Unescaped(s)
  {
    var ret: string := "";
    var i := 0;
    assert s[i..] == s;
    assert Prepend(ret, Unescaped(s)) == Unescaped(s) by {
      if Unescaped(s).Ok? {
        assert ret + Unescaped(s).value == Unescaped(s).value;
      }
    }
    while i < |s|
      invariant 0 <= i <= |s|
      invariant Unescaped(s) == Prepend(ret, Unescaped(s[i..]))
    {
      var ch := s[i];
      ghost var tail := s[i..];
      assert tail[0] == ch;
      if ch == '\\' {
        if i + 1 == |s| {
          return Err(IncompleteEscape);
        }
        var c := s[i + 1];
        assert tail[1] == c;
        if c == 'u' {
          if |s| - (i + 2) < EscapedUnicodeLen {
            return Err(InvalidUnicode);
          }
          assert tail[2..2 + EscapedUnicodeLen] == s[i + 2..i + 2 + EscapedUnicodeLen];
          var decoded := DecodeEscapedUnicode(s[i + 2..i + 2 + EscapedUnicodeLen]);
          if decoded.Err? {
            return Err(decoded.error);
          }
          assert tail[2 + EscapedUnicodeLen..] == s[i + 2 + EscapedUnicodeLen..];
          PrependPrepend(ret, [decoded.value], Unescaped(s[i + 2 + EscapedUnicodeLen..]));
          ret := ret + [decoded.value];
          i := i + 2 + EscapedUnicodeLen;
        } else {
          assert tail[2..] == s[i + 2..];
          PrependPrepend(ret, [SimpleEscape(c)], Unescaped(s[i + 2..]));
          ret := ret + [SimpleEscape(c)];
          i := i + 2;
        }
      } else {
        assert tail[1..] == s[i + 1..];
        PrependPrepend(ret, [ch], Unescaped(s[i + 1..]));
        ret := ret + [ch];
        i := i + 1;
      }
    }
    assert ret + [] == ret;
    return Ok(ret);
  }

  /** `Json::unquote`: a string is unescaped; any other value is rendered by the serializer
      `render`, which is not part of this model, and never fails. */
  method Unquote(j: Json, render: Json -> string) returns (r: Result<string, UnquoteError>)
    ensures j.String? ==> r == Unescaped(j.s)
    ensures !j.String? ==> r == Ok(render(j))
  {
    match j
    case String(s) =>
      r := UnquoteString(s);
    case _ =>
      r := Ok(render(j));
  }

  lemma PrependNothing(r: Result<string, UnquoteError>)
    ensures Prepend([], r) == r
  {
    if r.Ok? {
      assert [] + r.value == r.value;
    }
  }

  /** Text without a backslash unquotes to itself. */
  lemma {:induction false} UnescapedNoBackslash(s: string)
    requires '\\' !in s
    ensures Unescaped(s) == Ok(s)
  {
    if s != [] {
      UnescapedNoBackslash(s[1..]);
      assert [s[0]] + s[1..] == s;
    }
  }

  /** Once a prefix has unquoted, the scan of the rest starts afresh at its first character. */
  lemma {:induction false} UnescapedConcat(p: string, t: string)
    requires Unescaped(p).Ok?
    ensures Unescaped(p + t) == Prepend(Unescaped(p).value, Unescaped(t))
    decreases |p|
  {
    var pt := p + t;
    if p == [] {
      assert pt == t;
      PrependNothing(Unescaped(t));
    } else if p[0] != '\\' {
      assert pt[0] == p[0] && pt[1..] == p[1..] + t;
      UnescapedConcat(p[1..], t);
      PrependPrepend([p[0]], Unescaped(p[1..]).value, Unescaped(t));
    } else if p[1] != 'u' {
      assert pt[0] == p[0] && pt[1] == p[1] && pt[2..] == p[2..] + t;
      UnescapedConcat(p[2..], t);
      PrependPrepend([SimpleEscape(p[1])], Unescaped(p[2..]).value, Unescaped(t));
    } else {
      var n := 2 + EscapedUnicodeLen;
      assert pt[0] == p[0] && pt[1] == p[1] && pt[2..n] == p[2..n] && pt[n..] == p[n..] + t;
      UnescapedConcat(p[n..], t);
      var c := DecodeEscapedUnicode(p[2..n]).value;
      PrependPrepend([c], Unescaped(p[n..]).value, Unescaped(t));
    }
  }

  /** An escape other than `\u`, where the scan meets it, decodes by the escape table and
      the scan resumes right after it. */
  lemma SimpleEscapeDecoded(p: string, c: char, t: string)
    requires Unescaped(p).Ok? && c != 'u'
    ensures Unescaped(p + ['\\', c] + t) == Prepend(Unescaped(p).value + [SimpleEscape(c)], Unescaped(t))
  {
    var w := ['\\', c] + t;
    assert p + ['\\', c] + t == p + w;
    assert w[2..] == t;
    UnescapedConcat(p, w);
    PrependPrepend(Unescaped(p).value, [SimpleEscape(c)], Unescaped(t));
  }

  /** A good `\u` escape, where the scan meets it, yields one character and the scan resumes
      exactly four characters later. */
  lemma UnicodeEscapeDecoded(p: string, t: string, c: char)
    requires Unescaped(p).Ok?
    requires |t| >= EscapedUnicodeLen && DecodeEscapedUnicode(t[..EscapedUnicodeLen]) == Ok(c)
    ensures Unescaped(p + ['\\', 'u'] + t) == Prepend(Unescaped(p).value + [c], Unescaped(t[EscapedUnicodeLen..]))
  {
    var w := ['\\', 'u'] + t;
    assert p + ['\\', 'u'] + t == p + w;
    assert w[2..2 + EscapedUnicodeLen] == t[..EscapedUnicodeLen];
    assert w[2 + EscapedUnicodeLen..] == t[EscapedUnicodeLen..];
    UnescapedConcat(p, w);
    PrependPrepend(Unescaped(p).value, [c], Unescaped(t[EscapedUnicodeLen..]));
  }

  /** A `\u` at `k` whose next four characters are missing or do not decode. */
  predicate BadUnicodeAt(s: string, k: nat)
  {
    k + 2 <= |s| && s[k] == '\\' && s[k + 1] == 'u' &&
    (|s| < k + 2 + EscapedUnicodeLen || DecodeEscapedUnicode(s[k + 2..k + 2 + EscapedUnicodeLen]).Err?)
  }

  lemma BadUnicodeEscape(p: string, t: string)
    requires Unescaped(p).Ok?
    requires |t| < EscapedUnicodeLen || DecodeEscapedUnicode(t[..EscapedUnicodeLen]).Err?
    ensures Unescaped(p + ['\\', 'u'] + t) == Err(InvalidUnicode)
  {
    var w := ['\\', 'u'] + t;
    assert p + ['\\', 'u'] + t == p + w;
    if |t| >= EscapedUnicodeLen {
      assert w[2..2 + EscapedUnicodeLen] == t[..EscapedUnicodeLen];
    }
    UnescapedConcat(p, w);
  }

  /** The first step of a scan that does not fail there: it consumes `m` characters that
      unquote on their own, and the scan goes on from `m`. */
  lemma FirstStep(s: string) returns (m: nat)
    requires s != [] && !(s[0] == '\\' && (|s| == 1 || BadUnicodeAt(s, 0)))
    ensures 0 < m <= |s| && Unescaped(s[..m]).Ok?
    ensures Unescaped(s) == Prepend(Unescaped(s[..m]).value, Unescaped(s[m..]))
  {
    var n := 2 + EscapedUnicodeLen;
    if s[0] != '\\' {
      m := 1;
    } else if s[1] != 'u' {
      m := 2;
    } else {
      m := n;
      assert s[..m][2..n] == s[2..n];
    }
    assert s[..m][m..] == [];
    assert s[..m] + s[m..] == s;
    UnescapedConcat(s[..m], s[m..]);
  }

  lemma {:induction false} InvalidUnicodeWitness(s: string)
    requires Unescaped(s) == Err(InvalidUnicode)
    ensures exists k: nat :: BadUnicodeAt(s, k) && Unescaped(s[..k]).Ok?
    decreases |s|
  {
    if BadUnicodeAt(s, 0) {
      assert s[..0] == [];
    } else {
      var m := FirstStep(s);
      InvalidUnicodeWitness(s[m..]);
      var k: nat :| BadUnicodeAt(s[m..], k) && Unescaped(s[m..][..k]).Ok?;
      BadUnicodeShift(s, m, k);
      assert s[..m + k] == s[..m] + s[m..][..k];
      UnescapedConcat(s[..m], s[m..][..k]);
    }
  }

  lemma BadUnicodeShift(s: string, m: nat, k: nat)
    requires m <= |s| && BadUnicodeAt(s[m..], k)
    ensures BadUnicodeAt(s, m + k)
  {
    var n := 2 + EscapedUnicodeLen;
    assert s[m..][k] == s[m + k] && s[m..][k + 1] == s[m + k + 1];
    if |s| >= m + k + n {
      assert s[m..][k + 2..k + n] == s[m + k + 2..m + k + n];
    }
  }

  /** Unquoting fails with `InvalidUnicode` exactly when the scan meets a `\u` that is not
      followed by four characters that decode to a character. */
  lemma InvalidUnicodeIff(s: string)
    ensures Unescaped(s) == Err(InvalidUnicode) <==> exists k: nat :: BadUnicodeAt(s, k) && Unescaped(s[..k]).Ok?
  {
    if Unescaped(s) == Err(InvalidUnicode) {
      InvalidUnicodeWitness(s);
    }
    if exists k: nat :: BadUnicodeAt(s, k) && Unescaped(s[..k]).Ok? {
      var k: nat :| BadUnicodeAt(s, k) && Unescaped(s[..k]).Ok?;
      var t := s[k + 2..];
      assert s == s[..k] + ['\\', 'u'] + t;
      if |t| >= EscapedUnicodeLen {
        assert t[..EscapedUnicodeLen] == s[k + 2..k + 2 + EscapedUnicodeLen];
      }
      BadUnicodeEscape(s[..k], t);
    }
  }

  lemma {:induction false} IncompleteEscapeAtEnd(s: string)
    requires Unescaped(s) == Err(IncompleteEscape)
    ensures |s| > 0 && s[|s| - 1] == '\\' && Unescaped(s[..|s| - 1]).Ok?
    decreases |s|
  {
    if s[0] == '\\' && |s| == 1 {
      assert s[..0] == [];
    } else {
      var m := FirstStep(s);
      IncompleteEscapeAtEnd(s[m..]);
      assert s[..|s| - 1] == s[..m] + s[m..][..|s[m..]| - 1];
      UnescapedConcat(s[..m], s[m..][..|s[m..]| - 1]);
    }
  }

  /** Unquoting fails with `IncompleteEscape` exactly when the scan meets a backslash as the
      last character. */
  lemma IncompleteEscapeIff(s: string)
    ensures Unescaped(s) == Err(IncompleteEscape) <==>
            |s| > 0 && s[|s| - 1] == '\\' && Unescaped(s[..|s| - 1]).Ok?
  {
    if Unescaped(s) == Err(IncompleteEscape) {
      IncompleteEscapeAtEnd(s);
    }
    if |s| > 0 && s[|s| - 1] == '\\' && Unescaped(s[..|s| - 1]).Ok? {
      assert s == s[..|s| - 1] + ['\\'];
      UnescapedConcat(s[..|s| - 1], ['\\']);
    }
  }

  /** Decoding never lengthens the text. */
  lemma {:induction false} UnescapedNoLonger(s: string)
    requires Unescaped(s).Ok?
    ensures |Unescaped(s).value| <= |s|
    decreases |s|
  {
    if s != [] {
      if s[0] != '\\' {
        UnescapedNoLonger(s[1..]);
      } else if s[1] != 'u' {
        UnescapedNoLonger(s[2..]);
      } else {
        UnescapedNoLonger(s[2 + EscapedUnicodeLen..]);
      }
    }
  }

  /** How a JSON string encoder writes one character: the seven characters of the table
      get their short escape, every other is written as it is. */
  function EscapeChar(c: char): string
  {
    match c
    case '"' => ['\\', '"']
    case '\\' => ['\\', '\\']
    case '\U{08}' => ['\\', 'b']
    case '\U{0C}' => ['\\', 'f']
    case '\U{0A}' => ['\\', 'n']
    case '\U{0D}' => ['\\', 'r']
    case '\U{09}' => ['\\', 't']
    case _ => [c]
  }

  lemma EscapeCharDecodes(c: char)
    ensures Unescaped(EscapeChar(c)) == Ok([c])
  {
    var e := EscapeChar(c);
    if |e| == 2 {
      assert e[0] == '\\' && e[1] != 'u' && SimpleEscape(e[1]) == c;
      assert e[2..] == [] && [c] + [] == [c];
      assert Unescaped(e) == Prepend([c], Unescaped([]));
    } else {
      assert e == [c] && c != '\\';
      assert e[1..] == [] && [c] + [] == [c];
      assert Unescaped(e) == Prepend([c], Unescaped([]));
    }
  }

  function Escape(t: string): string
  {
    if t == [] then [] else EscapeChar(t[0]) + Escape(t[1..])
  }

  /** Unquoting undoes escaping, for every text. */
  lemma {:induction false} EscapeRoundTrip(t: string)
    ensures Unescaped(Escape(t)) == Ok(t)
  {
    if t != [] {
      EscapeRoundTrip(t[1..]);
      var e := EscapeChar(t[0]);
      EscapeCharDecodes(t[0]);
      UnescapedConcat(e, Escape(t[1..]));
      assert [t[0]] + t[1..] == t;
    }
  }

  /** The lower-case hex digit of `d`. */
  function HexChar(d: nat): (c: char)
    requires d < 16
    ensures HexDigit(c) == Some(d)
  {
    if d < 10 then ('0' as nat + d) as char else ('a' as nat + d - 10) as char
  }

  /** The four hex digits that a `\u` escape of code point `u` carries. */
  function Hex4(u: nat): (s: string)
    requires u < 0x1_0000
  {
    [HexChar(u / 0x1000), HexChar(u / 0x100 % 16), HexChar(u / 0x10 % 16), HexChar(u % 16)]
  }

  lemma HexValueFour(s: string)
    requires |s| == 4 && forall i :: 0 <= i < 4 ==> HexDigit(s[i]).Some?
    ensures HexValue(s) == Some(((HexDigit(s[0]).value * 16 + HexDigit(s[1]).value) * 16
                                 + HexDigit(s[2]).value) * 16 + HexDigit(s[3]).value)
  {
    var d0, d1, d2, d3 := HexDigit(s[0]).value, HexDigit(s[1]).value, HexDigit(s[2]).value, HexDigit(s[3]).value;
    assert s[..1][..0] == [] && s[..1][0] == s[0];
    assert HexValue(s[..1]) == Some(d0);
    assert s[..2][..1] == s[..1] && s[..2][1] == s[1];
    assert HexValue(s[..2]) == Some(d0 * 16 + d1);
    assert s[..3][..2] == s[..2] && s[..3][2] == s[2];
    assert HexValue(s[..3]) == Some((d0 * 16 + d1) * 16 + d2);
  }

  /** Four hex digits decode to their code point, unless it is a surrogate. */
  lemma DecodeHex4(u: nat)
    requires u < 0x1_0000
    ensures DecodeEscapedUnicode(Hex4(u)) == if IsScalarValue(u) then Ok(u as char) else Err(InvalidUnicode)
  {
    var s := Hex4(u);
    HexValueFour(s);
    var a, b := u / 0x10, u % 16;
    var c, d := a / 0x10, a % 16;
    var e, f := c / 0x10, c % 16;
    assert u == a * 16 + b && a == c * 16 + d && c == e * 16 + f;
    assert u / 0x100 == c && u / 0x1000 == e;
    assert HexValue(s) == Some(((e * 16 + f) * 16 + d) * 16 + b);
    assert s[0] != '+';
  }

  /** Four hex digits of either case, with no sign, decode to the character they spell. */
  lemma DecodeHexDigits(s: string, c: char)
    requires |s| == 4 && s[0] != '+' && forall i :: 0 <= i < 4 ==> HexDigit(s[i]).Some?
    requires ((HexDigit(s[0]).value * 16 + HexDigit(s[1]).value) * 16
              + HexDigit(s[2]).value) * 16 + HexDigit(s[3]).value == c as nat
    ensures DecodeEscapedUnicode(s) == Ok(c)
  {
    HexValueFour(s);
    assert IsScalarValue(c as nat);
  }

  /** Every character of the Basic Multilingual Plane survives a `\uXXXX` escape. */
  lemma UnicodeEscapeRoundTrip(c: char)
    requires c as nat < 0x1_0000
    ensures Unescaped(['\\', 'u'] + Hex4(c as nat)) == Ok([c])
  {
    assert IsScalarValue(c as nat) && (c as nat) as char == c;
    DecodeHex4(c as nat);
    var s := ['\\', 'u'] + Hex4(c as nat);
    assert s[2..2 + EscapedUnicodeLen] == Hex4(c as nat);
    assert s[2 + EscapedUnicodeLen..] == [];
    assert [c] + [] == [c];
  }

  function Pow16(n: nat): nat
  {
    if n == 0 then 1 else 16 * Pow16(n - 1)
  }

  lemma {:induction false} HexValueBound(s: string)
    requires HexValue(s).Some?
    ensures HexValue(s).value < Pow16(|s|)
  {
    if s != [] {
      HexValueBound(s[..|s| - 1]);
    }
  }

  /** A `\u` escape carries at most four hex digits, so it gives a character of the Basic
      Multilingual Plane. */
  lemma UnicodeEscapeIsBmp(s: string)
    requires |s| == EscapedUnicodeLen && DecodeEscapedUnicode(s).Ok?
    ensures DecodeEscapedUnicode(s).value as nat < 0x1_0000
  {
    assert Pow16(3) == 0x1000 && Pow16(4) == 0x1_0000;
    if s[0] == '+' {
      HexValueBound(s[1..]);
    } else {
      HexValueBound(s);
    }
  }

  /** `from_str_radix` accepts a leading `+`, so `\u+abc` decodes to U+0ABC; a `-` is refused. */
  lemma SignedHexDigits()
    ensures DecodeEscapedUnicode("+abc") == Ok('\U{0ABC}')
    ensures DecodeEscapedUnicode("-abc") == Err(InvalidUnicode)
    ensures Unescaped("\\u+abc!") == Ok("\U{0ABC}!")
  {
    assert "+abc"[1..] == "abc";
    assert "abc"[..2] == "ab" && "ab"[..1] == "a" && "a"[..0] == [];
    assert "-abc"[..3] == "-ab" && "-ab"[..2] == "-a" && "-a"[..1] == "-";
    assert "-"[..0] == [];
    var s := "\\u+abc!";
    assert s[2..6] == "+abc" && s[6..] == "!";
    UnescapedNoBackslash("!");
    assert ['\U{0ABC}'] + "!" == "\U{0ABC}!";
  }
}
