/**
 The small part of JavaScript's value semantics that the two editor
 components rely on: values that may be `null`/`undefined`, the values a
 jQuery `.data()` store hands back, truthiness and the `||` operator, and
 `String.prototype.trim`.
 */
module Js {

  /** A reference that may be `null` or `undefined`; the components never
      distinguish the two. */
  datatype Nullable<+T> = Null | Value(value: T)

  /** A value read from a jQuery `.data()` store. jQuery turns the data
      attribute's text into a boolean, `null`, a number, a parsed JSON object
      or leaves it a string; a missing entry reads as `undefined`. A finite
      number is a real; the texts "NaN", "Infinity" and "-Infinity" read as
      the non-finite numbers. */
  datatype DataValue =
    | Undefined
    | NullValue
    | Bool(b: bool)
    | Number(n: real)
    | NotANumber
    | Infinity(negative: bool)
    | Str(s: string)
    | Object(json: string)

  /** JavaScript truthiness: `undefined`, `null`, `false`, `0`, `NaN` and `""`
      are falsy; the infinities and every object are truthy. */
  predicate Truthy(v: DataValue) {
    match v
    case Undefined => false
    case NullValue => false
    case Bool(b) => b
    case Number(n) => n != 0.0
    case NotANumber => false
    case Infinity(_) => true
    case Str(s) => |s| > 0
    case Object(_) => true
  }

  /** The `a || b` operator: yields its first operand when that is truthy and
      its second operand otherwise (without converting either to a boolean). */
  function Or(a: DataValue, b: DataValue): DataValue {
    if Truthy(a) then a else b
  }

  /** `String.prototype.trim` strips the characters of ECMAScript's WhiteSpace
      and LineTerminator productions. The contracts below only use that this
      is some fixed set of characters. */
  predicate IsWhiteSpace(c: char) {
    || c == '\t' || c == '\n' || c == '\U{B}' || c == '\U{C}' || c == '\r'
    || c == ' ' || c == '\U{A0}' || c == '\U{1680}'
    || ('\U{2000}' <= c <= '\U{200A}')
    || c == '\U{2028}' || c == '\U{2029}' || c == '\U{202F}' || c == '\U{205F}'
    || c == '\U{3000}' || c == '\U{FEFF}'
  }

  ghost predicate AllWhiteSpace(s: string) {
    forall i :: 0 <= i < |s| ==> IsWhiteSpace(s[i])
  }

  /** `r` is `s` with a run of white space removed from each end. */
  ghost predicate StripsTo(s: string, r: string) {
    exists lo :: 0 <= lo <= |s| - |r| && r == s[lo..lo + |r|]
      && AllWhiteSpace(s[..lo]) && AllWhiteSpace(s[lo + |r|..])
  }

  /** True when `s` neither starts nor ends with white space. */
  predicate IsTrimmed(s: string) {
    s == [] || (!IsWhiteSpace(s[0]) && !IsWhiteSpace(s[|s| - 1]))
  }

  /** Strips leading white space: the result is a suffix of `s`, everything
      dropped is white space, and the result does not start with white space. */
  function TrimStart(s: string): (r: string)
    ensures |r| <= |s| && r == s[|s| - |r|..]
    ensures AllWhiteSpace(s[..|s| - |r|])
    ensures r != [] ==> !IsWhiteSpace(r[0])
  {
    if |s| > 0 && IsWhiteSpace(s[0]) then
      var r := TrimStart(s[1..]);
      assert s[1..][..|s[1..]| - |r|] == s[1..|s| - |r|];
      r
    else
      s
  }

  /** Strips trailing white space: the result is a prefix of `s`, everything
      dropped is white space, and the result does not end with white space. */
  function TrimEnd(s: string): (r: string)
    ensures |r| <= |s| && r == s[..|r|]
    ensures AllWhiteSpace(s[|r|..])
    ensures r != [] ==> !IsWhiteSpace(r[|r| - 1])
  {
    if |s| > 0 && IsWhiteSpace(s[|s| - 1]) then
      var r := TrimEnd(s[..|s| - 1]);
      assert s[..|s| - 1][|r|..] + [s[|s| - 1]] == s[|r|..];
      r
    else
      s
  }

  /** `String.prototype.trim`: the unique infix of `s` that neither starts nor
      ends with white space and leaves only white space outside it. */
  function Trim(s: string): (r: string)
    ensures StripsTo(s, r)
    ensures IsTrimmed(r)
  {
    var t := TrimStart(s);
    var r := TrimEnd(t);
    StripsBothEnds(s, t, r);
    r
  }

  /** Stripping a prefix and then a suffix of white space strips both ends. */
  lemma StripsBothEnds(s: string, t: string, r: string)
    requires |t| <= |s| && t == s[|s| - |t|..] && AllWhiteSpace(s[..|s| - |t|])
    requires |r| <= |t| && r == t[..|r|] && AllWhiteSpace(t[|r|..])
    ensures StripsTo(s, r)
  {
    var lo := |s| - |t|;
    assert r == s[lo..lo + |r|];
    assert s[lo + |r|..] == t[|r|..];
  }

  /** Trimming changes nothing exactly when there is no white space at either end. */
  lemma TrimFixedIff(s: string)
    ensures Trim(s) == s <==> IsTrimmed(s)
  {
    if IsTrimmed(s) {
      assert TrimStart(s) == s;
      assert TrimEnd(s) == s;
    }
  }

  /** Trimming is idempotent. */
  lemma TrimIdempotent(s: string)
    ensures Trim(Trim(s)) == Trim(s)
  {
    TrimFixedIff(Trim(s));
  }

  /** Stripping leading white space leaves nothing exactly when `s` is all
      white space. */
  lemma TrimStartEmptyIff(s: string)
    ensures TrimStart(s) == [] <==> AllWhiteSpace(s)
  {
    var r := TrimStart(s);
    if r == [] {
      assert s[..|s|] == s;
    } else {
      assert r[0] == s[|s| - |r|];
    }
  }

  /** Stripping trailing white space leaves nothing exactly when `s` is all
      white space. */
  lemma TrimEndEmptyIff(s: string)
    ensures TrimEnd(s) == [] <==> AllWhiteSpace(s)
  {
    var r := TrimEnd(s);
    if r == [] {
      assert s[0..] == s;
    } else {
      assert r[|r| - 1] == s[|r| - 1];
    }
  }

  /** Trimming yields the empty string exactly when `s` is all white space. */
  lemma TrimEmptyIff(s: string)
    ensures Trim(s) == [] <==> AllWhiteSpace(s)
  {
    var t := TrimStart(s);
    TrimStartEmptyIff(s);
    TrimEndEmptyIff(t);
    if t != [] {
      assert !IsWhiteSpace(t[0]);
    }
  }
}
