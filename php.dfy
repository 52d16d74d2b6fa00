/**
 * The handful of PHP built-ins the JWT core relies on, with the semantics
 * PHP gives them: string truthiness, loose comparison against null,
 * `strpos` (first occurrence) and the whitespace classes of `sscanf`.
 */
module Php {

  /** A PHP value that may be `null`/`false` (None) or carry a value (Some). */
  datatype Option<+T> = None | Some(value: T)

  /** `(bool) $s` for a string: "" and "0" are the only falsy strings. */
  predicate Truthy(s: string) {
    s != "" && s != "0"
  }

  /** `(bool) $v` for a value that is either a string or null/false. */
  predicate TruthyOpt(v: Option<string>) {
    v.Some? && Truthy(v.value)
  }

  /**
   * A scalar as the JSON decoder hands it back: null (also a missing
   * member), a boolean or a string.
   */
  datatype Scalar = Null | Bool(b: bool) | Str(s: string)

  /** `(bool) $a` for a decoded scalar. */
  predicate ScalarTruthy(a: Scalar) {
    match a
    case Null => false
    case Bool(x) => x
    case Str(s) => Truthy(s)
  }

  /**
   * `$a == $b` where `$b` is a string: null is converted to "" and compared
   * as a string, a boolean is compared with the string's truthiness, a string
   * with the string itself. Loose equality never relates values of
   * different truthiness.
   */
  predicate LooseEquals(a: Scalar, b: string): (r: bool)
    ensures r ==> ScalarTruthy(a) == Truthy(b)
    ensures a.Null? ==> (r <==> b == "")
    ensures a.Bool? ==> (r <==> ScalarTruthy(a) == Truthy(b))
    ensures a.Str? ==> (r <==> a.s == b)
  {
    match a
    case Null => b == ""
    case Bool(x) => x == Truthy(b)
    case Str(x) => x == b
  }

  /** `needle` occurs in `hay` starting at index `i`. */
  predicate MatchAt(hay: string, needle: string, i: nat) {
    i + |needle| <= |hay| && hay[i..i + |needle|] == needle
  }

  /** `needle` occurs somewhere in `hay`. */
  ghost predicate Occurs(hay: string, needle: string) {
    exists i: nat :: MatchAt(hay, needle, i)
  }

  /** First occurrence of `needle` in `hay` at or after `from`. */
  function StrPosFrom(hay: string, needle: string, from: nat): (r: Option<nat>)
    ensures r.Some? ==> from <= r.value && MatchAt(hay, needle, r.value)
    ensures r.Some? ==> forall k: nat :: from <= k < r.value ==> !MatchAt(hay, needle, k)
    ensures r.None? ==> forall k: nat :: from <= k ==> !MatchAt(hay, needle, k)
    decreases |hay| - from
  {
    if from + |needle| > |hay| then None
    else if hay[from..from + |needle|] == needle then Some(from)
    else StrPosFrom(hay, needle, from + 1)
  }

  /**
   * `strpos($hay, $needle)`: the index of the first occurrence, or false
   * (None). An empty needle is found at 0, as in PHP 8.
   */
  function StrPos(hay: string, needle: string): (r: Option<nat>)
    ensures r.Some? ==> MatchAt(hay, needle, r.value)
    ensures r.Some? ==> forall k: nat :: k < r.value ==> !MatchAt(hay, needle, k)
    ensures r.None? <==> !Occurs(hay, needle)
  {
    StrPosFrom(hay, needle, 0)
  }

  /** C `isspace` in the "C" locale, which PHP's `sscanf` uses. */
  predicate IsSpace(c: char) {
    c == ' ' || c == '\t' || c == '\n' || c == '\r' || c == '\U{B}' || c == '\U{C}'
  }

  /** End of the maximal run of whitespace in `s` that starts at `i`. */
  function SpanSpace(s: string, i: nat): (j: nat)
    requires i <= |s|
    ensures i <= j <= |s|
    ensures forall k :: i <= k < j ==> IsSpace(s[k])
    ensures j == |s| || !IsSpace(s[j])
    decreases |s| - i
  {
    if i < |s| && IsSpace(s[i]) then SpanSpace(s, i + 1) else i
  }

  /** End of the maximal run of non-whitespace in `s` that starts at `i`. */
  function SpanWord(s: string, i: nat): (j: nat)
    requires i <= |s|
    ensures i <= j <= |s|
    ensures forall k :: i <= k < j ==> !IsSpace(s[k])
    ensures j == |s| || IsSpace(s[j])
    decreases |s| - i
  {
    if i < |s| && !IsSpace(s[i]) then SpanWord(s, i + 1) else i
  }
}
