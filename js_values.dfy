// JavaScript values as the backend controllers and the import page see them:
// property reads that may be `undefined` or `null`, the truthiness tests the
// source uses for its `||` fallbacks, and the two string operations it relies
// on (`String.prototype.trim` and ASCII `toLowerCase`).

module JsValues {

  datatype Option<+T> = None | Some(value: T) {
    function GetOr(default: T): T {
      match this
      case Some(v) => v
      case None => default
    }
  }

  datatype Result<+T, +E> = Success(value: T) | Failure(error: E)

  /** Milliseconds since the epoch; clocks are inputs of the model. */
  type Time = int

  /** A property read: a missing key reads as `undefined`, a stored null as `null`. */
  datatype Js<+T> = Undefined | Null | Val(v: T)

  /** `!!x` for a string-valued property: `undefined`, `null` and `''` are falsy. */
  predicate TruthyStr(x: Js<string>) {
    x.Val? && x.v != ""
  }

  /** `!!x` for a number-valued property: `undefined`, `null` and `0` are falsy. */
  predicate TruthyNum(x: Js<int>) {
    x.Val? && x.v != 0
  }

  /** `x || fallback` where the result is printed or stored as a string. */
  function StrOr(x: Js<string>, fallback: string): (r: string)
    ensures TruthyStr(x) ==> r == x.v
    ensures !TruthyStr(x) ==> r == fallback
  {
    if TruthyStr(x) then x.v else fallback
  }

  /** `x || null` for a string-valued property. */
  function StrOrNull(x: Js<string>): (r: Js<string>)
    ensures r.Null? <==> !TruthyStr(x)
    ensures TruthyStr(x) ==> r == x
  {
    if TruthyStr(x) then x else Null
  }

  /** `x || null` for a number-valued property: `0` collapses to `null`. */
  function NumOrNull(x: Js<int>): (r: Js<int>)
    ensures r.Null? <==> !TruthyNum(x)
    ensures TruthyNum(x) ==> r == x
  {
    if TruthyNum(x) then x else Null
  }

  /** `x || null` for an object-valued property (a Date): every object is truthy. */
  function ObjOrNull<T>(x: Js<T>): (r: Js<T>)
    ensures r.Null? <==> !x.Val?
    ensures x.Val? ==> r == x
  {
    if x.Val? then x else Null
  }

  /** The characters JavaScript's `trim` removes, which are also those the regex class `\s` matches. */
  predicate IsSpace(c: char) {
    || c == ' ' || c == '\t' || c == '\n' || c == '\r'
    || c == '\U{000B}' || c == '\U{000C}' || c == '\U{00A0}' || c == '\U{1680}'
    || ('\U{2000}' <= c <= '\U{200A}')
    || c == '\U{2028}' || c == '\U{2029}' || c == '\U{202F}' || c == '\U{205F}'
    || c == '\U{3000}' || c == '\U{FEFF}'
  }

  predicate IsBlank(s: string) {
    forall k | 0 <= k < |s| :: IsSpace(s[k])
  }

  /** Neither end of `s` is whitespace. */
  predicate IsTrimmed(s: string) {
    s == [] || (!IsSpace(s[0]) && !IsSpace(s[|s| - 1]))
  }

  /** `s` without its leading whitespace. */
  function TrimStart(s: string): string {
    if s != [] && IsSpace(s[0]) then TrimStart(s[1..]) else s
  }

  /** `s` without its trailing whitespace. */
  function TrimEnd(s: string): string {
    if s != [] && IsSpace(s[|s| - 1]) then TrimEnd(s[..|s| - 1]) else s
  }

  /** `TrimStart` drops a blank prefix and stops at the first non-space character. */
  lemma {:induction false} TrimStartFacts(s: string)
    ensures var r := TrimStart(s);
      && |r| <= |s| && r == s[|s| - |r|..]
      && (r == [] || !IsSpace(r[0]))
      && forall k | 0 <= k < |s| - |r| :: IsSpace(s[k])
  {
    if s != [] && IsSpace(s[0]) {
      TrimStartFacts(s[1..]);
      var r := TrimStart(s);
      forall k | 0 <= k < |s| - |r| ensures IsSpace(s[k]) {
        if k > 0 { assert s[k] == s[1..][k - 1]; }
      }
    }
  }

  /** `TrimEnd` drops a blank suffix and stops at the last non-space character. */
  lemma {:induction false} TrimEndFacts(s: string)
    ensures var r := TrimEnd(s);
      && |r| <= |s| && r == s[..|r|]
      && (r == [] || !IsSpace(r[|r| - 1]))
      && forall k | |r| <= k < |s| :: IsSpace(s[k])
  {
    if s != [] && IsSpace(s[|s| - 1]) {
      TrimEndFacts(s[..|s| - 1]);
    }
  }

  /** `s.trim()`: removes the leading and the trailing whitespace and nothing else. */
  function Trim(s: string): (r: string)
    ensures IsTrimmed(r)
    ensures |r| <= |s|
    ensures r == [] <==> IsBlank(s)
    ensures IsTrimmed(s) ==> r == s
  {
    TrimStartFacts(s);
    var t := TrimStart(s);
    TrimEndFacts(t);
    assert TrimEnd(t) == [] ==> t == [];
    TrimEnd(t)
  }

  /** `s.trim()` is the slice of `s` left once a blank prefix and a blank suffix are cut off. */
  lemma TrimIsSlice(s: string)
    ensures exists i, j | 0 <= i <= j <= |s| :: Trim(s) == s[i..j] && IsBlank(s[..i]) && IsBlank(s[j..])
  {
    var t := TrimStart(s);
    TrimStartFacts(s);
    var r := TrimEnd(t);
    TrimEndFacts(t);
    var i := |s| - |t|;
    var j := i + |r|;
    assert r == s[i..j];
    assert IsBlank(s[..i]);
    assert IsBlank(s[j..]) by {
      forall k | 0 <= k < |s| - j ensures IsSpace(s[j..][k]) {
        assert s[j..][k] == t[|r| + k];
      }
    }
  }

  function LowerChar(c: char): char {
    if 'A' <= c <= 'Z' then (c as int - 'A' as int + 'a' as int) as char else c
  }

  /** `s.toLowerCase()` on the ASCII letters. */
  function Lower(s: string): (r: string)
    ensures |r| == |s|
    ensures forall i | 0 <= i < |r| :: !('A' <= r[i] <= 'Z')
    ensures forall i | 0 <= i < |s| && !('A' <= s[i] <= 'Z') :: r[i] == s[i]
    ensures forall i | 0 <= i < |s| && 'A' <= s[i] <= 'Z' :: 'a' <= r[i] <= 'z'
    ensures forall i | 0 <= i < |s| && 'A' <= s[i] <= 'Z' :: r[i] as int == s[i] as int + ('a' as int - 'A' as int)
  {
    seq(|s|, i requires 0 <= i < |s| => LowerChar(s[i]))
  }
}
