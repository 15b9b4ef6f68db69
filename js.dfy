/** The slice of JavaScript value semantics the handlers depend on: request bodies as
    string-valued objects, falsiness, `String.prototype.length` (UTF-16 code units),
    `includes`, `split(" ")` and the `!=` comparison of a route string with a number. */
module Js {

  datatype Option<+T> = None | Some(value: T)

  /** A parsed JSON object whose properties hold strings; a missing key is `undefined`. */
  type Body = map<string, string>

  /** `!!b[k]` for string values: `undefined` and `""` are the falsy ones. */
  predicate Truthy(b: Body, k: string)
  {
    k in b && b[k] != ""
  }

  function Get(b: Body, k: string): (r: Option<string>)
    ensures r.Some? <==> k in b
    ensures r.Some? ==> r.value == b[k]
  {
    if k in b then Some(b[k]) else None
  }

  /** The properties of `b` listed in `keys`, as a query with `?` placeholders sends them:
      a missing property becomes NULL, which the model leaves out of the row. */
  function Pick(b: Body, keys: set<string>): (r: Body)
    ensures r.Keys == b.Keys * keys
    ensures forall k :: k in r ==> r[k] == b[k]
  {
    map k | k in b.Keys * keys :: b[k]
  }

  /** Number of UTF-16 code units of a character: two for a character outside the
      Basic Multilingual Plane (a surrogate pair), one otherwise. */
  function CodeUnits(c: char): nat
  {
    if c as int > 0xFFFF then 2 else 1
  }

  /** `s.length` in JavaScript: the number of UTF-16 code units, not of characters. */
  function Utf16Length(s: string): (n: nat)
    ensures |s| <= n <= 2 * |s|
    ensures (forall i :: 0 <= i < |s| ==> s[i] as int <= 0xFFFF) ==> n == |s|
  {
    if s == [] then 0 else CodeUnits(s[0]) + Utf16Length(s[1..])
  }

  /** `s` has `t` at position `i`. */
  predicate OccursAt(s: string, t: string, i: int)
  {
    0 <= i && i + |t| <= |s| && s[i..i + |t|] == t
  }

  /** `s.includes(t)`. */
  predicate Contains(s: string, t: string)
  {
    exists i :: 0 <= i <= |s| && OccursAt(s, t, i)
  }

  /** A text contained in `b` is contained in any text that ends with `b`. */
  lemma ContainsSuffix(a: string, b: string, t: string)
    requires Contains(b, t)
    ensures Contains(a + b, t)
  {
    var i :| 0 <= i <= |b| && OccursAt(b, t, i);
    assert (a + b)[|a| + i..|a| + i + |t|] == b[i..i + |t|];
    assert OccursAt(a + b, t, |a| + i);
  }

  /** A text contained in `a` is contained in any text that starts with `a`. */
  lemma ContainsPrefix(a: string, b: string, t: string)
    requires Contains(a, t)
    ensures Contains(a + b, t)
  {
    var i :| 0 <= i <= |a| && OccursAt(a, t, i);
    assert (a + b)[i..i + |t|] == a[i..i + |t|];
    assert OccursAt(a + b, t, i);
  }

  /** A text that has a character `s` lacks cannot occur in `s`. */
  lemma NotContainsMissingChar(s: string, t: string, k: nat)
    requires k < |t| && t[k] !in s
    ensures !Contains(s, t)
  {
    forall i | 0 <= i <= |s| ensures !OccursAt(s, t, i) {
      if i + |t| <= |s| {
        assert s[i..i + |t|][k] == s[i + k] && s[i + k] in s;
      }
    }
  }

  /** When `t` has no character `sep`, an occurrence of `t` in `a + [sep] + b` lies
      entirely in `a` or entirely in `b`. */
  lemma ContainsAcrossSeparator(a: string, sep: char, b: string, t: string)
    requires sep !in t && |t| > 0
    ensures Contains(a + [sep] + b, t) <==> Contains(a, t) || Contains(b, t)
  {
    var s := a + [sep] + b;
    if Contains(a, t) {
      ContainsPrefix(a, [sep] + b, t);
      assert a + ([sep] + b) == s;
    }
    if Contains(b, t) {
      ContainsSuffix(a + [sep], b, t);
    }
    if Contains(s, t) {
      var i :| 0 <= i <= |s| && OccursAt(s, t, i);
      assert forall k :: 0 <= k < |t| ==> t[k] == s[i + k];
      assert s[|a|] == sep;
      if i + |t| <= |a| {
        assert a[i..i + |t|] == s[i..i + |t|];
        assert OccursAt(a, t, i);
      } else if i > |a| {
        assert b[i - |a| - 1..i - |a| - 1 + |t|] == s[i..i + |t|];
        assert OccursAt(b, t, i - |a| - 1);
      }
    }
  }

  /** JavaScript's `\s` class (ECMA-262 WhiteSpace and LineTerminator code points). */
  predicate IsJsWhitespace(c: char)
  {
    c == '\t' || c == '\n' || c == '\U{B}' || c == '\U{C}' || c == '\r' || c == ' '
    || c == '\U{A0}' || c == '\U{1680}' || ('\U{2000}' <= c <= '\U{200A}')
    || c == '\U{2028}' || c == '\U{2029}' || c == '\U{202F}' || c == '\U{205F}'
    || c == '\U{3000}' || c == '\U{FEFF}'
  }

  /** `s.split(" ")`: the pieces between single spaces, empty pieces kept. */
  function Split(s: string): (r: seq<string>)
    ensures |r| >= 1
    ensures forall i :: 0 <= i < |r| ==> ' ' !in r[i]
    decreases |s|
  {
    if s == [] then [""]
    else if s[0] == ' ' then [""] + Split(s[1..])
    else var rest := Split(s[1..]); [[s[0]] + rest[0]] + rest[1..]
  }

  /** The text of `s` before its first space (all of `s` when it has none). */
  function FirstWord(s: string): (w: string)
    ensures ' ' !in w
    ensures |w| <= |s| && s[..|w|] == w
    ensures |w| < |s| ==> s[|w|] == ' '
    ensures ' ' in s <==> |w| < |s|
    decreases |s|
  {
    if s == [] || s[0] == ' ' then "" else [s[0]] + FirstWord(s[1..])
  }

  /** `s.split(" ")[1]`: the piece after the first space, `undefined` if there is no space. */
  function SecondField(s: string): (r: Option<string>)
    ensures r.Some? <==> ' ' in s
  {
    var w := FirstWord(s);
    if |w| == |s| then (assert s == w; None) else Some(FirstWord(s[|w| + 1..]))
  }

  lemma {:induction false} SplitFirstWord(s: string)
    ensures Split(s)[0] == FirstWord(s)
    ensures ' ' in s ==> |Split(s)| >= 2 && Split(s)[1..] == Split(s[|FirstWord(s)| + 1..])
    ensures ' ' !in s ==> |Split(s)| == 1
    decreases |s|
  {
    if s != [] && s[0] != ' ' {
      SplitFirstWord(s[1..]);
      if ' ' in s {
        assert ' ' in s[1..];
        assert s[1..][|FirstWord(s[1..])| + 1..] == s[|FirstWord(s)| + 1..];
      }
    }
  }

  /** `SecondField` is the element at index 1 of `Split`, when there is one. */
  lemma SecondFieldIsSplitIndexOne(s: string)
    ensures SecondField(s) == (if |Split(s)| >= 2 then Some(Split(s)[1]) else None)
  {
    SplitFirstWord(s);
    if ' ' in s {
      SplitFirstWord(s[|FirstWord(s)| + 1..]);
    }
  }

  /** The scheme word is not inspected: whatever word without spaces precedes the first
      space, the second field is the space-free text after it. */
  lemma SecondFieldOfSchemeAndToken(scheme: string, token: string)
    requires ' ' !in scheme && ' ' !in token
    ensures SecondField(scheme + " " + token) == Some(token)
  {
    var s := scheme + " " + token;
    FirstWordOfPrefix(scheme, " " + token);
    assert s[|scheme| + 1..] == token;
    FirstWordOfPrefix(token, "");
    assert token + "" == token;
  }

  lemma {:induction false} FirstWordOfPrefix(w: string, rest: string)
    requires ' ' !in w
    requires rest == [] || rest[0] == ' '
    ensures FirstWord(w + rest) == w
    decreases |w|
  {
    if w != [] {
      assert (w + rest)[1..] == w[1..] + rest;
      FirstWordOfPrefix(w[1..], rest);
    } else {
      assert w + rest == rest;
    }
  }

  predicate IsDigit(c: char)
  {
    '0' <= c <= '9'
  }

  /** The value of a non-empty string of decimal digits (leading zeros allowed). */
  function DecimalValue(s: string): (n: nat)
    requires forall i :: 0 <= i < |s| ==> IsDigit(s[i])
    decreases |s|
  {
    if s == [] then 0
    else
      assert IsDigit(s[|s| - 1]);
      DecimalValue(s[..|s| - 1]) * 10 + (s[|s| - 1] as int - '0' as int)
  }

  predicate IsDecimal(s: string)
  {
    |s| > 0 && forall i :: 0 <= i < |s| ==> IsDigit(s[i])
  }

  /** `s == n` with JavaScript's loose equality for a string and a number, restricted to
      strings of decimal digits: the string converts to its numeric value, every other
      string is treated as converting to NaN, which equals nothing. */
  predicate LooseEqualsNumber(s: string, n: int)
  {
    IsDecimal(s) && DecimalValue(s) == n
  }

  /** The decimal rendering of a natural number, without leading zeros. */
  function DecimalString(n: nat): (s: string)
    ensures IsDecimal(s)
    ensures DecimalValue(s) == n
    decreases n
  {
    if n < 10 then [('0' as int + n) as char]
    else
      var p := DecimalString(n / 10);
      var s := p + [('0' as int + n % 10) as char];
      assert s[..|s| - 1] == p;
      s
  }

  /** A leading zero leaves the loose comparison unchanged: "05" == 5 is true. */
  lemma LeadingZeroStillEqual(s: string, n: int)
    requires LooseEqualsNumber(s, n)
    ensures LooseEqualsNumber("0" + s, n)
  {
    LeadingZeroValue(s);
  }

  lemma {:induction false} LeadingZeroValue(s: string)
    requires forall i :: 0 <= i < |s| ==> IsDigit(s[i])
    ensures forall i :: 0 <= i < |"0" + s| ==> IsDigit(("0" + s)[i])
    ensures DecimalValue("0" + s) == DecimalValue(s)
    decreases |s|
  {
    assert forall i :: 0 <= i < |"0" + s| ==> IsDigit(("0" + s)[i]) by {
      forall i | 0 <= i < |"0" + s| ensures IsDigit(("0" + s)[i]) {
        if i > 0 { assert ("0" + s)[i] == s[i - 1]; }
      }
    }
    if s != [] {
      LeadingZeroValue(s[..|s| - 1]);
      assert ("0" + s)[..|"0" + s| - 1] == "0" + s[..|s| - 1];
    } else {
      assert "0" + s == "0";
    }
  }
}
