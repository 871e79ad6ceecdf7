/** The JavaScript string built-ins the core relies on, with the
    ECMAScript semantics the source gets from them: `trim`, `endsWith`,
    `indexOf`, `replace` with a string pattern, `split(' ')[1]`,
    `slice(-4)`, number-to-string and `parseInt(s, 10)`, and the
    truthiness of an optional string. */
module JsText {
  import opened Wrappers

  /** JavaScript truthiness of an optional string: present and not "". */
  predicate Truthy(s: Option<string>) {
    s.Some? && s.value != ""
  }

  /** WhiteSpace and LineTerminator code points of ECMAScript
      (section 12.2 and 12.3 of ECMA-262), the set `trim` and
      `parseInt` skip. */
  predicate IsWhitespace(c: char) {
    var k := c as int;
    k == 0x09 || k == 0x0A || k == 0x0B || k == 0x0C || k == 0x0D || k == 0x20 ||
    k == 0xA0 || k == 0x1680 || (0x2000 <= k <= 0x200A) || k == 0x2028 || k == 0x2029 ||
    k == 0x202F || k == 0x205F || k == 0x3000 || k == 0xFEFF
  }

  predicate AllWhitespace(s: string) {
    forall k :: 0 <= k < |s| ==> IsWhitespace(s[k])
  }

  /** Number of leading whitespace characters. */
  function LeadingWs(s: string): (n: nat)
    ensures n <= |s|
    ensures AllWhitespace(s[..n])
    ensures n < |s| ==> !IsWhitespace(s[n])
  {
    if |s| == 0 || !IsWhitespace(s[0]) then 0
    else
      var m := LeadingWs(s[1..]);
      assert s[1..][..m] == s[1..m + 1];
      1 + m
  }

  /** Number of trailing whitespace characters. */
  function TrailingWs(s: string): (n: nat)
    ensures n <= |s|
    ensures AllWhitespace(s[|s| - n..])
    ensures n < |s| ==> !IsWhitespace(s[|s| - 1 - n])
  {
    if |s| == 0 || !IsWhitespace(s[|s| - 1]) then 0
    else
      var m := TrailingWs(s[..|s| - 1]);
      assert s[..|s| - 1][|s| - 1 - m..] == s[|s| - 1 - m..|s| - 1];
      1 + m
  }

  /** `s.trim()`: the longest infix with no whitespace at either end. */
  function Trim(s: string): (r: string)
    ensures |r| <= |s|
    ensures r == "" <==> AllWhitespace(s)
    ensures r != "" ==> !IsWhitespace(r[0]) && !IsWhitespace(r[|r| - 1])
    ensures r != "" ==> exists i :: 0 <= i <= |s| - |r| && s[i..i + |r|] == r && AllWhitespace(s[..i]) && AllWhitespace(s[i + |r|..])
  {
    var a := LeadingWs(s);
    if a == |s| then
      assert s[..a] == s;
      ""
    else
      var b := TrailingWs(s[a..]);
      assert b < |s| - a by {
        var t := s[a..];
        assert !IsWhitespace(t[0]);
      }
      var r := s[a..|s| - b];
      assert r[0] == s[a];
      assert r[|r| - 1] == s[a..][|s| - a - 1 - b];
      assert s[a + |r|..] == s[a..][|s[a..]| - b..];
      assert s[a..a + |r|] == r;
      r
  }

  /** `s.endsWith(suffix)`. */
  predicate EndsWith(s: string, suffix: string) {
    |suffix| <= |s| && s[|s| - |suffix|..] == suffix
  }

  /** `pat` occurs in `s` at position `i`. */
  predicate OccursAt(s: string, pat: string, i: int) {
    0 <= i && i + |pat| <= |s| && s[i..i + |pat|] == pat
  }

  /** `s.indexOf(pat)`: the first position of `pat`, or -1. */
  function IndexOf(s: string, pat: string): (r: int)
    ensures -1 <= r <= |s| - |pat| || r == -1
    ensures r == -1 <==> forall i :: 0 <= i <= |s| - |pat| ==> !OccursAt(s, pat, i)
    ensures r >= 0 ==> OccursAt(s, pat, r) && forall i :: 0 <= i < r ==> !OccursAt(s, pat, i)
  {
    IndexFrom(s, pat, 0)
  }

  function IndexFrom(s: string, pat: string, from: nat): (r: int)
    requires from <= |s| + 1
    ensures r == -1 || (from <= r <= |s| - |pat|)
    ensures r == -1 <==> forall i :: from <= i <= |s| - |pat| ==> !OccursAt(s, pat, i)
    ensures r >= 0 ==> OccursAt(s, pat, r) && forall i :: from <= i < r ==> !OccursAt(s, pat, i)
    decreases |s| + 1 - from
  {
    if from + |pat| > |s| then -1
    else if s[from..from + |pat|] == pat then
      assert OccursAt(s, pat, from);
      from
    else IndexFrom(s, pat, from + 1)
  }

  /** `s.replace(pat, replacement)` with a literal (string) replacement:
      only the first occurrence is replaced; no occurrence leaves `s`. */
  function ReplaceFirstLiteral(s: string, pat: string, replacement: string): (r: string)
    ensures IndexOf(s, pat) == -1 ==> r == s
    ensures IndexOf(s, pat) >= 0 ==>
      r == s[..IndexOf(s, pat)] + replacement + s[IndexOf(s, pat) + |pat|..]
  {
    var i := IndexOf(s, pat);
    if i < 0 then s else s[..i] + replacement + s[i + |pat|..]
  }

  /** GetSubstitution (section 22.1.3.19.1 of ECMA-262) for a string
      pattern, which has no capture groups: `$$` gives `$`, `$&` the
      matched text, `` $` `` the text before the match, `$'` the text
      after it; any other `$` is copied as it is. */
  function Substitution(replacement: string, matched: string, before: string, after: string): (r: string)
    ensures (forall k :: 0 <= k < |replacement| ==> replacement[k] != '$') ==> r == replacement
    decreases |replacement|
  {
    if |replacement| == 0 then ""
    else if replacement[0] == '$' && |replacement| >= 2 then
      var c := replacement[1];
      if c == '$' then "$" + Substitution(replacement[2..], matched, before, after)
      else if c == '&' then matched + Substitution(replacement[2..], matched, before, after)
      else if c == '`' then before + Substitution(replacement[2..], matched, before, after)
      else if c == '\'' then after + Substitution(replacement[2..], matched, before, after)
      else [replacement[0]] + Substitution(replacement[1..], matched, before, after)
    else [replacement[0]] + Substitution(replacement[1..], matched, before, after)
  }

  /** `s.replace(pat, replacement)` exactly as JavaScript evaluates it
      when both arguments are strings: the first occurrence is replaced
      by the GetSubstitution expansion of `replacement`. */
  function ReplaceFirstJs(s: string, pat: string, replacement: string): (r: string)
    ensures IndexOf(s, pat) == -1 ==> r == s
    ensures (forall k :: 0 <= k < |replacement| ==> replacement[k] != '$') ==>
      r == ReplaceFirstLiteral(s, pat, replacement)
  {
    var i := IndexOf(s, pat);
    if i < 0 then s
    else s[..i] + Substitution(replacement, pat, s[..i], s[i + |pat|..]) + s[i + |pat|..]
  }

  /** `s.split(' ')[1]`: the text between the first and the second
      space, or undefined (None) when `s` has no space. */
  function SecondSpaceField(s: string): (r: Option<string>)
    ensures r == None <==> forall k :: 0 <= k < |s| ==> s[k] != ' '
    ensures r.Some? ==> forall k :: 0 <= k < |r.value| ==> r.value[k] != ' '
  {
    var i := IndexOf(s, " ");
    IndexOfSpace(s);
    if i < 0 then None
    else
      var rest := s[i + 1..];
      var j := IndexOf(rest, " ");
      IndexOfSpace(rest);
      if j < 0 then Some(rest) else Some(rest[..j])
  }

  /** `indexOf(" ")` in terms of characters: -1 when there is no space,
      otherwise the position of the first one. */
  lemma IndexOfSpace(s: string)
    ensures var i := IndexOf(s, " ");
      && (i < 0 ==> forall k :: 0 <= k < |s| ==> s[k] != ' ')
      && (i >= 0 ==> i < |s| && s[i] == ' ' && forall k :: 0 <= k < i ==> s[k] != ' ')
  {
    var i := IndexOf(s, " ");
    if i < 0 {
      forall k | 0 <= k < |s| ensures s[k] != ' ' { assert !OccursAt(s, " ", k); }
    } else {
      assert s[i..i + 1] == " ";
      forall k | 0 <= k < i ensures s[k] != ' ' { assert !OccursAt(s, " ", k); }
    }
  }

  /** `s.slice(-n)` for n > 0: the last n characters, or all of `s`
      when it is shorter. */
  function LastChars(s: string, n: nat): (r: string)
    ensures |r| == if |s| < n then |s| else n
    ensures s == s[..|s| - |r|] + r
  {
    if |s| < n then s else s[|s| - n..]
  }

  predicate IsDigit(c: char) { '0' <= c <= '9' }

  predicate AllDigits(s: string) {
    forall k :: 0 <= k < |s| ==> IsDigit(s[k])
  }

  function DigitChar(d: nat): (c: char)
    requires d < 10
    ensures IsDigit(c)
  {
    ('0' as int + d) as char
  }

  function DigitValue(c: char): (d: nat)
    requires IsDigit(c)
    ensures d < 10 && DigitChar(d) == c
  {
    (c as int - '0' as int)
  }

  /** Decimal text of a natural number, as `String(n)` writes it. */
  function NatToString(n: nat): (r: string)
    ensures |r| >= 1 && AllDigits(r)
    ensures |r| > 1 ==> r[0] != '0'
  {
    if n < 10 then [DigitChar(n)]
    else NatToString(n / 10) + [DigitChar(n % 10)]
  }

  /** Decimal text of an integer, as a template literal `${n}` writes it. */
  function IntToString(n: int): (r: string)
    ensures |r| >= 1
    ensures n >= 0 ==> AllDigits(r)
    ensures n < 0 ==> r[0] == '-' && AllDigits(r[1..])
  {
    if n >= 0 then NatToString(n) else "-" + NatToString(-n)
  }

  /** The value of a string of decimal digits. */
  function DigitsValue(s: string): nat
    requires AllDigits(s)
  {
    if |s| == 0 then 0 else DigitsValue(s[..|s| - 1]) * 10 + DigitValue(s[|s| - 1])
  }

  /** Length of the run of decimal digits that starts `s`. */
  function DigitRun(s: string): (n: nat)
    ensures n <= |s| && AllDigits(s[..n])
    ensures n < |s| ==> !IsDigit(s[n])
  {
    if |s| == 0 || !IsDigit(s[0]) then 0
    else
      var m := DigitRun(s[1..]);
      assert s[1..][..m] == s[1..m + 1];
      1 + m
  }

  /** `parseInt(s, 10)`: skip leading whitespace, read an optional sign
      and the longest run of decimal digits; no digit at all gives NaN
      (None). */
  function ParseInt10(s: string): (r: Option<int>)
    ensures r.None? <==> DigitRun(SignStripped(s[LeadingWs(s)..])) == 0
  {
    var t := s[LeadingWs(s)..];
    var body := SignStripped(t);
    var n := DigitRun(body);
    if n == 0 then None
    else
      var v: int := DigitsValue(body[..n]);
      if |t| > 0 && t[0] == '-' then Some(-v) else Some(v)
  }

  function SignStripped(t: string): string {
    if |t| > 0 && (t[0] == '-' || t[0] == '+') then t[1..] else t
  }

  lemma {:induction false} DigitsOfNatToString(n: nat)
    ensures DigitsValue(NatToString(n)) == n
  {
    var r := NatToString(n);
    if n >= 10 {
      DigitsOfNatToString(n / 10);
      assert r[..|r| - 1] == NatToString(n / 10);
    }
  }

  lemma {:induction false} DigitRunOfAllDigits(s: string, rest: string)
    requires AllDigits(s) && (rest == "" || !IsDigit(rest[0]))
    ensures DigitRun(s + rest) == |s|
  {
    if |s| > 0 {
      assert (s + rest)[1..] == s[1..] + rest;
      DigitRunOfAllDigits(s[1..], rest);
    }
  }

  /** Reading back the decimal text of an integer with `parseInt` gives
      the integer, whatever non-digit text follows it. */
  lemma ParseIntOfIntToString(n: int, rest: string)
    requires rest == "" || !IsDigit(rest[0])
    ensures ParseInt10(IntToString(n) + rest) == Some(n)
  {
    if n >= 0 {
      ParseIntOfNat(n, rest);
    } else {
      ParseIntOfNegative(n, rest);
    }
  }

  lemma ParseIntOfNat(n: nat, rest: string)
    requires rest == "" || !IsDigit(rest[0])
    ensures ParseInt10(NatToString(n) + rest) == Some(n)
  {
    var d := NatToString(n);
    var s := d + rest;
    assert s[0] == d[0] && IsDigit(s[0]);
    assert LeadingWs(s) == 0;
    assert s[0..] == s;
    assert SignStripped(s) == s;
    DigitRunOfAllDigits(d, rest);
    assert s[..|d|] == d;
    DigitsOfNatToString(n);
  }

  lemma ParseIntOfNegative(n: int, rest: string)
    requires n < 0
    requires rest == "" || !IsDigit(rest[0])
    ensures ParseInt10(IntToString(n) + rest) == Some(n)
  {
    var m := NatToString(-n);
    var s := "-" + m + rest;
    assert IntToString(n) + rest == s;
    assert s[0] == '-' && !IsWhitespace(s[0]);
    assert LeadingWs(s) == 0;
    assert s[0..] == s;
    assert SignStripped(s) == m + rest;
    DigitRunOfAllDigits(m, rest);
    assert (m + rest)[..|m|] == m;
    DigitsOfNatToString(-n);
  }

  /** The header `scheme + " " + token` yields `token` when neither part
      contains a space. */
  lemma SecondFieldOfPair(scheme: string, token: string)
    requires forall k :: 0 <= k < |scheme| ==> scheme[k] != ' '
    requires forall k :: 0 <= k < |token| ==> token[k] != ' '
    ensures SecondSpaceField(scheme + " " + token) == Some(token)
  {
    var s := scheme + " " + token;
    assert OccursAt(s, " ", |scheme|);
    forall i | 0 <= i < |scheme| ensures !OccursAt(s, " ", i) {
      assert s[i..i + 1][0] == s[i];
    }
    assert s[|scheme| + 1..] == token;
    forall i | 0 <= i <= |token| - 1 ensures !OccursAt(token, " ", i) {
      assert token[i..i + 1][0] == token[i];
    }
  }
}
