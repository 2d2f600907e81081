/** The JavaScript string built-ins the site relies on, over `seq<char>`:
    `String.prototype.trim`, `toLowerCase`, `includes` and `split`,
    the global `parseInt(x, 10)` and `String(n)` for an integer `n`. */
module JsText {
  import opened Wrappers

  /** The characters `trim` removes: ECMAScript WhiteSpace and LineTerminator. */
  predicate IsWhitespace(c: char) {
    c == '\t' || c == '\n' || c == '\U{B}' || c == '\U{C}' || c == '\r' || c == ' ' ||
    c == '\U{A0}' || c == '\U{1680}' || ('\U{2000}' <= c <= '\U{200A}') ||
    c == '\U{2028}' || c == '\U{2029}' || c == '\U{202F}' || c == '\U{205F}' ||
    c == '\U{3000}' || c == '\U{FEFF}'
  }

  predicate AllWhitespace(s: string) {
    forall i :: 0 <= i < |s| ==> IsWhitespace(s[i])
  }

  /** `trimStart`: drops the leading whitespace and nothing else. */
  function TrimStart(s: string): (r: string)
    ensures |r| <= |s| && r == s[|s| - |r|..]
    ensures AllWhitespace(s[..|s| - |r|])
    ensures r == [] || !IsWhitespace(r[0])
  {
    if s != [] && IsWhitespace(s[0]) then
      var r := TrimStart(s[1..]);
      TrimStartStep(s, r);
      r
    else s
  }

  /** `trimEnd`: drops the trailing whitespace and nothing else. */
  function TrimEnd(s: string): (r: string)
    ensures |r| <= |s| && r == s[..|r|]
    ensures AllWhitespace(s[|r|..])
    ensures r == [] || !IsWhitespace(r[|r| - 1])
  {
    if s != [] && IsWhitespace(s[|s| - 1]) then
      var r := TrimEnd(s[..|s| - 1]);
      TrimEndStep(s, r);
      r
    else s
  }

  /** `String.prototype.trim`: the longest middle part of `s` that neither
      starts nor ends with whitespace; everything cut off is whitespace. */
  function Trim(s: string): (r: string)
    ensures TrimmedAt(s, r, |s| - |TrimStart(s)|)
    ensures r == [] || (!IsWhitespace(r[0]) && !IsWhitespace(r[|r| - 1]))
  {
    var a := TrimStart(s);
    var r := TrimEnd(a);
    var k := |s| - |a|;
    TrimSlices(s, a, r, k);
    assert TrimmedAt(s, r, k);
    r
  }

  /** `r` is `s` with `k` whitespace characters cut from the front and only
      whitespace cut from the back. */
  predicate TrimmedAt(s: string, r: string, k: int) {
    0 <= k <= |s| - |r| && r == s[k..k + |r|] && AllWhitespace(s[..k]) && AllWhitespace(s[k + |r|..])
  }

  lemma TrimStartStep(s: string, r: string)
    requires s != [] && IsWhitespace(s[0])
    requires |r| <= |s| - 1 && r == s[1..][|s| - 1 - |r|..]
    requires AllWhitespace(s[1..][..|s| - 1 - |r|])
    ensures r == s[|s| - |r|..]
    ensures AllWhitespace(s[..|s| - |r|])
  {
    var k := |s| - |r|;
    assert s[1..][k - 1..] == s[k..];
    forall i | 0 <= i < k ensures IsWhitespace(s[..k][i]) {
      if i > 0 { assert s[..k][i] == s[1..][..k - 1][i - 1]; }
    }
  }

  lemma TrimEndStep(s: string, r: string)
    requires s != [] && IsWhitespace(s[|s| - 1])
    requires |r| <= |s| - 1 && r == s[..|s| - 1][..|r|]
    requires AllWhitespace(s[..|s| - 1][|r|..])
    ensures r == s[..|r|]
    ensures AllWhitespace(s[|r|..])
  {
    var k := |r|;
    assert s[..|s| - 1][..k] == s[..k];
    forall i | 0 <= i < |s| - k ensures IsWhitespace(s[k..][i]) {
      if k + i < |s| - 1 { assert s[k..][i] == s[..|s| - 1][k..][i]; }
    }
  }

  lemma TrimSlices(s: string, a: string, r: string, k: nat)
    requires |a| <= |s| && a == s[|s| - |a|..] && k == |s| - |a|
    requires AllWhitespace(s[..k])
    requires |r| <= |a| && r == a[..|r|] && AllWhitespace(a[|r|..])
    ensures k + |r| <= |s| && r == s[k..k + |r|]
    ensures AllWhitespace(s[k + |r|..])
  {
    assert s[k + |r|..] == a[|r|..];
  }

  lemma WhitespaceConcat(a: string, b: string)
    requires AllWhitespace(a) && AllWhitespace(b)
    ensures AllWhitespace(a + b)
  {
    forall i | 0 <= i < |a + b| ensures IsWhitespace((a + b)[i]) {
      if i < |a| { assert (a + b)[i] == a[i]; } else { assert (a + b)[i] == b[i - |a|]; }
    }
  }

  /** A string trims to the empty string exactly when it is all whitespace. */
  lemma TrimEmptyIff(s: string)
    ensures Trim(s) == [] <==> AllWhitespace(s)
  {
    if Trim(s) == [] {
      var k := |s| - |TrimStart(s)|;
      WhitespaceConcat(s[..k], s[k..]);
      assert s[..k] + s[k..] == s;
    } else if AllWhitespace(s) {
      assert false;
    }
  }

  /** The capitals `LowerChar` maps. */
  predicate IsCapital(c: char) {
    'A' <= c <= 'Z' || ('\U{C0}' <= c <= '\U{DE}' && c != '\U{D7}')
  }

  /** `toLowerCase`, restricted to the capitals of Latin-1: `A`-`Z` and
      `\u00C0`-`\u00DE` except the multiplication sign `\u00D7`, each
      moved 0x20 up. */
  function LowerChar(c: char): (d: char)
    ensures d == c || d as int == c as int + 0x20
    ensures d == c <==> !IsCapital(c)
    ensures 'A' <= c <= 'Z' ==> 'a' <= d <= 'z'
    ensures IsWhitespace(d) <==> IsWhitespace(c)
    ensures !IsCapital(d)
  {
    if 'A' <= c <= 'Z' then (c - 'A' + 'a') as char
    else if '\U{C0}' <= c <= '\U{DE}' && c != '\U{D7}' then (c as int + 0x20) as char
    else c
  }

  function Lower(s: string): (r: string)
    ensures |r| == |s| && forall i :: 0 <= i < |s| ==> r[i] == LowerChar(s[i])
  {
    seq(|s|, i requires 0 <= i < |s| => LowerChar(s[i]))
  }

  /** Lower-casing twice is lower-casing once. */
  lemma LowerIdempotent(s: string)
    ensures Lower(Lower(s)) == Lower(s)
  {
  }

  /** Lower-casing leaves whitespace alone, and never turns anything else into whitespace. */
  lemma LowerWhitespace(s: string)
    ensures AllWhitespace(Lower(s)) <==> AllWhitespace(s)
  {
    if AllWhitespace(s) {
      forall i | 0 <= i < |s| ensures IsWhitespace(Lower(s)[i]) {
        assert IsWhitespace(s[i]);
      }
    }
    if AllWhitespace(Lower(s)) {
      forall i | 0 <= i < |s| ensures IsWhitespace(s[i]) {
        assert IsWhitespace(Lower(s)[i]);
      }
    }
  }

  predicate StartsWith(s: string, prefix: string) {
    |prefix| <= |s| && s[..|prefix|] == prefix
  }

  /** `needle` occurs in `haystack` starting at index `i`. */
  predicate OccursAt(haystack: string, needle: string, i: int) {
    0 <= i <= |haystack| - |needle| && haystack[i..i + |needle|] == needle
  }

  /** `haystack.includes(needle)`: `needle` occurs somewhere in `haystack`. */
  function Contains(haystack: string, needle: string): (r: bool)
    ensures r <==> exists i :: OccursAt(haystack, needle, i)
    decreases |haystack|
  {
    if StartsWith(haystack, needle) then
      assert OccursAt(haystack, needle, 0);
      true
    else if |haystack| <= |needle| then
      assert !OccursAt(haystack, needle, 0);
      false
    else
      var r := Contains(haystack[1..], needle);
      if r then
        var i :| OccursAt(haystack[1..], needle, i);
        assert haystack[1..][i..i + |needle|] == haystack[i + 1..i + 1 + |needle|];
        assert OccursAt(haystack, needle, i + 1);
        true
      else
        forall i | 1 <= i <= |haystack| - |needle| ensures !OccursAt(haystack, needle, i) {
          assert haystack[1..][i - 1..i - 1 + |needle|] == haystack[i..i + |needle|];
          assert !OccursAt(haystack[1..], needle, i - 1);
        }
        assert !OccursAt(haystack, needle, 0);
        false
  }

  /** `s.split(sep)` for a one-character separator. */
  function Split(s: string, sep: char): (parts: seq<string>)
    ensures |parts| >= 1
    ensures forall i :: 0 <= i < |parts| ==> sep !in parts[i]
  {
    if s == [] then [""]
    else
      var rest := Split(s[1..], sep);
      if s[0] == sep then [""] + rest
      else [[s[0]] + rest[0]] + rest[1..]
  }

  /** `parts.join(sep)`. */
  function Join(parts: seq<string>, sep: char): string
    requires |parts| >= 1
  {
    if |parts| == 1 then parts[0] else parts[0] + [sep] + Join(parts[1..], sep)
  }

  /** Splitting and joining again gives back the original string. */
  lemma {:induction false} JoinSplit(s: string, sep: char)
    ensures Join(Split(s, sep), sep) == s
  {
    if s != [] {
      JoinSplit(s[1..], sep);
      var rest := Split(s[1..], sep);
      if s[0] != sep {
        var parts := Split(s, sep);
        if |rest| == 1 {
          assert parts == [[s[0]] + rest[0]];
        } else {
          assert parts[1..] == rest[1..];
          assert Join(rest, sep) == rest[0] + [sep] + Join(rest[1..], sep);
        }
      }
    }
  }

  /** Joining separator-free parts and splitting again gives back the parts. */
  lemma {:induction false} SplitJoin(parts: seq<string>, sep: char)
    requires |parts| >= 1
    requires forall i :: 0 <= i < |parts| ==> sep !in parts[i]
    ensures Split(Join(parts, sep), sep) == parts
  {
    if |parts| == 1 {
      SplitNoSep(parts[0], sep, []);
      assert parts[0] + [] == parts[0];
      assert Split([], sep) == [""];
      assert parts == [parts[0] + ""];
    } else {
      SplitJoin(parts[1..], sep);
      var t := [sep] + Join(parts[1..], sep);
      SplitNoSep(parts[0], sep, t);
      assert Join(parts, sep) == parts[0] + t;
      assert t[0] == sep && t[1..] == Join(parts[1..], sep);
      assert Split(t, sep) == [""] + parts[1..];
      assert Split(t, sep)[1..] == parts[1..];
      assert parts[0] + Split(t, sep)[0] == parts[0];
      assert parts == [parts[0]] + parts[1..];
    }
  }

  /** A separator-free prefix glues onto the first part of what follows. */
  lemma {:induction false} SplitNoSep(a: string, sep: char, t: string)
    requires sep !in a
    ensures Split(a + t, sep) == [a + Split(t, sep)[0]] + Split(t, sep)[1..]
  {
    if a != [] {
      SplitNoSep(a[1..], sep, t);
      var st := Split(t, sep);
      ConsSlices(a, t, st[0]);
      var rest := Split(a[1..] + t, sep);
      assert rest[0] == a[1..] + st[0] && rest[1..] == st[1..];
    } else {
      var st := Split(t, sep);
      assert a + t == t;
      assert a + st[0] == st[0];
      assert st == [st[0]] + st[1..];
    }
  }

  lemma ConsSlices(a: string, t: string, u: string)
    requires a != []
    ensures (a + t)[0] == a[0] && (a + t)[1..] == a[1..] + t
    ensures [a[0]] + (a[1..] + u) == a + u
  {
  }

  predicate IsDigit(c: char) { '0' <= c <= '9' }

  function DigitValue(c: char): nat requires IsDigit(c) { (c - '0') as nat }

  function DigitChar(d: nat): (c: char)
    requires d < 10
    ensures IsDigit(c) && DigitValue(c) == d
  {
    ('0' as int + d) as char
  }

  /** The longest prefix of `s` made of decimal digits. */
  function DigitPrefix(s: string): (d: string)
    ensures |d| <= |s| && d == s[..|d|]
    ensures forall i :: 0 <= i < |d| ==> IsDigit(d[i])
    ensures |d| == |s| || !IsDigit(s[|d|])
  {
    if s != [] && IsDigit(s[0]) then [s[0]] + DigitPrefix(s[1..]) else []
  }

  /** The value of a string of decimal digits, most significant first. */
  function DecimalValue(d: string): nat
    requires forall i :: 0 <= i < |d| ==> IsDigit(d[i])
  {
    if d == [] then 0 else 10 * DecimalValue(d[..|d| - 1]) + DigitValue(d[|d| - 1])
  }

  /** `String(n)` for a natural number: its shortest decimal numeral. */
  function NatToString(n: nat): (s: string)
    ensures |s| >= 1 && forall i :: 0 <= i < |s| ==> IsDigit(s[i])
  {
    if n < 10 then [DigitChar(n)] else NatToString(n / 10) + [DigitChar(n % 10)]
  }

  /** The numeral is the shortest one: it starts with `0` only for zero, so no
      leading zero ever appears. */
  lemma {:induction false} NatToStringNoLeadingZero(n: nat)
    ensures NatToString(n)[0] == '0' <==> n == 0
    ensures |NatToString(n)| == 1 || NatToString(n)[0] != '0'
  {
    if n >= 10 {
      NatToStringNoLeadingZero(n / 10);
      assert NatToString(n)[0] == NatToString(n / 10)[0];
    }
  }

  function Magnitude(n: int): nat {
    if n < 0 then -n else n
  }

  /** `String(n)` for an integer: a minus sign before negative numbers. */
  function IntToString(n: int): (s: string)
    ensures |s| >= 1 && (s[0] == '-' <==> n < 0)
    ensures forall i :: (if n < 0 then 1 else 0) <= i < |s| ==> IsDigit(s[i])
  {
    if n < 0 then "-" + NatToString(Magnitude(n)) else NatToString(Magnitude(n))
  }

  /** `parseInt(x, 10)`: skip leading whitespace, take an optional sign, then
      read as many decimal digits as there are; no digit at all gives NaN (`None`). */
  function ParseInt(x: string): (r: Option<int>)
    ensures var t := TrimStart(x);
            var u := if t != [] && (t[0] == '-' || t[0] == '+') then t[1..] else t;
            (r.None? <==> DigitPrefix(u) == []) &&
            (r.Some? ==> Magnitude(r.value) == DecimalValue(DigitPrefix(u)) &&
                         (r.value < 0 ==> t != [] && t[0] == '-') &&
                         (t != [] && t[0] == '-' ==> r.value <= 0))
  {
    ParseSigned(TrimStart(x))
  }

  /** `parseInt` after the leading whitespace is gone. */
  function ParseSigned(t: string): Option<int> {
    var signed := t != [] && (t[0] == '-' || t[0] == '+');
    var digits := DigitPrefix(if signed then t[1..] else t);
    if digits == [] then None
    else if signed && t[0] == '-' then Some(-(DecimalValue(digits) as int))
    else Some(DecimalValue(digits))
  }

  lemma {:induction false} DecimalValueOfNatToString(n: nat)
    ensures DecimalValue(NatToString(n)) == n
  {
    if n >= 10 {
      DecimalValueOfNatToString(n / 10);
      var s := NatToString(n);
      assert s[..|s| - 1] == NatToString(n / 10);
    }
  }

  lemma {:induction false} DigitPrefixOfDigits(d: string, rest: string)
    requires forall i :: 0 <= i < |d| ==> IsDigit(d[i])
    requires rest == [] || !IsDigit(rest[0])
    ensures DigitPrefix(d + rest) == d
  {
    if d != [] {
      DigitPrefixOfDigits(d[1..], rest);
      assert (d + rest)[1..] == d[1..] + rest;
      assert d == [d[0]] + d[1..];
    } else {
      assert d + rest == rest;
    }
  }

  lemma TrimStartNoLeadingWhitespace(x: string)
    requires x == [] || !IsWhitespace(x[0])
    ensures TrimStart(x) == x
  {
  }

  /** `parseInt` reads a numeral whatever non-digit text follows it. */
  lemma ParseIntOfNumeral(m: nat, rest: string)
    requires rest == [] || !IsDigit(rest[0])
    ensures ParseInt(NatToString(m) + rest) == Some(m)
  {
    var s := NatToString(m);
    DecimalValueOfNatToString(m);
    DigitPrefixOfDigits(s, rest);
    var x := s + rest;
    assert x[0] == s[0];
    TrimStartNoLeadingWhitespace(x);
    assert !(x[0] == '-' || x[0] == '+');
    assert DigitPrefix(x) == s;
    assert ParseSigned(x) == Some(DecimalValue(s));
  }

  /** After a minus sign `parseInt` reads the digits that follow and negates them. */
  lemma ParseIntMinus(x: string)
    requires x != [] && x[0] == '-'
    ensures ParseInt(x)
         == if DigitPrefix(x[1..]) == [] then None else Some(-(DecimalValue(DigitPrefix(x[1..])) as int))
  {
    TrimStartNoLeadingWhitespace(x);
  }

  lemma DropSign(s: string, rest: string)
    ensures ("-" + s + rest)[0] == '-'
    ensures ("-" + s + rest)[1..] == s + rest
  {
  }

  /** `parseInt` reads a negative numeral whatever non-digit text follows it. */
  lemma ParseIntOfNegative(n: int, rest: string)
    requires n < 0 && (rest == [] || !IsDigit(rest[0]))
    ensures ParseInt(IntToString(n) + rest) == Some(n)
  {
    var m := Magnitude(n);
    var s := NatToString(m);
    DropSign(s, rest);
    ParseIntMinus("-" + s + rest);
    DigitPrefixOfDigits(s, rest);
    DecimalValueOfNatToString(m);
  }

  /** `parseInt` reads back the numeral `String(n)` printed, whatever non-digit
      text follows it. */
  lemma ParseIntOfIntToString(n: int, rest: string)
    requires rest == [] || !IsDigit(rest[0])
    ensures ParseInt(IntToString(n) + rest) == Some(n)
  {
    if n < 0 {
      ParseIntOfNegative(n, rest);
    } else {
      ParseIntOfNumeral(n, rest);
    }
  }

  /** `parseInt(String(n))` is `n`. */
  lemma ParseIntIntToString(n: int)
    ensures ParseInt(IntToString(n)) == Some(n)
  {
    ParseIntOfIntToString(n, []);
    assert IntToString(n) + [] == IntToString(n);
  }

  /** `String` is one-to-one on integers. */
  lemma IntToStringInjective(a: int, b: int)
    requires IntToString(a) == IntToString(b)
    ensures a == b
  {
    ParseIntIntToString(a);
    ParseIntIntToString(b);
  }

  /** A string none of whose characters is a digit parses to NaN. */
  lemma ParseIntNoDigits(x: string)
    requires forall i :: 0 <= i < |x| ==> !IsDigit(x[i])
    ensures ParseInt(x) == None
  {
    var t := TrimStart(x);
    forall i | 0 <= i < |t| ensures !IsDigit(t[i]) {
      assert t[i] == x[|x| - |t| + i];
    }
    ParseSignedNoDigits(t);
  }

  lemma ParseSignedNoDigits(t: string)
    requires forall i :: 0 <= i < |t| ==> !IsDigit(t[i])
    ensures ParseSigned(t) == None
  {
    if |t| > 1 {
      assert t[1..][0] == t[1];
    }
  }

  /** `parseInt(undefined, 10)` reads the text "undefined" and gives NaN. */
  lemma ParseIntUndefined()
    ensures ParseInt("undefined") == None
  {
    TrimStartNoLeadingWhitespace("undefined");
    assert DigitPrefix("undefined") == [];
  }
}
