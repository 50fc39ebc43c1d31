/** The handful of Python `str` operations the bot relies on, restricted to
    ASCII: whitespace is what `str.isspace` accepts below U+0080, `lower`
    folds A-Z only, digits are 0-9. */
module Strings {
  import opened Wrappers

  predicate IsSpace(c: char) {
    c == ' ' || c == '\t' || c == '\n' || c == '\r' || c == '\U{0B}' || c == '\U{0C}'
    || c == '\U{1C}' || c == '\U{1D}' || c == '\U{1E}' || c == '\U{1F}'
  }

  predicate IsDigit(c: char) { '0' <= c <= '9' }
  predicate IsLowerAlpha(c: char) { 'a' <= c <= 'z' }
  predicate IsUpperAlpha(c: char) { 'A' <= c <= 'Z' }
  predicate IsAlpha(c: char) { IsLowerAlpha(c) || IsUpperAlpha(c) }

  // ---------------------------------------------------------------------
  // strip / lstrip / rstrip

  /** `s.lstrip()` */
  function LStrip(s: string): (r: string)
    ensures |r| <= |s| && r == s[|s| - |r|..]
    ensures r == [] || !IsSpace(r[0])
    ensures forall i :: 0 <= i < |s| - |r| ==> IsSpace(s[i])
  {
    if s != [] && IsSpace(s[0]) then
      var r := LStrip(s[1..]);
      assert s[1..][|s| - 1 - |r|..] == s[|s| - |r|..];
      assert forall i :: 1 <= i < |s| - |r| ==> s[i] == s[1..][i - 1];
      r
    else s
  }

  /** `s.rstrip()` */
  function RStrip(s: string): (r: string)
    ensures |r| <= |s| && r == s[..|r|]
    ensures r == [] || !IsSpace(r[|r| - 1])
    ensures forall i :: |r| <= i < |s| ==> IsSpace(s[i])
  {
    if s != [] && IsSpace(s[|s| - 1]) then
      var r := RStrip(s[..|s| - 1]);
      assert s[..|s| - 1][..|r|] == s[..|r|];
      assert forall i :: |r| <= i < |s| - 1 ==> s[i] == s[..|s| - 1][i];
      r
    else s
  }

  /** `s.strip()` */
  function Strip(s: string): string {
    RStrip(LStrip(s))
  }

  /** A string with no whitespace at either end is its own strip. */
  lemma {:induction false} StripNoop(s: string)
    requires s == [] || (!IsSpace(s[0]) && !IsSpace(s[|s| - 1]))
    ensures Strip(s) == s
  {
  }

  /** Every character of `strip(s)` is a character of `s`, and the ends of
      the result are not whitespace. */
  lemma {:induction false} StripFacts(s: string)
    ensures forall c :: c in Strip(s) ==> c in s
    ensures Strip(s) == [] || (!IsSpace(Strip(s)[0]) && !IsSpace(Strip(s)[|Strip(s)| - 1]))
  {
    var l := LStrip(s);
    var r := RStrip(l);
    forall c | c in r ensures c in s {
      var i :| 0 <= i < |r| && r[i] == c;
      assert l[i] == c;
      assert s[|s| - |l| + i] == c;
    }
    if r != [] {
      assert r[0] == l[0];
    }
  }

  lemma {:induction false} StripIdempotent(s: string)
    ensures Strip(Strip(s)) == Strip(s)
  {
    StripFacts(s);
    StripNoop(Strip(s));
  }

  /** `s.lstrip(c)`, `s.rstrip(c)`, `s.strip(c)` for a single character. */
  function LStripChar(s: string, c: char): (r: string)
    ensures |r| <= |s| && r == s[|s| - |r|..]
    ensures r == [] || r[0] != c
  {
    if s != [] && s[0] == c then LStripChar(s[1..], c) else s
  }

  function RStripChar(s: string, c: char): (r: string)
    ensures |r| <= |s| && r == s[..|r|]
    ensures r == [] || r[|r| - 1] != c
  {
    if s != [] && s[|s| - 1] == c then RStripChar(s[..|s| - 1], c) else s
  }

  function StripChar(s: string, c: char): string {
    RStripChar(LStripChar(s, c), c)
  }

  // ---------------------------------------------------------------------
  // lower

  function LowerChar(c: char): char {
    if IsUpperAlpha(c) then (c as int + 32) as char else c
  }

  /** Lower-casing neither makes nor removes whitespace. */
  lemma {:induction false} LowerCharSpace(c: char)
    ensures IsSpace(LowerChar(c)) <==> IsSpace(c)
  {
  }

  /** `s.lower()` on ASCII. */
  function Lower(s: string): (r: string)
    ensures |r| == |s|
    ensures forall i :: 0 <= i < |s| ==> r[i] == LowerChar(s[i])
  {
    if s == [] then [] else [LowerChar(s[0])] + Lower(s[1..])
  }

  predicate HasNoUpper(s: string) {
    forall i :: 0 <= i < |s| ==> !IsUpperAlpha(s[i])
  }

  /** `lower` leaves no upper-case letter and adds no other character. */
  lemma {:induction false} LowerFacts(s: string)
    ensures HasNoUpper(Lower(s))
    ensures forall x :: x in Lower(s) && !IsLowerAlpha(x) ==> x in s
  {
    var r := Lower(s);
    forall x | x in r && !IsLowerAlpha(x) ensures x in s {
      var i :| 0 <= i < |r| && r[i] == x;
      assert s[i] == x;
    }
  }

  lemma {:induction false} NoUpperSnoc(a: string, c: char)
    requires HasNoUpper(a) && !IsUpperAlpha(c)
    ensures HasNoUpper(a + [c])
  {
    forall i | 0 <= i < |a| + 1 ensures !IsUpperAlpha((a + [c])[i]) {
      if i < |a| {
        assert (a + [c])[i] == a[i];
      }
    }
  }

  lemma {:induction false} LowerNoop(s: string)
    requires HasNoUpper(s)
    ensures Lower(s) == s
  {
  }

  // ---------------------------------------------------------------------
  // prefixes, substrings, first occurrences

  predicate StartsWith(s: string, p: string) {
    |p| <= |s| && s[..|p|] == p
  }

  predicate EndsWith(s: string, p: string) {
    |p| <= |s| && s[|s| - |p|..] == p
  }

  /** `sub in s` */
  predicate Contains(s: string, sub: string)
    decreases |s|
  {
    StartsWith(s, sub) || (s != [] && Contains(s[1..], sub))
  }

  /** Index of the first `c` in `s`, or |s| when there is none. */
  function IndexOf(s: string, c: char): (r: nat)
    ensures r <= |s|
    ensures r < |s| ==> s[r] == c
    ensures forall i :: 0 <= i < r ==> s[i] != c
  {
    if s == [] then 0 else if s[0] == c then 0 else 1 + IndexOf(s[1..], c)
  }

  /** The first `c` of `a + [c] + b` is the one after `a` when `a` has none. */
  lemma {:induction false} IndexOfAfter(a: string, c: char, b: string)
    requires c !in a
    ensures IndexOf(a + [c] + b, c) == |a|
  {
    var s := a + [c] + b;
    assert s[|a|] == c;
    forall i | 0 <= i < |a| ensures s[i] != c {
      assert s[i] == a[i];
    }
  }

  /** A string holding a substring holds each of its characters. */
  lemma {:induction false} ContainsChars(s: string, sub: string, k: nat)
    requires Contains(s, sub) && k < |sub|
    ensures sub[k] in s
    decreases |s|
  {
    if StartsWith(s, sub) {
      assert s[k] == sub[k];
    } else {
      ContainsChars(s[1..], sub, k);
    }
  }

  /** Stripping a character that is at neither end changes nothing. */
  lemma {:induction false} StripCharNoop(s: string, c: char)
    requires s == [] || (s[0] != c && s[|s| - 1] != c)
    ensures StripChar(s, c) == s
  {
  }

  /** `s.split(c)[0]`: everything before the first `c`. */
  function Before(s: string, c: char): (r: string)
    ensures c !in r
    ensures c !in s ==> r == s
    ensures StartsWith(s, r)
  {
    s[..IndexOf(s, c)]
  }

  /** The characters of `Before(s, c)` all come from `s`. */
  lemma {:induction false} BeforeChars(s: string, c: char)
    ensures forall x :: x in Before(s, c) ==> x in s
  {
    var r := Before(s, c);
    forall x | x in r ensures x in s {
      var k :| 0 <= k < |r| && r[k] == x;
      assert s[k] == x;
    }
  }

  /** The characters of `StripChar(s, c)` all come from `s`. */
  lemma {:induction false} StripCharChars(s: string, c: char)
    ensures forall x :: x in StripChar(s, c) ==> x in s
  {
    var l := LStripChar(s, c);
    var r := RStripChar(l, c);
    var i := |s| - |l|;
    assert r == s[i..i + |r|];
    forall x | x in r ensures x in s {
      var k :| 0 <= k < |r| && r[k] == x;
      assert s[i + k] == x;
    }
  }

  /** Index of the first occurrence of `sub` in `s`, if any. */
  function FindSub(s: string, sub: string): (r: Option<nat>)
    ensures r.Some? ==> r.value + |sub| <= |s| && s[r.value..r.value + |sub|] == sub
    ensures r.None? <==> !Contains(s, sub)
    decreases |s|
  {
    if StartsWith(s, sub) then Some(0)
    else if s == [] then None
    else match FindSub(s[1..], sub)
      case None => None
      case Some(k) => Some(k + 1)
  }

  // ---------------------------------------------------------------------
  // split and join on one separator character

  /** `s.split(c)` for a one-character separator: never empty. */
  function Split(s: string, c: char): (r: seq<string>)
    ensures |r| >= 1
    ensures forall i :: 0 <= i < |r| ==> c !in r[i]
    decreases |s|
  {
    var k := IndexOf(s, c);
    if k == |s| then [s] else [s[..k]] + Split(s[k + 1..], c)
  }

  /** `sep.join(parts)` */
  function Join(sep: string, parts: seq<string>): string
  {
    if |parts| == 0 then ""
    else if |parts| == 1 then parts[0]
    else parts[0] + sep + Join(sep, parts[1..])
  }

  /** A join starts with its first part. */
  lemma {:induction false} JoinHead(sep: string, parts: seq<string>)
    requires |parts| >= 1 && parts[0] != []
    ensures Join(sep, parts) != [] && Join(sep, parts)[0] == parts[0][0]
  {
    if |parts| > 1 {
      assert Join(sep, parts) == parts[0] + (sep + Join(sep, parts[1..]));
    }
  }

  /** Splitting undoes joining when no part contains the separator. */
  lemma {:induction false} SplitJoin(parts: seq<string>, c: char)
    requires |parts| >= 1
    requires forall i :: 0 <= i < |parts| ==> c !in parts[i]
    ensures Split(Join([c], parts), c) == parts
  {
    var s := Join([c], parts);
    if |parts| == 1 {
      assert IndexOf(s, c) == |s|;
    } else {
      var tail := Join([c], parts[1..]);
      assert s == parts[0] + [c] + tail;
      var k := IndexOf(s, c);
      assert s[|parts[0]|] == c;
      assert k == |parts[0]| by {
        forall i | 0 <= i < |parts[0]| ensures s[i] != c {
          assert s[i] == parts[0][i];
        }
      }
      assert s[..k] == parts[0];
      assert s[k + 1..] == tail;
      SplitJoin(parts[1..], c);
      assert parts == [parts[0]] + parts[1..];
    }
  }

  /** Joining undoes splitting. */
  lemma {:induction false} JoinSplit(s: string, c: char)
    ensures Join([c], Split(s, c)) == s
    decreases |s|
  {
    var k := IndexOf(s, c);
    if k < |s| {
      JoinSplit(s[k + 1..], c);
      var r := Split(s, c);
      assert r[1..] == Split(s[k + 1..], c);
      assert s == s[..k] + [c] + s[k + 1..];
    }
  }

  /** A join is the join of its first `k` parts, the separator, and the
      join of the rest. */
  lemma {:induction false} JoinAt(sep: string, parts: seq<string>, k: nat)
    requires 1 <= k < |parts|
    ensures Join(sep, parts) == Join(sep, parts[..k]) + sep + Join(sep, parts[k..])
  {
    if k > 1 {
      JoinAt(sep, parts[1..], k - 1);
      assert parts[1..][..k - 1] == parts[..k][1..];
      assert parts[1..][k - 1..] == parts[k..];
    }
  }

  lemma {:induction false} EndsWithAppend(a: string, b: string)
    ensures EndsWith(a + b, b)
  {
    assert (a + b)[|a|..] == b;
  }

  /** Appending one more part to a join. */
  lemma {:induction false} JoinSnoc(sep: string, parts: seq<string>, last: string)
    requires |parts| >= 1
    ensures Join(sep, parts + [last]) == Join(sep, parts) + sep + last
  {
    if |parts| == 1 {
    } else {
      assert (parts + [last])[1..] == parts[1..] + [last];
      JoinSnoc(sep, parts[1..], last);
    }
  }

  /** Text appended to a join extends its last part. */
  lemma {:induction false} JoinExtendLast(sep: string, parts: seq<string>, x: string)
    requires |parts| >= 1
    ensures var n := |parts|;
            Join(sep, parts[..n - 1] + [parts[n - 1] + x]) == Join(sep, parts) + x
  {
    var n := |parts|;
    var ext := parts[..n - 1] + [parts[n - 1] + x];
    if n > 1 {
      assert ext[0] == parts[0];
      assert ext[1..] == parts[1..][..n - 2] + [parts[1..][n - 2] + x];
      JoinExtendLast(sep, parts[1..], x);
      assert Join(sep, ext) == parts[0] + sep + (Join(sep, parts[1..]) + x);
    }
  }

  /** A joined string contains only the parts' characters and the separator's. */
  lemma {:induction false} JoinChars(sep: string, parts: seq<string>, x: char)
    requires x !in sep
    requires forall i :: 0 <= i < |parts| ==> x !in parts[i]
    ensures x !in Join(sep, parts)
  {
    if |parts| > 1 {
      JoinChars(sep, parts[1..], x);
    }
  }

  // ---------------------------------------------------------------------
  // decimal numbers

  function DigitChar(d: nat): char
    requires d < 10
  {
    (48 + d) as char
  }

  function DigitValue(c: char): nat
    requires IsDigit(c)
  {
    c as int - 48
  }

  predicate AllDigits(s: string) {
    forall i :: 0 <= i < |s| ==> IsDigit(s[i])
  }

  /** The value of a string of decimal digits, as `int(s)` computes it. */
  function DecimalValue(s: string): nat
    requires AllDigits(s)
  {
    if s == [] then 0 else 10 * DecimalValue(s[..|s| - 1]) + DigitValue(s[|s| - 1])
  }

  /** `str(n)` for a natural number: digits, no leading zero. */
  function NatToString(n: nat): (r: string)
    ensures |r| >= 1 && AllDigits(r)
    ensures |r| > 1 ==> r[0] != '0'
  {
    if n < 10 then [DigitChar(n)] else NatToString(n / 10) + [DigitChar(n % 10)]
  }

  lemma {:induction false} NatToStringValue(n: nat)
    ensures DecimalValue(NatToString(n)) == n
  {
    if n >= 10 {
      NatToStringValue(n / 10);
      var s := NatToString(n);
      assert s[..|s| - 1] == NatToString(n / 10);
    }
  }

  /** Small numbers have short decimal forms. */
  lemma {:induction false} NatToStringLength(n: nat)
    ensures n < 10 ==> |NatToString(n)| == 1
    ensures n < 100 ==> |NatToString(n)| <= 2
    ensures n < 1000 ==> |NatToString(n)| <= 3
  {
    if n >= 10 {
      NatToStringLength(n / 10);
    }
  }

  /** Python's `int(s)` in base 10: surrounding whitespace, an optional
      sign, digits with single underscores between them. */
  predicate IsIntBody(s: string) {
    |s| >= 1 && IsDigit(s[0]) && IsDigit(s[|s| - 1]) && DigitsOrUnderscores(s)
    && !Contains(s, "__")
  }

  predicate DigitsOrUnderscores(s: string) {
    forall i :: 0 <= i < |s| ==> IsDigit(s[i]) || s[i] == '_'
  }

  function DropUnderscores(s: string): (r: string)
    ensures DigitsOrUnderscores(s) ==> AllDigits(r)
  {
    if s == [] then [] else (if s[0] == '_' then [] else [s[0]]) + DropUnderscores(s[1..])
  }

  function PyInt(s: string): (r: Option<int>)
    ensures r.Some? ==> Strip(s) != []
    ensures r.Some? && r.value < 0 ==> Strip(s)[0] == '-'
  {
    var t := Strip(s);
    if t != [] && (t[0] == '+' || t[0] == '-') then
      if IsIntBody(t[1..]) then
        var v: int := DecimalValue(DropUnderscores(t[1..]));
        Some(if t[0] == '-' then -v else v)
      else None
    else if IsIntBody(t) then
      Some(DecimalValue(DropUnderscores(t)))
    else None
  }

  lemma {:induction false} DigitsAreIntBody(s: string)
    requires |s| >= 1 && AllDigits(s)
    ensures IsIntBody(s)
  {
    NoDoubleUnderscore(s);
  }

  lemma {:induction false} NoDoubleUnderscore(s: string)
    requires AllDigits(s)
    ensures !Contains(s, "__")
  {
    if s != [] {
      NoDoubleUnderscore(s[1..]);
      assert !StartsWith(s, "__") by {
        if |s| >= 2 { assert s[..2][0] == s[0]; }
      }
    }
  }

  lemma {:induction false} DropUnderscoresNoop(s: string)
    requires '_' !in s
    ensures DropUnderscores(s) == s
  {
    if s != [] {
      DropUnderscoresNoop(s[1..]);
    }
  }

  /** `int(s)` of a non-empty string of digits is its decimal value. */
  lemma {:induction false} PyIntOfDigits(s: string)
    requires |s| >= 1 && AllDigits(s)
    ensures PyInt(s) == Some(DecimalValue(s))
  {
    assert !IsSpace(s[0]) && !IsSpace(s[|s| - 1]);
    StripNoop(s);
    assert s[0] != '+' && s[0] != '-';
    DigitsAreIntBody(s);
    assert '_' !in s by {
      forall i | 0 <= i < |s| ensures s[i] != '_' {
        assert IsDigit(s[i]);
      }
    }
    DropUnderscoresNoop(s);
  }

  /** `int(str(n)) == n`: the decimal form of a natural number reads back. */
  lemma {:induction false} PyIntOfNatToString(n: nat)
    ensures PyInt(NatToString(n)) == Some(n)
  {
    PyIntOfDigits(NatToString(n));
    NatToStringValue(n);
  }
}
