/** Keyword validation for DOMAIN-KEYWORD rules (bot/validators/keyword.py):
    the input is stripped and lower-cased, then must be 2 to 50 characters
    of lower-case Latin letters, digits and '-'. */
module Keyword {
  import opened Wrappers
  import opened Strings

  const MsgKeyword := "Ключевое слово: 2–50 символов, только латиница/цифры/дефис, без пробелов."

  predicate IsKeywordChar(c: char) { IsLowerAlpha(c) || IsDigit(c) || c == '-' }

  /** `[a-z0-9-]{2,50}` over the whole string. */
  predicate IsKeyword(s: string) {
    2 <= |s| <= 50 && forall i :: 0 <= i < |s| ==> IsKeywordChar(s[i])
  }

  /** `KW_RE.match(s)`: Python's `$` also matches just before a final "\n". */
  predicate KwReMatch(s: string) {
    IsKeyword(s) || (s != [] && s[|s| - 1] == '\n' && IsKeyword(s[..|s| - 1]))
  }

  /** `normalize_keyword(raw)`: Ok with the keyword, or Err with the message. */
  function NormalizeKeyword(raw: string): (r: Result<string, string>)
    ensures r.Ok? <==> IsKeyword(Lower(Strip(raw)))
    ensures r.Ok? ==> r.value == Lower(Strip(raw))
    ensures r.Err? ==> r.error == MsgKeyword
  {
    var s := Lower(Strip(raw));
    NoTrailingNewline(raw);
    if !KwReMatch(s) then Err(MsgKeyword) else Ok(s)
  }

  /** Lower-casing keeps the ends of a stripped string free of whitespace,
      so the string `KW_RE` sees never ends in a newline and the `$`
      subtlety cannot let one through. */
  lemma {:induction false} NoTrailingNewline(raw: string)
    ensures var s := Lower(Strip(raw)); s == [] || (!IsSpace(s[0]) && !IsSpace(s[|s| - 1]))
    ensures KwReMatch(Lower(Strip(raw))) <==> IsKeyword(Lower(Strip(raw)))
  {
    var t := Strip(raw);
    StripFacts(raw);
    var s := Lower(t);
    if s != [] {
      LowerCharSpace(t[0]);
      LowerCharSpace(t[|t| - 1]);
    }
  }

  lemma {:induction false} LowerIdempotent(s: string)
    ensures Lower(Lower(s)) == Lower(s)
  {
    var l := Lower(s);
    assert forall i :: 0 <= i < |l| ==> !IsUpperAlpha(l[i]);
    LowerNoop(l);
  }

  /** Every keyword is accepted unchanged, so an accepted value validates
      to itself. */
  lemma {:induction false} KeywordIdempotent(k: string)
    requires IsKeyword(k)
    ensures NormalizeKeyword(k) == Ok(k)
  {
    assert !IsSpace(k[0]) && !IsSpace(k[|k| - 1]) by {
      assert IsKeywordChar(k[0]) && IsKeywordChar(k[|k| - 1]);
    }
    StripNoop(k);
    assert HasNoUpper(k) by {
      forall i | 0 <= i < |k| ensures !IsUpperAlpha(k[i]) {
        assert IsKeywordChar(k[i]);
      }
    }
    LowerNoop(k);
    assert Lower(Strip(k)) == k;
    assert KwReMatch(k);
  }

  /** Validation ignores surrounding whitespace and letter case: the input
      and its stripped lower-case form get the same verdict. */
  lemma {:induction false} KeywordIgnoresPaddingAndCase(raw: string)
    ensures NormalizeKeyword(raw) == NormalizeKeyword(Lower(Strip(raw)))
  {
    var s := Lower(Strip(raw));
    NoTrailingNewline(raw);
    StripNoop(s);
    LowerIdempotent(Strip(raw));
    assert Lower(Strip(s)) == s;
    NoTrailingNewline(s);
  }

  /** A space inside the input always fails validation. */
  lemma {:induction false} InnerSpaceRefused(a: string, b: string)
    requires a != [] && b != [] && !IsSpace(a[0]) && !IsSpace(b[|b| - 1])
    ensures NormalizeKeyword(a + " " + b) == Err(MsgKeyword)
  {
    var raw := a + " " + b;
    assert raw[0] == a[0];
    StripNoop(raw);
    var s := Lower(raw);
    assert s[|a|] == ' ';
    assert !IsKeywordChar(s[|a|]);
  }
}
