/** Domain validation for DOMAIN and DOMAIN-SUFFIX rules
    (bot/validators/domain.py): the host is extracted from the input (URL,
    path, query and port removed, surrounding dots dropped, lower-cased),
    then checked for length, label length and shape. */
module Domain {
  import opened Wrappers
  import opened Strings
  import Url

  /** The outcome of `normalize_domain_*`: `(True, value)`, `(False,
      message)`, or an exception escaping from `urlparse`. */
  datatype Verdict = Valid(value: string) | Invalid(message: string) | Raised

  const MsgUnrecognised :=
    "Не удалось распознать домен. Проверьте: латиница/цифры/.-, длина 3-253, должен содержать точку (example.com)."
  const MsgLabelTooLong := "Метка домена не может быть длиннее 63 символов."

  const CommonMultiTld: set<string> := {"co.uk", "com.au", "co.jp", "com.br", "com.cn", "co.in", "co.za"}

  // -----------------------------------------------------------------------
  // DOMAIN_RE

  predicate IsAlnum(c: char) { IsAlpha(c) || IsDigit(c) }

  /** `[a-zA-Z0-9]([a-zA-Z0-9\-]{0,61}[a-zA-Z0-9])?` */
  predicate IsLabel(s: string) {
    1 <= |s| <= 63 && IsAlnum(s[0]) && IsAlnum(s[|s| - 1])
    && forall i :: 0 <= i < |s| ==> IsAlnum(s[i]) || s[i] == '-'
  }

  /** `[a-zA-Z]{2,}` */
  predicate IsTld(s: string) {
    |s| >= 2 && forall i :: 0 <= i < |s| ==> IsAlpha(s[i])
  }

  /** Labels and the top-level domain contain no dot, so a match of
      `^(label\.)+tld` over the whole string is a split on '.' into at least
      two parts, all labels but the last, which is a TLD. */
  predicate DomainReFull(h: string) {
    var parts := Split(h, '.');
    |parts| >= 2 && IsTld(parts[|parts| - 1])
    && forall i :: 0 <= i < |parts| - 1 ==> IsLabel(parts[i])
  }

  /** `DOMAIN_RE.match(h)` as written: Python's `$` also matches just before
      a final "\n", so one trailing newline is accepted. */
  predicate DomainReMatch(h: string) {
    DomainReFull(h) || (h != [] && h[|h| - 1] == '\n' && DomainReFull(h[..|h| - 1]))
  }

  /** `any(len(label) > 63 for label in host.split('.'))` */
  predicate HasLongLabel(h: string) {
    var parts := Split(h, '.');
    exists i | 0 <= i < |parts| :: |parts[i]| > 63
  }

  /** What a successful validation returns: a lower-case name of 3 to 253
      characters that DOMAIN_RE matches in full, every label at most 63
      characters long. */
  predicate IsDomainName(h: string) {
    3 <= |h| <= 253 && HasNoUpper(h) && DomainReFull(h) && !HasLongLabel(h)
  }

  // -----------------------------------------------------------------------
  // _clean_host

  /** `p.netloc or p.path` when the input looks like a URL, else the input. */
  function HostPart(s: string): (r: Option<string>)
  {
    if Contains(s, "://") then
      match Url.UrlParse(s)
      case None => None
      case Some(p) => Some(if p.netloc != "" then p.netloc else p.path)
    else Some(s)
  }

  /** `_clean_host(raw)`; None where `urlparse` raises. */
  function CleanHost(raw: string): (r: Option<string>)
    ensures r.Some? ==> HasNoUpper(r.value)
    ensures r.Some? ==> '/' !in r.value && '?' !in r.value && ':' !in r.value
  {
    match HostPart(Strip(raw))
    case None => None
    case Some(host) => Some(CleanHostPart(host))
  }

  /** The host part cut before its path, query and port, stripped of
      blanks and surrounding dots, lower-cased. */
  function CleanHostPart(host: string): (r: string)
    ensures HasNoUpper(r)
    ensures '/' !in r && '?' !in r && ':' !in r
  {
    var h := Before(Before(Before(host, '/'), '?'), ':');
    var cleaned := StripChar(Strip(h), '.');
    CleanedChars(host);
    LowerFacts(cleaned);
    Lower(cleaned)
  }

  lemma {:induction false} CleanedChars(host: string)
    ensures var cleaned := StripChar(Strip(Before(Before(Before(host, '/'), '?'), ':')), '.');
            '/' !in cleaned && '?' !in cleaned && ':' !in cleaned
  {
    var b1 := Before(host, '/');
    var b2 := Before(b1, '?');
    var h := Before(b2, ':');
    BeforeChars(b1, '?');
    BeforeChars(b2, ':');
    StripFacts(h);
    StripCharChars(Strip(h), '.');
  }

  /** A host with no blank at either end and no ':', '/' or '?' is not
      parsed as a URL and is not cut: only dots are stripped and letters
      lowered. */
  lemma {:induction false} CleanHostOfPlain(s: string)
    requires s != [] && !IsSpace(s[0]) && !IsSpace(s[|s| - 1])
    requires ':' !in s && '/' !in s && '?' !in s
    ensures CleanHost(s) == Some(Lower(StripChar(s, '.')))
  {
    StripNoop(s);
    if Contains(s, "://") {
      ContainsChars(s, "://", 0);
      assert false;
    }
    assert HostPart(Strip(s)) == Some(s);
    assert Before(Before(Before(s, '/'), '?'), ':') == s;
  }

  /** A name DOMAIN_RE matches starts and ends with a letter or a digit. */
  lemma {:induction false} NameEnds(h: string)
    requires DomainReFull(h)
    ensures h != [] && IsAlnum(h[0]) && IsAlnum(h[|h| - 1])
  {
    var parts := Split(h, '.');
    JoinSplit(h, '.');
    assert IsAlnum(parts[0][0]);
    JoinHead(".", parts);
    var t := parts[|parts| - 1];
    assert IsAlpha(t[|t| - 1]);
    JoinLast(parts);
  }

  /** A host with nothing to remove comes out of `_clean_host` unchanged. */
  lemma {:induction false} CleanHostOfName(h: string)
    requires IsDomainName(h)
    ensures CleanHost(h) == Some(h)
  {
    NameEnds(h);
    NameSeparators(h);
    CleanHostOfPlain(h);
    StripCharNoop(h, '.');
    LowerNoop(h);
  }

  /** The last character of a '.'-join is that of its last part. */
  lemma {:induction false} JoinLast(parts: seq<string>)
    requires |parts| >= 1 && |parts[|parts| - 1]| >= 1
    ensures var j := Join(".", parts); |j| >= 1 && j[|j| - 1] == parts[|parts| - 1][|parts[|parts| - 1]| - 1]
  {
    if |parts| > 1 {
      JoinLast(parts[1..]);
    }
  }

  /** Every character of a name DOMAIN_RE matches is a letter, a digit, '-'
      or '.'. */
  lemma {:induction false} DomainChars(h: string)
    requires DomainReFull(h)
    ensures forall k :: 0 <= k < |h| ==> IsAlnum(h[k]) || h[k] == '-' || h[k] == '.'
  {
    var parts := Split(h, '.');
    JoinSplit(h, '.');
    forall k | 0 <= k < |h| ensures IsAlnum(h[k]) || h[k] == '-' || h[k] == '.' {
      JoinCharOrigin(parts, k);
    }
  }

  /** A character of a '.'-join is a '.' or a character of one part. */
  lemma {:induction false} JoinCharOrigin(parts: seq<string>, k: nat)
    requires k < |Join(".", parts)|
    ensures var j := Join(".", parts);
            j[k] == '.' || exists p, m :: 0 <= p < |parts| && 0 <= m < |parts[p]| && parts[p][m] == j[k]
  {
    var j := Join(".", parts);
    if |parts| == 1 {
      assert parts[0][k] == j[k];
    } else if |parts| > 1 {
      if k < |parts[0]| {
        assert parts[0][k] == j[k];
      } else if k > |parts[0]| {
        var tail := Join(".", parts[1..]);
        assert j[k] == tail[k - |parts[0]| - 1];
        JoinCharOrigin(parts[1..], k - |parts[0]| - 1);
        if tail[k - |parts[0]| - 1] != '.' {
          var p, m :| 0 <= p < |parts[1..]| && 0 <= m < |parts[1..][p]| && parts[1..][p][m] == tail[k - |parts[0]| - 1];
          assert parts[p + 1][m] == j[k];
        }
      }
    }
  }

  // -----------------------------------------------------------------------
  // checks and the two validators

  /** The three checks of `normalize_domain_*` in order: overall length,
      label length, then the regular expression (as written, or anchored at
      the very end when `fullMatch` is set). */
  function CheckHost(host: string, fullMatch: bool): (v: Verdict)
    ensures v.Valid? ==> v.value == host && 3 <= |host| <= 253 && !HasLongLabel(host)
    ensures v.Valid? && fullMatch ==> DomainReFull(host)
    ensures v == Invalid(MsgLabelTooLong) <==> 3 <= |host| <= 253 && HasLongLabel(host)
    ensures !(3 <= |host| <= 253) ==> v == Invalid(MsgUnrecognised)
    ensures v.Invalid? && v != Invalid(MsgLabelTooLong) ==> v == Invalid(MsgUnrecognised)
    ensures (3 <= |host| <= 253 && !HasLongLabel(host)
             && (if fullMatch then DomainReFull(host) else DomainReMatch(host))) ==> v == Valid(host)
    ensures !v.Raised?
  {
    if |host| < 3 || |host| > 253 then Invalid(MsgUnrecognised)
    else if HasLongLabel(host) then Invalid(MsgLabelTooLong)
    else if !(if fullMatch then DomainReFull(host) else DomainReMatch(host)) then Invalid(MsgUnrecognised)
    else Valid(host)
  }

  /** `normalize_domain_exact`, with DOMAIN_RE anchored at the end of the
      host (see `NormalizeDomainExactAsWritten` for the code as written). */
  function NormalizeDomainExact(raw: string): (v: Verdict)
    ensures v.Valid? ==> CleanHost(raw).Some? && v.value == CleanHost(raw).value
    ensures v.Valid? ==> IsDomainName(v.value) && 3 <= |v.value| <= 253
    ensures CleanHost(raw).Some? && IsDomainName(CleanHost(raw).value) ==> v == Valid(CleanHost(raw).value)
    ensures v.Raised? <==> CleanHost(raw).None?
  {
    match CleanHost(raw)
    case None => Raised
    case Some(h) =>
      if IsDomainName(h) then CheckHostOfName(h); CheckHost(h, true)
      else CheckHost(h, true)
  }

  /** `normalize_domain_exact` exactly as written. */
  function NormalizeDomainExactAsWritten(raw: string): (v: Verdict)
    ensures v.Valid? ==> CleanHost(raw).Some? && v.value == CleanHost(raw).value
    ensures v.Valid? ==> 3 <= |v.value| <= 253 && DomainReMatch(v.value)
    ensures v.Raised? <==> CleanHost(raw).None?
    ensures (CleanHost(raw).Some? && 3 <= |CleanHost(raw).value| <= 253
             && !HasLongLabel(CleanHost(raw).value) && DomainReMatch(CleanHost(raw).value))
            ==> v == Valid(CleanHost(raw).value)
  {
    match CleanHost(raw)
    case None => Raised
    case Some(h) => CheckHost(h, false)
  }

  /** A validated name validates to itself: the result of
      `normalize_domain_exact` is a fixed point, and every well-formed
      lower-case name is accepted unchanged. */
  lemma {:induction false} DomainExactIdempotent(h: string)
    requires IsDomainName(h)
    ensures NormalizeDomainExact(h) == Valid(h)
  {
    CleanHostOfName(h);
    CheckHostOfName(h);
  }

  /** `_registrable_domain`: the public-suffix answer when there is one
      (`publicSuffixAnswer` is what `get_sld(host)` returned, None when the
      library is not installed), else the last two labels, or the last
      three when the last two form a common second-level suffix. */
  function RegistrableDomain(host: string, publicSuffixAnswer: Option<string>): (r: string)
    ensures publicSuffixAnswer.Some? && publicSuffixAnswer.value != "" ==> r == Lower(publicSuffixAnswer.value)
    ensures publicSuffixAnswer.None? || publicSuffixAnswer.value == "" ==> r == host || EndsWith(host, "." + r)
  {
    if publicSuffixAnswer.Some? && publicSuffixAnswer.value != "" then Lower(publicSuffixAnswer.value)
    else HeuristicRegistrable(host)
  }

  /** The fallback of `_registrable_domain`: the host itself when it has
      fewer than three labels, otherwise a tail of it that starts right
      after a dot. */
  function HeuristicRegistrable(host: string): (r: string)
    ensures r == host || EndsWith(host, "." + r)
  {
    var parts := Split(host, '.');
    var n := |parts|;
    if n >= 3 then
      var last2 := Join(".", parts[n - 2..]);
      TailAfterDot(host, n - 2);
      TailAfterDot(host, n - 3);
      if last2 in CommonMultiTld then Join(".", parts[n - 3..]) else last2
    else host
  }

  /** The labels of a host from index k on, joined, are the host itself
      (k = 0) or what follows a dot at the end of the host. */
  lemma {:induction false} TailAfterDot(host: string, k: nat)
    requires k < |Split(host, '.')|
    ensures var tail := Join(".", Split(host, '.')[k..]);
            tail == host || EndsWith(host, "." + tail)
  {
    var parts := Split(host, '.');
    JoinSplit(host, '.');
    if k == 0 {
      assert parts[k..] == parts;
      return;
    }
    JoinAt(".", parts, k);
    var head := Join(".", parts[..k]);
    var tail := Join(".", parts[k..]);
    assert host == head + ("." + tail);
    EndsWithAppend(head, "." + tail);
  }

  /** `normalize_domain_suffix` (DOMAIN_RE anchored at the end, as for the
      exact validator). */
  function NormalizeDomainSuffix(raw: string, publicSuffixAnswer: Option<string>): (v: Verdict)
    ensures v.Raised? <==> CleanHost(raw).None?
    ensures v.Valid? ==> NormalizeDomainExact(raw).Valid?
    ensures !v.Valid? ==> v == NormalizeDomainExact(raw)
    ensures v.Valid? ==> v.value != ""
  {
    match CleanHost(raw)
    case None => Raised
    case Some(h) =>
      match CheckHost(h, true)
      case Valid(_) =>
        assert IsDomainName(NormalizeDomainExact(raw).value);
        HeuristicFacts(h);
        Valid(RegistrableDomain(h, publicSuffixAnswer))
      case other => other
  }

  /** The parts after index k, joined, end the join of all parts. */
  lemma {:induction false} JoinTail(parts: seq<string>, k: nat)
    requires k < |parts|
    ensures var j := Join(".", parts); var t := Join(".", parts[k..]);
            |t| <= |j| && j[|j| - |t|..] == t
  {
    if k > 0 {
      JoinTail(parts[1..], k - 1);
      assert parts[1..][k - 1..] == parts[k..];
    }
  }

  /** The parts a well-formed name splits into: at least two, labels then
      a TLD, none longer than 63. */
  predicate WellFormedParts(parts: seq<string>) {
    |parts| >= 2 && IsTld(parts[|parts| - 1])
    && (forall i :: 0 <= i < |parts| - 1 ==> IsLabel(parts[i]))
    && (forall i :: 0 <= i < |parts| ==> |parts[i]| <= 63 && '.' !in parts[i])
  }

  lemma {:induction false} NamePartsWellFormed(h: string)
    requires DomainReFull(h) && !HasLongLabel(h)
    ensures WellFormedParts(Split(h, '.'))
  {
  }

  lemma {:induction false} TailPartsWellFormed(parts: seq<string>, k: nat)
    requires WellFormedParts(parts) && k + 2 <= |parts|
    ensures WellFormedParts(parts[k..])
  {
    var tail := parts[k..];
    assert tail[|tail| - 1] == parts[|parts| - 1];
    assert forall i :: 0 <= i < |tail| ==> tail[i] == parts[i + k];
  }

  /** Joining well-formed parts gives a name DOMAIN_RE matches, with no long
      label, of at least three characters. */
  lemma {:induction false} JoinWellFormed(parts: seq<string>)
    requires WellFormedParts(parts)
    ensures var t := Join(".", parts);
            DomainReFull(t) && !HasLongLabel(t) && |t| >= 3
  {
    var t := Join(".", parts);
    SplitJoin(parts, '.');
    assert Split(t, '.') == parts;
    assert |parts[0]| >= 1;
    JoinLength(parts);
  }

  /** A suffix of a string without upper-case letters has none either. */
  lemma {:induction false} SuffixNoUpper(h: string, n: nat)
    requires HasNoUpper(h) && n <= |h|
    ensures HasNoUpper(h[|h| - n..])
  {
    var t := h[|h| - n..];
    forall i | 0 <= i < |t| ensures !IsUpperAlpha(t[i]) {
      assert t[i] == h[|h| - n + i];
    }
  }

  /** The last two or three labels of a well-formed name form a
      well-formed name. */
  lemma {:induction false} TailIsDomainName(h: string, k: nat)
    requires IsDomainName(h)
    requires k + 2 <= |Split(h, '.')|
    ensures IsDomainName(Join(".", Split(h, '.')[k..]))
  {
    var parts := Split(h, '.');
    var t := Join(".", parts[k..]);
    NamePartsWellFormed(h);
    TailPartsWellFormed(parts, k);
    JoinWellFormed(parts[k..]);
    JoinSplit(h, '.');
    JoinTail(parts, k);
    SuffixNoUpper(h, |t|);
  }

  /** A '.'-join of at least two parts is longer than its last part by at
      least two characters when the first part is non-empty. */
  lemma {:induction false} JoinLength(parts: seq<string>)
    requires |parts| >= 2 && |parts[0]| >= 1
    ensures |Join(".", parts)| >= |parts[|parts| - 1]| + 2
  {
    if |parts| > 2 {
      JoinLength2(parts[1..]);
    }
  }

  lemma {:induction false} JoinLength2(parts: seq<string>)
    requires |parts| >= 1
    ensures |Join(".", parts)| >= |parts[|parts| - 1]|
  {
    if |parts| > 1 {
      JoinLength2(parts[1..]);
    }
  }

  /** Without a public-suffix answer, a valid suffix is the heuristic
      registrable part of a well-formed host. */
  lemma {:induction false} SuffixFallbackValue(raw: string)
    requires NormalizeDomainSuffix(raw, None).Valid?
    ensures CleanHost(raw).Some? && IsDomainName(CleanHost(raw).value)
    ensures NormalizeDomainSuffix(raw, None).value == HeuristicRegistrable(CleanHost(raw).value)
  {
    var h := CleanHost(raw).value;
    assert CheckHost(h, true).Valid?;
  }

  /** The heuristic keeps a well-formed name well formed, keeps at most
      three labels, and leaves its own result alone. */
  lemma {:induction false} HeuristicFacts(h: string)
    requires IsDomainName(h)
    ensures var r := HeuristicRegistrable(h);
            IsDomainName(r) && |Split(r, '.')| <= 3 && HeuristicRegistrable(r) == r
  {
    var parts := Split(h, '.');
    var n := |parts|;
    if n >= 3 {
      if Join(".", parts[n - 2..]) in CommonMultiTld {
        HeuristicThreeLabels(h);
      } else {
        HeuristicTwoLabels(h);
      }
    }
  }

  lemma {:induction false} HeuristicTwoLabels(h: string)
    requires IsDomainName(h) && |Split(h, '.')| >= 3
    ensures var parts := Split(h, '.');
            var r := Join(".", parts[|parts| - 2..]);
            IsDomainName(r) && |Split(r, '.')| == 2 && HeuristicRegistrable(r) == r
  {
    var parts := Split(h, '.');
    var n := |parts|;
    TailIsDomainName(h, n - 2);
    SplitJoin(parts[n - 2..], '.');
  }

  lemma {:induction false} HeuristicThreeLabels(h: string)
    requires IsDomainName(h) && |Split(h, '.')| >= 3
    requires var parts := Split(h, '.');
             Join(".", parts[|parts| - 2..]) in CommonMultiTld
    ensures var parts := Split(h, '.');
            var r := Join(".", parts[|parts| - 3..]);
            IsDomainName(r) && |Split(r, '.')| == 3 && HeuristicRegistrable(r) == r
  {
    var parts := Split(h, '.');
    var n := |parts|;
    var p3 := parts[n - 3..];
    var r := Join(".", p3);
    TailIsDomainName(h, n - 3);
    SplitJoin(p3, '.');
    assert Split(r, '.') == p3;
    assert p3[1..] == parts[n - 2..];
    assert p3[0..] == p3;
  }

  /** Without a public-suffix answer, the suffix of a well-formed name is
      its heuristic registrable part. */
  lemma {:induction false} SuffixOfName(r: string)
    requires IsDomainName(r)
    ensures NormalizeDomainSuffix(r, None) == Valid(HeuristicRegistrable(r))
  {
    CleanHostOfName(r);
    CheckHostOfName(r);
    assert CleanHost(r) == Some(r);
    assert NormalizeDomainSuffix(r, None) == Valid(RegistrableDomain(r, None));
    RegistrableWithoutAnswer(r);
  }

  /** A well-formed name whose last two labels form a common second-level
      suffix keeps its last three labels. */
  lemma {:induction false} MultiTldKeepsThree(parts: seq<string>)
    requires WellFormedParts(parts) && |parts| >= 3
    requires HasNoUpper(Join(".", parts)) && |Join(".", parts)| <= 253
    requires Join(".", parts[|parts| - 2..]) in CommonMultiTld
    ensures NormalizeDomainSuffix(Join(".", parts), None) == Valid(Join(".", parts[|parts| - 3..]))
  {
    var h := Join(".", parts);
    SplitJoin(parts, '.');
    assert Split(h, '.') == parts;
    JoinWellFormed(parts);
    SuffixOfName(h);
  }

  /** "news.bbc.co.uk" has the registrable domain "bbc.co.uk". */
  lemma {:induction false} BbcCoUk()
    ensures NormalizeDomainSuffix("news.bbc.co.uk", None) == Valid("bbc.co.uk")
  {
    var parts := ["news", "bbc", "co", "uk"];
    BbcCoUkParts();
    MultiTldKeepsThree(parts);
  }

  lemma {:induction false} BbcCoUkParts()
    ensures var parts := ["news", "bbc", "co", "uk"];
            WellFormedParts(parts) && Join(".", parts) == "news.bbc.co.uk"
            && HasNoUpper("news.bbc.co.uk") && Join(".", parts[2..]) == "co.uk"
            && Join(".", parts[1..]) == "bbc.co.uk"
  {
    var parts := ["news", "bbc", "co", "uk"];
    assert parts[2..] == ["co", "uk"];
    assert parts[1..] == ["bbc", "co", "uk"];
  }

  lemma {:induction false} RegistrableWithoutAnswer(h: string)
    ensures RegistrableDomain(h, None) == HeuristicRegistrable(h)
  {
  }

  lemma {:induction false} CheckHostOfName(h: string)
    requires IsDomainName(h)
    ensures CheckHost(h, true) == Valid(h)
  {
  }

  /** Without a public-suffix answer, the suffix validator returns a
      well-formed name made of the last two (or three) labels of the host,
      and validating that result again returns it unchanged. */
  lemma {:induction false} DomainSuffixFallback(raw: string)
    requires NormalizeDomainSuffix(raw, None).Valid?
    ensures var r := NormalizeDomainSuffix(raw, None).value;
            IsDomainName(r) && NormalizeDomainSuffix(r, None) == Valid(r)
            && |Split(r, '.')| <= 3
  {
    SuffixFallbackValue(raw);
    var h := CleanHost(raw).value;
    HeuristicFacts(h);
    SuffixOfName(HeuristicRegistrable(h));
  }

  // -----------------------------------------------------------------------
  // a trailing newline slips through DOMAIN_RE

  /** Text appended to a string without the separator extends its last
      part. */
  lemma {:induction false} SplitExtendLast(s: string, x: string)
    requires '.' !in x
    ensures var parts := Split(s, '.');
            Split(s + x, '.') == parts[..|parts| - 1] + [parts[|parts| - 1] + x]
  {
    var parts := Split(s, '.');
    var n := |parts|;
    var ext := parts[..n - 1] + [parts[n - 1] + x];
    JoinExtendLast(".", parts, x);
    JoinSplit(s, '.');
    assert '.' !in parts[n - 1] + x;
    assert forall i :: 0 <= i < n - 1 ==> ext[i] == parts[i];
    SplitJoin(ext, '.');
  }


  /** `_clean_host` of a host followed by a newline and a dot: the final
      '.' is stripped after the whitespace, so the newline stays. */
  lemma {:induction false} CleanHostKeepsNewline(d: string)
    requires d != [] && IsAlnum(d[0]) && HasNoUpper(d)
    requires ':' !in d && '/' !in d && '?' !in d
    ensures CleanHost(d + "\n.") == Some(d + "\n")
  {
    var t := d + "\n";
    NoUpperSnoc(d, '\n');
    NotInAppend(d, "\n");
    assert t[0] == d[0] && t[|t| - 1] == '\n';
    assert d + "\n." == t + ['.'];
    CleanHostDropsFinalDot(t);
  }

  /** A plain host followed by one dot loses just that dot. */
  lemma {:induction false} CleanHostDropsFinalDot(t: string)
    requires t != [] && IsAlnum(t[0]) && t[|t| - 1] != '.' && HasNoUpper(t)
    requires ':' !in t && '/' !in t && '?' !in t
    ensures CleanHost(t + ['.']) == Some(t)
  {
    var s := t + ['.'];
    assert s[0] == t[0] && s[|s| - 1] == '.';
    NotInAppend(t, ['.']);
    CleanHostOfPlain(s);
    StripFinalDot(t);
    LowerNoop(t);
  }

  lemma {:induction false} StripFinalDot(t: string)
    requires t != [] && t[0] != '.' && t[|t| - 1] != '.'
    ensures StripChar(t + ['.'], '.') == t
  {
    var s := t + ['.'];
    assert s[0] == t[0];
    assert LStripChar(s, '.') == s;
    assert s[..|s| - 1] == t;
    assert RStripChar(s, '.') == RStripChar(t, '.');
  }

  /** A name DOMAIN_RE matches holds none of the characters that cut the
      host short. */
  lemma {:induction false} NameSeparators(h: string)
    requires DomainReFull(h)
    ensures ':' !in h && '/' !in h && '?' !in h
  {
    DomainChars(h);
    forall k | 0 <= k < |h| ensures h[k] != ':' && h[k] != '/' && h[k] != '?' {
      assert IsAlnum(h[k]) || h[k] == '-' || h[k] == '.';
    }
  }

  lemma {:induction false} NotInAppend(d: string, x: string)
    requires ':' !in d && '/' !in d && '?' !in d
    requires ':' !in x && '/' !in x && '?' !in x
    ensures ':' !in d + x && '/' !in d + x && '?' !in d + x
  {
  }

  /** The labels of `d + "\n"` are those of `d`, the TLD one character
      longer. */
  lemma {:induction false} NewlineLabels(d: string)
    requires IsDomainName(d)
    requires var parts := Split(d, '.'); |parts[|parts| - 1]| <= 62
    ensures !HasLongLabel(d + "\n")
  {
    var parts := Split(d, '.');
    SplitExtendLast(d, "\n");
    var ext := Split(d + "\n", '.');
    assert forall i :: 0 <= i < |ext| - 1 ==> ext[i] == parts[i];
  }

  /** As written, `normalize_domain_exact` accepts any well-formed name
      followed by "\n." (for example "example.com\n.") and returns the
      name with a trailing newline, because `$` matches before a final
      newline; written into the rule file, that value splits its line. */
  lemma {:induction false} TrailingNewlineAcceptedAsWritten(d: string)
    requires IsDomainName(d) && |d| <= 252
    requires var parts := Split(d, '.'); |parts[|parts| - 1]| <= 62
    ensures NormalizeDomainExactAsWritten(d + "\n.") == Valid(d + "\n")
  {
    NameEnds(d);
    NameSeparators(d);
    CleanHostKeepsNewline(d);
    NewlineHostChecked(d);
  }

  /** The name with a newline appended passes the checks with the
      expression anchored as written, and fails them anchored at the very
      end. */
  lemma {:induction false} NewlineHostChecked(d: string)
    requires IsDomainName(d) && |d| <= 252
    requires var parts := Split(d, '.'); |parts[|parts| - 1]| <= 62
    ensures CheckHost(d + "\n", false) == Valid(d + "\n")
    ensures CheckHost(d + "\n", true) == Invalid(MsgUnrecognised)
  {
    NewlineLabels(d);
    var h := d + "\n";
    assert h[..|h| - 1] == d;
    assert DomainReMatch(h);
    assert h[|d|] == '\n';
    NewlineNotName(h, |d|);
  }

  /** A name DOMAIN_RE matches in full has no newline. */
  lemma {:induction false} NewlineNotName(h: string, k: nat)
    requires k < |h| && h[k] == '\n'
    ensures !DomainReFull(h)
  {
    if DomainReFull(h) {
      DomainChars(h);
      assert false;
    }
  }

  /** Anchored at the very end of the host, the same input is refused. */
  lemma {:induction false} TrailingNewlineRefused(d: string)
    requires IsDomainName(d) && |d| <= 252
    requires var parts := Split(d, '.'); |parts[|parts| - 1]| <= 62
    ensures NormalizeDomainExact(d + "\n.") == Invalid(MsgUnrecognised)
  {
    NameEnds(d);
    NameSeparators(d);
    CleanHostKeepsNewline(d);
    NewlineHostChecked(d);
  }
}
