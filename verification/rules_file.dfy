/** The rule-file text model (bot/services/rules_file.py): the file is an
    ordered list of comment / rule / other lines; rendering writes every rule
    in its two-column `TYPE,value` form, so the policy column read from a
    legacy three-column line is never written back. */
module RulesFile {
  import opened Wrappers
  import opened Strings
  import opened Enums
  import Seqs

  datatype Rule = Rule(ty: RuleType, value: string, policy: Option<Policy>)

  datatype LineKind = CommentLine | RuleLine | OtherLine

  /** One physical line. As in the source, the kind and the optional rule are
      independent fields; only a `RuleLine` carrying a rule is treated as one. */
  datatype Line = Line(kind: LineKind, text: string, rule: Option<Rule>)

  /** `l.kind == "rule" and l.rule` */
  predicate IsRule(l: Line) {
    l.kind == RuleLine && l.rule.Some?
  }

  function Comment(text: string): Line {
    Line(CommentLine, text, None)
  }

  // -----------------------------------------------------------------------
  // Parsing

  /** What `RULE_RE` captures: the type token, the stripped value and the
      policy token when a third column is present. */
  datatype RuleMatch = RuleMatch(typeToken: string, value: string, policyToken: Option<string>)

  predicate AllTypeTokenChars(s: string) {
    forall i :: 0 <= i < |s| ==> IsTypeTokenChar(s[i])
  }

  predicate AllUpper(s: string) {
    forall i :: 0 <= i < |s| ==> IsUpperAlpha(s[i])
  }

  /** `RULE_RE.match(s)` for `^\s*([A-Z\-]+)\s*,\s*([^,#]+?)\s*(?:,\s*([A-Z]+)\s*)?$`
      on a line without a newline. No group can hold a comma, so the type
      column ends at the first comma and the value column at the second;
      the value group must be non-empty and free of `#` (it may be a single
      blank, which strips to ""), and a third column must be an upper-case
      word. Group 2 is only ever used stripped, so the stripped value is
      returned. */
  function MatchRuleRe(s: string): (m: Option<RuleMatch>)
    ensures m.Some? ==> ',' !in m.value.value && '#' !in m.value.value
    ensures m.Some? ==> forall c :: c in m.value.value ==> c in s
    ensures m.Some? ==> Strip(m.value.value) == m.value.value
    ensures m.Some? ==> m.value.typeToken != [] && AllTypeTokenChars(m.value.typeToken)
    ensures m.Some? && m.value.policyToken.Some? ==>
              m.value.policyToken.value != [] && AllUpper(m.value.policyToken.value)
  {
    var i := IndexOf(s, ',');
    if i == |s| then None
    else
      var ty := Strip(s[..i]);
      if ty == [] || !AllTypeTokenChars(ty) then None
      else
        SuffixChars(s, i + 1);
        MatchColumns(ty, s[i + 1..])
  }

  /** The characters of a suffix are characters of the string. */
  lemma {:induction false} SuffixChars(s: string, k: nat)
    requires k <= |s|
    ensures forall c :: c in s[k..] ==> c in s
  {
    forall c | c in s[k..] ensures c in s {
      var n :| 0 <= n < |s[k..]| && s[k..][n] == c;
      assert s[k + n] == c;
    }
  }

  /** The characters of a prefix are characters of the string. */
  lemma {:induction false} PrefixChars(s: string, k: nat)
    requires k <= |s|
    ensures forall c :: c in s[..k] ==> c in s
  {
    forall c | c in s[..k] ensures c in s {
      var n :| 0 <= n < k && s[..k][n] == c;
      assert s[n] == c;
    }
  }

  /** The value and policy columns of `RULE_RE`, after the first comma. */
  function MatchColumns(ty: string, rest: string): (m: Option<RuleMatch>)
    requires ty != [] && AllTypeTokenChars(ty)
    ensures m.Some? ==> m.value.typeToken == ty
    ensures m.Some? ==> ',' !in m.value.value && '#' !in m.value.value
    ensures m.Some? ==> forall c :: c in m.value.value ==> c in rest
    ensures m.Some? ==> Strip(m.value.value) == m.value.value
    ensures m.Some? && m.value.policyToken.Some? ==>
              m.value.policyToken.value != [] && AllUpper(m.value.policyToken.value)
  {
    var j := IndexOf(rest, ',');
    var a := rest[..j];
    if a == [] || '#' in a then None
    else
      StripFacts(a);
      StripIdempotent(a);
      PrefixChars(rest, j);
      if j == |rest| then Some(RuleMatch(ty, Strip(a), None))
      else
        var p := Strip(rest[j + 1..]);
        if p != [] && AllUpper(p) then Some(RuleMatch(ty, Strip(a), Some(p)))
        else None
  }

  predicate IsCommentText(raw: string) {
    raw == [] || StartsWith(LStrip(raw), "#")
  }

  /** One iteration of the loop in `parse_text`. */
  function ParseLine(raw: string): (l: Line)
    ensures l.text == raw
    ensures l.kind == CommentLine <==> IsCommentText(raw)
    ensures l.kind == RuleLine <==> l.rule.Some?
    ensures IsRule(l) ==> ',' !in l.rule.value.value && '#' !in l.rule.value.value
    ensures IsRule(l) ==> Strip(l.rule.value.value) == l.rule.value.value
    ensures IsRule(l) ==> forall c :: c in l.rule.value.value ==> c in raw
  {
    if IsCommentText(raw) then Comment(raw)
    else match MatchRuleRe(raw)
      case None => Line(OtherLine, raw, None)
      case Some(m) =>
        match ParseRuleType(m.typeToken)
        case None => Line(OtherLine, raw, None)
        case Some(t) =>
          var policy := if m.policyToken.Some? then ParsePolicy(m.policyToken.value) else None;
          Line(RuleLine, raw, Some(Rule(t, m.value, policy)))
  }

  /** `text.splitlines()` for "\n" line breaks: a final "\n" does not
      start another line, and the empty text has no lines. */
  function SplitLines(text: string): (r: seq<string>)
    ensures forall i :: 0 <= i < |r| ==> '\n' !in r[i]
  {
    if text == [] then []
    else
      var parts := Split(text, '\n');
      if text[|text| - 1] == '\n' then parts[..|parts| - 1] else parts
  }

  /** The lines, joined back with "\n" (and the final "\n" when there was
      one), are the text again. */
  lemma {:induction false} SplitLinesJoin(text: string)
    ensures text != [] && text[|text| - 1] == '\n' ==> Join("\n", SplitLines(text)) + "\n" == text
    ensures text == [] || text[|text| - 1] != '\n' ==> Join("\n", SplitLines(text)) == text
  {
    if text != [] {
      var parts := Split(text, '\n');
      JoinSplit(text, '\n');
      if text[|text| - 1] == '\n' {
        var init := parts[..|parts| - 1];
        var last := parts[|parts| - 1];
        if |parts| == 1 {
          assert false;
        }
        assert parts == init + [last];
        JoinSnoc("\n", init, last);
        assert text == Join("\n", init) + "\n" + last;
        if last != [] {
          assert false;
        }
      }
    }
  }

  /** `parse_text(text)`: one line per `splitlines()` line, in order. */
  function Parse(text: string): (lines: seq<Line>)
    ensures |lines| == |SplitLines(text)|
  {
    ParseAll(SplitLines(text))
  }

  /** The lines parsed from `raws`, appended one by one. */
  function ParseAll(raws: seq<string>): (lines: seq<Line>)
    ensures |lines| == |raws|
  {
    if raws == [] then []
    else ParseAll(raws[..|raws| - 1]) + [ParseLine(raws[|raws| - 1])]
  }

  /** Line `i` of the parsed text is the parse of raw line `i`. */
  lemma {:induction false} ParseAllAt(raws: seq<string>, i: nat)
    requires i < |raws|
    ensures ParseAll(raws)[i] == ParseLine(raws[i])
    decreases |raws|
  {
    var n := |raws| - 1;
    assert ParseAll(raws) == ParseAll(raws[..n]) + [ParseLine(raws[n])];
    if i < n {
      ParseAllAt(raws[..n], i);
      assert raws[..n][i] == raws[i];
    }
  }

  lemma {:induction false} ParsedLines(text: string)
    ensures forall i :: 0 <= i < |Parse(text)| ==> Parse(text)[i] == ParseLine(SplitLines(text)[i])
  {
    forall i | 0 <= i < |Parse(text)| ensures Parse(text)[i] == ParseLine(SplitLines(text)[i]) {
      ParseAllAt(SplitLines(text), i);
    }
  }

  /** The loop of `parse_text`, appending one `Line` per raw line. */
  method ParseText(text: string) returns (lines: seq<Line>)
    ensures |lines| == |SplitLines(text)|
    ensures forall i :: 0 <= i < |lines| ==> lines[i].text == SplitLines(text)[i]
    ensures lines == Parse(text)
  {
    var raws := SplitLines(text);
    lines := [];
    var i := 0;
    while i < |raws|
      invariant 0 <= i <= |raws|
      invariant lines == ParseAll(raws[..i])
    {
      var raw := raws[i];
      var line: Line;
      if IsCommentText(raw) {
        line := Comment(raw);
      } else {
        var m := MatchRuleRe(raw);
        if m.None? {
          line := Line(OtherLine, raw, None);
        } else {
          var rtype := ParseRuleType(m.value.typeToken);
          if rtype.None? {
            line := Line(OtherLine, raw, None);
          } else {
            var policy: Option<Policy> := None;
            if m.value.policyToken.Some? {
              policy := ParsePolicy(m.value.policyToken.value);
            }
            line := Line(RuleLine, raw, Some(Rule(rtype.value, m.value.value, policy)));
          }
        }
      }
      assert raws[..i + 1][..i] == raws[..i];
      lines := lines + [line];
      i := i + 1;
    }
    assert raws[..i] == raws;
    ParsedLines(text);
  }

  // -----------------------------------------------------------------------
  // Rendering

  /** `rule_line(rule)`: the two-column file form, never the policy. */
  function RuleText(r: Rule): (s: string)
    ensures IndexOf(s, ',') == |RuleTypeToken(r.ty)| < |s|
    ensures s[..|RuleTypeToken(r.ty)|] == RuleTypeToken(r.ty) && s[|RuleTypeToken(r.ty)| + 1..] == r.value
  {
    var tok := RuleTypeToken(r.ty);
    assert ',' !in tok by {
      forall k | 0 <= k < |tok| ensures tok[k] != ',' {
        assert IsTypeTokenChar(tok[k]);
      }
    }
    IndexOfAfter(tok, ',', r.value);
    tok + "," + r.value
  }

  /** `_render_line`: a comment or an unrecognised line is written back as
      it was read; a rule line is rewritten in the two-column form. */
  function RenderLine(l: Line): (s: string)
    ensures !IsRule(l) ==> s == l.text
    ensures IsRule(l) ==> var tok := RuleTypeToken(l.rule.value.ty);
              IndexOf(s, ',') == |tok| < |s| && s[..|tok|] == tok && s[|tok| + 1..] == l.rule.value.value
  {
    if l.kind != RuleLine || l.rule.None? then l.text else RuleText(l.rule.value)
  }

  function RenderedLines(lines: seq<Line>): (r: seq<string>)
    ensures |r| == |lines|
    ensures forall i :: 0 <= i < |lines| ==> r[i] == RenderLine(lines[i])
  {
    seq(|lines|, i requires 0 <= i < |lines| => RenderLine(lines[i]))
  }

  /** `render_lines`: the rendered lines joined by "\n", plus one final "\n",
      so even an empty list renders to "\n". */
  function Render(lines: seq<Line>): (text: string)
    ensures |text| >= 1 && text[|text| - 1] == '\n'
    ensures lines == [] ==> text == "\n"
  {
    Join("\n", RenderedLines(lines)) + "\n"
  }

  /** `describe_rule`: the value and a label for its type, no policy. */
  function DescribeRule(r: Rule): (d: string)
    ensures StartsWith(d, r.value)
  {
    r.value + " (" + TypeLabel(r.ty) + ")"
  }

  function TypeLabel(t: RuleType): string {
    match t
    case DomainSuffix => "домен+поддомены"
    case Domain => "точный домен"
    case DomainKeyword => "ключевое слово"
    case IpCidr => "IP-диапазон"
  }

  /** Neither the file form, nor the rendered line, nor the description of a
      rule depends on its policy. */
  lemma {:induction false} PolicyNeverShown(r: Rule, p: Option<Policy>, kind: LineKind, text: string)
    ensures RuleText(r.(policy := p)) == RuleText(r)
    ensures DescribeRule(r.(policy := p)) == DescribeRule(r)
    ensures RenderLine(Line(kind, text, Some(r.(policy := p)))) == RenderLine(Line(kind, text, Some(r)))
  {
  }

  // -----------------------------------------------------------------------
  // Parsing what was rendered

  /** A value as the parser produces it: no column separator, no comment
      mark, no line break, no surrounding blanks. */
  predicate CanonicalValue(v: string) {
    ',' !in v && '#' !in v && '\n' !in v && Strip(v) == v
  }

  /** The regular expression reads the file form of a rule back as its type
      token and value; a rule with an empty value has nothing for the value
      group and does not match. */
  lemma {:induction false} MatchRuleText(tok: string, v: string)
    requires tok != [] && AllTypeTokenChars(tok)
    requires CanonicalValue(v)
    ensures MatchRuleRe(tok + "," + v) == if v == [] then None else Some(RuleMatch(tok, v, None))
  {
    var s := tok + "," + v;
    assert ',' !in tok by {
      forall k | 0 <= k < |tok| ensures tok[k] != ',' {
        assert IsTypeTokenChar(tok[k]);
      }
    }
    IndexOfAfter(tok, ',', v);
    assert s[..|tok|] == tok;
    assert s[|tok| + 1..] == v;
    assert IsTypeTokenChar(tok[0]) && IsTypeTokenChar(tok[|tok| - 1]);
    StripNoop(tok);
    assert IndexOf(v, ',') == |v|;
    assert v[..|v|] == v;
  }

  /** A line the expression matches without a policy column, with a known
      type token, parses to that rule without a policy. */
  lemma {:induction false} ParseLineOfMatch(raw: string, m: RuleMatch, t: RuleType)
    requires !IsCommentText(raw) && MatchRuleRe(raw) == Some(m)
    requires m.policyToken.None? && m.typeToken == RuleTypeToken(t)
    ensures ParseLine(raw) == Line(RuleLine, raw, Some(Rule(t, m.value, None)))
  {
  }

  /** Text that starts with a type-token character is not a comment. */
  lemma {:induction false} NotCommentText(tok: string, rest: string)
    requires tok != [] && IsTypeTokenChar(tok[0])
    ensures !IsCommentText(tok + rest)
  {
    var s := tok + rest;
    assert s[0] == tok[0];
    assert LStrip(s) == s;
  }

  /** The file form of a rule reads back as that rule without a policy when
      its value is non-empty; with an empty value it reads back as an
      unrecognised line with the same text. */
  lemma {:induction false} RuleTextParses(r: Rule)
    requires CanonicalValue(r.value)
    ensures r.value != [] ==> ParseLine(RuleText(r)) == Line(RuleLine, RuleText(r), Some(r.(policy := None)))
    ensures r.value == [] ==> ParseLine(RuleText(r)) == Line(OtherLine, RuleText(r), None)
    ensures RenderLine(ParseLine(RuleText(r))) == RuleText(r)
  {
    var tok := RuleTypeToken(r.ty);
    var s := RuleText(r);
    NotCommentText(tok + ",", r.value);
    MatchRuleText(tok, r.value);
    if r.value != [] {
      ParseLineOfMatch(s, RuleMatch(tok, r.value, None), r.ty);
    }
  }

  /** A line as `parse_text` produced it renders to a line that, parsed
      again, renders the same. */
  lemma {:induction false} ParsedLineRenderStable(raw: string)
    requires '\n' !in raw
    ensures '\n' !in RenderLine(ParseLine(raw))
    ensures RenderLine(ParseLine(RenderLine(ParseLine(raw)))) == RenderLine(ParseLine(raw))
  {
    if IsRule(ParseLine(raw)) {
      RuleLineStable(raw);
    } else {
      assert RenderLine(ParseLine(raw)) == raw;
    }
  }

  lemma {:induction false} RuleLineStable(raw: string)
    requires '\n' !in raw && IsRule(ParseLine(raw))
    ensures '\n' !in RenderLine(ParseLine(raw))
    ensures RenderLine(ParseLine(RenderLine(ParseLine(raw)))) == RenderLine(ParseLine(raw))
  {
    var l := ParseLine(raw);
    var r := l.rule.value;
    assert '\n' !in r.value;
    var t := RuleText(r);
    assert RenderLine(l) == t;
    RuleTextParses(r);
    RuleTextOneLine(r);
    assert RenderLine(ParseLine(t)) == t;
  }

  /** The file form of a rule whose value has no line break has none. */
  lemma {:induction false} RuleTextOneLine(r: Rule)
    requires '\n' !in r.value
    ensures '\n' !in RuleText(r)
  {
    var tok := RuleTypeToken(r.ty);
    forall k | 0 <= k < |tok| ensures tok[k] != '\n' {
      assert IsTypeTokenChar(tok[k]);
    }
  }

  /** How the text `render_lines` produces splits back into lines: exactly
      the rendered lines, except that the empty list comes back as one
      empty line. */
  lemma {:induction false} SplitRendered(lines: seq<Line>)
    requires forall i :: 0 <= i < |lines| ==> '\n' !in RenderLine(lines[i])
    ensures lines == [] ==> SplitLines(Render(lines)) == [""]
    ensures lines != [] ==> SplitLines(Render(lines)) == RenderedLines(lines)
  {
    var xs := RenderedLines(lines);
    if lines == [] {
      SplitLinesOfNewline();
    } else {
      SplitLinesOfJoin(xs);
    }
  }

  /** Lines without line breaks, each ended by "\n", split back into
      those lines. */
  lemma {:induction false} SplitLinesOfJoin(xs: seq<string>)
    requires |xs| >= 1
    requires forall i :: 0 <= i < |xs| ==> '\n' !in xs[i]
    ensures SplitLines(Join("\n", xs) + "\n") == xs
  {
    var nl: string := ['\n'];
    var text := Join(nl, xs) + nl;
    JoinSnoc(nl, xs, "");
    assert Join(nl, xs + [""]) == text;
    SplitJoin(xs + [""], '\n');
    assert text[|text| - 1] == '\n';
    assert (xs + [""])[..|xs|] == xs;
  }

  /** A lone line break is one empty line. */
  lemma {:induction false} SplitLinesOfNewline()
    ensures SplitLines("\n") == [""]
  {
    var nl: string := ['\n'];
    assert Join(nl, ["", ""]) == nl;
    SplitJoin(["", ""], '\n');
  }

  /** Normalising is idempotent: `render_lines(parse_text(t))` is already in
      the form that `render_lines(parse_text(...))` produces, which is what
      the /normalize command compares the fetched text against. */
  lemma {:induction false} RenderParseIdempotent(text: string)
    ensures Render(Parse(Render(Parse(text)))) == Render(Parse(text))
  {
    var raws := SplitLines(text);
    var p := Parse(text);
    RenderedStable(raws);
    SplitRendered(p);
    var q := Parse(Render(p));
    if p == [] {
      EmptyRenderStable();
    } else {
      assert RenderedLines(q) == RenderedLines(p);
    }
  }

  /** The empty file renders to one line break, which parses to one empty
      line, which renders to one line break again. */
  lemma {:induction false} EmptyRenderStable()
    ensures Render(Parse(Render([]))) == Render([])
  {
    SplitRendered([]);
    var q := Parse(Render([]));
    assert |q| == 1 && q[0] == ParseLine("") by {
      ParseAllAt([""], 0);
    }
    assert IsCommentText("");
    assert RenderedLines(q) == [""];
  }

  /** Lines parsed from raw lines render without line breaks, and parsing
      what they render gives lines that render the same. */
  lemma {:induction false} RenderedStable(raws: seq<string>)
    requires forall i :: 0 <= i < |raws| ==> '\n' !in raws[i]
    ensures var p := ParseAll(raws);
            (forall i :: 0 <= i < |p| ==> '\n' !in RenderLine(p[i]))
            && RenderedLines(ParseAll(RenderedLines(p))) == RenderedLines(p)
  {
    var p := ParseAll(raws);
    var xs := RenderedLines(p);
    var q := ParseAll(xs);
    forall i | 0 <= i < |p| ensures '\n' !in RenderLine(p[i]) && RenderLine(q[i]) == RenderLine(p[i]) {
      ParseAllAt(raws, i);
      ParseAllAt(xs, i);
      ParsedLineRenderStable(raws[i]);
    }
  }

  // -----------------------------------------------------------------------
  // Queries

  /** `list_rules`: the (index, rule) pairs of the rule lines, in file order. */
  function ListRules(lines: seq<Line>): (r: seq<(nat, Rule)>)
    ensures |r| <= |lines|
    ensures forall k :: 0 <= k < |r| ==>
              r[k].0 < |lines| && IsRule(lines[r[k].0]) && lines[r[k].0].rule.value == r[k].1
    ensures forall k, m :: 0 <= k < m < |r| ==> r[k].0 < r[m].0
    ensures forall i :: 0 <= i < |lines| && IsRule(lines[i]) ==> (i, lines[i].rule.value) in r
  {
    if lines == [] then []
    else
      var n := |lines| - 1;
      var init := ListRules(lines[..n]);
      init + (if IsRule(lines[n]) then [(n, lines[n].rule.value)] else [])
  }

  predicate Matches(l: Line, t: RuleType, v: string) {
    IsRule(l) && l.rule.value.ty == t && l.rule.value.value == v
  }

  /** The first rule line with this type and value, whatever its policy. */
  function FindRule(lines: seq<Line>, t: RuleType, v: string): (r: Option<nat>)
    ensures r.None? <==> forall i :: 0 <= i < |lines| ==> !Matches(lines[i], t, v)
    ensures r.Some? ==> r.value < |lines| && Matches(lines[r.value], t, v)
    ensures r.Some? ==> forall i :: 0 <= i < r.value ==> !Matches(lines[i], t, v)
  {
    FindFrom(lines, t, v, 0)
  }

  function FindFrom(lines: seq<Line>, t: RuleType, v: string, k: nat): (r: Option<nat>)
    requires k <= |lines|
    ensures r.None? <==> forall i :: k <= i < |lines| ==> !Matches(lines[i], t, v)
    ensures r.Some? ==> k <= r.value < |lines| && Matches(lines[r.value], t, v)
    ensures r.Some? ==> forall i :: k <= i < r.value ==> !Matches(lines[i], t, v)
    decreases |lines| - k
  {
    if k == |lines| then None
    else if Matches(lines[k], t, v) then Some(k)
    else FindFrom(lines, t, v, k + 1)
  }

  /** `find_rule_index`: a scan that returns at the first match. */
  method FindRuleIndex(lines: seq<Line>, t: RuleType, v: string) returns (r: Option<nat>)
    ensures r.None? <==> forall i :: 0 <= i < |lines| ==> !Matches(lines[i], t, v)
    ensures r.Some? ==> r.value < |lines| && Matches(lines[r.value], t, v)
    ensures r.Some? ==> forall i :: 0 <= i < r.value ==> !Matches(lines[i], t, v)
    ensures r == FindRule(lines, t, v)
  {
    var idx := 0;
    while idx < |lines|
      invariant 0 <= idx <= |lines|
      invariant forall i :: 0 <= i < idx ==> !Matches(lines[i], t, v)
    {
      var l := lines[idx];
      if l.kind == RuleLine && l.rule.Some? && l.rule.value.ty == t && l.rule.value.value == v {
        return Some(idx);
      }
      idx := idx + 1;
    }
    return None;
  }

  // -----------------------------------------------------------------------
  // Edits

  /** `add_rule`: the marker comment and then the rule, at the end. */
  function AddRule(lines: seq<Line>, rule: Rule, addedComment: string): (r: seq<Line>)
    ensures |r| == |lines| + 2
    ensures forall i :: 0 <= i < |lines| ==> r[i] == lines[i]
    ensures r[|lines|] == Comment(addedComment)
    ensures IsRule(r[|lines| + 1]) && r[|lines| + 1].rule.value == rule
  {
    lines + [Comment(addedComment), Line(RuleLine, "", Some(rule))]
  }

  /** Adding a rule that is not yet in the file makes it findable at the
      appended position; adding one that is leaves the first match where
      it was. */
  lemma {:induction false} AddRuleFind(lines: seq<Line>, rule: Rule, addedComment: string)
    ensures FindRule(AddRule(lines, rule, addedComment), rule.ty, rule.value)
            == if FindRule(lines, rule.ty, rule.value).Some? then FindRule(lines, rule.ty, rule.value)
               else Some(|lines| + 1)
  {
    var r := AddRule(lines, rule, addedComment);
    assert Matches(r[|lines| + 1], rule.ty, rule.value);
    assert !Matches(r[|lines|], rule.ty, rule.value);
  }

  /** Listing the rules of one more line. */
  lemma {:induction false} ListRulesSnoc(lines: seq<Line>, l: Line)
    ensures ListRules(lines + [l]) == ListRules(lines) + (if IsRule(l) then [(|lines|, l.rule.value)] else [])
  {
    assert (lines + [l])[..|lines|] == lines;
  }

  lemma {:induction false} AppendTwo<T>(xs: seq<T>, a: T, b: T)
    ensures xs + [a, b] == xs + [a] + [b]
  {
  }

  /** Adding a rule lists exactly one more rule, at the appended position. */
  lemma {:induction false} AddRuleListRules(lines: seq<Line>, rule: Rule, addedComment: string)
    ensures ListRules(AddRule(lines, rule, addedComment)) == ListRules(lines) + [(|lines| + 1, rule)]
  {
    var withComment := lines + [Comment(addedComment)];
    var ruleLine := Line(RuleLine, "", Some(rule));
    AppendTwo(lines, Comment(addedComment), ruleLine);
    ListRulesSnoc(lines, Comment(addedComment));
    assert ListRules(withComment) == ListRules(lines);
    ListRulesSnoc(withComment, ruleLine);
  }

  function WithPolicy(lines: seq<Line>, idx: nat, p: Option<Policy>): (r: seq<Line>)
    requires idx < |lines| && IsRule(lines[idx])
    ensures |r| == |lines|
    ensures forall i :: 0 <= i < |lines| && i != idx ==> r[i] == lines[i]
    ensures r[idx].kind == lines[idx].kind && r[idx].text == lines[idx].text
    ensures r[idx].rule == Some(lines[idx].rule.value.(policy := p))
  {
    var l := lines[idx];
    lines[idx := l.(rule := Some(l.rule.value.(policy := p)))]
  }

  /** `replace_policy`; the source asserts that `idx` is a rule line. */
  function ReplacePolicy(lines: seq<Line>, idx: nat, newPolicy: Policy): (r: seq<Line>)
    requires idx < |lines| && IsRule(lines[idx])
    ensures |r| == |lines| && IsRule(r[idx])
    ensures forall i :: 0 <= i < |lines| && i != idx ==> r[i] == lines[i]
    ensures r[idx].kind == lines[idx].kind && r[idx].text == lines[idx].text
    ensures r[idx].rule.value == lines[idx].rule.value.(policy := Some(newPolicy))
    ensures Render(r) == Render(lines)
  {
    WithPolicyKeepsRender(lines, idx, Some(newPolicy));
    WithPolicy(lines, idx, Some(newPolicy))
  }

  /** `clear_policy`; the source asserts that `idx` is a rule line. */
  function ClearPolicy(lines: seq<Line>, idx: nat): (r: seq<Line>)
    requires idx < |lines| && IsRule(lines[idx])
    ensures |r| == |lines| && IsRule(r[idx])
    ensures forall i :: 0 <= i < |lines| && i != idx ==> r[i] == lines[i]
    ensures r[idx].kind == lines[idx].kind && r[idx].text == lines[idx].text
    ensures r[idx].rule.value == lines[idx].rule.value.(policy := None)
    ensures Render(r) == Render(lines)
  {
    WithPolicyKeepsRender(lines, idx, None);
    WithPolicy(lines, idx, None)
  }

  /** Two lists whose lines match the same (type, value) at the same
      positions give the same lookup result. */
  lemma {:induction false} FindRuleSameMatches(a: seq<Line>, b: seq<Line>, t: RuleType, v: string)
    requires |a| == |b|
    requires forall i :: 0 <= i < |a| ==> (Matches(a[i], t, v) <==> Matches(b[i], t, v))
    ensures FindRule(a, t, v) == FindRule(b, t, v)
  {
  }

  /** Changing a policy does not change the rendered file: the policy is
      only ever read, never written. */
  lemma {:induction false} WithPolicyKeepsRender(lines: seq<Line>, idx: nat, p: Option<Policy>)
    requires idx < |lines| && IsRule(lines[idx])
    ensures Render(WithPolicy(lines, idx, p)) == Render(lines)
  {
    assert RenderedLines(WithPolicy(lines, idx, p)) == RenderedLines(lines);
  }

  /** Changing a policy does not change which line a lookup finds. */
  lemma {:induction false} WithPolicyKeepsFind(lines: seq<Line>, idx: nat, p: Option<Policy>, t: RuleType, v: string)
    requires idx < |lines| && IsRule(lines[idx])
    ensures FindRule(WithPolicy(lines, idx, p), t, v) == FindRule(lines, t, v)
  {
    FindRuleSameMatches(WithPolicy(lines, idx, p), lines, t, v);
  }

  // -----------------------------------------------------------------------
  // Soft delete

  const AddedPrefix := "# Added:"

  /** A comment that `delete_rule` treats as the "# Added:" marker. */
  predicate IsAddedMarker(l: Line)
    ensures IsAddedMarker(l) ==> l.kind == CommentLine && RenderLine(l) == l.text && '#' in l.text
  {
    if l.kind == CommentLine && StartsWith(Strip(l.text), AddedPrefix) then
      assert Strip(l.text)[0] == '#';
      StripFacts(l.text);
      true
    else false
  }

  /** Python truthiness of `removed_comment: str | None`. */
  predicate Truthy(s: Option<string>) {
    s.Some? && s.value != ""
  }

  /** The comment a soft-deleted rule becomes: `# TYPE,value`. */
  function CommentedOut(r: Rule): Line {
    Comment("# " + RuleText(r))
  }

  /** `delete_rule`, case by case. An index that is out of range or not a
      rule line leaves the list as it is. Otherwise the rule becomes the
      comment `# TYPE,value`; a directly preceding "# Added:" marker is
      replaced by a truthy `removed` (same length) or dropped (one line
      shorter, the rule moves up one); without a marker a truthy `removed`
      is inserted above the rule (one line longer). */
  function SoftDelete(lines: seq<Line>, idx: int, removed: Option<string>): (r: seq<Line>)
    ensures !(0 <= idx < |lines| && IsRule(lines[idx])) ==> r == lines
  {
    if !(0 <= idx < |lines| && IsRule(lines[idx])) then lines
    else
      var pre := if HasMarkerAbove(lines, idx) then lines[..idx - 1] else lines[..idx];
      pre + DeletedBlock(lines[idx].rule.value, removed) + lines[idx + 1..]
  }

  /** The replacement block written out for each case. */
  lemma {:induction false} SoftDeleteExplicit(lines: seq<Line>, idx: nat, removed: Option<string>)
    requires idx < |lines| && IsRule(lines[idx])
    ensures SoftDelete(lines, idx, removed) ==
      (if HasMarkerAbove(lines, idx) then lines[..idx - 1] else lines[..idx])
      + (if Truthy(removed) then [Comment(removed.value), CommentedOut(lines[idx].rule.value)]
         else [CommentedOut(lines[idx].rule.value)])
      + lines[idx + 1..]
  {
  }

  /** The four shapes of a soft delete, position by position. */
  lemma {:induction false} SoftDeleteShape(lines: seq<Line>, idx: nat, removed: Option<string>)
    requires idx < |lines| && IsRule(lines[idx])
    ensures HasMarkerAbove(lines, idx) && Truthy(removed) ==>
              MarkerReplaced(lines, idx, removed.value, SoftDelete(lines, idx, removed))
    ensures HasMarkerAbove(lines, idx) && !Truthy(removed) ==>
              MarkerDropped(lines, idx, SoftDelete(lines, idx, removed))
    ensures !HasMarkerAbove(lines, idx) && Truthy(removed) ==>
              RemovedInserted(lines, idx, removed.value, SoftDelete(lines, idx, removed))
    ensures !HasMarkerAbove(lines, idx) && !Truthy(removed) ==>
              CommentedInPlace(lines, idx, SoftDelete(lines, idx, removed))
  {
    if HasMarkerAbove(lines, idx) {
      if Truthy(removed) {
        SoftDeleteReplacesMarker(lines, idx, removed);
      } else {
        SoftDeleteDropsMarker(lines, idx, removed);
      }
    } else {
      if Truthy(removed) {
        SoftDeleteInsertsNote(lines, idx, removed);
      } else {
        SoftDeleteInPlace(lines, idx, removed);
      }
    }
  }

  lemma {:induction false} SoftDeleteReplacesMarker(lines: seq<Line>, idx: nat, removed: Option<string>)
    requires idx < |lines| && IsRule(lines[idx]) && HasMarkerAbove(lines, idx) && Truthy(removed)
    ensures MarkerReplaced(lines, idx, removed.value, SoftDelete(lines, idx, removed))
  {
    var r := SoftDelete(lines, idx, removed);
    var block := DeletedBlock(lines[idx].rule.value, removed);
    assert r == lines[..idx - 1] + block + lines[idx + 1..];
    assert |block| == 2;
    assert r == lines[idx - 1 := Comment(removed.value)][idx := CommentedOut(lines[idx].rule.value)];
  }

  lemma {:induction false} SoftDeleteDropsMarker(lines: seq<Line>, idx: nat, removed: Option<string>)
    requires idx < |lines| && IsRule(lines[idx]) && HasMarkerAbove(lines, idx) && !Truthy(removed)
    ensures MarkerDropped(lines, idx, SoftDelete(lines, idx, removed))
  {
    var r := SoftDelete(lines, idx, removed);
    var block := DeletedBlock(lines[idx].rule.value, removed);
    var after := lines[idx + 1..];
    assert r == lines[..idx - 1] + block + after;
    assert |block| == 1;
    forall i | idx <= i < |r| ensures r[i] == lines[i + 1] {
      assert r[i] == after[i - idx];
    }
  }

  lemma {:induction false} SoftDeleteInsertsNote(lines: seq<Line>, idx: nat, removed: Option<string>)
    requires idx < |lines| && IsRule(lines[idx]) && !HasMarkerAbove(lines, idx) && Truthy(removed)
    ensures RemovedInserted(lines, idx, removed.value, SoftDelete(lines, idx, removed))
  {
    var r := SoftDelete(lines, idx, removed);
    var block := DeletedBlock(lines[idx].rule.value, removed);
    var after := lines[idx + 1..];
    assert r == lines[..idx] + block + after;
    assert |block| == 2;
    forall i | idx + 2 <= i < |r| ensures r[i] == lines[i - 1] {
      assert r[i] == after[i - idx - 2];
    }
  }

  lemma {:induction false} SoftDeleteInPlace(lines: seq<Line>, idx: nat, removed: Option<string>)
    requires idx < |lines| && IsRule(lines[idx]) && !HasMarkerAbove(lines, idx) && !Truthy(removed)
    ensures CommentedInPlace(lines, idx, SoftDelete(lines, idx, removed))
  {
    var r := SoftDelete(lines, idx, removed);
    var block := DeletedBlock(lines[idx].rule.value, removed);
    assert r == lines[..idx] + block + lines[idx + 1..];
    assert |block| == 1;
    assert r == lines[idx := CommentedOut(lines[idx].rule.value)];
  }

  predicate HasMarkerAbove(lines: seq<Line>, idx: int)
    requires 0 <= idx < |lines|
  {
    idx > 0 && IsAddedMarker(lines[idx - 1])
  }

  /** Marker present, `removed` truthy: the marker becomes the removal note,
      the rule becomes its comment, nothing moves. */
  predicate MarkerReplaced(lines: seq<Line>, idx: int, removed: string, r: seq<Line>)
    requires 0 < idx < |lines| && IsRule(lines[idx])
  {
    |r| == |lines| && r[idx - 1] == Comment(removed) && r[idx] == CommentedOut(lines[idx].rule.value)
    && forall i :: 0 <= i < |lines| && i != idx - 1 && i != idx ==> r[i] == lines[i]
  }

  /** Marker present, no removal note: the marker is dropped and the rule's
      comment takes its place, so every later line moves up one. */
  predicate MarkerDropped(lines: seq<Line>, idx: int, r: seq<Line>)
    requires 0 < idx < |lines| && IsRule(lines[idx])
  {
    |r| == |lines| - 1 && r[idx - 1] == CommentedOut(lines[idx].rule.value)
    && (forall i :: 0 <= i < idx - 1 ==> r[i] == lines[i])
    && (forall i :: idx <= i < |r| ==> r[i] == lines[i + 1])
  }

  /** No marker, removal note given: the note goes in above the rule's
      comment, so every later line moves down one. */
  predicate RemovedInserted(lines: seq<Line>, idx: int, removed: string, r: seq<Line>)
    requires 0 <= idx < |lines| && IsRule(lines[idx])
  {
    |r| == |lines| + 1 && r[idx] == Comment(removed) && r[idx + 1] == CommentedOut(lines[idx].rule.value)
    && (forall i :: 0 <= i < idx ==> r[i] == lines[i])
    && (forall i :: idx + 2 <= i < |r| ==> r[i] == lines[i - 1])
  }

  /** No marker, no note: only the rule line changes, into its comment. */
  predicate CommentedInPlace(lines: seq<Line>, idx: int, r: seq<Line>)
    requires 0 <= idx < |lines| && IsRule(lines[idx])
  {
    |r| == |lines| && r[idx] == CommentedOut(lines[idx].rule.value)
    && forall i :: 0 <= i < |lines| && i != idx ==> r[i] == lines[i]
  }

  /** `delete_rule` as the source writes it: copy the list, then edit the
      copy in place (`del`, `idx -= 1`, index assignment, `insert`). */
  method DeleteRule(lines: seq<Line>, idx: int, removed: Option<string>) returns (newLines: seq<Line>)
    ensures newLines == SoftDelete(lines, idx, removed)
  {
    newLines := lines;
    if idx < 0 || idx >= |newLines| {
      return;
    }
    var l := newLines[idx];
    if !IsRule(l) {
      return;
    }
    var commented := CommentedOut(l.rule.value);
    SoftDeleteExplicit(lines, idx, removed);
    var i := idx;
    var prev := i - 1;
    if prev >= 0 && IsAddedMarker(newLines[prev]) {
      if Truthy(removed) {
        newLines := newLines[prev := Comment(removed.value)];
        Seqs.UpdateTwoAsSlices(lines, idx, Comment(removed.value), commented);
      } else {
        newLines := newLines[..prev] + newLines[prev + 1..];
        i := i - 1;
        Seqs.DeleteThenUpdateAsSlices(lines, idx, commented);
      }
      newLines := newLines[i := commented];
    } else {
      newLines := newLines[i := commented];
      if Truthy(removed) {
        Seqs.UpdateThenInsertAsSlices(lines, idx, Comment(removed.value), commented);
        newLines := newLines[..i] + [Comment(removed.value)] + newLines[i..];
      } else {
        Seqs.UpdateAsSlices(lines, idx, commented);
      }
    }
  }

  /** The rules of a list of lines, in order. */
  function RulesIn(lines: seq<Line>): seq<Rule>
  {
    if lines == [] then []
    else RulesIn(lines[..|lines| - 1]) + (if IsRule(lines[|lines| - 1]) then [lines[|lines| - 1].rule.value] else [])
  }

  lemma {:induction false} RulesInAppend(a: seq<Line>, b: seq<Line>)
    ensures RulesIn(a + b) == RulesIn(a) + RulesIn(b)
  {
    if b == [] {
      assert a + b == a;
    } else {
      assert (a + b)[..|a + b| - 1] == a + b[..|b| - 1];
      RulesInAppend(a, b[..|b| - 1]);
    }
  }

  lemma {:induction false} RulesInComments(cs: seq<Line>)
    requires forall i :: 0 <= i < |cs| ==> cs[i].kind == CommentLine
    ensures RulesIn(cs) == []
  {
    if cs != [] {
      RulesInComments(cs[..|cs| - 1]);
    }
  }

  /** The rules of a list are those before `idx`, the rule at `idx` and
      those after it. */
  lemma {:induction false} RulesInAround(lines: seq<Line>, idx: nat)
    requires idx < |lines| && IsRule(lines[idx])
    ensures RulesIn(lines) == RulesIn(lines[..idx]) + [lines[idx].rule.value] + RulesIn(lines[idx + 1..])
  {
    var before, after := lines[..idx], lines[idx + 1..];
    assert lines == before + [lines[idx]] + after;
    RulesInAppend(before + [lines[idx]], after);
    RulesInAppend(before, [lines[idx]]);
    assert RulesIn([lines[idx]]) == [lines[idx].rule.value] by {
      assert [lines[idx]][..0] == [];
    }
  }

  /** What a soft delete leaves where the rule was: the removal note, when
      one is given, above the commented-out rule. */
  function DeletedBlock(rule: Rule, removed: Option<string>): (block: seq<Line>)
    ensures forall i :: 0 <= i < |block| ==> block[i].kind == CommentLine
  {
    (if Truthy(removed) then [Comment(removed.value)] else []) + [CommentedOut(rule)]
  }

  /** Dropping an "# Added:" marker above `idx` drops no rule. */
  lemma {:induction false} RulesInBeforeDelete(lines: seq<Line>, idx: nat)
    requires idx < |lines| && IsRule(lines[idx])
    ensures RulesIn(if HasMarkerAbove(lines, idx) then lines[..idx - 1] else lines[..idx]) == RulesIn(lines[..idx])
  {
    if HasMarkerAbove(lines, idx) {
      var pre := lines[..idx - 1];
      assert lines[..idx] == pre + [lines[idx - 1]];
      RulesInAppend(pre, [lines[idx - 1]]);
      RulesInComments([lines[idx - 1]]);
    }
  }

  /** Comment lines put between two parts add no rule. */
  lemma {:induction false} RulesInAroundComments(pre: seq<Line>, mid: seq<Line>, after: seq<Line>)
    requires forall i :: 0 <= i < |mid| ==> mid[i].kind == CommentLine
    ensures RulesIn(pre + mid + after) == RulesIn(pre) + RulesIn(after)
  {
    RulesInAppend(pre + mid, after);
    RulesInAppend(pre, mid);
    RulesInComments(mid);
  }

  lemma {:induction false} SoftDeleteAsBlock(lines: seq<Line>, idx: nat, removed: Option<string>)
    requires idx < |lines| && IsRule(lines[idx])
    ensures SoftDelete(lines, idx, removed)
            == (if HasMarkerAbove(lines, idx) then lines[..idx - 1] else lines[..idx])
               + DeletedBlock(lines[idx].rule.value, removed) + lines[idx + 1..]
  {
  }

  /** A soft delete takes exactly the rule at `idx` out of the file's rules
      and leaves every other rule, in order. */
  lemma {:induction false} SoftDeleteRemovesOneRule(lines: seq<Line>, idx: nat, removed: Option<string>)
    requires idx < |lines| && IsRule(lines[idx])
    ensures RulesIn(SoftDelete(lines, idx, removed)) == RulesIn(lines[..idx]) + RulesIn(lines[idx + 1..])
  {
    SoftDeleteAsBlock(lines, idx, removed);
    RulesInAroundComments(if HasMarkerAbove(lines, idx) then lines[..idx - 1] else lines[..idx],
                          DeletedBlock(lines[idx].rule.value, removed), lines[idx + 1..]);
    RulesInBeforeDelete(lines, idx);
  }

  /** The commented-out line still carries the rule's file form after "# ",
      and it parses back as a comment. */
  lemma {:induction false} CommentedOutKeepsRule(r: Rule)
    ensures CommentedOut(r).text == "# " + RuleText(r)
    ensures ParseLine(CommentedOut(r).text).kind == CommentLine
  {
    var s := "# " + RuleText(r);
    assert LStrip(s) == s;
    assert StartsWith(s, "#");
  }
}
