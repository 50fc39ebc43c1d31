/** The read-only views of the rules file (bot/handlers/view_config.py):
    the per-type statistics, the policy and type filters, and the paged
    listing with its navigation callbacks. */
module ViewConfig {
  import opened Wrappers
  import opened Strings
  import opened Enums
  import opened RulesFile
  import Seqs
  import opened Paging
  import opened GitHubStore

  // -----------------------------------------------------------------------
  // counting rules by type (`Counter(r.type.value for _, r in rules)`)

  /** How many entries have type `t`. */
  function Count(rules: seq<Entry>, t: RuleType): (n: nat)
    ensures n <= |rules|
  {
    if rules == [] then 0
    else Count(rules[..|rules| - 1], t) + (if rules[|rules| - 1].1.ty == t then 1 else 0)
  }

  lemma {:induction false} CountSnoc(rules: seq<Entry>, i: nat, t: RuleType)
    requires i < |rules|
    ensures Count(rules[..i + 1], t) == Count(rules[..i], t) + (if rules[i].1.ty == t then 1 else 0)
  {
    assert rules[..i + 1][..i] == rules[..i];
  }

  /** Every rule has exactly one of the four types, so the counts add up to
      the number of rules. */
  lemma {:induction false} CountsAddUp(rules: seq<Entry>)
    ensures Count(rules, Domain) + Count(rules, DomainKeyword) + Count(rules, DomainSuffix) + Count(rules, IpCidr) == |rules|
  {
    if rules != [] {
      CountsAddUp(rules[..|rules| - 1]);
    }
  }

  /** The loop that builds the counter: one key per type that occurs, with
      its number of rules. */
  method CountTypes(rules: seq<Entry>) returns (counts: map<RuleType, nat>)
    ensures forall t :: t in counts <==> Count(rules, t) > 0
    ensures forall t :: t in counts ==> counts[t] == Count(rules, t)
  {
    counts := map[];
    for i := 0 to |rules|
      invariant forall t :: t in counts <==> Count(rules[..i], t) > 0
      invariant forall t :: t in counts ==> counts[t] == Count(rules[..i], t)
    {
      var t := rules[i].1.ty;
      forall u ensures Count(rules[..i + 1], u) == Count(rules[..i], u) + (if t == u then 1 else 0) {
        CountSnoc(rules, i, u);
      }
      if t in counts {
        counts := counts[t := counts[t] + 1];
      } else {
        counts := counts[t := 1];
      }
    }
    assert rules[..|rules|] == rules;
  }

  // -----------------------------------------------------------------------
  // the order of `sorted(stats.items())`

  lemma {:induction false} StrLePrefix(a: string, b: string)
    ensures StrLe(a, a + b)
    decreases |a|
  {
    if a != [] {
      assert (a + b)[1..] == a[1..] + b;
      StrLePrefix(a[1..], b);
    }
  }

  lemma {:induction false} StrLeCommonPrefix(p: string, a: string, b: string)
    requires StrLe(a, b)
    ensures StrLe(p + a, p + b)
    decreases |p|
  {
    if p == [] {
      assert p + a == a && p + b == b;
    } else {
      assert (p + a)[0] == p[0] == (p + b)[0];
      assert (p + a)[1..] == p[1..] + a;
      assert (p + b)[1..] == p[1..] + b;
      StrLeCommonPrefix(p[1..], a, b);
    }
  }

  lemma {:induction false} DomainBeforeKeyword()
    ensures StrLe(RuleTypeToken(Domain), RuleTypeToken(DomainKeyword))
  {
    assert RuleTypeToken(DomainKeyword) == RuleTypeToken(Domain) + "-KEYWORD";
    StrLePrefix(RuleTypeToken(Domain), "-KEYWORD");
  }

  lemma {:induction false} KeywordBeforeSuffix()
    ensures StrLe(RuleTypeToken(DomainKeyword), RuleTypeToken(DomainSuffix))
  {
    var p := "DOMAIN-";
    var k, x := "KEYWORD", "SUFFIX";
    assert k[0] < x[0];
    assert RuleTypeToken(DomainKeyword) == p + k;
    assert RuleTypeToken(DomainSuffix) == p + x;
    StrLeCommonPrefix(p, k, x);
  }

  lemma {:induction false} SuffixBeforeCidr()
    ensures StrLe(RuleTypeToken(DomainSuffix), RuleTypeToken(IpCidr))
  {
  }

  /** Neighbours in `RuleTypesByToken` are in token order. */
  lemma {:induction false} NextToken(n: nat)
    requires n + 1 < |RuleTypesByToken|
    ensures StrLe(RuleTypeToken(RuleTypesByToken[n]), RuleTypeToken(RuleTypesByToken[n + 1]))
  {
    if n == 0 {
      DomainBeforeKeyword();
    } else if n == 1 {
      KeywordBeforeSuffix();
    } else {
      SuffixBeforeCidr();
    }
  }

  /** `RuleTypesByToken` lists the types in the strict order of their
      tokens, so walking it is walking `sorted(stats.items())`. */
  lemma {:induction false} TokenOrder(i: nat, j: nat)
    requires i < j < |RuleTypesByToken|
    ensures StrLe(RuleTypeToken(RuleTypesByToken[i]), RuleTypeToken(RuleTypesByToken[j]))
    ensures RuleTypeToken(RuleTypesByToken[i]) != RuleTypeToken(RuleTypesByToken[j])
    decreases j - i
  {
    var ts := RuleTypesByToken;
    NextToken(j - 1);
    if i < j - 1 {
      TokenOrder(i, j - 1);
      StrLeTrans(RuleTypeToken(ts[i]), RuleTypeToken(ts[j - 1]), RuleTypeToken(ts[j]));
    }
    assert ts[i] != ts[j];
    TokensInjective(ts[i], ts[j], Proxy, Proxy);
  }

  /** `RuleTypesByToken` holds every type once. */
  lemma {:induction false} TokenOrderComplete(t: RuleType)
    ensures t in RuleTypesByToken
  {
  }

  // -----------------------------------------------------------------------
  // percentages

  /** `count * 100 // total if total else 0` */
  function Pct(count: nat, total: nat): (p: nat)
    ensures total == 0 ==> p == 0
    ensures count <= total ==> p <= 100
  {
    if total == 0 then 0
    else if count <= total then
      PctAtMost100(count, total);
      count * 100 / total
    else count * 100 / total
  }

  /** The share is the floor of count * 100 / total: the largest p with
      p * total <= count * 100. */
  lemma {:induction false} PctIsFloor(count: nat, total: nat)
    requires total > 0
    ensures var p := Pct(count, total); p * total <= count * 100 < (p + 1) * total
  {
    var q := count * 100 / total;
    assert count * 100 == q * total + (count * 100) % total;
    assert (q + 1) * total == q * total + total;
  }

  lemma {:induction false} DivAtLeast(x: nat, k: nat, d: nat)
    requires d > 0 && x >= k * d
    ensures x / d >= k
  {
    var q := x / d;
    assert x == q * d + x % d && x % d < d;
    assert k * d < (q + 1) * d;
    MulLess(k, q + 1, d);
  }

  lemma {:induction false} MulLess(a: nat, b: nat, d: nat)
    requires a * d < b * d
    ensures a < b
  {
    if a >= b {
      MulMono(b, a, d);
    }
  }

  lemma {:induction false} MulMono(a: nat, b: nat, d: nat)
    requires a <= b
    ensures a * d <= b * d
  {
    if d > 0 {
      MulMono(a, b, d - 1);
      assert a * d == a * (d - 1) + a && b * d == b * (d - 1) + b;
    }
  }

  lemma {:induction false} DivSum(a: nat, b: nat, d: nat)
    requires d > 0
    ensures a / d + b / d <= (a + b) / d
  {
    assert a == (a / d) * d + a % d;
    assert b == (b / d) * d + b % d;
    assert a + b >= (a / d + b / d) * d;
    DivAtLeast(a + b, a / d + b / d, d);
  }

  /** A share of the total is at most 100%. */
  lemma {:induction false} PctAtMost100(count: nat, total: nat)
    requires count <= total && total > 0
    ensures count * 100 / total <= 100
  {
    assert count * 100 <= total * 100;
    DivSelf(total);
    DivMono(count * 100, total * 100, total);
  }

  lemma {:induction false} DivMono(a: nat, b: nat, d: nat)
    requires d > 0 && a <= b
    ensures a / d <= b / d
  {
    DivSum(a, b - a, d);
  }

  lemma {:induction false} DivSelf(total: nat)
    requires total > 0
    ensures total * 100 / total == 100
  {
    assert total * 100 == 100 * total + 0;
  }

  lemma {:induction false} PctSum(a: nat, b: nat, c: nat, e: nat, total: nat)
    requires a + b + c + e == total
    ensures Pct(a, total) + Pct(b, total) + Pct(c, total) + Pct(e, total) <= 100
  {
    if total > 0 {
      var a1, b1, c1, e1 := a * 100, b * 100, c * 100, e * 100;
      assert Pct(a, total) == a1 / total && Pct(b, total) == b1 / total;
      assert Pct(c, total) == c1 / total && Pct(e, total) == e1 / total;
      DivSum(a1, b1, total);
      DivSum(a1 + b1, c1, total);
      DivSum(a1 + b1 + c1, e1, total);
      assert a1 + b1 + c1 + e1 == total * 100;
      DivSelf(total);
    }
  }

  /** The rounded-down shares of the four types add up to at most 100%. */
  lemma {:induction false} PctsAddUpToAtMost100(rules: seq<Entry>)
    ensures var total := |rules|;
            Pct(Count(rules, Domain), total) + Pct(Count(rules, DomainKeyword), total)
            + Pct(Count(rules, DomainSuffix), total) + Pct(Count(rules, IpCidr), total) <= 100
  {
    CountsAddUp(rules);
    PctSum(Count(rules, Domain), Count(rules, DomainKeyword), Count(rules, DomainSuffix), Count(rules, IpCidr), |rules|);
  }

  // -----------------------------------------------------------------------
  // /stats

  const StatsTitle := "📊 <b>Статистика правил</b>\n"
  const StatsError := "❌ Ошибка загрузки статистики"

  /** `f"{rtype}: {count} ({pct}%)"` */
  function StatsRow(t: RuleType, count: nat, total: nat): string {
    RuleTypeToken(t) + ": " + NatToString(count) + " (" + NatToString(Pct(count, total)) + "%)"
  }

  /** The rows of the types among `types` that occur in `rules`, in order. */
  function StatsRows(rules: seq<Entry>, types: seq<RuleType>): (r: seq<string>)
    ensures |r| <= |types|
  {
    if types == [] then []
    else
      var t := types[|types| - 1];
      StatsRows(rules, types[..|types| - 1])
      + (if Count(rules, t) > 0 then [StatsRow(t, Count(rules, t), |rules|)] else [])
  }

  /** There is a row for each type that occurs and for no other. */
  lemma {:induction false} StatsRowsCount(rules: seq<Entry>, types: seq<RuleType>)
    ensures |StatsRows(rules, types)| == |Seqs.Filter(OccursIn(rules), types)|
  {
    if types != [] {
      StatsRowsCount(rules, types[..|types| - 1]);
    }
  }

  /** Each row is the row of a type among `types` that occurs. */
  lemma {:induction false} StatsRowsOccurring(rules: seq<Entry>, types: seq<RuleType>, i: nat)
    requires i < |StatsRows(rules, types)|
    ensures exists t :: t in types && Count(rules, t) > 0
                        && StatsRows(rules, types)[i] == StatsRow(t, Count(rules, t), |rules|)
  {
    var t := OccurringRowType(rules, types, i);
  }

  lemma {:induction false} OccurringRowType(rules: seq<Entry>, types: seq<RuleType>, i: nat) returns (t: RuleType)
    requires i < |StatsRows(rules, types)|
    ensures t in types && Count(rules, t) > 0
    ensures StatsRows(rules, types)[i] == StatsRow(t, Count(rules, t), |rules|)
  {
    var n := |types| - 1;
    var init := types[..n];
    var prev := StatsRows(rules, init);
    if i < |prev| {
      t := OccurringRowType(rules, init, i);
      assert t in types;
    } else {
      t := types[n];
    }
  }

  /** The loop over `sorted(stats.items())`, one row per key. */
  method StatsRowsOf(rules: seq<Entry>, stats: map<RuleType, nat>) returns (rows: seq<string>)
    requires forall t :: t in stats <==> Count(rules, t) > 0
    requires forall t :: t in stats ==> stats[t] == Count(rules, t)
    ensures rows == StatsRows(rules, RuleTypesByToken)
  {
    rows := [];
    for k := 0 to |RuleTypesByToken|
      invariant rows == StatsRows(rules, RuleTypesByToken[..k])
    {
      var t := RuleTypesByToken[k];
      assert RuleTypesByToken[..k + 1][..k] == RuleTypesByToken[..k];
      if t in stats {
        rows := rows + [StatsRow(t, stats[t], |rules|)];
      }
    }
    assert RuleTypesByToken[..|RuleTypesByToken|] == RuleTypesByToken;
  }

  /** `stats_command`: the title, the total and one row per occurring type,
      in token order; an error line when the fetch raised. */
  method StatsCommand(fetched: Outcome<FileData>) returns (reply: string)
    ensures fetched.Failed? ==> reply == StatsError
    ensures fetched.Done? ==>
              var rules := ListRules(Parse(fetched.value.text));
              reply == Join("\n", [StatsTitle, "📋 Всего: " + NatToString(|rules|) + "\n"]
                                  + StatsRows(rules, RuleTypesByToken))
  {
    if fetched.Failed? {
      return StatsError;
    }
    var rules := ListRules(Parse(fetched.value.text));
    var stats := CountTypes(rules);
    var total := |rules|;
    var rows := StatsRowsOf(rules, stats);
    reply := Join("\n", [StatsTitle, "📋 Всего: " + NatToString(total) + "\n"] + rows);
  }

  // -----------------------------------------------------------------------
  // filters

  /** `getattr(r[1], "policy", None) == target` */
  function PolicyIs(target: Policy): Entry -> bool {
    (e: Entry) => e.1.policy == Some(target)
  }

  /** `_filter_rules(rules, policy)`: a known policy token keeps the rules
      carrying that policy; anything else keeps every rule. */
  function FilterByPolicy(rules: seq<Entry>, policy: Option<string>): (r: seq<Entry>)
    ensures policy.None? || ParsePolicy(policy.value).None? ==> r == rules
    ensures policy.Some? && ParsePolicy(policy.value).Some? ==>
              (forall i :: 0 <= i < |r| ==> r[i] in rules && r[i].1.policy == ParsePolicy(policy.value))
              && (forall i :: 0 <= i < |rules| && rules[i].1.policy == ParsePolicy(policy.value) ==> rules[i] in r)
  {
    if policy.Some? && ParsePolicy(policy.value).Some? then
      Seqs.Filter(PolicyIs(ParsePolicy(policy.value).value), rules)
    else rules
  }

  /** `r[1].type.value == rule_type` */
  function TypeIs(token: string): Entry -> bool {
    (e: Entry) => RuleTypeToken(e.1.ty) == token
  }

  /** The type filter of `build_view_response`: a non-empty token other
      than "ALL" keeps the rules of that type, so an unknown token keeps
      none. */
  function FilterByType(rules: seq<Entry>, ruleType: Option<string>): (r: seq<Entry>)
    ensures ruleType.None? || ruleType.value in {"", "ALL"} ==> r == rules
    ensures ruleType.Some? && ruleType.value !in {"", "ALL"} ==>
              (forall i :: 0 <= i < |r| ==> r[i] in rules && ParseRuleType(ruleType.value) == Some(r[i].1.ty))
              && (forall i :: 0 <= i < |rules| && ParseRuleType(ruleType.value) == Some(rules[i].1.ty) ==> rules[i] in r)
  {
    if ruleType.Some? && ruleType.value != "" && ruleType.value != "ALL" then
      Seqs.Filter(TypeIs(ruleType.value), rules)
    else rules
  }

  /** A type filter keeps as many rules as the counter has for that type. */
  lemma {:induction false} FilterByTypeCount(rules: seq<Entry>, t: RuleType)
    ensures |Seqs.Filter(TypeIs(RuleTypeToken(t)), rules)| == Count(rules, t)
  {
    if rules != [] {
      FilterByTypeCount(rules[..|rules| - 1], t);
      TokensInjective(rules[|rules| - 1].1.ty, t, Proxy, Proxy);
    }
  }

  // -----------------------------------------------------------------------
  // the listing page

  const EmptyConfig := "📋 Конфиг пуст\n\nДобавьте первое правило!"

  /** `f"view:{rule_type}:page:{n}"` */
  function PageCallback(ruleType: string, n: nat): string {
    Join(":", ["view", ruleType, "page", NatToString(n)])
  }

  /** "⬅️ {page}" back to the previous page; the label is that page's
      1-based number. */
  function ViewPrev(ruleType: string, page: nat): (b: Button)
    requires page > 0
    ensures b.text == "⬅️ " + NatToString((page - 1) + 1)
  {
    Button("⬅️ " + NatToString(page), PageCallback(ruleType, page - 1))
  }

  /** "➡️ {page+2}" on to the next page, labelled with its 1-based number. */
  function ViewNext(ruleType: string, page: nat): (b: Button)
    ensures b.text == "➡️ " + NatToString((page + 1) + 1)
  {
    Button("➡️ " + NatToString(page + 2), PageCallback(ruleType, page + 1))
  }

  /** The navigation row of a listing page. */
  function ViewNav(ruleType: string, page: nat, total: nat): (r: seq<Button>)
    ensures |r| == (if HasPrev(page) then 1 else 0) + (if HasNext(page, total) then 1 else 0)
    ensures HasPrev(page) ==> page > 0 && r[0] == ViewPrev(ruleType, page)
    ensures HasNext(page, total) ==> r[|r| - 1] == ViewNext(ruleType, page)
  {
    (if HasPrev(page) then [ViewPrev(ruleType, page)] else [])
    + (if HasNext(page, total) then [ViewNext(ruleType, page)] else [])
  }

  /** The three header lines above the numbered rules. */
  function ViewHeader(allRules: seq<Entry>, shown: nat): (r: seq<string>)
    ensures |r| == 3 && r[0] != [] && r[0][0] == '📊'
  {
    ["📊 " + StatsLine(allRules), "📋 Показано: " + NatToString(shown), ""]
  }

  /** `" | ".join(f"{k}: {v}" ...)` over the occurring types in token order. */
  function StatsLine(allRules: seq<Entry>): (s: string)
    ensures s == "" <==> allRules == []
  {
    var types := Seqs.Filter(OccursIn(allRules), RuleTypesByToken);
    var items := seq(|types|, i requires 0 <= i < |types| => RuleTypeToken(types[i]) + ": " + NatToString(Count(allRules, types[i])));
    OccurringTypes(allRules);
    if items == [] then Join(" | ", items)
    else
      assert items[0] == RuleTypeToken(types[0]) + ": " + NatToString(Count(allRules, types[0]));
      JoinHead(" | ", items);
      Join(" | ", items)
  }

  /** `stats[t] > 0`: the type occurs among the rules. */
  function OccursIn(rules: seq<Entry>): RuleType -> bool {
    (t: RuleType) => Count(rules, t) > 0
  }

  /** Some type occurs exactly when there is a rule. */
  lemma {:induction false} OccurringTypes(rules: seq<Entry>)
    ensures Seqs.Filter(OccursIn(rules), RuleTypesByToken) == [] <==> rules == []
  {
    var types := Seqs.Filter(OccursIn(rules), RuleTypesByToken);
    if rules != [] {
      var t := rules[0].1.ty;
      CountZero(rules, t, 0);
      TokenOrderComplete(t);
      var k :| 0 <= k < |RuleTypesByToken| && RuleTypesByToken[k] == t;
      assert OccursIn(rules)(RuleTypesByToken[k]);
    } else {
      forall i | 0 <= i < |RuleTypesByToken| ensures !OccursIn(rules)(RuleTypesByToken[i]) {
        assert Count(rules, RuleTypesByToken[i]) == 0;
      }
      Seqs.FilterNone(OccursIn(rules), RuleTypesByToken);
    }
  }

  /** A type that no rule has a count of zero for: no rule has it. */
  lemma {:induction false} CountZero(rules: seq<Entry>, t: RuleType, i: nat)
    requires i < |rules| && rules[i].1.ty == t
    ensures Count(rules, t) > 0
    decreases |rules|
  {
    var n := |rules| - 1;
    if i < n {
      CountZero(rules[..n], t, i);
    }
  }

  /** `_render_page(filtered, page, rule_type, all_rules)`: the statistics
      of the whole file, the number of rules shown, and the page of the
      sorted filtered rules, numbered from the page's first position; the
      empty-file message when nothing is shown. */
  method RenderViewPage(filtered: seq<Entry>, page: nat, ruleType: string, allRules: seq<Entry>)
    returns (body: string, nav: seq<Button>)
    ensures filtered == [] ==> body == EmptyConfig
    ensures filtered != [] ==>
              body == Join("\n", ViewHeader(allRules, |filtered|)
                                 + NumberedLines(Chunk(SortEntries(filtered), page), PageStart(page) + 1, DescribeRule))
    ensures filtered != [] ==> body != EmptyConfig
    ensures nav == ViewNav(ruleType, page, |filtered|)
  {
    var sorted := SortEntries(filtered);
    var start := PageStart(page);
    var chunk := Chunk(sorted, page);
    var total := |sorted|;
    var entries := NumberLines(chunk, start + 1, DescribeRule);
    assert total == |filtered|;
    var prev: seq<Button> := [];
    if start > 0 {
      prev := [ViewPrev(ruleType, page)];
    }
    var next: seq<Button> := [];
    if start + PageSize < total {
      next := [ViewNext(ruleType, page)];
    }
    nav := prev + next;
    if total > 0 {
      var header := ViewHeader(allRules, total);
      body := Join("\n", header + entries);
      assert body != EmptyConfig by {
        JoinHead("\n", header + entries);
      }
    } else {
      body := EmptyConfig;
    }
  }

  /** The rules `build_view_response` shows: the policy filter ("ALL"
      meaning none), then the type filter. */
  function ViewSelection(all: seq<Entry>, policy: Option<string>, ruleType: Option<string>): (r: seq<Entry>)
    ensures forall i :: 0 <= i < |r| ==> r[i] in all && Shown(r[i], policy, ruleType)
    ensures forall i :: 0 <= i < |all| && Shown(all[i], policy, ruleType) ==> all[i] in r
  {
    FilterByType(FilterByPolicy(all, if policy == Some("ALL") then None else policy), ruleType)
  }

  /** Whether an entry passes the policy filter ("ALL", none or an unknown
      policy letting everything through) and the type filter (none, empty
      or "ALL" letting everything through). */
  predicate Shown(e: Entry, policy: Option<string>, ruleType: Option<string>) {
    (policy.None? || policy == Some("ALL") || ParsePolicy(policy.value).None?
     || e.1.policy == ParsePolicy(policy.value))
    && (ruleType.None? || ruleType.value in {"", "ALL"} || ParseRuleType(ruleType.value) == Some(e.1.ty))
  }

  /** The type name the navigation callbacks carry. */
  function ViewTypeName(ruleType: Option<string>): string {
    if ruleType.Some? && ruleType.value != "" then ruleType.value else "ALL"
  }

  /** `build_view_response(store, policy, page, rule_type)` on the fetched
      file: list, filter, render. */
  method BuildViewResponse(text: string, policy: Option<string>, page: nat, ruleType: Option<string>)
    returns (body: string, nav: seq<Button>)
    ensures var filtered := ViewSelection(ListRules(Parse(text)), policy, ruleType);
            (filtered == [] <==> body == EmptyConfig)
            && nav == ViewNav(ViewTypeName(ruleType), page, |filtered|)
    ensures var all := ListRules(Parse(text));
            var filtered := ViewSelection(all, policy, ruleType);
            filtered != [] ==>
              body == Join("\n", ViewHeader(all, |filtered|)
                                 + NumberedLines(Chunk(SortEntries(filtered), page), PageStart(page) + 1, DescribeRule))
  {
    var all := ListRules(Parse(text));
    var filtered := FilterByPolicy(all, if policy == Some("ALL") then None else policy);
    filtered := FilterByType(filtered, ruleType);
    body, nav := RenderViewPage(filtered, page, ViewTypeName(ruleType), all);
  }

  // -----------------------------------------------------------------------
  // on_view_pager

  datatype ViewRequest =
    | ViewCrashed                  // `int(parts[3])` raised
    | ViewDownload                 // "view:download"
    | ViewPageRequest(ruleType: string, page: int)

  /** How `on_view_pager` reads its callback data. */
  function ParseViewCallback(data: string): (r: ViewRequest)
    ensures r.ViewPageRequest? ==> |Split(data, ':')| >= 2 && Split(data, ':')[1] == r.ruleType
    ensures r.ViewPageRequest? && !(|Split(data, ':')| > 3 && Split(data, ':')[2] == "page") ==> r.page == 0
  {
    var parts := Split(data, ':');
    if |parts| < 2 then ViewCrashed
    else if parts[1] == "download" then ViewDownload
    else
      var ruleType := parts[1];
      if |parts| > 3 && parts[2] == "page" then
        match PyInt(parts[3])
        case None => ViewCrashed
        case Some(page) => ViewPageRequest(ruleType, page)
      else ViewPageRequest(ruleType, 0)
  }

  /** The navigation buttons lead where their labels say: the callback of
      a page button reads back as that page of the same type filter. */
  lemma {:induction false} PageCallbackRoundTrip(ruleType: string, n: nat)
    requires ':' !in ruleType && ruleType != "download"
    ensures ParseViewCallback(PageCallback(ruleType, n)) == ViewPageRequest(ruleType, n)
  {
    var parts := ["view", ruleType, "page", NatToString(n)];
    forall i | 0 <= i < 4 ensures ':' !in parts[i] {
      if i == 3 {
        assert AllDigits(parts[i]);
      }
    }
    SplitJoin(parts, ':');
    PyIntOfNatToString(n);
  }
}
