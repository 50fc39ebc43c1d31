/** The decisions of the delete dialogue (bot/handlers/delete_rule.py):
    search tokens from the user's query, the rules the query selects, the
    sorted and paged pick list with its callbacks, and the index checks of
    the pick and confirm steps. */
module DeleteDialog {
  import opened Wrappers
  import opened Strings
  import opened Enums
  import opened RulesFile
  import Seqs
  import Url
  import Domain
  import Ip
  import opened Paging
  import opened GitHubStore

  // -----------------------------------------------------------------------
  // _extract_tokens

  /** The host `_extract_tokens` looks at: `urlparse(query)`'s netloc, or
      its path when the netloc is empty, stripped of blanks and then of
      dots; None when `urlparse` raises. */
  function QueryHost(query: string): (r: Option<string>)
    ensures r.Some? <==> Url.UrlParse(query).Some?
    ensures r.Some? ==> r.value == [] || (r.value[0] != '.' && r.value[|r.value| - 1] != '.')
    ensures r.Some? && Url.UrlParse(query).value.netloc != "" ==> '/' !in r.value && '?' !in r.value
  {
    match Url.UrlParse(query)
    case None => None
    case Some(p) => Some(HostOf(if p.netloc != "" then p.netloc else p.path))
  }

  /** `host.strip().strip(".")` */
  function HostOf(part: string): (h: string)
    ensures h == [] || (h[0] != '.' && h[|h| - 1] != '.')
    ensures forall c :: c in h ==> c in part
  {
    StripFacts(part);
    StripCharChars(Strip(part), '.');
    StripChar(Strip(part), '.')
  }

  /** The tokens the query's host adds: the exact host and then its
      registrable domain, each only if it validates, each lower-cased.
      Nothing is added when `urlparse` or the exact validator raises (the
      `except: pass`). */
  function HostTokens(query: string, publicSuffixAnswer: Option<string>): (r: seq<string>)
    ensures |r| <= 2
    ensures forall i :: 0 <= i < |r| ==> r[i] != ""
    ensures r != [] <==> QueryHost(query).Some? && Domain.NormalizeDomainExact(QueryHost(query).value).Valid?
    ensures r != [] ==> r[0] == Lower(Domain.NormalizeDomainExact(QueryHost(query).value).value)
    ensures |r| == 2 <==> r != [] && Domain.NormalizeDomainSuffix(QueryHost(query).value, publicSuffixAnswer).Valid?
    ensures |r| == 2 ==> r[1] == Lower(Domain.NormalizeDomainSuffix(QueryHost(query).value, publicSuffixAnswer).value)
  {
    if QueryHost(query).None? then []
    else
      var host := QueryHost(query).value;
      var exact := Domain.NormalizeDomainExact(host);
      var base := Domain.NormalizeDomainSuffix(host, publicSuffixAnswer);
      assert exact.Valid? ==> exact.value != "";
      TokensOfVerdicts(exact, base)
  }

  /** The two appends of `_extract_tokens`, given the two verdicts: the
      exact host when it validates, then the registrable domain when that
      validates too. */
  function TokensOfVerdicts(exact: Domain.Verdict, base: Domain.Verdict): (r: seq<string>)
    ensures |r| <= 2
    ensures (exact.Valid? ==> exact.value != "") && (base.Valid? ==> base.value != "") ==>
              forall i :: 0 <= i < |r| ==> r[i] != ""
    ensures r != [] <==> exact.Valid?
    ensures r != [] ==> r[0] == Lower(exact.value)
    ensures |r| == 2 <==> exact.Valid? && base.Valid?
    ensures |r| == 2 ==> r[1] == Lower(base.value)
  {
    if !exact.Valid? then []
    else [Lower(exact.value)] + (if base.Valid? then [Lower(base.value)] else [])
  }

  predicate NonEmpty(t: string) { t != "" }

  /** `list(dict.fromkeys([t for t in tokens if t]))` */
  function Tokens(q: string, hosts: seq<string>): seq<string> {
    Seqs.Dedupe(Seqs.Filter(NonEmpty, [q] + hosts))
  }

  lemma {:induction false} DedupeLength<T>(xs: seq<T>)
    ensures |Seqs.Dedupe(xs)| <= |xs|
  {
    if xs != [] {
      DedupeLength(xs[..|xs| - 1]);
    }
  }

  /** Filtering and de-duplicating a list whose head passes the filter:
      the head stays first, nothing repeats, everything kept passes the
      filter and comes from the list. */
  lemma {:induction false} DedupeFilterCons<T>(p: T -> bool, q: T, rest: seq<T>)
    requires p(q)
    ensures var r := Seqs.Dedupe(Seqs.Filter(p, [q] + rest));
            r != [] && r[0] == q && |r| <= 1 + |rest|
            && (forall i :: 0 <= i < |r| ==> p(r[i]) && (r[i] == q || r[i] in rest))
  {
    var kept := Seqs.Filter(p, [q] + rest);
    Seqs.FilterAppend(p, [q], rest);
    assert Seqs.Filter(p, [q]) == [q] by {
      assert [q][..0] == [];
    }
    assert kept[0] == q;
    DedupeLength(kept);
    var r := Seqs.Dedupe(kept);
    forall i | 0 <= i < |r| ensures p(r[i]) && (r[i] == q || r[i] in rest) {
      assert r[i] in kept;
    }
  }

  /** The token list starts with the query, holds no empty token and no
      repeat, and adds nothing but the host tokens. */
  lemma {:induction false} TokensFacts(q: string, hosts: seq<string>)
    requires q != ""
    ensures var r := Tokens(q, hosts);
            r != [] && r[0] == q && |r| <= 1 + |hosts|
            && (forall i :: 0 <= i < |r| ==> r[i] != "" && (r[i] == q || r[i] in hosts))
            && (forall i, j :: 0 <= i < j < |r| ==> r[i] != r[j])
            && (forall i :: 0 <= i < |hosts| && hosts[i] != "" ==> hosts[i] in r)
  {
    DedupeFilterCons(NonEmpty, q, hosts);
    var kept := Seqs.Filter(NonEmpty, [q] + hosts);
    forall i | 0 <= i < |hosts| && hosts[i] != "" ensures hosts[i] in Tokens(q, hosts) {
      assert ([q] + hosts)[i + 1] == hosts[i];
      assert hosts[i] in kept;
    }
  }

  /** `_extract_tokens(query)`: the stripped lower-cased query first, then
      the host tokens; empty tokens and repeats dropped, first occurrence
      kept. */
  function ExtractTokens(query: string, publicSuffixAnswer: Option<string>): (r: seq<string>)
    ensures r == [] <==> Strip(query) == []
    ensures r != [] ==> r[0] == Lower(Strip(query))
    ensures |r| <= 3
    ensures forall i :: 0 <= i < |r| ==> r[i] != ""
    ensures forall i, j :: 0 <= i < j < |r| ==> r[i] != r[j]
    ensures forall i :: 0 <= i < |r| ==> r[i] == Lower(Strip(query)) || r[i] in HostTokens(query, publicSuffixAnswer)
    ensures r != [] ==> forall i :: 0 <= i < |HostTokens(query, publicSuffixAnswer)| ==> HostTokens(query, publicSuffixAnswer)[i] in r
  {
    var q := Lower(Strip(query));
    if q == "" then []
    else
      var hosts := HostTokens(query, publicSuffixAnswer);
      TokensFacts(q, hosts);
      Tokens(q, hosts)
  }

  /** When the query and its host tokens are all distinct and non-empty,
      `dict.fromkeys` keeps them all, in the order they were appended. */
  lemma {:induction false} TokensInOrder(q: string, hosts: seq<string>)
    requires q != "" && forall i :: 0 <= i < |hosts| ==> hosts[i] != ""
    requires forall i, j :: 0 <= i < j < |[q] + hosts| ==> ([q] + hosts)[i] != ([q] + hosts)[j]
    ensures Tokens(q, hosts) == [q] + hosts
  {
    var xs := [q] + hosts;
    assert forall i :: 0 <= i < |xs| ==> NonEmpty(xs[i]) by {
      forall i | 0 <= i < |xs| ensures NonEmpty(xs[i]) {
        if i > 0 {
          assert xs[i] == hosts[i - 1];
        }
      }
    }
    Seqs.FilterIsSubsequence(NonEmpty, xs);
    Seqs.DedupeDistinct(xs);
  }

  /** The host `_extract_tokens` reads from `scheme://host...` is the host,
      when that is a well-formed lower-case name. */
  lemma {:induction false} QueryHostOfScheme(scheme: string, host: string, tail: string)
    requires |scheme| >= 1 && IsAlpha(scheme[0])
    requires forall k :: 0 <= k < |scheme| ==> Url.IsSchemeChar(scheme[k])
    requires Domain.IsDomainName(host)
    requires Url.NoUnsafe(tail) && (tail == [] || tail[0] in {'/', '?', '#'})
    ensures QueryHost(scheme + "://" + host + tail) == Some(host)
  {
    Domain.DomainChars(host);
    assert forall k :: 0 <= k < |host| ==> host[k] !in {'/', '?', '#', '[', ']'};
    assert Url.NoUnsafe(host);
    Url.UrlParseHost(scheme, host, tail);
    Domain.NameEnds(host);
    StripNoop(host);
    StripCharNoop(host, '.');
  }

  /** A query whose host is a well-formed lower-case name yields the host
      itself and, with no public-suffix answer, the host's last two (or
      three) labels as its host tokens. */
  lemma {:induction false} HostTokensOfName(query: string, host: string)
    requires QueryHost(query) == Some(host) && Domain.IsDomainName(host)
    ensures HostTokens(query, None) == [host, Domain.HeuristicRegistrable(host)]
  {
    NameVerdicts(host);
    HostTokensOfVerdicts(query, host, Domain.NormalizeDomainExact(host), Domain.NormalizeDomainSuffix(host, None));
    TokensOfValidVerdicts(host, Domain.HeuristicRegistrable(host));
  }

  /** The host tokens are the tokens of the two verdicts on the host. */
  lemma {:induction false} HostTokensOfVerdicts(query: string, host: string, exact: Domain.Verdict, suffix: Domain.Verdict)
    requires QueryHost(query) == Some(host)
    requires exact == Domain.NormalizeDomainExact(host) && suffix == Domain.NormalizeDomainSuffix(host, None)
    ensures HostTokens(query, None) == TokensOfVerdicts(exact, suffix)
  {
  }

  /** Two accepted values that lower-casing keeps become the two tokens. */
  lemma {:induction false} TokensOfValidVerdicts(host: string, base: string)
    requires Lower(host) == host && Lower(base) == base
    ensures TokensOfVerdicts(Domain.Valid(host), Domain.Valid(base)) == [host, base]
  {
  }

  /** The validators on a well-formed lower-case name: the exact one keeps
      it, the suffix one gives its heuristic part, and neither changes
      under lower-casing. */
  lemma {:induction false} NameVerdicts(host: string)
    requires Domain.IsDomainName(host)
    ensures var base := Domain.HeuristicRegistrable(host);
            Domain.NormalizeDomainExact(host) == Domain.Valid(host)
            && Domain.NormalizeDomainSuffix(host, None) == Domain.Valid(base)
            && Lower(host) == host && Lower(base) == base
  {
    Domain.DomainExactIdempotent(host);
    Domain.SuffixOfName(host);
    LowerNoop(host);
    Domain.HeuristicFacts(host);
    LowerNoop(Domain.HeuristicRegistrable(host));
  }

  /** A query `scheme://host...` whose host is a well-formed lower-case
      name yields the host and its registrable part as host tokens. */
  lemma {:induction false} SchemeHostTokens(scheme: string, host: string, tail: string)
    requires |scheme| >= 1 && IsAlpha(scheme[0])
    requires forall k :: 0 <= k < |scheme| ==> Url.IsSchemeChar(scheme[k])
    requires Domain.IsDomainName(host)
    requires Url.NoUnsafe(tail) && (tail == [] || tail[0] in {'/', '?', '#'})
    ensures HostTokens(scheme + "://" + host + tail, None) == [host, Domain.HeuristicRegistrable(host)]
  {
    QueryHostOfScheme(scheme, host, tail);
    HostTokensOfName(scheme + "://" + host + tail, host);
  }

  /** Such a query, with no whitespace at its end, gives the tokens: the
      lower-cased query, the host, then the host's registrable part unless
      that is the host itself. */
  lemma {:induction false} SchemeQueryTokens(scheme: string, host: string, tail: string)
    requires |scheme| >= 1 && IsAlpha(scheme[0])
    requires forall k :: 0 <= k < |scheme| ==> Url.IsSchemeChar(scheme[k])
    requires Domain.IsDomainName(host)
    requires Url.NoUnsafe(tail) && (tail == [] || tail[0] in {'/', '?', '#'})
    requires tail == [] || !IsSpace(tail[|tail| - 1])
    ensures var query := scheme + "://" + host + tail;
            var base := Domain.HeuristicRegistrable(host);
            ExtractTokens(query, None) == [Lower(Strip(query)), host] + (if base == host then [] else [base])
  {
    var query := scheme + "://" + host + tail;
    var base := Domain.HeuristicRegistrable(host);
    SchemeHostTokens(scheme, host, tail);
    SchemeQueryTokenColon(scheme, host, tail);
    NoColonInName(host);
    RegistrableNoColon(host);
    TokensOfColonQuery(query, host, base);
  }

  /** The query token of such a query keeps its ':'. */
  lemma {:induction false} SchemeQueryTokenColon(scheme: string, host: string, tail: string)
    requires |scheme| >= 1 && IsAlpha(scheme[0])
    requires Domain.IsDomainName(host)
    requires tail == [] || !IsSpace(tail[|tail| - 1])
    ensures ':' in Lower(Strip(scheme + "://" + host + tail))
  {
    Domain.NameEnds(host);
    SchemeQueryStripped(scheme, host, tail);
    SchemeQueryColon(scheme, host, tail);
  }

  /** The registrable part of a well-formed name is non-empty and holds no
      ':'. */
  lemma {:induction false} RegistrableNoColon(host: string)
    requires Domain.IsDomainName(host)
    ensures Domain.HeuristicRegistrable(host) != "" && ':' !in Domain.HeuristicRegistrable(host)
  {
    Domain.HeuristicFacts(host);
    NoColonInName(Domain.HeuristicRegistrable(host));
  }

  /** A query that keeps a ':' after stripping and lower-casing, whose host
      tokens hold none, gets the query token and then its host tokens,
      without a repeat. */
  lemma {:induction false} TokensOfColonQuery(query: string, host: string, base: string)
    requires HostTokens(query, None) == [host, base]
    requires ':' in Lower(Strip(query))
    requires ':' !in host && ':' !in base && host != "" && base != ""
    ensures ExtractTokens(query, None) == [Lower(Strip(query)), host] + (if base == host then [] else [base])
  {
    var q := Lower(Strip(query));
    assert q != host && q != base && q != "";
    TokensOfHostPair(q, host, base);
  }

  /** The query token, the host and its registrable part, all non-empty and
      the query differing from both, de-duplicate to the query, the host,
      then the registrable part unless it is the host. */
  lemma {:induction false} TokensOfHostPair(q: string, host: string, base: string)
    requires q != "" && host != "" && base != ""
    requires q != host && q != base
    ensures Tokens(q, [host, base]) == [q, host] + (if base == host then [] else [base])
  {
    if base == host {
      TokensInOrder(q, [host]);
      TokensTwiceHost(q, host);
    } else {
      TokensInOrder(q, [host, base]);
    }
  }

  /** A query `scheme://host...` that ends in a non-blank has no whitespace
      at its ends. */
  lemma {:induction false} SchemeQueryStripped(scheme: string, host: string, tail: string)
    requires |scheme| >= 1 && IsAlpha(scheme[0])
    requires host != [] && !IsSpace(host[|host| - 1])
    requires tail == [] || !IsSpace(tail[|tail| - 1])
    ensures Strip(scheme + "://" + host + tail) == scheme + "://" + host + tail
  {
    var query := scheme + "://" + host + tail;
    assert query[0] == scheme[0];
    assert query[|query| - 1] == if tail == [] then host[|host| - 1] else tail[|tail| - 1];
    StripNoop(query);
  }

  /** Lower-casing `scheme://host...` keeps its ':'. */
  lemma {:induction false} SchemeQueryColon(scheme: string, host: string, tail: string)
    ensures ':' in Lower(scheme + "://" + host + tail)
  {
    var query := scheme + "://" + host + tail;
    assert query[|scheme|] == ':';
    assert Lower(query)[|scheme|] == ':';
  }

  /** A well-formed name holds no ':'. */
  lemma {:induction false} NoColonInName(h: string)
    requires Domain.IsDomainName(h)
    ensures ':' !in h
  {
    Domain.DomainChars(h);
  }

  /** Repeating the last host token leaves the tokens unchanged. */
  lemma {:induction false} TokensTwiceHost(q: string, host: string)
    requires q != "" && host != ""
    ensures Tokens(q, [host, host]) == Tokens(q, [host])
  {
    Seqs.FilterIsSubsequence(NonEmpty, [q, host, host]);
    Seqs.FilterIsSubsequence(NonEmpty, [q, host]);
    assert [q] + [host, host] == [q, host, host];
    assert [q] + [host] == [q, host];
    assert [q, host, host][..2] == [q, host];
  }

  // -----------------------------------------------------------------------
  // _filter_rules_by_query

  /** `any(t in val for t in tokens)` */
  predicate AnyTokenIn(tokens: seq<string>, val: string) {
    exists i :: 0 <= i < |tokens| && Contains(val, tokens[i])
  }

  /** The address clause: the query is an IPv4 address inside the rule's
      network (`ip_network(value, strict=False)`), or an IPv6 address
      inside it, which `v6Contains(value)` answers for the foreign parser. */
  predicate AddressInRule(query: string, value: string, v6Contains: string -> bool)
    ensures Ip.ParseAddress(Strip(query)).Some? && Ip.ParseNetwork(value).None? ==> !AddressInRule(query, value, v6Contains)
    ensures Ip.ParseAddress(Strip(query)).Some? && Ip.ParseNetwork(value).Some? ==>
              var a := Ip.ParseAddress(Strip(query)).value;
              var net := Ip.ParseNetwork(value).value;
              (AddressInRule(query, value, v6Contains) <==> net.address <= a < net.address + Ip.Pow2(32 - net.prefix))
  {
    match Ip.ParseAddress(Strip(query))
    case Some(a) =>
      (match Ip.ParseNetwork(value)
       case Some(net) =>
         Ip.ClearHostBitsIn(a, net.prefix, net.address);
         Ip.ClearHostBits(a, net.prefix) == net.address
       case None => false)
    case None => v6Contains(value)
  }

  /** Whether `_filter_rules_by_query` keeps an entry. */
  predicate Selects(tokens: seq<string>, query: string, v6Contains: string -> bool, e: Entry) {
    AnyTokenIn(tokens, Lower(e.1.value)) || (e.1.ty == IpCidr && AddressInRule(query, e.1.value, v6Contains))
  }

  /** `_filter_rules_by_query(rules, query)`: one pass over the entries,
      appending those the query selects. */
  method FilterRulesByQuery(rules: seq<Entry>, query: string, publicSuffixAnswer: Option<string>,
                            v6Contains: string -> bool) returns (result: seq<Entry>)
    ensures result == Seqs.Filter((e: Entry) => Selects(ExtractTokens(query, publicSuffixAnswer), query, v6Contains, e), rules)
  {
    var tokens := ExtractTokens(query, publicSuffixAnswer);
    ghost var p := (e: Entry) => Selects(tokens, query, v6Contains, e);
    result := [];
    for i := 0 to |rules|
      invariant result == Seqs.Filter(p, rules[..i])
    {
      var e := rules[i];
      var val := Lower(e.1.value);
      var matched := AnyTokenIn(tokens, val);
      if !matched && e.1.ty == IpCidr && AddressInRule(query, e.1.value, v6Contains) {
        matched := true;
      }
      Seqs.FilterSnoc(p, rules, i);
      if matched {
        result := result + [e];
      }
    }
    assert rules[..|rules|] == rules;
  }

  /** The filter keeps exactly the selected entries, each with its own
      line index. */
  lemma {:induction false} FilterIff(rules: seq<Entry>, query: string, publicSuffixAnswer: Option<string>, v6Contains: string -> bool, e: Entry)
    requires e in rules
    ensures var tokens := ExtractTokens(query, publicSuffixAnswer);
            e in Seqs.Filter((x: Entry) => Selects(tokens, query, v6Contains, x), rules)
            <==> Selects(tokens, query, v6Contains, e)
  {
    var tokens := ExtractTokens(query, publicSuffixAnswer);
    var p := (x: Entry) => Selects(tokens, query, v6Contains, x);
    var r := Seqs.Filter(p, rules);
    if e in r {
      var i :| 0 <= i < |r| && r[i] == e;
    }
  }

  /** A rule whose value contains the query, ignoring case and padding, is
      always found. */
  lemma {:induction false} ValueContainingQueryIsFound(query: string, publicSuffixAnswer: Option<string>, v6Contains: string -> bool, e: Entry)
    requires Strip(query) != [] && Contains(Lower(e.1.value), Lower(Strip(query)))
    ensures Selects(ExtractTokens(query, publicSuffixAnswer), query, v6Contains, e)
  {
    var tokens := ExtractTokens(query, publicSuffixAnswer);
    assert Contains(Lower(e.1.value), tokens[0]);
  }

  // -----------------------------------------------------------------------
  // _render_delete_page

  /** `f"del:pick:{idx_in_file}:{page}"` */
  function PickCallback(idx: nat, page: nat): (s: string)
    ensures StartsWith(s, "del:pick:")
  {
    var rest := [NatToString(idx), NatToString(page)];
    assert Join(":", ["del", "pick"] + rest) == "del" + ":" + ("pick" + ":" + Join(":", rest)) by {
      assert (["del", "pick"] + rest)[1..] == ["pick"] + rest;
      assert (["pick"] + rest)[1..] == rest;
    }
    assert ["del", "pick", NatToString(idx), NatToString(page)] == ["del", "pick"] + rest;
    Join(":", ["del", "pick", NatToString(idx), NatToString(page)])
  }

  function PickButton(n: nat, idx: nat, page: nat): Button {
    Button("❌ " + NatToString(n), PickCallback(idx, page))
  }

  /** The pick buttons of a page whose first entry is numbered `first`. */
  function PickButtons(chunk: seq<Entry>, first: nat, page: nat): (r: seq<Button>)
    ensures |r| == |chunk|
    ensures forall j :: 0 <= j < |chunk| ==> r[j] == PickButton(first + j, chunk[j].0, page)
  {
    if chunk == [] then []
    else PickButtons(chunk[..|chunk| - 1], first, page) + [PickButton(first + |chunk| - 1, chunk[|chunk| - 1].0, page)]
  }

  /** "⬅️" to the previous page. */
  function PrevButton(page: nat): Button
    requires page > 0
  {
    Button("⬅️", "del:page:" + NatToString(page - 1))
  }

  /** "➡️" to the next page. */
  function NextButton(page: nat): Button {
    Button("➡️", "del:page:" + NatToString(page + 1))
  }

  lemma {:induction false} PickSnoc(chunk: seq<Entry>, j: nat, first: nat, page: nat)
    requires j < |chunk|
    ensures PickButtons(chunk[..j + 1], first, page) == PickButtons(chunk[..j], first, page) + [PickButton(first + j, chunk[j].0, page)]
  {
    assert chunk[..j + 1][..j] == chunk[..j];
  }

  /** The navigation row: back iff the page does not start the listing,
      forward iff entries follow it. */
  function DeleteNav(page: nat, total: nat): (r: seq<Button>)
    ensures |r| == (if HasPrev(page) then 1 else 0) + (if HasNext(page, total) then 1 else 0)
    ensures HasPrev(page) ==> page > 0 && r[0] == PrevButton(page)
    ensures HasNext(page, total) ==> r[|r| - 1] == NextButton(page)
  {
    (if HasPrev(page) then [PrevButton(page)] else []) + (if HasNext(page, total) then [NextButton(page)] else [])
  }

  const PickHeader: seq<string> := ["Выберите правило для удаления:", ""]

  const NothingFound := "Ничего не найдено"

  /** The loop adding a "❌ i" button for each entry of the page. */
  method NumberButtons(chunk: seq<Entry>, first: nat, page: nat) returns (picks: seq<Button>)
    ensures picks == PickButtons(chunk, first, page)
  {
    picks := [];
    for j := 0 to |chunk|
      invariant picks == PickButtons(chunk[..j], first, page)
    {
      PickSnoc(chunk, j, first, page);
      picks := picks + [PickButton(first + j, chunk[j].0, page)];
    }
    assert chunk[..|chunk|] == chunk;
  }

  /** `_render_delete_page(rules, page)`: the text of the page, its pick
      buttons and its navigation buttons. The entries are sorted, the page
      is cut out, and its lines and buttons are numbered from the page's
      first position. */
  method RenderDeletePage(rules: seq<Entry>, page: nat) returns (body: string, picks: seq<Button>, nav: seq<Button>)
    ensures rules == [] ==> body == NothingFound && picks == [] && nav == []
    ensures rules != [] ==>
              var chunk := Chunk(SortEntries(rules), page);
              picks == PickButtons(chunk, PageStart(page) + 1, page)
              && body == Join("\n", PickHeader + NumberedLines(chunk, PageStart(page) + 1, RuleText))
              && nav == DeleteNav(page, |rules|)
  {
    if rules == [] {
      return NothingFound, [], [];
    }
    var sorted := SortEntries(rules);
    var start := PageStart(page);
    var chunk := Chunk(sorted, page);
    var total := |sorted|;
    var entries := NumberLines(chunk, start + 1, RuleText);
    picks := NumberButtons(chunk, start + 1, page);
    assert total == |rules|;
    var prev: seq<Button> := [];
    if start > 0 {
      prev := [PrevButton(page)];
    }
    var next: seq<Button> := [];
    if start + PageSize < total {
      next := [NextButton(page)];
    }
    nav := prev + next;
    body := Join("\n", PickHeader + entries);
  }

  /** Every pick button of a page over `list_rules(lines)` carries the line
      index of a rule line of that file, whatever its position after the
      sort. */
  lemma {:induction false} PickIndicesAreRuleLines(lines: seq<Line>, page: nat, j: nat)
    requires j < |Chunk(SortEntries(ListRules(lines)), page)|
    ensures var e := Chunk(SortEntries(ListRules(lines)), page)[j];
            e.0 < |lines| && IsRule(lines[e.0]) && lines[e.0].rule.value == e.1
  {
    var rs := ListRules(lines);
    var sorted := SortEntries(rs);
    var k := PageStart(page) + j;
    SortedFromInput(rs, k);
    var m :| 0 <= m < |rs| && rs[m] == sorted[k];
  }

  // -----------------------------------------------------------------------
  // on_del_pick

  /** What `on_del_pick` does. */
  datatype PickResult =
    | PickCrashed                       // malformed callback or failed fetch: raises
    | PickNotFound                      // "Правило не найдено"
    | PickConfirm(idx: nat, preview: string)

  /** `next(((i, r) for i, r in rules if i == idx_in_file), None)` */
  function EntryAt(rules: seq<Entry>, idx: int): (r: Option<Entry>)
    ensures r.Some? ==> r.value in rules && r.value.0 == idx
    ensures r.None? ==> forall k :: 0 <= k < |rules| ==> rules[k].0 != idx
  {
    if rules == [] then None
    else if rules[0].0 == idx then Some(rules[0])
    else EntryAt(rules[1..], idx)
  }

  /** The pick, once the file is loaded. */
  function PickIn(lines: seq<Line>, idx: int): (r: PickResult)
    ensures r != PickCrashed
    ensures r.PickConfirm? <==> 0 <= idx < |lines| && IsRule(lines[idx])
    ensures r.PickConfirm? ==> r.idx == idx && r.preview == RuleText(lines[idx].rule.value)
  {
    var rs := ListRules(lines);
    match EntryAt(rs, idx)
    case None => PickNotFound
    case Some(e) =>
      var k :| 0 <= k < |rs| && rs[k] == e;
      PickConfirm(e.0, RuleText(e.1))
  }

  /** `on_del_pick` for callback data `data` and the fetch it makes. */
  function DelPick(data: string, fetched: Outcome<FileData>): (r: PickResult)
    ensures r.PickConfirm? ==> fetched.Done? && r == PickIn(Parse(fetched.value.text), r.idx)
  {
    var parts := Split(data, ':');
    if |parts| != 4 then PickCrashed
    else
      match PyInt(parts[2])
      case None => PickCrashed
      case Some(idx) =>
        match fetched
        case Failed => PickCrashed
        case Done(f) => PickIn(Parse(f.text), idx)
  }

  /** The callback of a pick button splits back into its four fields. */
  lemma {:induction false} PickCallbackParts(idx: nat, page: nat)
    ensures Split(PickCallback(idx, page), ':') == ["del", "pick", NatToString(idx), NatToString(page)]
  {
    var parts := ["del", "pick", NatToString(idx), NatToString(page)];
    forall i | 0 <= i < 4 ensures ':' !in parts[i] {
      if i >= 2 {
        assert AllDigits(parts[i]);
      }
    }
    SplitJoin(parts, ':');
  }

  /** A pick made from one of our buttons is accepted exactly when its index
      is a rule line of the fresh file, and then it previews that rule. */
  lemma {:induction false} PickAcceptsRuleLines(idx: nat, page: nat, f: FileData)
    ensures var lines := Parse(f.text);
            DelPick(PickCallback(idx, page), Done(f)) == PickIn(lines, idx)
    ensures var lines := Parse(f.text);
            DelPick(PickCallback(idx, page), Done(f)).PickConfirm? <==> idx < |lines| && IsRule(lines[idx])
  {
    PickCallbackParts(idx, page);
    PyIntOfNatToString(idx);
  }

  // -----------------------------------------------------------------------
  // on_del_confirm

  /** The stored data of the delete dialogue. */
  datatype DelData = DelData(deleteIdx: Option<nat>, preview: Option<string>)

  datatype DelConfirmResult =
    | DelCancelled              // "no": state cleared
    | DelCrashed                // no stored index: raises
    | DelLoadError              // the fetch raised
    | DelStale                  // "правило изменилось": state cleared
    | DelCommit(newLines: seq<Line>, message: string, baseSha: string)

  /** `data.get("preview", "rule")` */
  function PreviewOr(data: DelData): string {
    if data.preview.Some? then data.preview.value else "rule"
  }

  /** The guard and the edit, once the file is loaded, as written: the
      stored index is only checked to be a rule line of the fresh file. */
  function ConfirmOnAsWritten(idx: nat, message: string, removed: string, lines: seq<Line>, sha: string): (r: DelConfirmResult)
    ensures r.DelCommit? <==> idx < |lines| && IsRule(lines[idx])
    ensures r.DelCommit? ==> r.newLines == SoftDelete(lines, idx, Some(removed)) && r.message == message && r.baseSha == sha
    ensures !r.DelCommit? ==> r == DelStale
  {
    if idx >= |lines| || !IsRule(lines[idx]) then DelStale
    else DelCommit(SoftDelete(lines, idx, Some(removed)), message, sha)
  }

  /** `on_del_confirm` as written. */
  function DelConfirmAsWritten(yes: bool, data: DelData, username: Option<string>, timestamp: string,
                               fetched: Outcome<FileData>): (r: DelConfirmResult)
    ensures !yes ==> r == DelCancelled
    ensures yes && data.deleteIdx.None? ==> r == DelCrashed
    ensures yes && data.deleteIdx.Some? && fetched.Failed? ==> r == DelLoadError
    ensures r.DelCommit? ==> (yes && fetched.Done? && data.deleteIdx.Some?
              && r == ConfirmOnAsWritten(data.deleteIdx.value, CommitMessageDelete(PreviewOr(data), username),
                                         RemovedComment(username, timestamp), Parse(fetched.value.text), fetched.value.sha))
  {
    if !yes then DelCancelled
    else if data.deleteIdx.None? then DelCrashed
    else
      match fetched
      case Failed => DelLoadError
      case Done(f) =>
        ConfirmOnAsWritten(data.deleteIdx.value, CommitMessageDelete(PreviewOr(data), username),
                           RemovedComment(username, timestamp), Parse(f.text), f.sha)
  }

  /** The guard extended to the rule itself: the line at the stored index
      must still be the rule that was previewed. */
  function ConfirmOn(idx: nat, preview: Option<string>, message: string, removed: string, lines: seq<Line>, sha: string): (r: DelConfirmResult)
    ensures r.DelCommit? <==> idx < |lines| && IsRule(lines[idx]) && preview == Some(RuleText(lines[idx].rule.value))
    ensures r.DelCommit? ==> r == ConfirmOnAsWritten(idx, message, removed, lines, sha)
    ensures !r.DelCommit? ==> r == DelStale
  {
    if idx < |lines| && IsRule(lines[idx]) && preview == Some(RuleText(lines[idx].rule.value)) then
      ConfirmOnAsWritten(idx, message, removed, lines, sha)
    else DelStale
  }

  /** `on_del_confirm` with the corrected guard. */
  function DelConfirm(yes: bool, data: DelData, username: Option<string>, timestamp: string,
                      fetched: Outcome<FileData>): (r: DelConfirmResult)
    ensures !yes ==> r == DelCancelled
    ensures yes && data.deleteIdx.None? ==> r == DelCrashed
    ensures yes && data.deleteIdx.Some? && fetched.Failed? ==> r == DelLoadError
    ensures r.DelCommit? ==> (yes && fetched.Done? && data.deleteIdx.Some?
              && r == ConfirmOn(data.deleteIdx.value, data.preview, CommitMessageDelete(PreviewOr(data), username),
                                RemovedComment(username, timestamp), Parse(fetched.value.text), fetched.value.sha))
  {
    if !yes then DelCancelled
    else if data.deleteIdx.None? then DelCrashed
    else
      match fetched
      case Failed => DelLoadError
      case Done(f) =>
        ConfirmOn(data.deleteIdx.value, data.preview, CommitMessageDelete(PreviewOr(data), username),
                  RemovedComment(username, timestamp), Parse(f.text), f.sha)
  }

  /** A confirmed delete takes exactly the previewed rule out of the file's
      rules: every other rule stays, in order. */
  lemma {:induction false} ConfirmRemovesThePreviewedRule(idx: nat, preview: Option<string>, message: string, removed: string,
                                       lines: seq<Line>, sha: string)
    requires ConfirmOn(idx, preview, message, removed, lines, sha).DelCommit?
    ensures var r := ConfirmOn(idx, preview, message, removed, lines, sha);
            RulesIn(lines) == RulesIn(lines[..idx]) + [lines[idx].rule.value] + RulesIn(lines[idx + 1..])
            && RulesIn(r.newLines) == RulesIn(lines[..idx]) + RulesIn(lines[idx + 1..])
            && preview == Some(RuleText(lines[idx].rule.value))
  {
    SoftDeleteRemovesOneRule(lines, idx, Some(removed));
    RulesInAround(lines, idx);
  }

  /** The removal note is never empty, so a delete either turns the
      "# Added:" marker above the rule into the note (same length) or
      inserts the note (one line more). */
  lemma {:induction false} ConfirmShape(idx: nat, username: Option<string>, timestamp: string, message: string, lines: seq<Line>, sha: string)
    requires ConfirmOnAsWritten(idx, message, RemovedComment(username, timestamp), lines, sha).DelCommit?
    ensures var removed := RemovedComment(username, timestamp);
            var r := ConfirmOnAsWritten(idx, message, removed, lines, sha).newLines;
            (HasMarkerAbove(lines, idx) ==> MarkerReplaced(lines, idx, removed, r))
            && (!HasMarkerAbove(lines, idx) ==> RemovedInserted(lines, idx, removed, r))
  {
    var removed := RemovedComment(username, timestamp);
    assert removed != "" by {
      assert StartsWith(removed, "# Removed: ");
    }
    assert Truthy(Some(removed));
    SoftDeleteShape(lines, idx, Some(removed));
  }

  /** The defect of the guard as written: when the file changed after the
      pick so that the stored index holds another rule, that rule is
      deleted, under a commit message naming the previewed one. The
      corrected guard refuses. */
  lemma {:induction false} StaleIndexDeletesAnotherRule(idx: nat, preview: string, message: string, removed: string, lines: seq<Line>, sha: string)
    requires idx < |lines| && IsRule(lines[idx]) && RuleText(lines[idx].rule.value) != preview
    ensures var r := ConfirmOnAsWritten(idx, message, removed, lines, sha);
            r.DelCommit? && r.message == message
            && RulesIn(r.newLines) == RulesIn(lines[..idx]) + RulesIn(lines[idx + 1..])
            && lines[idx].rule.value in RulesIn(lines)
    ensures ConfirmOn(idx, Some(preview), message, removed, lines, sha) == DelStale
  {
    SoftDeleteRemovesOneRule(lines, idx, Some(removed));
    RulesInAround(lines, idx);
  }

  /** A concrete instance: the user picked `DOMAIN,a.com` at line 0; by the
      time they confirm, that line is `DOMAIN,b.com`, and the guard as
      written deletes it. */
  lemma {:induction false} StaleIndexExample(message: string, removed: string, sha: string)
    ensures var lines := [Line(RuleLine, "DOMAIN,b.com", Some(Rule(Domain, "b.com", None)))];
            var r := ConfirmOnAsWritten(0, message, removed, lines, sha);
            r.DelCommit? && RulesIn(r.newLines) == []
            && ConfirmOn(0, Some("DOMAIN,a.com"), message, removed, lines, sha) == DelStale
  {
    var rule := Rule(Domain, "b.com", None);
    var lines := [Line(RuleLine, "DOMAIN,b.com", Some(rule))];
    assert RuleText(rule) != "DOMAIN,a.com" by {
      assert RuleText(rule)[|RuleText(rule)| - 5] == 'b';
    }
    StaleIndexDeletesAnotherRule(0, "DOMAIN,a.com", message, removed, lines, sha);
    assert lines[..0] == [] && lines[1..] == [];
  }

  /** Picking a rule and confirming against the same file deletes that rule:
      the corrected guard agrees with the one as written whenever nothing
      changed in between. */
  lemma {:induction false} PickThenConfirm(pick: string, username: Option<string>, timestamp: string, f: FileData)
    requires DelPick(pick, Done(f)).PickConfirm?
    ensures var p := DelPick(pick, Done(f));
            var data := DelData(Some(p.idx), Some(p.preview));
            DelConfirm(true, data, username, timestamp, Done(f)).DelCommit?
            && DelConfirm(true, data, username, timestamp, Done(f)) == DelConfirmAsWritten(true, data, username, timestamp, Done(f))
  {
  }
}
