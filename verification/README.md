# Shadowrocket rule-file bot: a Dafny model of its core

The bot lets a whitelist of Telegram users edit one Shadowrocket rule list kept in a
GitHub repository. The list has one rule per line, `TYPE,value[,POLICY]`. A user
adds a rule through a dialogue that validates the value, or finds a rule by a
query, picks it and soft-deletes it. The rule stays in the file as a comment under
a "# Removed:" note. Users can also browse the rules page by page, see per-type
statistics, normalise the file (drop the legacy policy column), and read the
report of the URL checker.

Every edit reads the file and its sha from GitHub's contents API, changes the
parsed lines, renders them and PUTs the new text with the sha. The store is meant
to retry: a 5xx or a failed read makes `fetch` try again, and a conflict (409) or a
server error makes `commit` fetch a fresh sha and resend the same text. As written,
though, the error counters are declared without label names, so the `.labels(...)`
call on every failure path raises instead. Only a 409 is actually resent, and the
add dialogue raises right after validating a value. The model states the intended
protocol and, beside it, what the code as written does (see Findings).

This project models the core of that system:

- the rule-file codec and its edits (`rules_file.dfy`, module `RulesFile`) and the two
  enumerations (`enums.dfy`);
- the three validators: domain (`domain.dfy`, with the part of `urlparse` it uses in
  `url.dfy`), keyword (`keyword.dfy`) and IPv4 network (`ip.dfy`, with the part of
  `ipaddress` it uses);
- the decision logic of the add, delete, view/stats and normalize handlers
  (`add_rule.dfy`, `delete_rule.dfy`, `view_config.dfy`, `normalize.dfy`), with the
  listing order and pages they share (`paging.dfy`);
- the GitHub store's retry protocol and its message and marker builders
  (`github_store.dfy`), as a class whose request log grows with every request, over an
  oracle that answers the k-th request;
- the URL-check report (`url_check.dfy`), the `ALLOWED_USERS` validator
  (`config.dfy`), the access middleware (`access.dfy`) and the metrics listen address
  (`metrics.dfy`).

`strings.dfy` holds the Python `str` operations the code uses, restricted to ASCII.
`wrappers.dfy` holds `Option`, `Result` and a sequence filter.

Two behaviours of the code are kept as written:

- `render_lines([])` is `"\n"`, not the empty string;
- the rule text is always rendered in two columns, whatever policy the parsed rule had.

## Model

| member | source | states |
|---|---|---|
| Enums.RuleTypeToken | bot/models/enums.py:4-8 | each rule type has a non-empty wire token made of `A-Z` and `-` |
| Enums.PolicyToken | bot/models/enums.py:11-14 | each policy has a non-empty upper-case wire token |
| Enums.ParseRuleType | bot/models/enums.py:4-8 | `RuleType(s)` succeeds exactly on the four tokens, giving the type whose token is `s` |
| Enums.ParsePolicy | bot/models/enums.py:11-14 | `Policy(s)` succeeds exactly on the three tokens |
| Enums.TokensInjective | bot/models/enums.py:4-14 | distinct variants have distinct tokens |
| RulesFile.MatchRuleRe | bot/services/rules_file.py:24 | a RULE_RE match yields a non-empty type token of `[A-Z-]`, a value without ',' or '#' and with no surrounding blanks, and an optional upper-case policy token |
| RulesFile.MatchColumns | bot/services/rules_file.py:24 | the columns after the type token: the value is cut at the next ',', stripped, and drawn from the text |
| RulesFile.ParseLine | bot/services/rules_file.py:30-51 | a line keeps its raw text; it is a comment iff it is empty or starts with '#' after leading blanks; it is a rule iff it carries a rule, whose value is stripped and free of ',' and '#' |
| RulesFile.SplitLines | bot/services/rules_file.py:29 | no line of `splitlines` contains a newline |
| RulesFile.SplitLinesJoin | bot/services/rules_file.py:29 | joining the lines with "\n" gives the text back, with the final newline when the text had one |
| RulesFile.Parse | bot/services/rules_file.py:27-52 | one parsed line per line of the text |
| RulesFile.ParseAll | bot/services/rules_file.py:28-52 | one parsed line per raw line |
| RulesFile.ParseAllAt | bot/services/rules_file.py:29-51 | the i-th parsed line is the parse of the i-th raw line |
| RulesFile.ParsedLines | bot/services/rules_file.py:27-52 | the i-th line of `parse_text` is the parse of the i-th line of `splitlines` |
| RulesFile.ParseText | bot/services/rules_file.py:27-52 | the appending loop returns exactly the specified parse, each line keeping its raw text |
| RulesFile.RenderedLines | bot/services/rules_file.py:56-64 | one rendered string per line: the canonical two-column text for a rule line, the raw text otherwise |
| RulesFile.RenderLine | bot/services/rules_file.py:59-64 | a comment or other line renders as its raw text; a rule line renders as its type token, the first comma, then its value |
| RulesFile.RuleText | bot/services/rules_file.py:144-146 | the first comma of `rule_line` comes right after the type token and is followed by exactly the value |
| RulesFile.Render | bot/services/rules_file.py:55-56 | the rendered text always ends in a newline, and is "\n" for no lines |
| RulesFile.DescribeRule | bot/services/rules_file.py:149-157 | the description starts with the rule's value |
| RulesFile.PolicyNeverShown | bot/services/rules_file.py:144-157 | rendering, `rule_line` and `describe_rule` never depend on the rule's policy |
| RulesFile.MatchRuleText | bot/services/rules_file.py:24 | RULE_RE reads a canonical two-column rule text back as its type token and value, without a policy |
| RulesFile.ParseLineOfMatch | bot/services/rules_file.py:34-51 | a non-comment line that RULE_RE matches with a known type and no policy parses as that rule |
| RulesFile.NotCommentText | bot/services/rules_file.py:31 | a line starting with a type-token character is not a comment |
| RulesFile.RuleTextParses | bot/services/rules_file.py:24-64 | a rule rendered as `TYPE,value` parses back as the same rule without its policy, and renders again to the same text |
| RulesFile.ParsedLineRenderStable | bot/services/rules_file.py:27-64 | rendering a parsed line gives one line that parses and renders to itself |
| RulesFile.RuleLineStable | bot/services/rules_file.py:27-64 | a rendered rule line parses back to a line that renders the same |
| RulesFile.RuleTextOneLine | bot/services/rules_file.py:144-146 | a rule whose value has no newline renders on one line |
| RulesFile.SplitRendered | bot/services/rules_file.py:55-56 | splitting a rendered file gives back its rendered lines |
| RulesFile.SplitLinesOfJoin | bot/services/rules_file.py:29 | `splitlines` undoes a newline-terminated join of one-line strings |
| RulesFile.SplitLinesOfNewline | bot/services/rules_file.py:29 | the text of an empty file splits into one empty line |
| RulesFile.RenderParseIdempotent | bot/services/rules_file.py:27-64 | parse-then-render is idempotent: normalising a normalised file changes nothing |
| RulesFile.EmptyRenderStable | bot/services/rules_file.py:55-56 | the rendering of an empty file is stable under parse-then-render |
| RulesFile.RenderedStable | bot/services/rules_file.py:27-64 | the rendered lines of parsed one-line strings are stable under a second parse and render |
| RulesFile.ListRules | bot/services/rules_file.py:67-68 | the listing holds exactly the rule lines, each with its own index and rule, in increasing index order |
| RulesFile.FindRule | bot/services/rules_file.py:71-75 | the result is the first line holding a rule of that type and value, or None iff there is none |
| RulesFile.FindFrom | bot/services/rules_file.py:72-75 | the first matching line at or after index k, or None iff there is none |
| RulesFile.FindRuleIndex | bot/services/rules_file.py:71-75 | the early-return loop returns the first matching index, or None iff nothing matches |
| RulesFile.AddRule | bot/services/rules_file.py:78-83 | the old lines are kept, then the "Added" comment, then the rule |
| RulesFile.AddRuleFind | bot/services/rules_file.py:71-83 | after an append, lookup finds the earlier occurrence if there was one, else the new rule line |
| RulesFile.ListRulesSnoc | bot/services/rules_file.py:67-68 | appending a line extends the listing by that line iff it is a rule |
| RulesFile.AddRuleListRules | bot/services/rules_file.py:67-83 | appending a rule adds exactly one entry to the listing, the new rule at its line index |
| RulesFile.WithPolicy | bot/services/rules_file.py:86-100 | the policy edit changes only the rule at idx and only its policy |
| RulesFile.ReplacePolicy | bot/services/rules_file.py:86-91 | only the rule at idx changes: it keeps its kind and raw text and gets the new policy, so the rendered file is unchanged |
| RulesFile.ClearPolicy | bot/services/rules_file.py:94-100 | only the rule at idx changes: it keeps its kind and raw text and loses its policy, so the rendered file is unchanged |
| RulesFile.FindRuleSameMatches | bot/services/rules_file.py:71-75 | lookup depends only on which lines match |
| RulesFile.WithPolicyKeepsRender | bot/services/rules_file.py:86-100 | changing a policy does not change the rendered file |
| RulesFile.WithPolicyKeepsFind | bot/services/rules_file.py:71-100 | changing a policy does not change where any rule is found |
| RulesFile.SoftDelete | bot/services/rules_file.py:103-141 | an index out of range or not a rule line leaves the lines as they are |
| RulesFile.SoftDeleteExplicit | bot/services/rules_file.py:114-141 | the four outcomes of a soft delete, spelled out by cases |
| RulesFile.SoftDeleteShape | bot/services/rules_file.py:125-140 | a soft delete has four outcomes. With an "# Added:" marker above, the marker becomes the removal note, or is dropped when there is no note. Without one, the note is inserted above, or the rule is just commented out. In every case the rule becomes `# TYPE,value` |
| RulesFile.SoftDeleteReplacesMarker | bot/services/rules_file.py:126-135 | with a marker above and a note, the marker becomes the note and the rule is commented out in place |
| RulesFile.SoftDeleteDropsMarker | bot/services/rules_file.py:130-135 | with a marker above and no note, the marker is removed and the commented rule moves up one line |
| RulesFile.SoftDeleteInsertsNote | bot/services/rules_file.py:136-140 | without a marker, the note is inserted directly above the commented rule |
| RulesFile.SoftDeleteInPlace | bot/services/rules_file.py:136-138 | without a marker or a note, only the rule line changes, into a comment |
| RulesFile.DeleteRule | bot/services/rules_file.py:103-141 | the in-place edits of `delete_rule` give exactly the specified soft delete |
| RulesFile.RulesInAround | bot/services/rules_file.py:103-141 | the rules of a file are those before the rule line, that rule, then those after it |
| RulesFile.DeletedBlock | bot/services/rules_file.py:123-140 | what replaces a deleted rule consists only of comments |
| RulesFile.SoftDeleteAsBlock | bot/services/rules_file.py:114-141 | a soft delete replaces the rule, and the marker above it if any, by a block of comments |
| RulesFile.SoftDeleteRemovesOneRule | bot/services/rules_file.py:103-141 | a soft delete removes exactly the target rule from the file's rules; every other rule stays, in order |
| RulesFile.CommentedOutKeepsRule | bot/services/rules_file.py:123 | the commented rule text is `# TYPE,value` and parses as a comment |
| RulesFile.IsAddedMarker | bot/services/rules_file.py:126 | a line taken for an "Added" marker is a comment that renders as its own text |
| Domain.CleanHost | bot/validators/domain.py:15-32 | the cleaned host has no upper-case letter and none of '/', '?', ':' |
| Domain.CleanHostPart | bot/validators/domain.py:22-32 | cutting at path, query and port, stripping and lower-casing leaves no upper-case letter and none of '/', '?', ':' |
| Domain.CleanHostOfPlain | bot/validators/domain.py:15-32 | a plain host with no blank ends and no URL separators only loses surrounding dots and is lower-cased |
| Domain.CleanHostOfName | bot/validators/domain.py:15-32 | a valid lower-case name is its own cleaned host |
| Domain.CheckHost | bot/validators/domain.py:69-78 | the checks of length 3..253, label length at most 63 and DOMAIN_RE, in that order: a length outside 3..253 gives the generic message; the label-length message comes exactly when the length passes and some label is too long; every other refusal is the generic message; a host passing all three checks is accepted as itself |
| Domain.NormalizeDomainExact | bot/validators/domain.py:67-79 | accepted iff the cleaned host is a well-formed lower-case name, and then the value is that cleaned host; it raises only where `urlparse` raises |
| Domain.NormalizeDomainExactAsWritten | bot/validators/domain.py:67-79 | the code as written: an accepted value is the cleaned host, has length 3..253 and matches DOMAIN_RE with Python's `$`; conversely a cleaned host of length 3..253 with no long label that matches DOMAIN_RE with `$` is accepted as itself; it raises only where `urlparse` raises |
| Domain.DomainExactIdempotent | bot/validators/domain.py:67-79 | every well-formed lower-case name is accepted unchanged, so the validator is idempotent |
| Domain.NormalizeDomainSuffix | bot/validators/domain.py:51-64 | the suffix validator fails exactly as the exact one does, and accepts only hosts the exact one accepts |
| Domain.SuffixFallbackValue | bot/validators/domain.py:35-64 | without a public-suffix answer, the result is the heuristic registrable part of the cleaned, well-formed host |
| Domain.HeuristicFacts | bot/validators/domain.py:41-48 | the heuristic keeps a name well formed and at most three labels long, and leaves its own result alone |
| Domain.RegistrableDomain | bot/validators/domain.py:35-48 | a non-empty public-suffix answer is returned lower-cased; otherwise the result is the host itself or a dot-aligned suffix of it |
| Domain.HeuristicRegistrable | bot/validators/domain.py:41-48 | the heuristic result is the host itself or a suffix of the host that starts right after a dot |
| Domain.TailAfterDot | bot/validators/domain.py:41-47 | the labels from position k on, joined with dots, are the host or a suffix of it preceded by a dot |
| Domain.MultiTldKeepsThree | bot/validators/domain.py:42-46 | a well-formed name whose last two labels form a common multi-label TLD is reduced to its last three labels by the suffix validator |
| Domain.BbcCoUk | bot/validators/domain.py:35-64 | "news.bbc.co.uk" is reduced to "bbc.co.uk" when there is no public-suffix answer |
| Domain.HeuristicTwoLabels | bot/validators/domain.py:42-47 | the last two labels of a name with at least three labels form a name the heuristic keeps |
| Domain.HeuristicThreeLabels | bot/validators/domain.py:42-46 | when the last two labels form a common multi-part suffix, the last three labels form a name the heuristic keeps |
| Domain.SuffixOfName | bot/validators/domain.py:51-64 | the suffix of a well-formed name is its heuristic registrable part |
| Domain.RegistrableWithoutAnswer | bot/validators/domain.py:35-48 | with no public-suffix answer, `_registrable_domain` is the two- or three-label heuristic |
| Domain.DomainSuffixFallback | bot/validators/domain.py:51-64 | the suffix validator's result has at most three labels and validates to itself |
| Domain.CleanHostKeepsNewline | bot/validators/domain.py:15-32 | `_clean_host` of a name followed by "\n." keeps the newline, because the dot is stripped after the blanks |
| Domain.TrailingNewlineAcceptedAsWritten | bot/validators/domain.py:67-79 | the code as written accepts "name\n." and returns the name with a trailing newline |
| Domain.NewlineHostChecked | bot/validators/domain.py:69-78 | a name plus "\n" passes the checks with `$` as written and fails them anchored at the very end |
| Domain.TrailingNewlineRefused | bot/validators/domain.py:67-79 | the corrected validator refuses the same input |
| Keyword.NormalizeKeyword | bot/validators/keyword.py:7-13 | accepted iff the stripped, lower-cased input is 2..50 characters of `a-z`, `0-9`, `-`, and then that string is returned; a refusal carries the fixed message |
| Keyword.NoTrailingNewline | bot/validators/keyword.py:8-9 | the stripped, lower-cased input never ends in whitespace, so `$` before a final newline cannot let a newline through |
| Keyword.KeywordIdempotent | bot/validators/keyword.py:7-13 | every keyword is accepted unchanged, so the validator is idempotent on its output |
| Keyword.KeywordIgnoresPaddingAndCase | bot/validators/keyword.py:8 | padding and letter case do not change the verdict |
| Keyword.InnerSpaceRefused | bot/validators/keyword.py:9-12 | a space inside the input is always refused |
| Ip.ParseOctet | bot/validators/ip.py:10 | an accepted octet is below 256 and is exactly the decimal form of its value |
| Ip.OctetOfNatToString | bot/validators/ip.py:10 | every number below 256 is accepted in decimal form |
| Ip.Octets | bot/validators/ip.py:15 | the four octets of an address, each below 256, recompose to the address |
| Ip.OctetsOfValue | bot/validators/ip.py:15 | octet decomposition is unique |
| Ip.FormatAddress | bot/validators/ip.py:15 | a formatted address is made of digits and dots and starts and ends with a digit |
| Ip.ParseAddress | bot/validators/ip.py:10 | an accepted address is below 2^32 and the input is exactly its canonical dotted form |
| Ip.AddressRoundTrip | bot/validators/ip.py:10-15 | every address reads back from its dotted form |
| Ip.PrefixOfMask | bot/validators/ip.py:10 | the found prefix length has exactly this netmask; None iff no length in range has it |
| Ip.ParsePrefix | bot/validators/ip.py:10 | any prefix read is at most 32; a decimal length is accepted iff its value is at most 32, and is then read as that value |
| Ip.PrefixOfDottedMask | bot/validators/ip.py:10 | a dotted mask is read as a netmask, or else as a hostmask, of the length returned |
| Ip.PrefixOfDecimal | bot/validators/ip.py:10 | a prefix length reads back from its decimal form |
| Ip.PrefixOfNetmask | bot/validators/ip.py:10 | a prefix length reads back from its dotted netmask |
| Ip.PrefixOfHostmask | bot/validators/ip.py:10 | a prefix length strictly between 0 and 32 reads back from its dotted hostmask |
| Ip.ClearHostBits | bot/validators/ip.py:10 | `strict=False` rounds the address down to the start of its block |
| Ip.ParseNetwork | bot/validators/ip.py:10 | accepted iff the text has at most one '/', the part before it is an address and the part after it, when present, is a prefix; a parsed network has a prefix of at most 32, an address below 2^32 and clear host bits |
| Ip.NetworkOf | bot/validators/ip.py:10 | the network of length p holding an address: its address is the block start at or below the address, less than one block below it, with clear host bits |
| Ip.FormatNetwork | bot/validators/ip.py:15 | the text splits at '/' into exactly the dotted address and the decimal prefix length |
| Ip.WithLength | bot/validators/ip.py:6-9 | the completed text always holds a '/', and text that already holds one is only stripped |
| Ip.ClearHostBitsIn | bot/validators/ip.py:10 | an address belongs to a network with clear host bits iff it lies in the block starting at the network address; this is what `ip in net` tests |
| Ip.NormalizeIp | bot/validators/ip.py:5-17 | accepted iff the stripped text, completed with "/32" when it has no '/', parses as a network, and then the value is that network in `a.b.c.d/p` form; a refusal is the IPv4-only message iff the text parses as IPv6, otherwise the generic message |
| Ip.NetworkRoundTrip | bot/validators/ip.py:10-15 | a network with clear host bits reads back from its `address/prefix` form |
| Ip.ParseFormattedNetwork | bot/validators/ip.py:10 | any `a.b.c.d/p` reads back as the network of length p holding the address, its host bits cleared |
| Ip.NormalizeIpClearsHostBits | bot/validators/ip.py:5-15 | every `a.b.c.d/p` is accepted, and the answer is that address with its host bits cleared, over the same length |
| Ip.TenSlashEight | bot/validators/ip.py:10-15 | the address 10.1.2.3 with length 8 gives the network address 10.0.0.0 |
| Ip.NormalizeFormattedNetwork | bot/validators/ip.py:5-15 | a formatted network is accepted unchanged |
| Ip.NormalizeIpIdempotent | bot/validators/ip.py:5-15 | the validator is idempotent on its output |
| Ip.BareAddressIsSlash32 | bot/validators/ip.py:6-15 | a bare address is accepted as `address/32` |
| Ip.OutOfRangeRefused | bot/validators/ip.py:5-17 | "300.1.1.1/33" and "1.2.3.4/33" are refused with the generic message |
| Ip.UnparsedRefused | bot/validators/ip.py:9-17 | text whose completed form does not parse is refused with the generic message when it is not IPv6 |
| Ip.SlashExample | bot/validators/ip.py:5-17 | `a/b` with a bad address or a bad prefix is refused with the generic message |
| Ip.OctetOver255Refused | bot/validators/ip.py:10 | an address with the octet 300 does not parse |
| Ip.LengthOver32Refused | bot/validators/ip.py:10 | the prefix length 33 does not parse |
| Url.UrlParse | bot/validators/domain.py:17-19 | the network location `urlparse` returns holds no '/', '?' or '#' |
| Url.UrlParseNetloc | bot/validators/domain.py:17-19 | after `scheme://`, the network location runs up to the first '/', '?' or '#' |
| Url.UrlParseHost | bot/validators/domain.py:17-19 | `scheme://host/...` yields the host as network location |
| Url.SchemeUrlPrepared | bot/validators/domain.py:17-18 | a clean `scheme://...` URL is left alone by the preprocessing and its scheme is detected |
| GitHubStore.FetchRun | bot/services/github_store.py:38-68 | every fetch sends at least one request |
| GitHubStore.FetchTry | bot/services/github_store.py:42-57 | every fetch attempt sends at least one request |
| GitHubStore.FetchOnlyGets | bot/services/github_store.py:38-68 | a fetch sends only GETs |
| GitHubStore.FetchServerErrorBlowUp | bot/services/github_store.py:46-63 | against persistent 5xx, `fetch(retry=r)` fails after A(r) = 1 + 2·A(r−1) requests, because the 5xx retry sits inside the retrying `try` |
| GitHubStore.DefaultFetchServerErrors | bot/services/github_store.py:38-63 | with the default `retry=2` that is 7 requests |
| GitHubStore.FetchPlainFailures | bot/services/github_store.py:51-66 | against persistent 4xx or transport errors, a fetch fails after exactly retry + 1 requests |
| GitHubStore.FetchAttemptsBound | bot/services/github_store.py:38-68 | no fetch sends more than A(retry) requests |
| GitHubStore.FetchFirstSuccess | bot/services/github_store.py:45-57 | a successful first reply is returned after one GET |
| GitHubStore.AuthorOf | bot/services/github_store.py:78-80 | the payload has an author iff both name and e-mail are truthy |
| GitHubStore.CommitRun | bot/services/github_store.py:70-110 | every commit sends at least one request |
| GitHubStore.Resend | bot/services/github_store.py:88-98 | a resend sends at least one request |
| GitHubStore.CommitExtends | bot/services/github_store.py:70-110 | a commit's log starts with its first PUT |
| GitHubStore.CommitFirstPut | bot/services/github_store.py:72-87 | the first request of a commit is a PUT with the caller's base sha |
| GitHubStore.CommitPutBound | bot/services/github_store.py:88-98 | a commit makes at most retry + 1 PUTs |
| GitHubStore.CommitResendsSameText | bot/services/github_store.py:88-98 | every PUT of a commit carries the same text, message, branch and author: the edit is never recomputed |
| GitHubStore.CommitResendsOnFreshSha | bot/services/github_store.py:88-98 | after a 409 or 5xx with retry left, the next PUT follows a `fetch()` and carries the fetched sha |
| GitHubStore.CommitNoRetry | bot/services/github_store.py:99-108 | a failure that is not retryable, or any failure with no retry left, fails after the single PUT |
| GitHubStore.FetchRunAsWritten | bot/services/github_store.py:38-68 | as written, `fetch` sends exactly one GET whatever its retry count, and returns only a reply that succeeds |
| GitHubStore.FetchAsWrittenAgreesOnSuccess | bot/services/github_store.py:45-57 | on a first reply that succeeds, the code as written and the intended retry procedure agree |
| GitHubStore.FetchRetriesOnlyAsIntended | bot/services/github_store.py:46-63 | on a first reply that fails with retries left, the intended `fetch` sends a second GET and the code as written raises after the first |
| GitHubStore.UnlabelledFetchStopsAtOne | bot/services/github_store.py:46-63 | against persistent 5xx, the default `fetch()` as written raises after one GET, where the intended one sends seven |
| GitHubStore.CommitRunAsWritten | bot/services/github_store.py:70-110 | as written, `commit` starts with its PUT, raises after that one PUT on a 5xx, and returns a reply that succeeds |
| GitHubStore.UnlabelledCommitStopsAtOne | bot/services/github_store.py:88-107 | on a 5xx to the first PUT with retries left, the intended commit refetches and resends, the code as written raises after the PUT |
| GitHubStore.GitHubFileStore.constructor | bot/services/github_store.py:24-29 | a fresh store has the given branch, the given responder and an empty log |
| GitHubStore.GitHubFileStore.Send | bot/services/github_store.py:45 | a request is logged and answered by the responder for its position |
| GitHubStore.GitHubFileStore.Fetch | bot/services/github_store.py:38-68 | the recursive method produces exactly the specified fetch run |
| GitHubStore.GitHubFileStore.Commit | bot/services/github_store.py:70-110 | the recursive method produces exactly the specified commit run, with the author rule applied |
| GitHubStore.CommitMessageAdd | bot/services/github_store.py:112-115 | "Add rule: X", followed by " by @u" iff a username is given |
| GitHubStore.CommitMessageDelete | bot/services/github_store.py:117-120 | "Delete rule: X", followed by " by @u" iff a username is given |
| GitHubStore.UserName | bot/services/github_store.py:126 | the user shown in a marker is non-empty and starts with no blank |
| GitHubStore.AddedComment | bot/services/github_store.py:122-128 | the marker starts with "# Added: " and ends with the "User:" field naming the user, or "unknown" |
| GitHubStore.RemovedComment | bot/services/github_store.py:130-136 | the note starts with "# Removed: " and ends with the "User:" field naming the user, or "unknown" |
| GitHubStore.AddedCommentIsMarker | bot/services/github_store.py:122-128 | the "Added" comment is exactly what `delete_rule` recognises as a marker |
| GitHubStore.RemovedCommentIsNotMarker | bot/services/github_store.py:130-136 | a "Removed" note is never taken for an "Added" marker |
| Paging.SortEntries | bot/handlers/delete_rule.py:115 | the sort returns a permutation of its input |
| Paging.SortEntriesSorted | bot/handlers/delete_rule.py:115 | the result is in `(value.lower(), type token)` order |
| Paging.SortedFromInput | bot/handlers/delete_rule.py:115 | every sorted entry comes from the input, with its own line index |
| Paging.SortEntriesStable | bot/handlers/delete_rule.py:115 | the sort is stable: an entry whose key is at most that of a later entry stays before it, so rules with equal keys keep their file order |
| Paging.Chunk | bot/handlers/delete_rule.py:116-118 | a page holds at most 20 entries, those from position page·20 on, and is short only at the end |
| Paging.EntryPage | bot/handlers/delete_rule.py:116-122 | entry k is shown on page k / 20 at position k % 20 and on no other page |
| Paging.NavMatchesPages | bot/handlers/delete_rule.py:131-134 | "next" iff the next page is not empty, "previous" iff the page is not the first |
| Paging.NumberedLines | bot/handlers/delete_rule.py:121-123 | the j-th line of a page is numbered first + j and shows the j-th entry |
| Paging.NumberLines | bot/handlers/delete_rule.py:122-123 | the appending loop builds exactly the numbered lines |
| AddRuleDialog.CheckDuplicate | bot/handlers/add_rule.py:100-107 | found iff some rule line has this type and value; the index is the first such line; has-policy iff that rule carries a policy |
| AddRuleDialog.DuplicateIffListed | bot/handlers/add_rule.py:100-107 | a duplicate is reported iff `list_rules` lists a rule of that type and value |
| AddRuleDialog.ValidateValue | bot/handlers/add_rule.py:129-146 | an unknown type gives "Неизвестный тип правила."; DOMAIN-SUFFIX gives exactly the suffix validator's verdict and DOMAIN exactly the exact validator's; DOMAIN-KEYWORD and IP-CIDR accept iff the keyword or IP validator does, with that validator's value or message; only the domain validators can raise |
| AddRuleDialog.ValidateValueIdempotent | bot/handlers/add_rule.py:129-146 | an accepted value is accepted unchanged when sent again |
| AddRuleDialog.NewRule | bot/handlers/add_rule.py:177 | the previewed and committed rule never carries a policy |
| AddRuleDialog.EnterValue | bot/handlers/add_rule.py:110-193 | "/cancel" ends the dialogue; a missing type or policy stops it before any validation or fetch. Otherwise the stripped text goes through the dispatch. A refusal carries the validator's message, and a raise is the validator's. A load failure follows a valid value and a failed fetch. Confirmation needs a valid value and a successful fetch; the previewed and stored value is exactly the validator's, and the prompt follows the fresh file |
| AddRuleDialog.Prompted | bot/handlers/add_rule.py:176-193 | "add" iff the rule is absent, "replace" iff present with a policy (showing that rule), else "keep"; the first match's index is stored iff the rule is present |
| AddRuleDialog.EnterValueAsWritten | bot/handlers/add_rule.py:110-156 | as written, past the cancel and missing-choice checks the handler never confirms and never shows a refusal: it raises, at the validator or at the unlabelled counter |
| AddRuleDialog.UnlabelledCounterBlocksDialogue | bot/handlers/add_rule.py:148-156 | whenever the intended handler confirms or refuses a value, the code as written raises at the counter instead |
| AddRuleDialog.KeywordEntryRaisesAsWritten | bot/handlers/add_rule.py:148-156 | for instance, a keyword entered for a DOMAIN-KEYWORD rule with a policy chosen is confirmed by the intended handler and raises as written |
| AddRuleDialog.ReplaceLinesAsWritten | bot/handlers/add_rule.py:265-271 | a stored index in range gives `clear_policy` there, or the assertion fails if that line is no rule; otherwise the rule is appended |
| AddRuleDialog.ReplaceLines | bot/handlers/add_rule.py:265-271 | the corrected edit clears the policy of the first matching rule of the fresh file, or appends the rule |
| AddRuleDialog.Prepare | bot/handlers/add_rule.py:198-221 | "cancel" stops; otherwise the stored data and the fresh file give the rule, the lines, the sha and the duplicate check |
| AddRuleDialog.AddOutcome | bot/handlers/add_rule.py:223-241 | "add" shows the duplicate prompt when the rule exists; otherwise it commits on the fetched sha with the "Add rule" message |
| AddRuleDialog.OnConfirmAsWritten | bot/handlers/add_rule.py:196-289 | "cancel" and "keep" never commit |
| AddRuleDialog.OnConfirm | bot/handlers/add_rule.py:196-289 | "cancel" and "keep" never commit, no assertion can fail, and a commit is an add or a replace on the fetched sha |
| AddRuleDialog.PrepareReady | bot/handlers/add_rule.py:205-221 | a dialogue that reached confirmation always gets past the preparation on a fetched file |
| AddRuleDialog.ConfirmAdd | bot/handlers/add_rule.py:223-241 | "add" commits exactly `add_rule(lines, rule, added_comment)` when the rule is absent, and nothing when it is present |
| AddRuleDialog.ConfirmLeavesRuleWithoutPolicy | bot/handlers/add_rule.py:223-279 | after an add or replace commit, the first line of that type and value holds the rule without a policy |
| AddRuleDialog.ReplaceTouchesOnlyTheRule | bot/handlers/add_rule.py:265-274 | the corrected replace changes no line except those of the target rule |
| AddRuleDialog.StaleIndexEditsAnotherRule | bot/handlers/add_rule.py:266-268 | as written, a stale stored index pointing at another rule with a policy strips that other rule's policy and changes nothing else |
| AddRuleDialog.StaleIndexTripsAssert | bot/handlers/add_rule.py:266-268 | as written, a stale stored index pointing at a non-rule makes `clear_policy` assert |
| AddRuleDialog.FreshIndexAgrees | bot/handlers/add_rule.py:265-272 | when the stored index is still right, the code as written and the corrected version commit the same edit |
| AddRuleDialog.HandlerPutsHaveNoAuthor | bot/handlers/add_rule.py:241 | the handlers pass no author e-mail, so on a store with no PUT yet, no PUT of a handler's commit, first attempt or resend, carries an author |
| AddRuleDialog.AddedRuleDeletesCleanly | bot/handlers/add_rule.py:237-238 | a rule the dialogue added is soft-deleted together with its marker; the lines before it are untouched |
| DeleteDialog.HostTokens | bot/handlers/delete_rule.py:34-45 | the lower-cased exact host comes first, present iff `urlparse` succeeds and the exact validator accepts the host; the lower-cased registrable domain follows iff the suffix validator accepts the host too; no token is empty |
| DeleteDialog.QueryHost | bot/handlers/delete_rule.py:35-37 | there is a host iff `urlparse` succeeds; it has no '.' at either end, and one taken from a network location holds no '/' or '?' |
| DeleteDialog.HostOf | bot/handlers/delete_rule.py:37 | `strip().strip(".")` leaves no '.' at either end and adds no character |
| DeleteDialog.ExtractTokens | bot/handlers/delete_rule.py:28-46 | no tokens iff the query is blank. Otherwise the stripped lower-cased query comes first, every host token is kept, and nothing else is added. The tokens are non-empty and distinct, at most three |
| DeleteDialog.TokensOfVerdicts | bot/handlers/delete_rule.py:38-43 | the two appends: the exact host iff it validates, then the registrable domain iff that validates too |
| DeleteDialog.TokensInOrder | bot/handlers/delete_rule.py:46 | distinct non-empty tokens are all kept, in the order they were appended |
| DeleteDialog.QueryHostOfScheme | bot/handlers/delete_rule.py:35-37 | the host read from `scheme://host...` is the host, when that is a well-formed name |
| DeleteDialog.HostTokensOfName | bot/handlers/delete_rule.py:38-43 | a well-formed host yields itself and, without a public-suffix answer, its last two or three labels |
| DeleteDialog.SchemeHostTokens | bot/handlers/delete_rule.py:34-43 | a `scheme://host...` query with a well-formed host yields the host and its registrable part |
| DeleteDialog.SchemeQueryTokens | bot/handlers/delete_rule.py:28-46 | such a query's tokens are the stripped lower-cased query, the host, then the registrable part unless it is the host itself |
| DeleteDialog.FilterRulesByQuery | bot/handlers/delete_rule.py:49-70 | the loop keeps, in input order and with their indices, exactly the entries the query selects |
| DeleteDialog.FilterIff | bot/handlers/delete_rule.py:57-69 | an entry is kept iff a token is in its lower-cased value, or the query is an address inside its IP-CIDR network |
| DeleteDialog.AddressInRule | bot/handlers/delete_rule.py:53-66 | an address query matches an IP-CIDR rule iff the rule parses as a network and the address lies in its block; a rule that does not parse never matches |
| DeleteDialog.ValueContainingQueryIsFound | bot/handlers/delete_rule.py:49-70 | a rule whose value contains the query, ignoring case and padding, is always found |
| DeleteDialog.PickButtons | bot/handlers/delete_rule.py:126-127 | the j-th pick button is numbered first + j and carries the j-th entry's file index, not its sorted position |
| DeleteDialog.DeleteNav | bot/handlers/delete_rule.py:130-134 | "previous" iff the page does not start the listing, "next" iff entries follow it |
| DeleteDialog.NumberButtons | bot/handlers/delete_rule.py:126-127 | the button loop builds exactly the pick buttons |
| DeleteDialog.RenderDeletePage | bot/handlers/delete_rule.py:109-135 | an empty result renders "Ничего не найдено" with no buttons. Otherwise the page is cut from the sorted entries; its lines and buttons are numbered from page·20 + 1 and its navigation follows the totals |
| DeleteDialog.PickIndicesAreRuleLines | bot/handlers/delete_rule.py:115-127 | every pick button on a page of `list_rules(lines)` carries the index of the rule line it shows |
| DeleteDialog.EntryAt | bot/handlers/delete_rule.py:191 | the match has the picked index and comes from the listing; None iff no entry has that index |
| DeleteDialog.PickIn | bot/handlers/delete_rule.py:189-198 | a pick is accepted iff its index is a rule line of the fresh file, and it previews that rule |
| DeleteDialog.DelPick | bot/handlers/delete_rule.py:178-210 | an accepted pick comes from a fetched file and is the pick on its lines |
| DeleteDialog.PickCallbackParts | bot/handlers/delete_rule.py:178-181 | a pick callback splits back into its four fields |
| DeleteDialog.PickCallback | bot/handlers/delete_rule.py:127 | every pick callback starts with "del:pick:" |
| DeleteDialog.PickAcceptsRuleLines | bot/handlers/delete_rule.py:178-198 | a pick from one of our buttons is accepted iff its index is a rule line of the fresh file |
| DeleteDialog.ConfirmOnAsWritten | bot/handlers/delete_rule.py:236-246 | as written: commit iff the stored index is a rule line; the commit carries the soft delete with the removal note |
| DeleteDialog.DelConfirmAsWritten | bot/handlers/delete_rule.py:213-260 | "no" cancels; a missing index raises; a failed fetch reports the load error; a commit is the guarded soft delete on the fetched sha with the "Delete rule" message |
| DeleteDialog.ConfirmOn | bot/handlers/delete_rule.py:236-246 | the corrected guard commits iff the line at the index is still the previewed rule, and then commits what the code as written commits |
| DeleteDialog.DelConfirm | bot/handlers/delete_rule.py:213-260 | the handler with the corrected guard, with the same cancel, crash and load-error cases |
| DeleteDialog.ConfirmRemovesThePreviewedRule | bot/handlers/delete_rule.py:236-244 | a confirmed delete removes exactly the previewed rule from the file's rules, keeping every other rule in order |
| DeleteDialog.ConfirmShape | bot/handlers/delete_rule.py:242-243 | the removal note either replaces the "Added" marker above the rule or is inserted above it |
| DeleteDialog.StaleIndexDeletesAnotherRule | bot/handlers/delete_rule.py:236-246 | as written, a stale index pointing at another rule deletes that rule under a message naming the previewed one; the corrected guard refuses |
| DeleteDialog.StaleIndexExample | bot/handlers/delete_rule.py:236-246 | a one-line instance: the user picked `DOMAIN,a.com` and the file now has `DOMAIN,b.com` at that line |
| DeleteDialog.PickThenConfirm | bot/handlers/delete_rule.py:178-260 | picking and confirming against an unchanged file commits, and both guards agree |
| ViewConfig.CountsAddUp | bot/handlers/view_config.py:25-26 | the per-type counts add up to the number of rules |
| ViewConfig.CountTypes | bot/handlers/view_config.py:25 | the counter has a key exactly for each occurring type, holding its number of rules |
| ViewConfig.TokenOrder | bot/handlers/view_config.py:28 | the types are walked in strict token order, as `sorted(stats.items())` does |
| ViewConfig.TokenOrderComplete | bot/handlers/view_config.py:28 | the walk covers every type |
| ViewConfig.Pct | bot/handlers/view_config.py:29 | a zero total gives 0, and a count within the total gives at most 100 |
| ViewConfig.PctIsFloor | bot/handlers/view_config.py:29 | for a positive total, the percentage is the floor of count * 100 / total |
| ViewConfig.PctAtMost100 | bot/handlers/view_config.py:29 | when the count is at most the total, the floor percentage is at most 100 |
| ViewConfig.PctsAddUpToAtMost100 | bot/handlers/view_config.py:25-30 | the floor percentages of the types add up to at most 100 |
| ViewConfig.StatsRowsCount | bot/handlers/view_config.py:28-30 | there is one statistics row per occurring type |
| ViewConfig.StatsRows | bot/handlers/view_config.py:28-30 | there are at most as many rows as types walked |
| ViewConfig.StatsRowsOccurring | bot/handlers/view_config.py:28-30 | every row is the row of an occurring type, with its count and the total |
| ViewConfig.StatsLine | bot/handlers/view_config.py:88-89 | the statistics line is empty iff there are no rules |
| ViewConfig.OccurringTypes | bot/handlers/view_config.py:88-89 | no type occurs iff there are no rules |
| ViewConfig.StatsRowsOf | bot/handlers/view_config.py:28-30 | the loop over the counter yields the rows of the occurring types in token order |
| ViewConfig.StatsCommand | bot/handlers/view_config.py:18-33 | the reply is the title, the number of rule lines and one row per occurring type, or the error line when the fetch fails |
| ViewConfig.FilterByPolicy | bot/handlers/view_config.py:72-76 | a known policy keeps exactly the rules with that policy; anything else keeps every rule |
| ViewConfig.FilterByType | bot/handlers/view_config.py:65-67 | a type other than none, empty or "ALL" keeps exactly the rules of that type |
| ViewConfig.FilterByTypeCount | bot/handlers/view_config.py:65-67 | filtering by type keeps as many rules as the counter shows for that type |
| ViewConfig.ViewSelection | bot/handlers/view_config.py:61-69 | the shown rules are exactly those of the file that match the policy and type filters, where a missing, "ALL" or unknown policy and a missing, empty or "ALL" type keep everything |
| ViewConfig.ViewPrev | bot/handlers/view_config.py:104-105 | the "previous" label is the previous page's 1-based number |
| ViewConfig.ViewNext | bot/handlers/view_config.py:106-107 | the "next" label is the next page's 1-based number |
| ViewConfig.ViewNav | bot/handlers/view_config.py:103-107 | "previous" iff the page does not start the listing, "next" iff entries follow it |
| ViewConfig.ViewHeader | bot/handlers/view_config.py:88-91 | three header lines, the first the statistics line |
| ViewConfig.RenderViewPage | bot/handlers/view_config.py:79-112 | the body is the empty-config text iff nothing is shown; otherwise it is the header over all rules and the described, numbered page of the sorted filtered rules |
| ViewConfig.BuildViewResponse | bot/handlers/view_config.py:61-69 | the body is the empty-config text iff the policy and type filters leave no rule; otherwise it is the header over all rules followed by the numbered lines of the requested page of the sorted filtered rules; navigation follows the filtered total |
| ViewConfig.ParseViewCallback | bot/handlers/view_config.py:129-142 | the type is the second field; the page is 0 unless the third field is "page" |
| ViewConfig.PageCallbackRoundTrip | bot/handlers/view_config.py:141-142 | a navigation callback reads back as that page of the same type filter |
| NormalizeCommand.PlanFor | bot/handlers/normalize.py:16-22 | nothing to commit iff rendering the parse gives the text back; otherwise the commit carries that rendering |
| NormalizeCommand.NormalizeConverges | bot/handlers/normalize.py:16-21 | once the normalised text is committed, the next run finds nothing to do |
| NormalizeCommand.CommittedTextIsNormal | bot/handlers/normalize.py:16-22 | the committed text is always already normalised |
| NormalizeCommand.NormalizeConfig | bot/handlers/normalize.py:11-32 | one fetch, then no commit when the text is already normal, else one commit on the fetched sha with the fixed message and no author; any failure gives the failure reply |
| UrlCheck.Take | bot/handlers/url_check.py:36 | `s[:n]` is the prefix of `s` of length at most n |
| UrlCheck.IsErrorLine | bot/handlers/url_check.py:26 | without "HTTP", a line is an error iff it contains "ERROR" or "unreachable"; with "HTTP", a 404 or 500 makes it one |
| UrlCheck.ReportLines | bot/handlers/url_check.py:34-39 | the title, then the first 20 errors in order, then the overflow note iff there are more than 20 |
| UrlCheck.CollectErrors | bot/handlers/url_check.py:24-27 | the loop keeps exactly the error lines, in log order |
| UrlCheck.BuildReport | bot/handlers/url_check.py:34-39 | the report loop builds exactly the report lines |
| UrlCheck.UrlCheckCommand | bot/handlers/url_check.py:12-43 | a read failure, an empty log, no errors and the error report each give their reply |
| UrlCheck.ListedIffError | bot/handlers/url_check.py:24-27 | a log line is listed iff it is an error line |
| UrlCheck.ListedLinesAreCut | bot/handlers/url_check.py:36 | each listed line is at most 100 characters plus its markup |
| UrlCheck.StatusNeedsHttp | bot/handlers/url_check.py:26 | `and` binds tighter than `or`: a status code without "HTTP" is not an error, but "ERROR" alone is |
| Config.Parts | bot/config.py:34 | the parts are stripped and non-empty |
| Strings.PyInt | bot/config.py:38 | `int()` accepts only non-blank text, and a negative value comes from text starting with '-' |
| Config.PartsOf | bot/config.py:34 | empty parts are dropped |
| Config.Kept | bot/config.py:35-41 | the kept values are at most as many as the parts |
| Config.ParseIds | bot/config.py:35-41 | the loop keeps exactly the values of the parts `int()` accepts, in order |
| Config.ParseAllowedUsers | bot/config.py:28-42 | None, "" or another type give []; a list is returned unchanged; a string gives the ids of its comma-separated parts |
| Config.KeptComeFromParts | bot/config.py:35-41 | every kept value is the value of some part |
| Config.IdsComeFromParts | bot/config.py:33-41 | every id comes from a part of the text |
| Config.Decimals | bot/config.py:33-41 | the decimal forms of the ids, one per id |
| Config.PartsOfStripped | bot/config.py:34 | stripped non-empty parts pass through unchanged |
| Config.PartsOfDecimals | bot/config.py:34 | decimal ids pass through the part filter unchanged |
| Config.IdsOfDecimals | bot/config.py:35-41 | decimal ids read back as themselves |
| Config.AllowedUsersRoundTrip | bot/config.py:33-41 | a comma-separated list of ids parses back to the same ids in order |
| Config.KeptAppend | bot/config.py:35-41 | the loop's result over two lists is the concatenation of its results |
| Config.SkipsUnparsable | bot/config.py:37-40 | a part `int()` refuses is skipped and the others are kept |
| Access.AllowedSet | bot/middlewares/access.py:10 | the set holds exactly the listed ids, and is empty when no list is given |
| Access.AccessMiddleware.constructor | bot/middlewares/access.py:8-10 | the middleware keeps the set of the given ids |
| Access.AccessMiddleware.Call | bot/middlewares/access.py:12-30 | the handler is called iff the event is admitted; a denied message gets a reply, a denied callback an alert, anything else nothing |
| Access.AdmitsExactly | bot/middlewares/access.py:8-21 | a middleware built from an empty or missing list admits every event; one built from a non-empty list admits exactly the events whose sender id is non-zero and listed |
| Access.AccessMiddleware.Admits | bot/middlewares/access.py:13-21 | an event other than a message or callback passes iff the list is empty; with a non-empty list, an admitted event has a sender in the list, and sender id 0 is never admitted |
| Metrics.Partition | bot/metrics.py:28 | `partition(":")` splits at the first colon, or returns the whole text when there is none |
| Metrics.ParseMetricsAddr | bot/metrics.py:27-32 | an empty host becomes "0.0.0.0"; an empty port becomes 9123; otherwise the port is `int()` of the text, and the call raises where `int()` raises |
| Metrics.HostPortRoundTrip | bot/metrics.py:27-32 | `host:port` reads back as that host and port |
| Metrics.DefaultsFillIn | bot/metrics.py:27-32 | ":" and "" give the default address 0.0.0.0:9123 |

## Left out

- Telegram wiring is not modelled. This covers aiogram routers, the FSM storage and its transitions, message sending and editing, keyboards and their layout, and the start and cancel handlers. Handlers are modelled as functions from the stored dialogue data and the fetch outcome to what they show and commit.
- Network and time are not modelled. The store answers through a responder function that returns the k-th request's reply; retry delays, timeouts, logging, the fetch and commit histograms and the `RULES_*` counters are left out. The labelled-counter calls are not left out, since they change control flow: the intended protocol assumes counters declared with label names (`type`, `operation`), and the code as written is modelled beside it (see Findings). Base64 encoding of the content is treated as the identity.
- Handler fetches and commits are outcome parameters, including the URL-check log read. The per-policy file path (`get_path_for_policy`, `fetch(file_path=...)`) is used by the handlers, but `GitHubFileStore` does not define it, so it is not part of this model.
- The `/recent` command (`get_recent_commits`), the download button, the static view keyboard and the commit-URL button of the replies are not part of this model.
- Strings are ASCII only. `splitlines` splits on "\n" only; `\s`, `isspace`, `lower()` and `int()` accept only their ASCII cases.
- Url.UrlParse: simplified `urlparse`. The scheme is the text before the first ':' when it is a valid scheme. The network location runs from "//" to the first '/', '?' or '#'. Brackets and ports are not validated.
- Domain.RegistrableDomain: the public-suffix answer of `get_sld` is a parameter. Properties are proved for the two- or three-label fallback only.
- Ip.NormalizeIp: whether the text parses as IPv6 is a parameter. IPv4 parsing, with leading zeros refused and netmask or hostmask prefixes, is modelled.
- DeleteDialog.AddressInRule: containment of an IPv6 query address in a rule's network is a parameter.
- AddRuleDialog.ValidateValue: the DOMAIN and DOMAIN-SUFFIX values are checked by the validators with DOMAIN_RE anchored at the very end, not with Python's `$` (see Findings).
- DeleteDialog.HostTokens: the exact and suffix validators it calls are the end-anchored ones, so a host ending in a newline adds no token here, unlike the code as written.
- Domain.NormalizeDomainSuffix: modelled with DOMAIN_RE anchored at the very end, as in the corrected exact validator. The suffix validator as written has the same trailing-newline defect.
- RulesFile.ClearPolicy: Python's shallow `list(lines)` copy means that assigning `l.rule` also changes the caller's line object. Lines are immutable values here, so that aliasing is not modelled.
- ViewConfig.BuildViewResponse: the page number is a `nat`, so the negative page a crafted callback could carry is not modelled.
- Access.AccessMiddleware.Call: an error raised while sending the denial alert is swallowed by the middleware; sending is not modelled, so this has no counterpart.
- ViewConfig.StatsRows: its own contract only bounds the number of rows; which rows appear, and with what counts, is stated by ViewConfig.StatsRowsCount and ViewConfig.StatsRowsOccurring.
- Domain.HeuristicFacts: the dot-aligned-suffix property of the fallback is stated on Domain.HeuristicRegistrable itself, so every use of the fallback carries it, rather than being repeated here.
- The `/view` command handler (bot/handlers/view_config.py:115-124) is not part of this model beyond `build_view_response`. As written, it also raises at its `INPUT_VALID.labels(type="view")` call after building the page, so the page is never sent.
- Ip.NormalizeIp: the prefix-range branch is kept as written. It is dead code, because a parsed IPv4 prefix is always 0..32.

## Findings

| source | as written | input that shows it | evidently intended | confidence | as-written member | corrected member |
|---|---|---|---|---|---|---|
| bot/validators/domain.py:67-79 | DOMAIN_RE ends in `$`, which also matches before a final newline. `_clean_host` strips the final '.' after the blanks, so a newline can survive | `"example.com\n."` is accepted as `"example.com\n"`; written to the rule file, the value splits its line | anchor at the very end (`\Z` or `fullmatch`) and refuse the input | high, not executed | Domain.TrailingNewlineAcceptedAsWritten | Domain.TrailingNewlineRefused |
| bot/handlers/add_rule.py:266-268 | `replace` uses `existing_idx`, stored when the value was entered, against a freshly fetched file | the file changes between entering and confirming, so that the stored index holds another rule with a policy: that rule loses its policy, and the confirmed one is untouched (a comment there trips the `clear_policy` assertion) | use the index `_check_duplicate` just computed on the fresh file | high, not executed | AddRuleDialog.StaleIndexEditsAnotherRule | AddRuleDialog.ReplaceTouchesOnlyTheRule |
| bot/handlers/delete_rule.py:236-240 | the confirm guard only checks that the stored index is a rule line of the fresh file | the user picks `DOMAIN,a.com` at line 0; before they confirm, line 0 becomes `DOMAIN,b.com`, and `b.com` is deleted under a "Delete rule: DOMAIN,a.com" message | also require the line to still be the previewed rule | high, not executed | DeleteDialog.StaleIndexDeletesAnotherRule | DeleteDialog.ConfirmRemovesThePreviewedRule |
| bot/metrics.py:12 | `GITHUB_ERRORS` is declared without label names, yet `fetch` calls `.labels(operation="fetch")` on every failure path, and `prometheus_client` then raises `ValueError` | a 503 to the first GET of `fetch()` raises after that one request instead of retrying | declare the counter with `labelnames=["operation"]`, so that `fetch` retries | high, not executed | GitHubStore.UnlabelledFetchStopsAtOne | GitHubStore.DefaultFetchServerErrors |
| bot/services/github_store.py:95-107 | the same unlabelled counter is called with `.labels(operation="commit")` on the 5xx, 4xx and exception paths of `commit` | a 503 to the first PUT, with retries left, raises after the PUT instead of refetching and resending | `labelnames=["operation"]`, so that a 5xx is resent like a 409 | high, not executed | GitHubStore.UnlabelledCommitStopsAtOne | GitHubStore.CommitResendsOnFreshSha |
| bot/metrics.py:10-11 | `INPUT_VALID` and `INPUT_INVALID` are declared without label names, yet `on_enter_value` calls `.labels(type=raw_type)` after every validation | with DOMAIN-KEYWORD and a policy chosen, the message "google" raises instead of showing the confirmation | declare both with `labelnames=["type"]` | high, not executed | AddRuleDialog.KeywordEntryRaisesAsWritten | AddRuleDialog.EnterValue |
