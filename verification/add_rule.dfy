/** The decisions of the add-rule dialogue (bot/handlers/add_rule.py):
    the duplicate check, the choice of validator by rule type when the user
    sends a value, and the edit chosen when the user confirms. The dialogue
    state is the form data the handlers keep (`rule_type`, `policy`,
    `value`, `existing_idx`); a fetch of the rule file is an `Outcome` of
    the store, and the commit the handler would send is returned as a
    value. */
module AddRuleDialog {
  import opened Wrappers
  import opened Strings
  import opened Enums
  import opened RulesFile
  import Domain
  import Keyword
  import Ip
  import opened GitHubStore

  // -----------------------------------------------------------------------
  // _check_duplicate

  /** `(exists, has_policy, idx)` for a rule of type `t` and value `v`. */
  datatype Duplicate = Duplicate(found: bool, hasPolicy: bool, idx: Option<nat>)

  /** `_check_duplicate(lines, t, v)`: the first rule line with this type
      and value, and whether that line carries a policy. */
  function CheckDuplicate(lines: seq<Line>, t: RuleType, v: string): (d: Duplicate)
    ensures d.found <==> d.idx.Some?
    ensures d.idx.Some? ==> d.idx.value < |lines| && Matches(lines[d.idx.value], t, v)
    ensures d.idx.Some? ==> forall i :: 0 <= i < d.idx.value ==> !Matches(lines[i], t, v)
    ensures d.idx.None? ==> forall i :: 0 <= i < |lines| ==> !Matches(lines[i], t, v)
    ensures d.hasPolicy <==> d.idx.Some? && lines[d.idx.value].rule.value.policy.Some?
  {
    match FindRule(lines, t, v)
    case None => Duplicate(false, false, None)
    case Some(idx) => Duplicate(true, lines[idx].rule.value.policy.Some?, Some(idx))
  }

  /** A rule is reported as a duplicate exactly when `list_rules` lists a
      rule of the same type and value. */
  lemma {:induction false} DuplicateIffListed(lines: seq<Line>, t: RuleType, v: string)
    ensures CheckDuplicate(lines, t, v).found <==>
            exists k :: 0 <= k < |ListRules(lines)| && ListRules(lines)[k].1.ty == t && ListRules(lines)[k].1.value == v
  {
    var rs := ListRules(lines);
    var d := CheckDuplicate(lines, t, v);
    if d.found {
      var i := d.idx.value;
      assert (i, lines[i].rule.value) in rs;
      var k :| 0 <= k < |rs| && rs[k] == (i, lines[i].rule.value);
      assert rs[k].1 == lines[i].rule.value;
      assert Matches(lines[i], t, v);
      assert rs[k].1.ty == t && rs[k].1.value == v;
      assert 0 <= k < |ListRules(lines)| && ListRules(lines)[k].1.ty == t && ListRules(lines)[k].1.value == v;
    } else {
      forall k | 0 <= k < |rs| ensures !(rs[k].1.ty == t && rs[k].1.value == v) {
        assert !Matches(lines[rs[k].0], t, v);
      }
    }
  }

  // -----------------------------------------------------------------------
  // the type -> validator dispatch of on_enter_value

  const MsgUnknownType := "Неизвестный тип правила."

  /** The branch chain of `on_enter_value` that picks the validator by the
      type token stored in the dialogue. `publicSuffixAnswer` and
      `ipv6Parses` are what the foreign libraries answer for this input
      (see `Domain.RegistrableDomain` and `Ip.NormalizeIp`). */
  function ValidateValue(rawType: string, valueRaw: string, publicSuffixAnswer: Option<string>, ipv6Parses: bool): (r: Domain.Verdict)
    ensures ParseRuleType(rawType).None? ==> r == Domain.Invalid(MsgUnknownType)
    ensures r.Raised? ==> rawType == RuleTypeToken(DomainSuffix) || rawType == RuleTypeToken(Domain)
    ensures r.Valid? && rawType == RuleTypeToken(Domain) ==> Domain.IsDomainName(r.value)
    ensures r.Valid? && rawType == RuleTypeToken(DomainKeyword) ==> Keyword.IsKeyword(r.value)
    ensures r.Valid? ==> ParseRuleType(rawType).Some?
    ensures rawType == RuleTypeToken(DomainSuffix) ==> r == Domain.NormalizeDomainSuffix(valueRaw, publicSuffixAnswer)
    ensures rawType == RuleTypeToken(Domain) ==> r == Domain.NormalizeDomainExact(valueRaw)
    ensures rawType == RuleTypeToken(DomainKeyword) ==>
              (r.Valid? <==> Keyword.NormalizeKeyword(valueRaw).Ok?)
              && (r.Valid? ==> r.value == Keyword.NormalizeKeyword(valueRaw).value)
              && (r.Invalid? ==> r.message == Keyword.NormalizeKeyword(valueRaw).error)
    ensures rawType == RuleTypeToken(IpCidr) ==>
              (r.Valid? <==> Ip.NormalizeIp(valueRaw, ipv6Parses).Ok?)
              && (r.Valid? ==> r.value == Ip.NormalizeIp(valueRaw, ipv6Parses).value)
              && (r.Invalid? ==> r.message == Ip.NormalizeIp(valueRaw, ipv6Parses).error)
  {
    if rawType == RuleTypeToken(DomainSuffix) then Domain.NormalizeDomainSuffix(valueRaw, publicSuffixAnswer)
    else if rawType == RuleTypeToken(Domain) then Domain.NormalizeDomainExact(valueRaw)
    else if rawType == RuleTypeToken(DomainKeyword) then
      match Keyword.NormalizeKeyword(valueRaw)
      case Ok(k) => Domain.Valid(k)
      case Err(e) => Domain.Invalid(e)
    else if rawType == RuleTypeToken(IpCidr) then
      match Ip.NormalizeIp(valueRaw, ipv6Parses)
      case Ok(n) => Domain.Valid(n)
      case Err(e) => Domain.Invalid(e)
    else Domain.Invalid(MsgUnknownType)
  }

  /** A value the dispatch accepted is accepted again, unchanged, when the
      user sends it back: every validator is idempotent on its output
      (without a public-suffix answer for DOMAIN-SUFFIX, whose library
      answer is not modelled). */
  lemma {:induction false} ValidateValueIdempotent(rawType: string, valueRaw: string, ipv6Parses: bool, again: bool)
    requires ValidateValue(rawType, valueRaw, None, ipv6Parses).Valid?
    ensures var v := ValidateValue(rawType, valueRaw, None, ipv6Parses).value;
            ValidateValue(rawType, v, None, again) == Domain.Valid(v)
  {
    var v := ValidateValue(rawType, valueRaw, None, ipv6Parses).value;
    if rawType == RuleTypeToken(DomainSuffix) {
      Domain.DomainSuffixFallback(valueRaw);
    } else if rawType == RuleTypeToken(Domain) {
      Domain.DomainExactIdempotent(v);
    } else if rawType == RuleTypeToken(DomainKeyword) {
      Keyword.KeywordIdempotent(v);
    } else {
      Ip.NormalizeIpIdempotent(valueRaw, ipv6Parses, again);
    }
  }

  // -----------------------------------------------------------------------
  // on_enter_value

  /** The dialogue's stored data; a key that was never stored is None. */
  datatype FormData = FormData(ruleType: Option<string>, policy: Option<string>, value: Option<string>,
                               existingIdx: Option<nat>)

  /** Which confirmation the user is shown. */
  datatype Prompt = AskAdd | AskReplace(previous: Rule) | AskKeep

  /** What `on_enter_value` does. `Confirming` moves the dialogue to the
      confirmation step with the updated data; `Cleared` ends it. */
  datatype EnterResult =
    | EnterCancelled          // "/cancel": state cleared
    | ChooseFirst             // type or policy missing: nothing else happens
    | InputRejected(error: string)
    | ValidatorRaised         // an exception escapes the handler
    | CounterRaised           // `.labels` on an unlabelled counter raises out of the handler
    | LoadFailed              // the fetch raised: state cleared
    | Confirming(prompt: Prompt, rule: Rule, data: FormData)

  /** The rule a value is previewed and committed as: never with a policy. */
  function NewRule(t: RuleType, value: string): (r: Rule)
    ensures r.policy.None? && r.ty == t && r.value == value
  {
    Rule(t, value, None)
  }

  /** `on_enter_value` for the message text `text`, the stored `data`, the
      foreign-library answers for this value, and the outcome of the fetch
      the handler makes once the value is valid. */
  function EnterValue(text: Option<string>, data: FormData, publicSuffixAnswer: Option<string>, ipv6Parses: bool,
                      fetched: Outcome<FileData>): (r: EnterResult)
    ensures StartsWith(Strip(if text.Some? then text.value else ""), "/cancel") ==> r == EnterCancelled
    ensures r.Confirming? ==> Truthy(data.ruleType) && Truthy(data.policy) && fetched.Done?
    ensures r.Confirming? ==> r.rule.policy.None? && r.data.value == Some(r.rule.value)
    ensures r.Confirming? ==> r.data.ruleType == data.ruleType && r.data.policy == data.policy
    ensures r.Confirming? ==> ParseRuleType(data.ruleType.value) == Some(r.rule.ty)
    ensures r.Confirming? ==> r == Prompted(Parse(fetched.value.text), r.rule, data.(value := Some(r.rule.value)))
    ensures var txt := Strip(if text.Some? then text.value else "");
            !StartsWith(txt, "/cancel") && (!Truthy(data.ruleType) || !Truthy(data.policy)) ==> r == ChooseFirst
    ensures r.Confirming? ==>
              ValidateValue(data.ruleType.value, Strip(if text.Some? then text.value else ""), publicSuffixAnswer, ipv6Parses)
              == Domain.Valid(r.rule.value)
    ensures r.InputRejected? ==>
              Truthy(data.ruleType)
              && ValidateValue(data.ruleType.value, Strip(if text.Some? then text.value else ""), publicSuffixAnswer, ipv6Parses)
                 == Domain.Invalid(r.error)
    ensures r == ValidatorRaised ==>
              Truthy(data.ruleType)
              && ValidateValue(data.ruleType.value, Strip(if text.Some? then text.value else ""), publicSuffixAnswer, ipv6Parses).Raised?
    ensures r == LoadFailed ==>
              Truthy(data.ruleType) && fetched.Failed?
              && ValidateValue(data.ruleType.value, Strip(if text.Some? then text.value else ""), publicSuffixAnswer, ipv6Parses).Valid?
    ensures r != CounterRaised
  {
    var txt := Strip(if text.Some? then text.value else "");
    if StartsWith(txt, "/cancel") then EnterCancelled
    else if !Truthy(data.ruleType) || !Truthy(data.policy) then ChooseFirst
    else
      match ValidateValue(data.ruleType.value, txt, publicSuffixAnswer, ipv6Parses)
      case Raised => ValidatorRaised
      case Invalid(e) => InputRejected(e)
      case Valid(value) =>
        var t := ParseRuleType(data.ruleType.value).value;
        var stored := data.(value := Some(value));
        match fetched
        case Failed => LoadFailed
        case Done(f) => Prompted(Parse(f.text), NewRule(t, value), stored)
  }

  /** The confirmation shown for `rule` on the fresh file: "add" when the
      rule is absent, "replace" (showing the listed rule) when it is present
      with a policy, "keep" when it is present without one; in the last two
      cases the first matching line's index is stored. */
  function Prompted(lines: seq<Line>, rule: Rule, stored: FormData): (r: EnterResult)
    ensures r.Confirming? && r.rule == rule
    ensures var dup := CheckDuplicate(lines, rule.ty, rule.value);
            (r.prompt == AskAdd <==> !dup.found)
            && (r.prompt.AskReplace? <==> dup.hasPolicy)
            && (r.prompt.AskReplace? ==> r.prompt.previous == lines[dup.idx.value].rule.value
                                         && r.prompt.previous.policy.Some?)
            && (dup.found ==> r.data == stored.(existingIdx := dup.idx))
            && (!dup.found ==> r.data == stored)
  {
    var dup := CheckDuplicate(lines, rule.ty, rule.value);
    if !dup.found then Confirming(AskAdd, rule, stored)
    else if dup.hasPolicy then
      Confirming(AskReplace(lines[dup.idx.value].rule.value), rule, stored.(existingIdx := dup.idx))
    else Confirming(AskKeep, rule, stored.(existingIdx := dup.idx))
  }

  /** `on_enter_value` as written. `INPUT_VALID` and `INPUT_INVALID` are
      declared without label names (bot/metrics.py:10-11), so the
      `.labels(type=...)` call made after every validation, accepted or
      refused (add_rule.py:150 and 155), raises `ValueError` out of the
      handler: past the cancel and missing-choice checks, the dialogue
      never replies and never reaches confirmation. */
  function EnterValueAsWritten(text: Option<string>, data: FormData, publicSuffixAnswer: Option<string>, ipv6Parses: bool): (r: EnterResult)
    ensures StartsWith(Strip(if text.Some? then text.value else ""), "/cancel") ==> r == EnterCancelled
    ensures var txt := Strip(if text.Some? then text.value else "");
            !StartsWith(txt, "/cancel") && (!Truthy(data.ruleType) || !Truthy(data.policy)) ==> r == ChooseFirst
    ensures r == ValidatorRaised || r == CounterRaised ==> Truthy(data.ruleType) && Truthy(data.policy)
    ensures r == ValidatorRaised <==>
              !StartsWith(Strip(if text.Some? then text.value else ""), "/cancel")
              && Truthy(data.ruleType) && Truthy(data.policy)
              && ValidateValue(data.ruleType.value, Strip(if text.Some? then text.value else ""), publicSuffixAnswer, ipv6Parses).Raised?
    ensures !r.Confirming? && !r.InputRejected?
  {
    var txt := Strip(if text.Some? then text.value else "");
    if StartsWith(txt, "/cancel") then EnterCancelled
    else if !Truthy(data.ruleType) || !Truthy(data.policy) then ChooseFirst
    else if ValidateValue(data.ruleType.value, txt, publicSuffixAnswer, ipv6Parses).Raised? then ValidatorRaised
    else CounterRaised
  }

  /** Every reply the intended handler gives after a validation, a
      confirmation or a refusal message, is lost as written: the handler
      raises at the counter instead. */
  lemma {:induction false} UnlabelledCounterBlocksDialogue(text: Option<string>, data: FormData, publicSuffixAnswer: Option<string>,
                                                          ipv6Parses: bool, fetched: Outcome<FileData>)
    requires var r := EnterValue(text, data, publicSuffixAnswer, ipv6Parses, fetched);
             r.Confirming? || r.InputRejected?
    ensures EnterValueAsWritten(text, data, publicSuffixAnswer, ipv6Parses) == CounterRaised
  {
    var r := EnterValue(text, data, publicSuffixAnswer, ipv6Parses, fetched);
    var txt := Strip(if text.Some? then text.value else "");
    assert !StartsWith(txt, "/cancel") && Truthy(data.ruleType) && Truthy(data.policy);
    assert !ValidateValue(data.ruleType.value, txt, publicSuffixAnswer, ipv6Parses).Raised?;
  }

  /** For instance, any keyword entered for a DOMAIN-KEYWORD rule once a
      policy is chosen: the intended handler shows a confirmation, while
      as written the handler raises. */
  lemma {:induction false} KeywordEntryRaisesAsWritten(kw: string, policy: string, f: FileData)
    requires Keyword.IsKeyword(kw) && policy != ""
    ensures var data := FormData(Some(RuleTypeToken(DomainKeyword)), Some(policy), None, None);
            EnterValue(Some(kw), data, None, false, Done(f)).Confirming?
            && EnterValueAsWritten(Some(kw), data, None, false) == CounterRaised
  {
    var data := FormData(Some(RuleTypeToken(DomainKeyword)), Some(policy), None, None);
    assert !IsSpace(kw[0]) && !IsSpace(kw[|kw| - 1]) by {
      assert Keyword.IsKeywordChar(kw[0]) && Keyword.IsKeywordChar(kw[|kw| - 1]);
    }
    StripNoop(kw);
    assert !StartsWith(kw, "/cancel") by {
      assert Keyword.IsKeywordChar(kw[0]);
      assert "/cancel"[0] == '/';
    }
    Keyword.KeywordIdempotent(kw);
    UnlabelledCounterBlocksDialogue(Some(kw), data, None, false, Done(f));
  }

  // -----------------------------------------------------------------------
  // on_confirm

  datatype Action = AddAction | ReplaceAction | KeepAction | CancelAction

  /** What `on_confirm` does; `Commit` is the one call to `store.commit`
      the handler makes. */
  datatype ConfirmResult =
    | ConfirmCancelled        // state cleared, nothing committed
    | Crashed                 // a missing or unknown stored key raises
    | LoadError               // the fetch raised: state kept
    | DuplicateShown(hasPolicy: bool)
    | KeptExisting            // state cleared, nothing committed
    | AssertionTripped        // `clear_policy` asserted on a non-rule line
    | Commit(newLines: seq<Line>, message: string, baseSha: string)

  /** The edit of `replace` as written: the index stored when the value was
      entered, if it is still in range, else an append. None is the
      `clear_policy` assertion failing. */
  function ReplaceLinesAsWritten(lines: seq<Line>, existingIdx: Option<nat>, rule: Rule, comment: string): (r: Option<seq<Line>>)
    ensures existingIdx.Some? && existingIdx.value < |lines| && IsRule(lines[existingIdx.value]) ==>
              r == Some(ClearPolicy(lines, existingIdx.value))
    ensures existingIdx.Some? && existingIdx.value < |lines| && !IsRule(lines[existingIdx.value]) ==> r.None?
    ensures (existingIdx.None? || existingIdx.value >= |lines|) ==> r == Some(AddRule(lines, rule, comment))
  {
    if existingIdx.Some? && existingIdx.value < |lines| then
      if IsRule(lines[existingIdx.value]) then Some(ClearPolicy(lines, existingIdx.value)) else None
    else Some(AddRule(lines, rule, comment))
  }

  /** The edit of `replace` on the index found in the fresh file: clear
      the policy of the first matching rule, or append the rule. */
  function ReplaceLines(lines: seq<Line>, rule: Rule, comment: string): (r: seq<Line>)
    ensures FindRule(lines, rule.ty, rule.value).Some? ==> r == ClearPolicy(lines, FindRule(lines, rule.ty, rule.value).value)
    ensures FindRule(lines, rule.ty, rule.value).None? ==> r == AddRule(lines, rule, comment)
  {
    match CheckDuplicate(lines, rule.ty, rule.value).idx
    case Some(idx) => ClearPolicy(lines, idx)
    case None => AddRule(lines, rule, comment)
  }

  /** What both versions of `on_confirm` share up to the action: the
      stored data read and the file fetched, or how that failed. */
  datatype Context = Context(lines: seq<Line>, sha: string, rule: Rule, dup: Duplicate)

  datatype Prepared = Stop(result: ConfirmResult) | Ready(ctx: Context)

  function Prepare(action: Action, data: FormData, fetched: Outcome<FileData>): (p: Prepared)
    ensures action == CancelAction ==> p == Stop(ConfirmCancelled)
    ensures p.Ready? ==> fetched.Done? && data.ruleType.Some? && data.value.Some? && data.policy.Some?
    ensures p.Ready? ==> ParseRuleType(data.ruleType.value).Some?
    ensures p.Ready? ==> p.ctx.lines == Parse(fetched.value.text) && p.ctx.sha == fetched.value.sha
    ensures p.Ready? ==> p.ctx.rule == NewRule(ParseRuleType(data.ruleType.value).value, data.value.value)
    ensures p.Ready? ==> p.ctx.dup == CheckDuplicate(p.ctx.lines, p.ctx.rule.ty, p.ctx.rule.value)
    ensures p.Stop? ==> !p.result.Commit?
  {
    if action == CancelAction then Stop(ConfirmCancelled)
    else if data.ruleType.None? || ParseRuleType(data.ruleType.value).None? || data.value.None? || data.policy.None? then
      Stop(Crashed)
    else
      match fetched
      case Failed => Stop(LoadError)
      case Done(f) =>
        var lines := Parse(f.text);
        var rule := NewRule(ParseRuleType(data.ruleType.value).value, data.value.value);
        Ready(Context(lines, f.sha, rule, CheckDuplicate(lines, rule.ty, rule.value)))
  }

  /** `add`: refuse a rule the fresh file already has, else append it under
      an "# Added:" marker. */
  function AddOutcome(ctx: Context, username: Option<string>, timestamp: string): (r: ConfirmResult)
    ensures ctx.dup.found ==> r == DuplicateShown(ctx.dup.hasPolicy)
    ensures !ctx.dup.found ==> r.Commit? && r.baseSha == ctx.sha
    ensures r.Commit? ==> r.message == CommitMessageAdd(RuleText(ctx.rule), username)
  {
    if ctx.dup.found then DuplicateShown(ctx.dup.hasPolicy)
    else
      var lines := AddRule(ctx.lines, ctx.rule, AddedComment(username, timestamp));
      Commit(lines, CommitMessageAdd(RuleText(ctx.rule), username), ctx.sha)
  }

  /** `on_confirm` as written, with `replace` on the stored index.
      `username` is the Telegram username and `timestamp` the formatted
      time `added_comment` would stamp. */
  function OnConfirmAsWritten(action: Action, data: FormData, username: Option<string>, timestamp: string,
                              fetched: Outcome<FileData>): (r: ConfirmResult)
    ensures action == CancelAction || action == KeepAction ==> !r.Commit?
  {
    match Prepare(action, data, fetched)
    case Stop(result) => result
    case Ready(ctx) =>
      match action
      case AddAction => AddOutcome(ctx, username, timestamp)
      case KeepAction => KeptExisting
      case CancelAction => ConfirmCancelled
      case ReplaceAction =>
        match ReplaceLinesAsWritten(ctx.lines, data.existingIdx, ctx.rule, AddedComment(username, timestamp))
        case None => AssertionTripped
        case Some(lines) => Commit(lines, CommitMessageAdd(RuleText(ctx.rule), username), ctx.sha)
  }

  /** `on_confirm`, with `replace` on the index found in the fresh file. */
  function OnConfirm(action: Action, data: FormData, username: Option<string>, timestamp: string,
                     fetched: Outcome<FileData>): (r: ConfirmResult)
    ensures action == CancelAction ==> r == ConfirmCancelled
    ensures action == KeepAction ==> !r.Commit?
    ensures !r.AssertionTripped?
    ensures r.Commit? ==> fetched.Done? && r.baseSha == fetched.value.sha
    ensures r.Commit? ==> (action == AddAction || action == ReplaceAction)
  {
    match Prepare(action, data, fetched)
    case Stop(result) => result
    case Ready(ctx) =>
      match action
      case AddAction => AddOutcome(ctx, username, timestamp)
      case KeepAction => KeptExisting
      case CancelAction => ConfirmCancelled
      case ReplaceAction =>
        Commit(ReplaceLines(ctx.lines, ctx.rule, AddedComment(username, timestamp)),
               CommitMessageAdd(RuleText(ctx.rule), username), ctx.sha)
  }

  /** The stored data of a dialogue that reached confirmation for `rule`. */
  predicate Describes(data: FormData, rule: Rule) {
    data.ruleType.Some? && ParseRuleType(data.ruleType.value) == Some(rule.ty)
    && data.value == Some(rule.value) && data.policy.Some? && rule.policy.None?
  }

  /** For a dialogue that reached confirmation, every action but "cancel"
      gets past the shared preparation on a fetched file. */
  lemma {:induction false} PrepareReady(action: Action, data: FormData, rule: Rule, f: FileData)
    requires Describes(data, rule) && action != CancelAction
    ensures var lines := Parse(f.text);
            Prepare(action, data, Done(f)) == Ready(Context(lines, f.sha, rule, CheckDuplicate(lines, rule.ty, rule.value)))
  {
  }

  /** `add` commits exactly `add_rule(lines, rule, added_comment)` of the
      freshly fetched file when the rule is absent from it, and commits
      nothing when it is present. */
  lemma {:induction false} ConfirmAdd(data: FormData, rule: Rule, username: Option<string>, timestamp: string, f: FileData)
    requires Describes(data, rule)
    ensures var lines := Parse(f.text);
            var r := OnConfirm(AddAction, data, username, timestamp, Done(f));
            (FindRule(lines, rule.ty, rule.value).Some? ==> r.DuplicateShown?)
            && (FindRule(lines, rule.ty, rule.value).None? ==>
                  r == Commit(AddRule(lines, rule, AddedComment(username, timestamp)),
                              CommitMessageAdd(RuleText(rule), username), f.sha))
  {
    var lines := Parse(f.text);
    PrepareReady(AddAction, data, rule, f);
    var ctx := Context(lines, f.sha, rule, CheckDuplicate(lines, rule.ty, rule.value));
    assert OnConfirm(AddAction, data, username, timestamp, Done(f)) == AddOutcome(ctx, username, timestamp);
  }

  /** After a committed `add` or `replace` the file holds the rule, with no
      policy, at the first line of its type and value. */
  lemma {:induction false} ConfirmLeavesRuleWithoutPolicy(action: Action, data: FormData, rule: Rule, username: Option<string>,
                                       timestamp: string, f: FileData)
    requires Describes(data, rule)
    requires OnConfirm(action, data, username, timestamp, Done(f)).Commit?
    ensures var r := OnConfirm(action, data, username, timestamp, Done(f)).newLines;
            FindRule(r, rule.ty, rule.value).Some?
            && r[FindRule(r, rule.ty, rule.value).value].rule.value == rule
  {
    var lines := Parse(f.text);
    var found := FindRule(lines, rule.ty, rule.value);
    var comment := AddedComment(username, timestamp);
    if found.Some? {
      var idx := found.value;
      assert action == ReplaceAction;
      WithPolicyKeepsFind(lines, idx, None, rule.ty, rule.value);
    } else {
      AddRuleFind(lines, rule, comment);
    }
  }

  /** `replace` on the fresh index edits no line but the target rule's. */
  lemma {:induction false} ReplaceTouchesOnlyTheRule(data: FormData, rule: Rule, username: Option<string>, timestamp: string, f: FileData)
    requires Describes(data, rule)
    ensures var lines := Parse(f.text);
            var r := OnConfirm(ReplaceAction, data, username, timestamp, Done(f));
            r.Commit? && |r.newLines| >= |lines|
            && forall i :: 0 <= i < |lines| && !Matches(lines[i], rule.ty, rule.value) ==> r.newLines[i] == lines[i]
  {
    var lines := Parse(f.text);
    PrepareReady(ReplaceAction, data, rule, f);
    assert OnConfirm(ReplaceAction, data, username, timestamp, Done(f))
           == Commit(ReplaceLines(lines, rule, AddedComment(username, timestamp)),
                     CommitMessageAdd(RuleText(rule), username), f.sha);
  }

  /** The defect of `replace` as written: when the file changed after the
      value was entered so that the stored index now holds a different
      rule with a policy, that other rule loses its policy and the rule the
      user confirmed is not touched. */
  lemma {:induction false} StaleIndexEditsAnotherRule(data: FormData, rule: Rule, username: Option<string>, timestamp: string, f: FileData)
    requires Describes(data, rule)
    requires data.existingIdx.Some?
    requires var lines := Parse(f.text); var i := data.existingIdx.value;
             i < |lines| && IsRule(lines[i]) && !Matches(lines[i], rule.ty, rule.value) && lines[i].rule.value.policy.Some?
    ensures var lines := Parse(f.text); var i := data.existingIdx.value;
            var r := OnConfirmAsWritten(ReplaceAction, data, username, timestamp, Done(f));
            r.Commit? && r.newLines[i] != lines[i]
            && (forall j :: 0 <= j < |lines| && j != i ==> r.newLines[j] == lines[j])
  {
    var lines := Parse(f.text);
    var i := data.existingIdx.value;
    PrepareReady(ReplaceAction, data, rule, f);
    var r := OnConfirmAsWritten(ReplaceAction, data, username, timestamp, Done(f));
    assert r == Commit(ClearPolicy(lines, i), CommitMessageAdd(RuleText(rule), username), f.sha);
    assert lines[i].rule.value.policy != None;
  }

  /** The other face of the same defect: a stored index that now holds a
      comment makes `clear_policy` assert, and the handler raises. */
  lemma {:induction false} StaleIndexTripsAssert(data: FormData, rule: Rule, username: Option<string>, timestamp: string, f: FileData)
    requires Describes(data, rule)
    requires data.existingIdx.Some? && data.existingIdx.value < |Parse(f.text)|
    requires !IsRule(Parse(f.text)[data.existingIdx.value])
    ensures OnConfirmAsWritten(ReplaceAction, data, username, timestamp, Done(f)) == AssertionTripped
  {
  }

  /** When the stored index is still the rule's first line, as it is when
      nobody else edited the file, both versions commit the same edit. */
  lemma {:induction false} FreshIndexAgrees(data: FormData, rule: Rule, username: Option<string>, timestamp: string, f: FileData)
    requires Describes(data, rule)
    requires data.existingIdx == FindRule(Parse(f.text), rule.ty, rule.value)
    ensures OnConfirmAsWritten(ReplaceAction, data, username, timestamp, Done(f))
            == OnConfirm(ReplaceAction, data, username, timestamp, Done(f))
  {
  }

  /** The handlers pass the username as the author's name and no e-mail,
      so on a store that has sent no PUT yet, none of the PUTs a handler's
      commit sends, first attempt or resend, carries an author. */
  lemma {:induction false} HandlerPutsHaveNoAuthor(respond: nat -> Response, log: seq<Request>, text: string,
                                                   message: string, branch: string, username: Option<string>,
                                                   sha: string, retry: nat)
    requires forall i :: 0 <= i < |log| ==> log[i].Get?
    ensures var sent := CommitRun(respond, log, Edit(text, message, branch, AuthorOf(username, None)), sha, retry).log;
            forall i :: 0 <= i < |sent| && sent[i].Put? ==> sent[i].payload.author == None
  {
    var e := Edit(text, message, branch, AuthorOf(username, None));
    assert PutsCarry(log, e);
    CommitResendsSameText(respond, log, e, sha, retry);
  }

  /** A rule added by the dialogue is soft-deleted cleanly: its "# Added:"
      marker is recognised, replaced by the removal note or dropped, and
      nothing before it changes. */
  lemma {:induction false} AddedRuleDeletesCleanly(lines: seq<Line>, rule: Rule, username: Option<string>, timestamp: string,
                                removed: Option<string>)
    ensures SoftDelete(AddRule(lines, rule, AddedComment(username, timestamp)), |lines| + 1, removed)
            == lines + DeletedBlock(rule, removed)
  {
    var added := AddRule(lines, rule, AddedComment(username, timestamp));
    AddedCommentIsMarker(username, timestamp);
    assert HasMarkerAbove(added, |lines| + 1);
    assert added[..|lines|] == lines;
    assert added[|lines| + 2..] == [];
  }
}
