/** The /normalize command (bot/handlers/normalize.py): fetch the file,
    render its parse, and commit the result only when it differs. */
module NormalizeCommand {
  import opened Wrappers
  import opened RulesFile
  import opened GitHubStore

  const NormalizeMessage := "Normalize: drop policy column"

  /** What the command does once the file is fetched. */
  datatype Plan = AlreadyNormalized | CommitText(text: string)

  /** `new_text = render_lines(parse_text(text))`, committed only if it is
      not the text itself. */
  function PlanFor(text: string): (p: Plan)
    ensures p == AlreadyNormalized <==> Render(Parse(text)) == text
    ensures p.CommitText? ==> p.text == Render(Parse(text)) && p.text != text
  {
    var candidate := Render(Parse(text));
    if candidate == text then AlreadyNormalized else CommitText(candidate)
  }

  /** Normalizing is idempotent: once the normalized text is committed, the
      next run finds nothing to do. */
  lemma {:induction false} NormalizeConverges(text: string)
    ensures PlanFor(Render(Parse(text))) == AlreadyNormalized
  {
    RenderParseIdempotent(text);
  }

  /** The text a commit carries is always already normalized. */
  lemma {:induction false} CommittedTextIsNormal(text: string)
    requires PlanFor(text).CommitText?
    ensures PlanFor(PlanFor(text).text) == AlreadyNormalized
  {
    NormalizeConverges(text);
  }

  /** The replies of the command. */
  datatype Reply = Normalized | AlreadyNormal | NormalizeFailed

  /** `normalize_config`: one `fetch()`, then at most one `commit(...)`
      with the fixed message, the user's name as the author name but no
      author e-mail (so no author), and the fetched sha as base;
      any exception from either gives the failure reply, with no retry at
      this level. */
  method NormalizeConfig(store: GitHubFileStore, username: Option<string>) returns (reply: Reply)
    modifies store
    ensures var f := FetchRun(store.respond, old(store.log), 2);
            f.outcome.Failed? ==> reply == NormalizeFailed && store.log == f.log
    ensures var f := FetchRun(store.respond, old(store.log), 2);
            f.outcome.Done? && PlanFor(f.outcome.value.text) == AlreadyNormalized ==>
              reply == AlreadyNormal && store.log == f.log
    ensures var f := FetchRun(store.respond, old(store.log), 2);
            f.outcome.Done? && PlanFor(f.outcome.value.text).CommitText? ==>
              var c := CommitRun(store.respond, f.log,
                                 Edit(PlanFor(f.outcome.value.text).text, NormalizeMessage, store.branch, None),
                                 f.outcome.value.sha, 2);
              store.log == c.log && (reply == Normalized <==> c.outcome.Done?)
              && (reply != Normalized ==> reply == NormalizeFailed)
  {
    var fetched := store.Fetch(2);
    if fetched.Failed? {
      return NormalizeFailed;
    }
    match PlanFor(fetched.value.text)
    case AlreadyNormalized =>
      reply := AlreadyNormal;
    case CommitText(newText) =>
      var resp := store.Commit(newText, NormalizeMessage, username, None, fetched.value.sha, 2);
      reply := if resp.Done? then Normalized else NormalizeFailed;
  }
}
