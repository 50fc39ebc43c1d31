/** The GitHub contents store (bot/services/github_store.py): `fetch` and
    `commit` as retry procedures over an abstract server. The k-th request
    the store sends gets the answer `respond(k)`; the store records every
    request it sends. Network, timers, logging, metrics and base64 are left
    out: the payload carries the text itself where the code sends its
    base64 form. */
module GitHubStore {
  import opened Wrappers
  import opened Strings
  import opened RulesFile

  /** The decoded JSON body of a successful reply: the file's blob sha and
      its text. */
  datatype FileData = FileData(sha: string, text: string)

  /** An answer to one request: a transport failure (an exception before
      any status), or a status with a body that is None when it cannot be
      decoded. */
  datatype Response = TransportError | Reply(status: nat, body: Option<FileData>)

  datatype Author = Author(name: string, email: string)

  /** The JSON of a PUT; `author` is present together with the fixed bot
      committer. */
  datatype Payload = Payload(message: string, content: string, branch: string, sha: string, author: Option<Author>)

  datatype Request = Get | Put(payload: Payload)

  /** A procedure's result: the returned value, or an exception raised to
      the caller. */
  datatype Outcome<T> = Done(value: T) | Failed

  /** What a call returns, with the store's request log after it: the log
      before the call followed by every request the call sent. */
  datatype Run = Run(outcome: Outcome<FileData>, log: seq<Request>)

  /** A reply `raise_for_status` accepts and whose body decodes. */
  predicate Succeeds(resp: Response) {
    resp.Reply? && resp.status < 400 && resp.body.Some?
  }

  predicate ServerError(resp: Response) {
    resp.Reply? && resp.status >= 500
  }

  /** The replies on which `commit` refetches and resends. */
  predicate Retryable(resp: Response) {
    resp.Reply? && (resp.status == 409 || resp.status >= 500)
  }

  /** `b` is `a` followed by more requests. */
  predicate Extends(a: seq<Request>, b: seq<Request>) {
    |a| <= |b| && b[..|a|] == a
  }

  lemma {:induction false} ExtendsTrans(a: seq<Request>, b: seq<Request>, c: seq<Request>)
    requires Extends(a, b) && Extends(b, c)
    ensures Extends(a, c)
  {
    assert c[..|a|] == c[..|b|][..|a|];
  }

  /** `b` is `a` followed by GETs only. */
  predicate GetsAfter(a: seq<Request>, b: seq<Request>) {
    Extends(a, b) && forall i :: |a| <= i < |b| ==> b[i] == Get
  }

  lemma {:induction false} GetsAfterTrans(a: seq<Request>, b: seq<Request>, c: seq<Request>)
    requires GetsAfter(a, b) && GetsAfter(b, c)
    ensures GetsAfter(a, c)
  {
    ExtendsTrans(a, b, c);
    forall i | |a| <= i < |c| ensures c[i] == Get {
      if i < |b| {
        assert c[i] == c[..|b|][i];
      }
    }
  }

  // -----------------------------------------------------------------------
  // fetch

  /** `fetch(retry)` on a store whose log is `log`: the body of the `try`,
      then the `except` clause, which retries once more when the `try`
      raised and retries are left. */
  function FetchRun(respond: nat -> Response, log: seq<Request>, retry: nat): (r: Run)
    ensures |r.log| > |log|
    decreases retry, 1
  {
    var inner := FetchTry(respond, log, retry);
    if inner.outcome.Failed? && retry > 0 then FetchRun(respond, inner.log, retry - 1)
    else inner
  }

  /** The `try` block of `fetch(retry)`: one GET; a 5xx with retries left
      calls `fetch(retry - 1)` from inside the block, so when that call
      raises the enclosing `except` retries again. Any other failure
      (transport, 4xx, 5xx with no retries left, an undecodable body)
      raises. */
  function FetchTry(respond: nat -> Response, log: seq<Request>, retry: nat): (r: Run)
    ensures |r.log| > |log|
    decreases retry, 0
  {
    var resp := respond(|log|);
    var sent := log + [Get];
    if ServerError(resp) && retry > 0 then FetchRun(respond, sent, retry - 1)
    else if Succeeds(resp) then Run(Done(resp.body.value), sent)
    else Run(Failed, sent)
  }

  /** `fetch` only reads: it appends GETs and nothing else to the log. */
  lemma {:induction false} FetchOnlyGets(respond: nat -> Response, log: seq<Request>, retry: nat)
    ensures GetsAfter(log, FetchRun(respond, log, retry).log)
    decreases retry, 1
  {
    var inner := FetchTry(respond, log, retry);
    FetchTryOnlyGets(respond, log, retry);
    if inner.outcome.Failed? && retry > 0 {
      FetchOnlyGets(respond, inner.log, retry - 1);
      GetsAfterTrans(log, inner.log, FetchRun(respond, inner.log, retry - 1).log);
    }
  }

  lemma {:induction false} FetchTryOnlyGets(respond: nat -> Response, log: seq<Request>, retry: nat)
    ensures GetsAfter(log, FetchTry(respond, log, retry).log)
    decreases retry, 0
  {
    var sent := log + [Get];
    assert GetsAfter(log, sent) by {
      assert sent[..|log|] == log;
    }
    if ServerError(respond(|log|)) && retry > 0 {
      FetchOnlyGets(respond, sent, retry - 1);
      GetsAfterTrans(log, sent, FetchRun(respond, sent, retry - 1).log);
    }
  }

  /** The number of GETs `fetch(retry)` sends when every reply is a 5xx. */
  function ServerErrorAttempts(retry: nat): nat {
    if retry == 0 then 1 else 1 + 2 * ServerErrorAttempts(retry - 1)
  }

  ghost predicate AllServerErrors(respond: nat -> Response) {
    forall j :: ServerError(respond(j))
  }

  /** Against a server that only answers 5xx, `fetch(retry)` sends
      1 + 2 * (what `fetch(retry - 1)` sends) requests and raises. */
  lemma {:induction false} FetchServerErrorBlowUp(respond: nat -> Response, log: seq<Request>, retry: nat)
    requires AllServerErrors(respond)
    ensures FetchRun(respond, log, retry).outcome == Failed
    ensures |FetchRun(respond, log, retry).log| == |log| + ServerErrorAttempts(retry)
    decreases retry
  {
    assert ServerError(respond(|log|));
    if retry > 0 {
      var sent := log + [Get];
      FetchServerErrorBlowUp(respond, sent, retry - 1);
      var inner := FetchRun(respond, sent, retry - 1);
      assert FetchTry(respond, log, retry) == inner;
      FetchServerErrorBlowUp(respond, inner.log, retry - 1);
    }
  }

  /** With the default of two retries that is seven requests. */
  lemma {:induction false} DefaultFetchServerErrors(respond: nat -> Response, log: seq<Request>)
    requires AllServerErrors(respond)
    ensures |FetchRun(respond, log, 2).log| == |log| + 7
  {
    FetchServerErrorBlowUp(respond, log, 2);
  }

  /** A failure that is not a 5xx. */
  predicate PlainFailure(resp: Response) {
    !Succeeds(resp) && !ServerError(resp)
  }

  /** Against persistent transport errors, 4xx or undecodable bodies,
      `fetch(retry)` makes retry + 1 attempts and raises. */
  lemma {:induction false} FetchPlainFailures(respond: nat -> Response, log: seq<Request>, retry: nat)
    requires forall j :: PlainFailure(respond(j))
    ensures FetchRun(respond, log, retry).outcome == Failed
    ensures |FetchRun(respond, log, retry).log| == |log| + retry + 1
    decreases retry
  {
    assert PlainFailure(respond(|log|));
    if retry > 0 {
      FetchPlainFailures(respond, log + [Get], retry - 1);
    }
  }

  /** No run of `fetch(retry)` sends more requests than the all-5xx one. */
  lemma {:induction false} FetchAttemptsBound(respond: nat -> Response, log: seq<Request>, retry: nat)
    ensures |FetchRun(respond, log, retry).log| <= |log| + ServerErrorAttempts(retry)
    decreases retry
  {
    if retry > 0 {
      var inner := FetchTry(respond, log, retry);
      FetchAttemptsBound(respond, log + [Get], retry - 1);
      assert |inner.log| <= |log| + 1 + ServerErrorAttempts(retry - 1);
      FetchAttemptsBound(respond, inner.log, retry - 1);
    }
  }

  /** A first reply that succeeds is returned after one request. */
  lemma {:induction false} FetchFirstSuccess(respond: nat -> Response, log: seq<Request>, retry: nat)
    requires Succeeds(respond(|log|))
    ensures FetchRun(respond, log, retry) == Run(Done(respond(|log|).body.value), log + [Get])
  {
  }

  // -----------------------------------------------------------------------
  // commit

  /** `author` and `committer` are added iff both name and email are
      truthy. */
  function AuthorOf(name: Option<string>, email: Option<string>): (a: Option<Author>)
    ensures a.Some? <==> Truthy(name) && Truthy(email)
    ensures a.Some? ==> a.value == Author(name.value, email.value)
  {
    if Truthy(name) && Truthy(email) then Some(Author(name.value, email.value)) else None
  }

  /** What every PUT of one `commit` call shares: the new text, the
      message, the branch and the author. */
  datatype Edit = Edit(text: string, message: string, branch: string, author: Option<Author>)

  function PutOf(e: Edit, sha: string): Request {
    Put(Payload(e.message, e.text, e.branch, sha, e.author))
  }

  /** `commit(...)` on base `sha`: one PUT; on 409 or 5xx with retries
      left, the refetch and resend of `Resend`. */
  function CommitRun(respond: nat -> Response, log: seq<Request>, e: Edit, sha: string, retry: nat): (r: Run)
    ensures |r.log| > |log|
    decreases retry, 0
  {
    var resp := respond(|log|);
    var sent := log + [PutOf(e, sha)];
    if Retryable(resp) && retry > 0 then Resend(respond, sent, e, retry - 1)
    else if Succeeds(resp) then Run(Done(resp.body.value), sent)
    else Run(Failed, sent)
  }

  /** `latest = await self.fetch()` with its default two retries, then
      `commit` of the same edit on `latest["sha"]`; a failing fetch raises
      out of `commit`. */
  function Resend(respond: nat -> Response, log: seq<Request>, e: Edit, retry: nat): (r: Run)
    ensures |r.log| > |log|
    decreases retry, 1
  {
    var latest := FetchRun(respond, log, 2);
    match latest.outcome
    case Failed => latest
    case Done(f) => CommitRun(respond, latest.log, e, f.sha, retry)
  }

  /** `commit` only appends to the log. */
  lemma {:induction false} CommitExtends(respond: nat -> Response, log: seq<Request>, e: Edit, sha: string, retry: nat)
    ensures Extends(log + [PutOf(e, sha)], CommitRun(respond, log, e, sha, retry).log)
    decreases retry, 0
  {
    var sent := log + [PutOf(e, sha)];
    if Retryable(respond(|log|)) && retry > 0 {
      ResendExtends(respond, sent, e, retry - 1);
    }
  }

  lemma {:induction false} ResendExtends(respond: nat -> Response, log: seq<Request>, e: Edit, retry: nat)
    ensures Extends(log, Resend(respond, log, e, retry).log)
    decreases retry, 1
  {
    var latest := FetchRun(respond, log, 2);
    FetchOnlyGets(respond, log, 2);
    if latest.outcome.Done? {
      var sha := latest.outcome.value.sha;
      CommitExtends(respond, latest.log, e, sha, retry);
      var sent := latest.log + [PutOf(e, sha)];
      assert Extends(latest.log, sent) by {
        assert sent[..|latest.log|] == latest.log;
      }
      ExtendsTrans(latest.log, sent, CommitRun(respond, latest.log, e, sha, retry).log);
      ExtendsTrans(log, latest.log, CommitRun(respond, latest.log, e, sha, retry).log);
    }
  }

  /** The first request of `commit` is the PUT on its base sha. */
  lemma {:induction false} CommitFirstPut(respond: nat -> Response, log: seq<Request>, e: Edit, sha: string, retry: nat)
    ensures var r := CommitRun(respond, log, e, sha, retry).log;
            |r| > |log| && r[|log|] == PutOf(e, sha)
  {
    var sent := log + [PutOf(e, sha)];
    CommitExtends(respond, log, e, sha, retry);
    var r := CommitRun(respond, log, e, sha, retry).log;
    assert r[|log|] == r[..|sent|][|log|];
  }

  /** The number of PUTs among some requests. */
  function PutCount(reqs: seq<Request>): (n: nat)
    ensures n <= |reqs|
  {
    if reqs == [] then 0 else (if reqs[0].Put? then 1 else 0) + PutCount(reqs[1..])
  }

  lemma {:induction false} PutCountAppend(a: seq<Request>, b: seq<Request>)
    ensures PutCount(a + b) == PutCount(a) + PutCount(b)
  {
    if a != [] {
      assert (a + b)[0] == a[0];
      assert (a + b)[1..] == a[1..] + b;
      PutCountAppend(a[1..], b);
    } else {
      assert a + b == b;
    }
  }

  lemma {:induction false} NoPuts(reqs: seq<Request>)
    requires forall i :: 0 <= i < |reqs| ==> reqs[i] == Get
    ensures PutCount(reqs) == 0
  {
    if reqs != [] {
      NoPuts(reqs[1..]);
    }
  }

  /** Appending GETs adds no PUT. */
  lemma {:induction false} GetsKeepPutCount(a: seq<Request>, b: seq<Request>)
    requires GetsAfter(a, b)
    ensures PutCount(b) == PutCount(a)
  {
    var rest := b[|a|..];
    assert b == a + rest;
    NoPuts(rest);
    PutCountAppend(a, rest);
  }

  /** `commit(retry)` sends at most retry + 1 PUTs. */
  lemma {:induction false} CommitPutBound(respond: nat -> Response, log: seq<Request>, e: Edit, sha: string, retry: nat)
    ensures PutCount(CommitRun(respond, log, e, sha, retry).log) <= PutCount(log) + retry + 1
    decreases retry, 0
  {
    var sent := log + [PutOf(e, sha)];
    PutCountAppend(log, [PutOf(e, sha)]);
    assert PutCount([PutOf(e, sha)]) == 1;
    if Retryable(respond(|log|)) && retry > 0 {
      ResendPutBound(respond, sent, e, retry - 1);
    }
  }

  lemma {:induction false} ResendPutBound(respond: nat -> Response, log: seq<Request>, e: Edit, retry: nat)
    ensures PutCount(Resend(respond, log, e, retry).log) <= PutCount(log) + retry + 1
    decreases retry, 1
  {
    var latest := FetchRun(respond, log, 2);
    FetchOnlyGets(respond, log, 2);
    GetsKeepPutCount(log, latest.log);
    if latest.outcome.Done? {
      CommitPutBound(respond, latest.log, e, latest.outcome.value.sha, retry);
    }
  }

  /** Every PUT among the requests carries the edit's text, message,
      branch and author. */
  predicate PutsCarry(reqs: seq<Request>, e: Edit) {
    forall i :: 0 <= i < |reqs| && reqs[i].Put? ==>
      reqs[i].payload.content == e.text && reqs[i].payload.message == e.message
      && reqs[i].payload.branch == e.branch && reqs[i].payload.author == e.author
  }

  lemma {:induction false} PutsCarrySnoc(a: seq<Request>, x: Request, e: Edit)
    requires PutsCarry(a, e) && PutsCarry([x], e)
    ensures PutsCarry(a + [x], e)
  {
    forall i | 0 <= i < |a + [x]| && (a + [x])[i].Put?
      ensures (a + [x])[i].payload.content == e.text && (a + [x])[i].payload.message == e.message
              && (a + [x])[i].payload.branch == e.branch && (a + [x])[i].payload.author == e.author
    {
      if i == |a| {
        assert (a + [x])[i] == [x][0];
      } else {
        assert (a + [x])[i] == a[i];
      }
    }
  }

  lemma {:induction false} GetsKeepPutsCarry(a: seq<Request>, b: seq<Request>, e: Edit)
    requires GetsAfter(a, b) && PutsCarry(a, e)
    ensures PutsCarry(b, e)
  {
    forall i | 0 <= i < |b| && b[i].Put?
      ensures b[i].payload.content == e.text && b[i].payload.message == e.message
              && b[i].payload.branch == e.branch && b[i].payload.author == e.author
    {
      assert i < |a|;
      assert b[i] == b[..|a|][i];
    }
  }

  /** Every PUT of a commit carries the same text, message, branch and
      author: the store resends, it never recomputes the edit. */
  lemma {:induction false} CommitResendsSameText(respond: nat -> Response, log: seq<Request>, e: Edit, sha: string, retry: nat)
    requires PutsCarry(log, e)
    ensures PutsCarry(CommitRun(respond, log, e, sha, retry).log, e)
    decreases retry, 0
  {
    var sent := log + [PutOf(e, sha)];
    PutsCarrySnoc(log, PutOf(e, sha), e);
    if Retryable(respond(|log|)) && retry > 0 {
      ResendSameText(respond, sent, e, retry - 1);
    }
  }

  lemma {:induction false} ResendSameText(respond: nat -> Response, log: seq<Request>, e: Edit, retry: nat)
    requires PutsCarry(log, e)
    ensures PutsCarry(Resend(respond, log, e, retry).log, e)
    decreases retry, 1
  {
    var latest := FetchRun(respond, log, 2);
    FetchOnlyGets(respond, log, 2);
    GetsKeepPutsCarry(log, latest.log, e);
    if latest.outcome.Done? {
      CommitResendsSameText(respond, latest.log, e, latest.outcome.value.sha, retry);
    }
  }

  /** After a 409 or 5xx with retries left and a successful refetch, the
      next PUT carries the sha the refetch returned. */
  lemma {:induction false} CommitResendsOnFreshSha(respond: nat -> Response, log: seq<Request>, e: Edit, sha: string, retry: nat)
    requires Retryable(respond(|log|)) && retry > 0
    requires FetchRun(respond, log + [PutOf(e, sha)], 2).outcome.Done?
    ensures var latest := FetchRun(respond, log + [PutOf(e, sha)], 2);
            var r := CommitRun(respond, log, e, sha, retry).log;
            |r| > |latest.log| && r[|latest.log|] == PutOf(e, latest.outcome.value.sha)
  {
    var latest := FetchRun(respond, log + [PutOf(e, sha)], 2);
    CommitFirstPut(respond, latest.log, e, latest.outcome.value.sha, retry - 1);
  }

  /** Other 4xx, transport errors, and a 409 or 5xx with no retries left
      end the commit after its one PUT, raising. */
  lemma {:induction false} CommitNoRetry(respond: nat -> Response, log: seq<Request>, e: Edit, sha: string, retry: nat)
    requires !Succeeds(respond(|log|)) && (!Retryable(respond(|log|)) || retry == 0)
    ensures CommitRun(respond, log, e, sha, retry) == Run(Failed, log + [PutOf(e, sha)])
  {
  }

  // -----------------------------------------------------------------------
  // fetch and commit as written

  /** `fetch(retry)` as written. `GITHUB_ERRORS` is declared without label
      names (bot/metrics.py:12), so `.labels(operation="fetch")` raises
      `ValueError` on every failure path (github_store.py:48, 53, 61 and
      65), the retrying ones included, before any retry is sent. */
  function FetchRunAsWritten(respond: nat -> Response, log: seq<Request>, retry: nat): (r: Run)
    ensures r.log == log + [Get]
    ensures r.outcome.Done? <==> Succeeds(respond(|log|))
    ensures r.outcome.Done? ==> r.outcome.value == respond(|log|).body.value
  {
    var resp := respond(|log|);
    if Succeeds(resp) then Run(Done(resp.body.value), log + [Get]) else Run(Failed, log + [Get])
  }

  /** On a first reply that succeeds, the code as written and the intended
      retry procedure agree. */
  lemma {:induction false} FetchAsWrittenAgreesOnSuccess(respond: nat -> Response, log: seq<Request>, retry: nat)
    requires Succeeds(respond(|log|))
    ensures FetchRunAsWritten(respond, log, retry) == FetchRun(respond, log, retry)
  {
    FetchFirstSuccess(respond, log, retry);
  }

  /** On a first reply that fails with retries left, the intended `fetch`
      sends a second GET and the code as written sends none. */
  lemma {:induction false} FetchRetriesOnlyAsIntended(respond: nat -> Response, log: seq<Request>, retry: nat)
    requires !Succeeds(respond(|log|)) && retry > 0
    ensures FetchRunAsWritten(respond, log, retry) == Run(Failed, log + [Get])
    ensures |FetchRun(respond, log, retry).log| > |log| + 1
  {
    var sent := log + [Get];
    var inner := FetchTry(respond, log, retry);
    if ServerError(respond(|log|)) {
      assert inner == FetchRun(respond, sent, retry - 1);
      assert |inner.log| > |sent|;
      if inner.outcome.Failed? {
        assert |FetchRun(respond, inner.log, retry - 1).log| > |inner.log|;
      }
    } else {
      assert inner == Run(Failed, sent);
      assert FetchRun(respond, log, retry) == FetchRun(respond, sent, retry - 1);
    }
  }

  /** Against a server that only answers 5xx, the default `fetch()` as
      written raises after one GET, where the intended one sends seven. */
  lemma {:induction false} UnlabelledFetchStopsAtOne(respond: nat -> Response, log: seq<Request>)
    requires AllServerErrors(respond)
    ensures FetchRunAsWritten(respond, log, 2) == Run(Failed, log + [Get])
    ensures |FetchRun(respond, log, 2).log| == |log| + 7
  {
    assert ServerError(respond(|log|));
    DefaultFetchServerErrors(respond, log);
  }

  /** `commit(...)` as written: `.labels(operation="commit")` raises on
      the 5xx, 4xx and exception paths (github_store.py:95, 101 and 107),
      so only a 409 with retries left is resent, after a `fetch()` as
      written; every other failure raises after its one PUT. */
  function CommitRunAsWritten(respond: nat -> Response, log: seq<Request>, e: Edit, sha: string, retry: nat): (r: Run)
    ensures Extends(log + [PutOf(e, sha)], r.log)
    ensures ServerError(respond(|log|)) ==> r == Run(Failed, log + [PutOf(e, sha)])
    ensures Succeeds(respond(|log|)) ==> r == Run(Done(respond(|log|).body.value), log + [PutOf(e, sha)])
    decreases retry
  {
    var resp := respond(|log|);
    var sent := log + [PutOf(e, sha)];
    if resp.Reply? && resp.status == 409 && retry > 0 then
      var latest := FetchRunAsWritten(respond, sent, 2);
      match latest.outcome
      case Failed => latest
      case Done(f) =>
        var r := CommitRunAsWritten(respond, latest.log, e, f.sha, retry - 1);
        var resent := latest.log + [PutOf(e, f.sha)];
        assert Extends(sent, latest.log) by { assert latest.log[..|sent|] == sent; }
        assert Extends(latest.log, resent) by { assert resent[..|latest.log|] == latest.log; }
        ExtendsTrans(latest.log, resent, r.log);
        ExtendsTrans(sent, latest.log, r.log);
        r
    else if Succeeds(resp) then Run(Done(resp.body.value), sent)
    else Run(Failed, sent)
  }

  /** A 5xx to the first PUT, with retries left: the intended commit
      refetches and resends, the code as written raises after the PUT. */
  lemma {:induction false} UnlabelledCommitStopsAtOne(respond: nat -> Response, log: seq<Request>, e: Edit, sha: string, retry: nat)
    requires ServerError(respond(|log|)) && retry > 0
    ensures CommitRunAsWritten(respond, log, e, sha, retry) == Run(Failed, log + [PutOf(e, sha)])
    ensures |CommitRun(respond, log, e, sha, retry).log| > |log| + 1
  {
    assert Retryable(respond(|log|));
    var r := Resend(respond, log + [PutOf(e, sha)], e, retry - 1);
    assert CommitRun(respond, log, e, sha, retry) == r;
  }

  // -----------------------------------------------------------------------
  // the store object

  class GitHubFileStore {
    const branch: string
    /** The server: the answer to the k-th request this store sends. */
    const respond: nat -> Response
    /** Every request sent so far, in order. */
    var log: seq<Request>

    constructor (branch: string, respond: nat -> Response)
      ensures this.branch == branch && this.respond == respond && log == []
    {
      this.branch := branch;
      this.respond := respond;
      log := [];
    }

    method Send(req: Request) returns (resp: Response)
      modifies this
      ensures log == old(log) + [req] && resp == respond(|old(log)|)
    {
      resp := respond(|log|);
      log := log + [req];
    }

    /** `fetch(retry)` */
    method Fetch(retry: nat) returns (r: Outcome<FileData>)
      modifies this
      ensures Run(r, log) == FetchRun(respond, old(log), retry)
      decreases retry, 1
    {
      r := FetchTryBlock(retry);
      if r.Failed? && retry > 0 {
        r := Fetch(retry - 1);
      }
    }

    /** The `try` block of `fetch(retry)`. */
    method FetchTryBlock(retry: nat) returns (r: Outcome<FileData>)
      modifies this
      ensures Run(r, log) == FetchTry(respond, old(log), retry)
      decreases retry, 0
    {
      var resp := Send(Get);
      if ServerError(resp) && retry > 0 {
        r := Fetch(retry - 1);
      } else if Succeeds(resp) {
        r := Done(resp.body.value);
      } else {
        r := Failed;
      }
    }

    /** `commit(new_text, message, author_name, author_email, base_sha, retry)` */
    method Commit(newText: string, message: string, authorName: Option<string>, authorEmail: Option<string>,
                  baseSha: string, retry: nat) returns (r: Outcome<FileData>)
      modifies this
      ensures Run(r, log) == CommitRun(respond, old(log), Edit(newText, message, branch, AuthorOf(authorName, authorEmail)), baseSha, retry)
    {
      var e := Edit(newText, message, branch, AuthorOf(authorName, authorEmail));
      r := CommitEdit(e, baseSha, retry);
    }

    method CommitEdit(e: Edit, sha: string, retry: nat) returns (r: Outcome<FileData>)
      modifies this
      ensures Run(r, log) == CommitRun(respond, old(log), e, sha, retry)
      decreases retry, 0
    {
      var resp := Send(PutOf(e, sha));
      if Retryable(resp) && retry > 0 {
        r := ResendEdit(e, retry - 1);
      } else if Succeeds(resp) {
        r := Done(resp.body.value);
      } else {
        r := Failed;
      }
    }

    /** The refetch and resend after a 409 or 5xx. */
    method ResendEdit(e: Edit, retry: nat) returns (r: Outcome<FileData>)
      modifies this
      ensures Run(r, log) == Resend(respond, old(log), e, retry)
      decreases retry, 1
    {
      var latest := Fetch(2);
      if latest.Failed? {
        r := Failed;
      } else {
        r := CommitEdit(e, latest.value.sha, retry);
      }
    }
  }

  // -----------------------------------------------------------------------
  // messages and markers

  /** `f" by @{username}"` when the name is truthy, else nothing. */
  function ByUser(username: Option<string>): (s: string)
    ensures Truthy(username) ==> s == " by @" + username.value
    ensures !Truthy(username) ==> s == ""
  {
    if Truthy(username) then " by @" + username.value else ""
  }

  function CommitMessageAdd(ruleLine: string, username: Option<string>): (m: string)
    ensures StartsWith(m, "Add rule: " + ruleLine)
    ensures Truthy(username) ==> EndsWith(m, " by @" + username.value)
    ensures !Truthy(username) ==> m == "Add rule: " + ruleLine
  {
    "Add rule: " + ruleLine + ByUser(username)
  }

  function CommitMessageDelete(ruleLine: string, username: Option<string>): (m: string)
    ensures StartsWith(m, "Delete rule: " + ruleLine)
    ensures Truthy(username) ==> EndsWith(m, " by @" + username.value)
    ensures !Truthy(username) ==> m == "Delete rule: " + ruleLine
  {
    "Delete rule: " + ruleLine + ByUser(username)
  }

  /** `@username`, or "unknown". */
  function UserName(username: Option<string>): (s: string)
    ensures s != [] && !IsSpace(s[0])
  {
    if Truthy(username) then "@" + username.value else "unknown"
  }

  /** `added_comment(username, now)`, with `timestamp` the already
      formatted `now.strftime("%Y-%m-%d %H:%M:%S UTC")`. */
  function AddedComment(username: Option<string>, timestamp: string): (c: string)
    ensures StartsWith(c, "# Added: ")
    ensures EndsWith(c, " | User: " + UserName(username))
  {
    "# Added: " + timestamp + " | User: " + UserName(username)
  }

  /** `removed_comment(username, now)` */
  function RemovedComment(username: Option<string>, timestamp: string): (c: string)
    ensures StartsWith(c, "# Removed: ")
    ensures EndsWith(c, " | User: " + UserName(username))
  {
    "# Removed: " + timestamp + " | User: " + UserName(username)
  }

  /** Stripping text whose first character and whose last part's first
      character are not blanks keeps everything before that last part. */
  lemma {:induction false} StripKeepsHead(head: string, rest: string)
    requires head != [] && !IsSpace(head[0]) && rest != [] && !IsSpace(rest[0])
    ensures |Strip(head + rest)| >= |head| && Strip(head + rest)[..|head|] == head
  {
    var s := head + rest;
    assert s[0] == head[0] && s[|head|] == rest[0];
    assert LStrip(s) == s;
    assert s[..|head|] == head;
  }

  /** The comment `add_rule` writes is exactly what `delete_rule` looks for
      above a rule. */
  lemma {:induction false} AddedCommentIsMarker(username: Option<string>, timestamp: string)
    ensures IsAddedMarker(Comment(AddedComment(username, timestamp)))
  {
    var head := "# Added: " + timestamp + " | User: ";
    assert head[..8] == AddedPrefix;
    MarkerOfHead(head, UserName(username));
  }

  /** A comment that begins with "# Added:" and whose last part starts
      with a non-blank is a marker. */
  lemma {:induction false} MarkerOfHead(head: string, rest: string)
    requires |head| >= 8 && head[..8] == AddedPrefix
    requires rest != [] && !IsSpace(rest[0])
    ensures IsAddedMarker(Comment(head + rest))
  {
    StripKeepsHead(head, rest);
    var s := Strip(head + rest);
    assert s[..8] == head[..8];
  }

  /** The comment `delete_rule` writes is never taken for an "# Added:"
      marker by a later delete. */
  lemma {:induction false} RemovedCommentIsNotMarker(username: Option<string>, timestamp: string)
    ensures !IsAddedMarker(Comment(RemovedComment(username, timestamp)))
  {
    var head := "# Removed: " + timestamp + " | User: ";
    assert |head| > 2 && head[0] == '#' && head[2] == 'R';
    NotMarkerOfHead(head, UserName(username));
  }

  /** A comment whose third character is not the 'A' of "# Added:", and
      whose last part starts with a non-blank, is no marker. */
  lemma {:induction false} NotMarkerOfHead(head: string, rest: string)
    requires |head| > 2 && !IsSpace(head[0]) && head[2] != 'A'
    requires rest != [] && !IsSpace(rest[0])
    ensures !IsAddedMarker(Comment(head + rest))
  {
    StripKeepsHead(head, rest);
    var s := Strip(head + rest);
    assert s[2] == head[2];
    assert AddedPrefix[2] == 'A';
  }
}
