/** The create/update command and the execute command as the sequences of effects they are
    (secrets/common/handler.go, secrets/execute/execute.go). Every effect is a step of the
    protocol, so what holds of all its runs holds of these. */
module SecretsCommands {
  import opened Text
  import opened Hex
  import opened Codec
  import opened GatewayRetry
  import opened SecretsProtocol

  function Copies(n: nat, pid: nat, req: Request): (posts: seq<Post>)
    ensures |posts| == n && forall i | 0 <= i < n :: posts[i] == SecretsProtocol.Post(pid, req)
  {
    seq(n, _ => SecretsProtocol.Post(pid, req))
  }

  /** From st0 on, n attempts were sent, and nothing else changed but the state of the process. */
  ghost predicate Sent(st0: State, st: State, pid: nat, req: Request, n: nat, p: Proc) {
    st == st0.(posted := st0.posted + Copies(n, pid, req), procs := st0.procs[pid := p])
  }

  lemma SendOne(protocol: Protocol, st0: State, st: State, pid: nat, req: Request, n: nat, retry: bool)
    requires Sent(st0, st, pid, req, n, Posting(req, n))
    ensures Sent(st0, protocol.Apply(st, Send(pid, retry)), pid, req, n + 1,
                 if retry && n + 1 < ATTEMPTS then Posting(req, n + 1) else Done)
  {
    assert Copies(n + 1, pid, req) == Copies(n, pid, req) + [SecretsProtocol.Post(pid, req)];
    assert st0.procs[pid := Posting(req, n)][pid := Done] == st0.procs[pid := Done];
  }

  /** The digest field of the bundle is the text of a digest that is allowlisted. */
  ghost predicate Allows(allow: set<Digest>, b: Bundle) {
    exists d | d in allow :: IsDigestText(b.digestHex, d)
  }

  lemma AllowsExactly(allow: set<Digest>, b: Bundle)
    ensures Allows(allow, b) <==> HexToBytes32(b.digestHex).Some? && HexToBytes32(b.digestHex).value in allow
  {
    var d := HexToBytes32(b.digestHex);
    if d.Some? {
      HexToBytes32Exactly(b.digestHex, d.value);
    }
    forall d | d in allow ensures HexToBytes32(b.digestHex) == Some(d) <==> IsDigestText(b.digestHex, d) {
      HexToBytes32Exactly(b.digestHex, d);
    }
  }

  /** So many attempts are made when these answers come: one and then another after each answer that is
      worth a retry, up to five. */
  ghost predicate Attempted(answers: nat -> Answer, hint: string -> bool, sent: nat) {
    && 1 <= sent <= ATTEMPTS
    && (forall k | 0 <= k < sent - 1 :: Retryable(answers(k), hint))
    && (sent < ATTEMPTS ==> !Retryable(answers(sent - 1), hint))
  }

  /** The chain, the disk, the processes and the gateway, with the steps that led here. */
  class World {
    const protocol: Protocol
    ghost const start: State
    ghost var trace: seq<Step>
    var st: State

    ghost predicate Valid()
      reads this
    {
      protocol.Valid() && st == protocol.After(start, trace, |trace|)
    }

    constructor (protocol: Protocol, st: State)
      requires protocol.Valid()
      ensures Valid() && this.protocol == protocol && this.st == st && start == st && trace == []
    {
      this.protocol := protocol;
      this.st := st;
      start := st;
      trace := [];
    }

    method Do(step: Step)
      requires Valid()
      modifies this
      ensures Valid() && st == protocol.Apply(old(st), step) && trace == old(trace) + [step]
    {
      st := protocol.Apply(st, step);
      protocol.AfterIgnoresLater(start, trace, step, |trace|);
      trace := trace + [step];
    }

    /** One gateway POST with its retries. Each attempt is logged once, so between one and five
        copies are sent; an attempt whose transport failed need not have reached the gateway. */
    method GatewayPost(pid: nat, answers: nat -> Answer, hint: string -> bool) returns (ok: bool, sent: nat)
      requires Valid() && pid in st.procs && st.procs[pid].Posting? && st.procs[pid].sent == 0
      modifies this
      ensures Valid() && old(trace) <= trace
      ensures Attempted(answers, hint, sent)
      ensures Sent(old(st), st, pid, old(st.procs[pid].req), sent, Done)
      ensures ok <==> Succeeds(answers(sent - 1))
    {
      ghost var req := st.procs[pid].req;
      var _, _, answered, attempts := GatewayRetry.Post(0, answers, hint);
      sent := 0;
      while sent < attempts
        invariant Valid() && old(trace) <= trace
        invariant 0 <= sent <= attempts <= ATTEMPTS
        invariant Sent(old(st), st, pid, req, sent, if sent < attempts then Posting(req, sent) else Done)
      {
        SendOne(protocol, old(st), st, pid, req, sent, sent + 1 < attempts);
        Do(Send(pid, sent + 1 < attempts));
        sent := sent + 1;
      }
      ok := answered;
    }

    /** The POST of a process that is free to send this request. */
    method PostRequest(pid: nat, req: Request, answers: nat -> Answer, hint: string -> bool)
      returns (ok: bool, sent: nat)
      requires Valid() && pid in st.procs && st.procs[pid] == Posting(req, 0)
      modifies this
      ensures Valid() && old(trace) <= trace
      ensures Attempted(answers, hint, sent)
      ensures st.posted == old(st).posted + Copies(sent, pid, req)
      ensures st.procs == old(st).procs[pid := Done] && st.disk == old(st).disk && st.allow == old(st).allow
      ensures ok <==> Succeeds(answers(sent - 1))
    {
      ok, sent := GatewayPost(pid, answers, hint);
    }

    /** The question whether the digest is allowlisted. */
    method AskChain(pid: nat, req: Request, tx: TxType, queryOk: bool)
      requires Valid() && pid !in st.procs && (req.verb == Create || req.verb == Update)
      modifies this
      ensures Valid() && old(trace) <= trace
      ensures st == protocol.Set(old(st), pid,
                                 if !queryOk then Done
                                 else if protocol.digest(req) in old(st).allow then Posting(req, 0)
                                 else NeedsTx(req, tx))
    {
      Do(Begin(pid, req, tx));
      Do(Query(pid, queryOk));
      assert old(st).procs[pid := Built(req, tx)][pid := st.procs[pid]] == old(st).procs[pid := st.procs[pid]];
    }

    /** The allowlist transaction of a request that is not allowlisted, and the bundle when the
        transaction was only prepared. */
    method Transact(pid: nat, req: Request, tx: TxType, outcome: TxOutcome, saveOk: bool)
      requires Valid() && pid in st.procs && st.procs[pid] == NeedsTx(req, tx)
      modifies this
      ensures Valid() && old(trace) <= trace
      ensures st.posted == old(st).posted
      ensures st.procs == old(st).procs[pid := if tx == Regular && outcome == Validated then Posting(req, 0) else Done]
      ensures st.disk == if tx in {Raw, Changeset} && outcome == Prepared && saveOk
                         then old(st).disk[protocol.Filename(req) := protocol.BundleOf(req)] else old(st).disk
      ensures st.allow == if tx == Regular && (outcome == Validated || outcome == MinedUnvalidated(true))
                          then old(st).allow + {protocol.digest(req)} else old(st).allow
    {
      Do(RunTx(pid, outcome));
      if st.procs[pid].NeedsSave? {
        Do(Save(pid, saveOk));
        assert old(st).procs[pid := NeedsSave(req)][pid := Done] == old(st).procs[pid := Done];
      }
    }

    /** create and update up to the POST: whether the process may go on to it. */
    method Authorise(pid: nat, req: Request, tx: TxType, queryOk: bool, outcome: TxOutcome, saveOk: bool)
      returns (ready: bool)
      requires Valid() && pid !in st.procs && (req.verb == Create || req.verb == Update)
      modifies this
      ensures Valid() && old(trace) <= trace
      ensures ready <==> queryOk && (protocol.digest(req) in old(st).allow || (tx == Regular && outcome == Validated))
      ensures st.posted == old(st).posted
      ensures st.procs == old(st).procs[pid := if ready then Posting(req, 0) else Done]
      ensures Recorded(old(st), st, req, tx, queryOk, outcome, saveOk)
    {
      AskChain(pid, req, tx, queryOk);
      ghost var asked := st;
      if st.procs[pid].NeedsTx? {
        Transact(pid, req, tx, outcome, saveOk);
      }
      ready := st.procs[pid].Posting?;
      assert old(st).procs[pid := asked.procs[pid]][pid := st.procs[pid]] == old(st).procs[pid := st.procs[pid]];
    }

    /** What create and update leave on disk and on chain. */
    ghost predicate Recorded(st0: State, st1: State, req: Request, tx: TxType, queryOk: bool, outcome: TxOutcome,
                             saveOk: bool)
    {
      var unlisted := queryOk && protocol.digest(req) !in st0.allow;
      && st1.disk == (if unlisted && tx in {Raw, Changeset} && outcome == Prepared && saveOk
                      then st0.disk[protocol.Filename(req) := protocol.BundleOf(req)] else st0.disk)
      && st1.allow == if unlisted && tx == Regular && (outcome == Validated || outcome == MinedUnvalidated(true))
                      then st0.allow + {protocol.digest(req)} else st0.allow
    }

    /** create and update. The request posts exactly when the query succeeds and the digest was
        allowlisted already or this run's Regular transaction is validated; a bundle is written exactly
        when the digest is not allowlisted and the transaction is only prepared. */
    method Upsert(pid: nat, req: Request, tx: TxType, queryOk: bool, outcome: TxOutcome, saveOk: bool,
                  answers: nat -> Answer, hint: string -> bool)
      returns (posts: bool, sent: nat, ok: bool)
      requires Valid() && pid !in st.procs && (req.verb == Create || req.verb == Update)
      modifies this
      ensures Valid() && old(trace) <= trace
      ensures posts <==> queryOk && (protocol.digest(req) in old(st).allow || (tx == Regular && outcome == Validated))
      ensures st.posted == old(st).posted + Copies(sent, pid, req)
      ensures if posts then Attempted(answers, hint, sent) else sent == 0
      ensures ok <==> posts && Succeeds(answers(sent - 1))
      ensures st.procs == old(st).procs[pid := Done]
      ensures Recorded(old(st), st, req, tx, queryOk, outcome, saveOk)
    {
      posts := Authorise(pid, req, tx, queryOk, outcome, saveOk);
      sent, ok := 0, false;
      if posts {
        ok, sent := PostRequest(pid, req, answers, hint);
        assert old(st).procs[pid := Posting(req, 0)][pid := Done] == old(st).procs[pid := Done];
      } else {
        assert Copies(0, pid, req) == [] && st.posted + [] == st.posted;
      }
    }

    /** execute up to the POST: the question about the digest field of a bundle that loads. */
    method AskAboutBundle(pid: nat, path: string, b: Bundle, queryOk: bool) returns (ready: bool)
      requires Valid() && pid !in st.procs && path in st.disk && st.disk[path] == b && Complete(b)
      modifies this
      ensures Valid() && old(trace) <= trace
      ensures ready <==> queryOk && Allows(old(st).allow, b)
      ensures st.posted == old(st).posted && st.disk == old(st).disk && st.allow == old(st).allow
      ensures pid in st.procs && st.procs[pid] == if ready then Posting(b.body, 0) else Done
    {
      AllowsExactly(st.allow, b);
      Do(BeginExecute(pid, path));
      Do(Query(pid, queryOk));
      ready := st.procs[pid].Posting?;
    }

    /** execute once the bundle is loaded. */
    method ExecuteLoaded(pid: nat, path: string, b: Bundle, queryOk: bool, answers: nat -> Answer,
                         hint: string -> bool)
      returns (posts: bool, sent: nat, ok: bool)
      requires Valid() && pid !in st.procs && path in st.disk && st.disk[path] == b && Complete(b)
      modifies this
      ensures Valid() && old(trace) <= trace
      ensures posts <==> queryOk && Allows(old(st).allow, b)
      ensures posts ==> st.posted == old(st).posted + Copies(sent, pid, b.body)
      ensures posts ==> Attempted(answers, hint, sent) && (ok <==> Succeeds(answers(sent - 1)))
      ensures !posts ==> st.posted == old(st).posted && sent == 0 && !ok
      ensures st.disk == old(st).disk && st.allow == old(st).allow
    {
      posts := AskAboutBundle(pid, path, b, queryOk);
      if !posts {
        return posts, 0, false;
      }
      ok, sent := PostRequest(pid, b.body, answers, hint);
    }

    /** execute: loads a bundle, asks about its digest and posts the request saved in it. */
    method ExecuteBundle(pid: nat, path: string, queryOk: bool, answers: nat -> Answer, hint: string -> bool)
      returns (posts: bool, sent: nat, ok: bool)
      requires Valid() && pid !in st.procs
      modifies this
      ensures Valid() && old(trace) <= trace
      ensures posts <==> && queryOk && path in old(st).disk && Complete(old(st).disk[path])
                         && Allows(old(st).allow, old(st).disk[path])
      ensures posts ==> st.posted == old(st).posted + Copies(sent, pid, old(st).disk[path].body)
      ensures posts ==> Attempted(answers, hint, sent) && (ok <==> Succeeds(answers(sent - 1)))
      ensures !posts ==> st.posted == old(st).posted && sent == 0 && !ok
      ensures st.disk == old(st).disk && st.allow == old(st).allow
    {
      posts, sent, ok := false, 0, false;
      if path in st.disk && Complete(st.disk[path]) {
        posts, sent, ok := ExecuteLoaded(pid, path, st.disk[path], queryOk, answers, hint);
      }
    }
  }
}
