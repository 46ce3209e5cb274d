/** Registry commands whose transactions are submitted later. A deploy, activate or pause command
    checks the registry when it runs, but an unsigned one only prepares a transaction (deploy.go and
    activate.go, transaction types Raw and Changeset), and a signed one waits to be mined. Checks and
    submissions of any number of commands interleave in any order, and a transaction may never come. */
module RegistryInterleaving {
  import opened Text
  import opened Registry
  import opened RegistryLimits

  /** What a command asks the registry to do, fixed when the command runs. */
  datatype Tx =
    | UpsertTx(req: DeployRequest, status: uint8)
    | ActivateTx(id: string)
    | PauseTx(ids: seq<string>)

  function Effect(rules: Rules, list: seq<Workflow>, tx: Tx): seq<Workflow> {
    match tx
    case UpsertTx(req, status) => Upsert(rules, list, req, status)
    case ActivateTx(id) => ActivateId(list, id, rules.donFamily)
    case PauseTx(ids) => BatchPause(list, ids)
  }

  /** What a command decides on the registry it sees. */
  function Check(rules: Rules, list: seq<Workflow>, cmd: Command): Result<Tx, Refusal> {
    match cmd
    case DeployCmd(req, confirmed) =>
      var j := FindTagged(list, req.name, req.tag);
      if j < |list| then
        if list[j].id == req.id then Err(AlreadyDeployed)
        else if !confirmed then Err(Cancelled)
        else Ok(UpsertTx(req, list[j].status))
      else if !Admitted(rules, list, req) then Err(OverLimit)
      else Ok(UpsertTx(req, ACTIVE))
    case ActivateCmd(name, at) =>
      var page := Page(Named(list, name), 0);
      if !IsLatest(page, at) then Err(NotFound)
      else if page[at].status != PAUSED then Err(NotPaused)
      else if !WithinLimit(ActiveCount(list, rules.donFamily), 1, rules.max) then Err(OverLimit)
      else Ok(ActivateTx(page[at].id))
    case PauseCmd(name) =>
      var found := Named(list, name);
      if found == [] then Err(NotFound)
      else if ActiveIds(found) == [] then Err(NotActive)
      else Ok(PauseTx(ActiveIds(found)))
  }

  /** A check followed at once by its submission is the command as one step. */
  lemma CheckThenEffect(rules: Rules, list: seq<Workflow>, cmd: Command)
    ensures Outcome(rules, list, cmd)
         == match Check(rules, list, cmd)
            case Ok(tx) => Ok(Effect(rules, list, tx))
            case Err(refusal) => Err(refusal)
  {
  }

  /** A prepared transaction and how many submissions there had been when it was checked. */
  datatype Prepared = Prepared(tx: Tx, checkedAt: nat)

  /** stale counts the submissions that came after another submission had intervened between their
      check and them. */
  datatype System = System(list: seq<Workflow>, prepared: seq<Prepared>, submitted: nat, stale: nat)

  datatype Event =
    | Runs(cmd: Command)
    | Submits(k: nat)

  function Next(rules: Rules, sys: System, e: Event): System {
    match e
    case Runs(cmd) =>
      var r := Check(rules, sys.list, cmd);
      if r.Ok? then sys.(prepared := sys.prepared + [Prepared(r.value, sys.submitted)]) else sys
    case Submits(k) =>
      if k >= |sys.prepared| then sys
      else
        var p := sys.prepared[k];
        System(Effect(rules, sys.list, p.tx), sys.prepared[..k] + sys.prepared[k + 1..], sys.submitted + 1,
               sys.stale + if p.checkedAt < sys.submitted then 1 else 0)
  }

  function Reach(rules: Rules, sys: System, events: seq<Event>): System {
    if events == [] then sys
    else Next(rules, Reach(rules, sys, events[..|events| - 1]), events[|events| - 1])
  }

  ghost predicate Initial(rules: Rules, sys: System) {
    && sys.prepared == [] && sys.submitted == 0 && sys.stale == 0
    && InFamily(sys.list, rules.donFamily) && ActiveCount(sys.list, rules.donFamily) <= rules.max
  }

  // ------------------------------------------------------------------ the bound

  /** Whatever happened since its check, a transaction adds at most one active workflow. */
  lemma EffectAddsOne(rules: Rules, list: seq<Workflow>, tx: Tx)
    ensures ActiveCount(Effect(rules, list, tx), rules.donFamily) <= ActiveCount(list, rules.donFamily) + 1
  {
    var d := rules.donFamily;
    match tx
    case UpsertTx(req, status) => UpsertAddsOne(rules, list, req, status);
    case ActivateTx(id) =>
      var j := FindId(list, id);
      if j < |list| {
        CountUpdate(list, j, list[j].(status := ACTIVE, donFamily := d), d);
      }
    case PauseTx(ids) => CountMonotone(list, BatchPause(list, ids), d);
  }

  lemma UpsertAddsOne(rules: Rules, list: seq<Workflow>, req: DeployRequest, status: uint8)
    ensures ActiveCount(Upsert(rules, list, req, status), rules.donFamily) <= ActiveCount(list, rules.donFamily) + 1
  {
    var d := rules.donFamily;
    var j := FindTagged(list, req.name, req.tag);
    CountPaused(list, req.name, d);
    if j < |list| {
      var base := if req.keepAlive || !rules.updatePauses then list else PauseNamed(list, req.name);
      CountUpdate(base, j, list[j].(id := req.id, status := status, donFamily := d), d);
    } else {
      var base := if req.keepAlive then list else PauseNamed(list, req.name);
      CountAppend(base, Workflow(req.id, req.name, req.tag, status, d, req.createdAt), d);
    }
  }

  lemma EffectKeepsFamily(rules: Rules, list: seq<Workflow>, tx: Tx)
    requires InFamily(list, rules.donFamily)
    ensures InFamily(Effect(rules, list, tx), rules.donFamily)
  {
    match tx
    case UpsertTx(req, status) => UpsertKeepsFamily(rules, list, req, status);
    case ActivateTx(id) => ActivationKeepsFamily(list, id, rules.donFamily);
    case PauseTx(ids) => PauseKeepsFamily(list, ids, rules.donFamily);
  }

  /** The count does not grow, or stays within the limit. */
  predicate StaysWithin(rules: Rules, list: seq<Workflow>, list': seq<Workflow>) {
    var n' := ActiveCount(list', rules.donFamily);
    n' <= ActiveCount(list, rules.donFamily) || n' <= rules.max
  }

  /** What a submission on the very registry that was checked adds: nothing once the limit is used
      up, however far it is exceeded, as long as the 32-bit sum does not wrap. */
  lemma {:induction false} CheckedAddsWithinLimit(rules: Rules, list: seq<Workflow>, cmd: Command)
    requires InFamily(list, rules.donFamily) && ActiveCount(list, rules.donFamily) < 0xFFFF_FFFF
    requires Check(rules, list, cmd).Ok?
    ensures StaysWithin(rules, list, Effect(rules, list, Check(rules, list, cmd).value))
  {
    match cmd
    case DeployCmd(req, confirmed) =>
      if Redeploys(list, cmd) {
        RedeployAddsNothing(rules, list, cmd);
      } else {
        RegistrationAdds(rules, list, req);
      }
    case ActivateCmd(_, _) => ActivationAdds(rules, list, cmd);
    case PauseCmd(name) =>
      CountMonotone(list, BatchPause(list, ActiveIds(Named(list, name))), rules.donFamily);
  }

  lemma ActivationAdds(rules: Rules, list: seq<Workflow>, cmd: Command)
    requires cmd.ActivateCmd? && Check(rules, list, cmd).Ok? && ActiveCount(list, rules.donFamily) < 0xFFFF_FFFF
    ensures StaysWithin(rules, list, Effect(rules, list, Check(rules, list, cmd).value))
  {
    EffectAddsOne(rules, list, Check(rules, list, cmd).value);
    WithinLimitExactly(ActiveCount(list, rules.donFamily), 1, rules.max);
  }

  lemma {:induction false} RegistrationAdds(rules: Rules, list: seq<Workflow>, req: DeployRequest)
    requires FindTagged(list, req.name, req.tag) == |list| && Admitted(rules, list, req)
    requires ActiveCount(list, rules.donFamily) < 0xFFFF_FFFF
    ensures StaysWithin(rules, list, Upsert(rules, list, req, ACTIVE))
  {
    var d := rules.donFamily;
    RegistrationCount(rules, list, req);
    CountPaused(list, req.name, d);
    AdmittedAdds(ActiveCount(list, d), ActiveCount(Named(list, req.name), d), rules.max, req.keepAlive,
                 Pending(list, d, req.name, req.keepAlive));
  }

  lemma AdmittedAdds(count: nat, same: nat, max: uint32, keepAlive: bool, pending: uint32)
    requires same <= count < 0xFFFF_FFFF
    requires pending == if !keepAlive && Wrap32(same) >= 1 then 0 else 1
    requires pending == 0 || WithinLimit(count, pending, max)
    ensures var count' := count + 1 - if keepAlive then 0 else same;
            count' <= count || count' <= max
  {
    WithinLimitExactly(count, 1, max);
  }

  lemma {:induction false} RedeployAddsNothing(rules: Rules, list: seq<Workflow>, cmd: Command)
    requires InFamily(list, rules.donFamily) && Redeploys(list, cmd)
    ensures ActiveCount(Effect(rules, list, Check(rules, list, cmd).value), rules.donFamily)
         <= ActiveCount(list, rules.donFamily)
  {
    var req, d := cmd.req, rules.donFamily;
    var j := FindTagged(list, req.name, req.tag);
    var base := if req.keepAlive || !rules.updatePauses then list else PauseNamed(list, req.name);
    assert list[j] in list;
    CountUpdate(base, j, list[j].(id := req.id, donFamily := d), d);
    CountPaused(list, req.name, d);
    NamedCountHolds(list, req.name, j, d);
    assert Effect(rules, list, Check(rules, list, cmd).value) == base[j := list[j].(id := req.id, donFamily := d)];
  }

  /** The transaction is what some command decides on this registry. */
  ghost predicate Current(rules: Rules, list: seq<Workflow>, tx: Tx) {
    exists cmd :: Check(rules, list, cmd) == Ok(tx)
  }

  /** Transactions checked since the last submission are current, and the limit is exceeded by no
      more than the number of stale submissions. */
  ghost predicate Bounded(rules: Rules, sys: System) {
    && InFamily(sys.list, rules.donFamily)
    && (forall p | p in sys.prepared :: p.checkedAt <= sys.submitted)
    && (forall p | p in sys.prepared && p.checkedAt == sys.submitted :: Current(rules, sys.list, p.tx))
    && ActiveCount(sys.list, rules.donFamily) <= rules.max as nat + sys.stale
  }

  lemma SubmissionKeepsBound(rules: Rules, sys: System, p: Prepared)
    requires Bounded(rules, sys) && p in sys.prepared && rules.max as nat + sys.stale < 0xFFFF_FFFF
    ensures var stale := sys.stale + if p.checkedAt < sys.submitted then 1 else 0;
            ActiveCount(Effect(rules, sys.list, p.tx), rules.donFamily) <= rules.max as nat + stale
  {
    if p.checkedAt < sys.submitted {
      EffectAddsOne(rules, sys.list, p.tx);
    } else {
      var cmd :| Check(rules, sys.list, cmd) == Ok(p.tx);
      CheckedAddsWithinLimit(rules, sys.list, cmd);
    }
  }

  lemma NextKeepsBound(rules: Rules, sys: System, e: Event)
    requires Bounded(rules, sys) && rules.max as nat + sys.stale < 0xFFFF_FFFF
    ensures Bounded(rules, Next(rules, sys, e))
  {
    match e
    case Runs(cmd) =>
    case Submits(k) =>
      if k < |sys.prepared| {
        SubmissionKeepsBound(rules, sys, sys.prepared[k]);
        EffectKeepsFamily(rules, sys.list, sys.prepared[k].tx);
      }
  }

  lemma StaleGrows(rules: Rules, sys: System, e: Event)
    ensures sys.stale <= Next(rules, sys, e).stale <= sys.stale + 1
    ensures Next(rules, sys, e).submitted - Next(rules, sys, e).stale >= sys.submitted - sys.stale
  {
  }

  /** Over every interleaving of checks and submissions the active workflows exceed the limit by no
      more than the number of stale submissions. */
  lemma {:induction false} ExcessIsBounded(rules: Rules, sys: System, events: seq<Event>)
    requires Initial(rules, sys) && rules.max as nat + Reach(rules, sys, events).stale < 0xFFFF_FFFF
    ensures Bounded(rules, Reach(rules, sys, events))
    ensures var end := Reach(rules, sys, events);
            ActiveCount(end.list, rules.donFamily) <= rules.max as nat + end.stale
  {
    if events != [] {
      var before := Reach(rules, sys, events[..|events| - 1]);
      StaleGrows(rules, before, events[|events| - 1]);
      ExcessIsBounded(rules, sys, events[..|events| - 1]);
      NextKeepsBound(rules, before, events[|events| - 1]);
    }
  }

  // -------------------------------------------------------- the bound is reached

  /** The newcomer with the number i among different names. */
  function Newcomer(names: nat -> string, i: nat): DeployRequest {
    DeployRequest(names(i), names(i), "tag", false, i)
  }

  ghost predicate Different(names: nat -> string) {
    forall i, j | i != j :: names(i) != names(j)
  }

  /** The first n newcomers as the registry holds them. */
  function Newcomers(names: nat -> string, n: nat, donFamily: string): (list: seq<Workflow>)
    ensures |list| == n
  {
    seq(n, i requires 0 <= i < n => Workflow(names(i), names(i), "tag", ACTIVE, donFamily, i))
  }

  lemma {:induction false} NewcomersCount(names: nat -> string, n: nat, donFamily: string)
    ensures ActiveCount(Newcomers(names, n, donFamily), donFamily) == n
  {
    if n > 0 {
      assert Newcomers(names, n, donFamily)[..n - 1] == Newcomers(names, n - 1, donFamily);
      NewcomersCount(names, n - 1, donFamily);
    }
  }

  lemma {:induction false} NobodyTagged(list: seq<Workflow>, name: string, tag: string)
    requires forall i | 0 <= i < |list| :: list[i].name != name
    ensures FindTagged(list, name, tag) == |list|
  {
    if list != [] {
      NobodyTagged(list[1..], name, tag);
    }
  }

  lemma NewcomerIsNew(names: nat -> string, n: nat, i: nat, donFamily: string)
    requires Different(names) && i >= n
    ensures var list := Newcomers(names, n, donFamily);
            && FindTagged(list, names(i), "tag") == n && Named(list, names(i)) == []
            && PauseNamed(list, names(i)) == list
  {
    var list := Newcomers(names, n, donFamily);
    assert forall k | 0 <= k < n :: list[k].name != names(i);
    NobodyTagged(list, names(i), "tag");
    NobodyNamed(list, names(i));
  }

  lemma NewcomerIsAdmitted(rules: Rules, names: nat -> string, b: nat, i: nat)
    requires Different(names) && b < rules.max && i >= b
    ensures Check(rules, Newcomers(names, b, rules.donFamily), DeployCmd(Newcomer(names, i), true))
         == Ok(UpsertTx(Newcomer(names, i), ACTIVE))
  {
    NewcomersCount(names, b, rules.donFamily);
    NewcomerIsNew(names, b, i, rules.donFamily);
  }

  lemma NewcomerArrives(rules: Rules, names: nat -> string, i: nat)
    requires Different(names)
    ensures Effect(rules, Newcomers(names, i, rules.donFamily), UpsertTx(Newcomer(names, i), ACTIVE))
         == Newcomers(names, i + 1, rules.donFamily)
  {
    NewcomerIsNew(names, i, i, rules.donFamily);
  }

  ghost predicate Reachable(rules: Rules, sys: System, end: System) {
    exists events :: Reach(rules, sys, events) == end
  }

  lemma ReachableNext(rules: Rules, sys: System, mid: System, e: Event)
    requires Reachable(rules, sys, mid)
    ensures Reachable(rules, sys, Next(rules, mid, e))
  {
    var events :| Reach(rules, sys, events) == mid;
    assert (events + [e])[..|events|] == events;
    assert Reach(rules, sys, events + [e]) == Next(rules, mid, e);
  }

  /** The first b newcomers are there; n more were checked before any submission. */
  ghost predicate Checked(rules: Rules, names: nat -> string, b: nat, n: nat, sys: System) {
    && sys.list == Newcomers(names, b, rules.donFamily) && sys.submitted == 0 && sys.stale == 0
    && Waiting(names, b, n, sys.prepared)
  }

  /** The transactions of n newcomers, from the one with the number b on, wait to be submitted. */
  ghost predicate Waiting(names: nat -> string, b: nat, n: nat, prepared: seq<Prepared>) {
    && |prepared| == n
    && forall i | 0 <= i < n :: prepared[i] == Prepared(UpsertTx(Newcomer(names, b + i), ACTIVE), 0)
  }

  lemma AdmissionIsReachable(rules: Rules, names: nat -> string, b: nat, i: nat, sys: System, mid: System)
    requires Different(names) && b < rules.max && i >= b && Reachable(rules, sys, mid)
    requires mid.list == Newcomers(names, b, rules.donFamily)
    ensures Reachable(rules, sys, mid.(prepared := mid.prepared + [Prepared(UpsertTx(Newcomer(names, i), ACTIVE),
                                                                            mid.submitted)]))
  {
    NewcomerIsAdmitted(rules, names, b, i);
    ReachableNext(rules, sys, mid, Runs(DeployCmd(Newcomer(names, i), true)));
  }

  lemma WaitingMore(names: nat -> string, b: nat, n: nat, p: seq<Prepared>)
    requires Waiting(names, b, n, p)
    ensures Waiting(names, b, n + 1, p + [Prepared(UpsertTx(Newcomer(names, b + n), ACTIVE), 0)])
  {
  }

  lemma CheckNext(rules: Rules, names: nat -> string, b: nat, n: nat, sys: System, mid: System) returns (end: System)
    requires Different(names) && b < rules.max && Checked(rules, names, b, n, mid) && Reachable(rules, sys, mid)
    ensures Checked(rules, names, b, n + 1, end) && Reachable(rules, sys, end)
  {
    AdmissionIsReachable(rules, names, b, b + n, sys, mid);
    WaitingMore(names, b, n, mid.prepared);
    end := mid.(prepared := mid.prepared + [Prepared(UpsertTx(Newcomer(names, b + n), ACTIVE), 0)]);
  }

  function Before(rules: Rules, names: nat -> string, b: nat): System {
    System(Newcomers(names, b, rules.donFamily), [], 0, 0)
  }

  /** After k submissions so many newcomers are there, and all but the first submission were stale. */
  ghost predicate Submitted(rules: Rules, names: nat -> string, b: nat, n: nat, k: nat, sys: System)
    requires k <= n
  {
    && sys.list == Newcomers(names, b + k, rules.donFamily)
    && sys.submitted == k && sys.stale == (if k == 0 then 0 else k - 1)
    && Waiting(names, b + k, n - k, sys.prepared)
  }

  lemma WaitingTail(names: nat -> string, b: nat, n: nat, p: seq<Prepared>)
    requires n > 0 && Waiting(names, b, n, p)
    ensures p[0] == Prepared(UpsertTx(Newcomer(names, b), ACTIVE), 0) && Waiting(names, b + 1, n - 1, p[1..])
  {
    assert p[0] == Prepared(UpsertTx(Newcomer(names, b + 0), ACTIVE), 0);
    forall i | 0 <= i < n - 1 ensures p[1..][i] == Prepared(UpsertTx(Newcomer(names, b + 1 + i), ACTIVE), 0) {
      assert p[1..][i] == p[i + 1] && b + (i + 1) == b + 1 + i;
    }
  }

  /** The state after submitting the transaction that waits longest. */
  function AfterFirst(sys: System, list: seq<Workflow>): System
    requires sys.prepared != []
  {
    System(list, sys.prepared[1..], sys.submitted + 1,
           sys.stale + if sys.prepared[0].checkedAt < sys.submitted then 1 else 0)
  }

  lemma FirstSubmission(rules: Rules, sys: System, mid: System)
    requires mid.prepared != [] && Reachable(rules, sys, mid)
    ensures Reachable(rules, sys, AfterFirst(mid, Effect(rules, mid.list, mid.prepared[0].tx)))
  {
    assert mid.prepared[..0] + mid.prepared[1..] == mid.prepared[1..];
    ReachableNext(rules, sys, mid, Submits(0));
  }

  lemma ArrivalIsReachable(rules: Rules, names: nat -> string, i: nat, sys: System, mid: System)
    requires Different(names) && Reachable(rules, sys, mid)
    requires mid.list == Newcomers(names, i, rules.donFamily) && mid.prepared != []
    requires mid.prepared[0].tx == UpsertTx(Newcomer(names, i), ACTIVE)
    ensures Reachable(rules, sys, AfterFirst(mid, Newcomers(names, i + 1, rules.donFamily)))
  {
    FirstSubmission(rules, sys, mid);
    NewcomerArrives(rules, names, i);
  }

  lemma SubmitNext(rules: Rules, names: nat -> string, b: nat, n: nat, k: nat, sys: System, mid: System)
    returns (end: System)
    requires Different(names) && k < n && Submitted(rules, names, b, n, k, mid) && Reachable(rules, sys, mid)
    ensures Submitted(rules, names, b, n, k + 1, end) && Reachable(rules, sys, end)
  {
    WaitingTail(names, b + k, n - k, mid.prepared);
    ArrivalIsReachable(rules, names, b + k, sys, mid);
    end := AfterFirst(mid, Newcomers(names, b + k + 1, rules.donFamily));
  }

  lemma {:induction false} RunChecks(rules: Rules, names: nat -> string, b: nat, n: nat) returns (end: System)
    requires Different(names) && b < rules.max
    ensures Checked(rules, names, b, n, end) && Reachable(rules, Before(rules, names, b), end)
  {
    if n == 0 {
      end := Before(rules, names, b);
      assert Reach(rules, end, []) == end;
    } else {
      var mid := RunChecks(rules, names, b, n - 1);
      end := CheckNext(rules, names, b, n - 1, Before(rules, names, b), mid);
    }
  }

  /** A state that n checks and then k submissions lead to. */
  ghost predicate BurstLeadsTo(rules: Rules, names: nat -> string, b: nat, n: nat, k: nat, end: System) {
    k <= n && Submitted(rules, names, b, n, k, end) && Reachable(rules, Before(rules, names, b), end)
  }

  lemma BurstStarts(rules: Rules, names: nat -> string, b: nat, n: nat) returns (end: System)
    requires Different(names) && b < rules.max
    ensures BurstLeadsTo(rules, names, b, n, 0, end)
  {
    end := RunChecks(rules, names, b, n);
  }

  lemma BurstContinues(rules: Rules, names: nat -> string, b: nat, n: nat, k: nat, mid: System) returns (end: System)
    requires Different(names) && k < n && BurstLeadsTo(rules, names, b, n, k, mid)
    ensures BurstLeadsTo(rules, names, b, n, k + 1, end)
  {
    end := SubmitNext(rules, names, b, n, k, Before(rules, names, b), mid);
  }

  /** n checks, then k submissions. */
  lemma {:induction false} Burst(rules: Rules, names: nat -> string, b: nat, n: nat, k: nat) returns (end: System)
    requires Different(names) && b < rules.max && k <= n
    ensures BurstLeadsTo(rules, names, b, n, k, end)
    decreases k
  {
    if k == 0 {
      end := BurstStarts(rules, names, b, n);
    } else {
      var mid := Burst(rules, names, b, n, k - 1);
      end := BurstContinues(rules, names, b, n, k - 1, mid);
    }
  }

  ghost predicate ReachesExcess(rules: Rules, n: nat) {
    exists sys, end ::
      && Initial(rules, sys) && Reachable(rules, sys, end)
      && end.stale == n && ActiveCount(end.list, rules.donFamily) == rules.max as nat + n
  }

  /** No smaller bound would do: one deployment that fits and n more, all checked before the first of
      them is submitted, exceed any positive limit by n. */
  lemma {:induction false} ExcessIsReached(rules: Rules, n: nat)
    requires rules.max >= 1
    ensures ReachesExcess(rules, n)
  {
    var b := rules.max - 1;
    var names := SomeNames();
    var end := Burst(rules, names, b, n + 1, n + 1);
    NewcomersCount(names, b, rules.donFamily);
    NewcomersCount(names, b + n + 1, rules.donFamily);
    assert Initial(rules, Before(rules, names, b));
  }

  lemma SomeNames() returns (names: nat -> string)
    ensures Different(names)
  {
    names := (i: nat) => Decimal(i);
    forall i: nat, j: nat | i != j ensures names(i) != names(j) {
      if Decimal(i) == Decimal(j) {
        DecimalInjective(i, j);
      }
    }
  }
}
