/** The commands that change an owner's workflows (deploy, activate, pause), each a guarded step
    on the registry, and the limit on active workflows that they keep over whole runs.

    The contract itself is not part of the repository. Its calls are taken as the command line
    describes them: a registration without KeepAlive pauses the other workflows of the name, an
    update sets the status it is given, an activation sets the DON family it is given. Whether an
    update without KeepAlive pauses the others too is left open, as a parameter. */
module RegistryLimits {
  import opened Text
  import opened Registry

  // ------------------------------------------------------ the contract's calls

  function FindTagged(list: seq<Workflow>, name: string, tag: string): (j: nat)
    ensures j <= |list|
    ensures j < |list| ==> list[j].name == name && list[j].tag == tag
  {
    if list == [] || (list[0].name == name && list[0].tag == tag) then 0 else 1 + FindTagged(list[1..], name, tag)
  }

  function FindId(list: seq<Workflow>, id: string): (j: nat)
    ensures j <= |list|
    ensures j < |list| ==> list[j].id == id
  {
    if list == [] || list[0].id == id then 0 else 1 + FindId(list[1..], id)
  }

  function PauseNamed(list: seq<Workflow>, name: string): (r: seq<Workflow>)
    ensures |r| == |list|
  {
    seq(|list|, i requires 0 <= i < |list| => if list[i].name == name then list[i].(status := PAUSED) else list[i])
  }

  /** The limit, the DON family of the command line, and whether an update pauses like a new
      registration does. */
  datatype Rules = Rules(max: uint32, donFamily: string, updatePauses: bool)

  datatype DeployRequest = DeployRequest(id: string, name: string, tag: string, keepAlive: bool, createdAt: nat)

  function Upsert(rules: Rules, list: seq<Workflow>, req: DeployRequest, status: uint8): seq<Workflow> {
    var j := FindTagged(list, req.name, req.tag);
    if j < |list| then
      (if req.keepAlive || !rules.updatePauses then list else PauseNamed(list, req.name))
      [j := list[j].(id := req.id, status := status, donFamily := rules.donFamily)]
    else
      (if req.keepAlive then list else PauseNamed(list, req.name))
      + [Workflow(req.id, req.name, req.tag, status, rules.donFamily, req.createdAt)]
  }

  function ActivateId(list: seq<Workflow>, id: string, donFamily: string): seq<Workflow> {
    var j := FindId(list, id);
    if j < |list| then list[j := list[j].(status := ACTIVE, donFamily := donFamily)] else list
  }

  function BatchPause(list: seq<Workflow>, ids: seq<string>): (r: seq<Workflow>)
    ensures |r| == |list|
  {
    seq(|list|, i requires 0 <= i < |list| => if list[i].id in ids then list[i].(status := PAUSED) else list[i])
  }

  // ------------------------------------------------------------- the commands

  datatype Refusal = AlreadyDeployed | Cancelled | NotFound | NotPaused | NotActive | OverLimit | Unavailable

  /** How many more active workflows a new deployment asks the limit for: none when it will
      replace an active workflow of its name. */
  function Pending(list: seq<Workflow>, donFamily: string, name: string, keepAlive: bool): uint32 {
    if !keepAlive && Wrap32(ActiveCount(Named(list, name), donFamily)) >= 1 then 0 else 1
  }

  predicate Admitted(rules: Rules, list: seq<Workflow>, req: DeployRequest) {
    var pending := Pending(list, rules.donFamily, req.name, req.keepAlive);
    pending == 0 || WithinLimit(ActiveCount(list, rules.donFamily), pending, rules.max)
  }

  /** A deployment that meets no failing call; confirmed answers the question about overwriting. */
  function Deploy(rules: Rules, list: seq<Workflow>, req: DeployRequest, confirmed: bool)
    : Result<seq<Workflow>, Refusal>
  {
    var j := FindTagged(list, req.name, req.tag);
    if j < |list| then
      if list[j].id == req.id then Err(AlreadyDeployed)
      else if !confirmed then Err(Cancelled)
      else Ok(Upsert(rules, list, req, list[j].status))
    else if !Admitted(rules, list, req) then Err(OverLimit)
    else Ok(Upsert(rules, list, req, ACTIVE))
  }

  /** k is a place that sorting the page by descending creation time may put first. */
  predicate IsLatest(page: seq<Workflow>, k: nat) {
    k < |page| && forall i | 0 <= i < |page| :: page[i].createdAt <= page[k].createdAt
  }

  function Activate(rules: Rules, list: seq<Workflow>, latest: Workflow): Result<seq<Workflow>, Refusal> {
    if latest.status != PAUSED then Err(NotPaused)
    else if !WithinLimit(ActiveCount(list, rules.donFamily), 1, rules.max) then Err(OverLimit)
    else Ok(ActivateId(list, latest.id, rules.donFamily))
  }

  function ActiveIds(list: seq<Workflow>): seq<string> {
    if list == [] then []
    else ActiveIds(list[..|list| - 1]) + if list[|list| - 1].status == ACTIVE then [list[|list| - 1].id] else []
  }

  function Pause(list: seq<Workflow>, name: string): Result<seq<Workflow>, Refusal> {
    var found := Named(list, name);
    if found == [] then Err(NotFound)
    else if ActiveIds(found) == [] then Err(NotActive)
    else Ok(BatchPause(list, ActiveIds(found)))
  }

  // ----------------------------------------------------------- steps and runs

  /** at is the place, on the first page of the name, that sorting put first. */
  datatype Command =
    | DeployCmd(req: DeployRequest, confirmed: bool)
    | ActivateCmd(name: string, at: nat)
    | PauseCmd(name: string)

  function Outcome(rules: Rules, list: seq<Workflow>, cmd: Command): Result<seq<Workflow>, Refusal> {
    match cmd
    case DeployCmd(req, confirmed) => Deploy(rules, list, req, confirmed)
    case ActivateCmd(name, at) =>
      var page := Page(Named(list, name), 0);
      if IsLatest(page, at) then Activate(rules, list, page[at]) else Err(NotFound)
    case PauseCmd(name) => Pause(list, name)
  }

  /** One command on the registry; a refused command changes nothing. */
  function Step(rules: Rules, list: seq<Workflow>, cmd: Command): seq<Workflow> {
    var r := Outcome(rules, list, cmd);
    if r.Ok? then r.value else list
  }

  function Run(rules: Rules, list: seq<Workflow>, cmds: seq<Command>): seq<Workflow>
    decreases cmds
  {
    if cmds == [] then list else Run(rules, Step(rules, list, cmds[0]), cmds[1..])
  }

  // --------------------------------------------------------------- the methods

  /** The registry's record of one owner, with the rules that hold for the owner. */
  class OwnerRecord {
    var list: seq<Workflow>
    const rules: Rules

    constructor (rules: Rules)
      ensures list == [] && this.rules == rules
    {
      this.rules := rules;
      list := [];
    }
  }

  /** The calls to the chain that a command makes: whether the first look-up and the reading of
      the limit work, and which page calls of the two scans fail. */
  datatype Calls = Calls(lookupOk: bool, limitOk: bool, downByName: nat -> bool, downByOwner: nat -> bool) {
    ghost predicate AllWork() {
      lookupOk && limitOk && forall k :: !downByName(k) && !downByOwner(k)
    }
  }

  /** checkUserDonLimitBeforeDeploy. */
  method CheckBeforeDeploy(rec: OwnerRecord, req: DeployRequest, existingStatus: Option<uint8>, calls: Calls)
    returns (r: Result<(), Refusal>)
    ensures existingStatus.Some? ==> r.Ok?
    ensures existingStatus.None? && r.Ok? ==> Admitted(rec.rules, rec.list, req)
    ensures r.Err? ==> r.error == Unavailable || (r.error == OverLimit && !Admitted(rec.rules, rec.list, req))
    ensures r.Err? && r.error == Unavailable ==> !calls.AllWork()
  {
    if existingStatus.Some? {
      return Ok(());
    }
    var donFamily := rec.rules.donFamily;
    var pending: uint32 := 1;
    if !req.keepAlive {
      var activeSameName := CountActive(Named(rec.list, req.name), donFamily, calls.downByName);
      if activeSameName.Err? {
        return Err(Unavailable);
      }
      if activeSameName.value >= pending {
        pending := 0;
      } else {
        pending := pending - activeSameName.value;
      }
    }
    if pending == 0 {
      return Ok(());
    }
    var limit := if calls.limitOk then Some(rec.rules.max) else None;
    var checked := CheckUserDonLimit(limit, rec.list, donFamily, pending, calls.downByOwner);
    if checked.Err? {
      return Err(if checked.error.LimitReached? then OverLimit else Unavailable);
    }
    r := Ok(());
  }

  /** The deploy command: a field set by one method is read by the later ones. */
  class DeployHandler {
    const rec: OwnerRecord
    var existingWorkflowStatus: Option<uint8>

    constructor (rec: OwnerRecord)
      ensures this.rec == rec && existingWorkflowStatus == None
    {
      this.rec := rec;
      existingWorkflowStatus := None;
    }

    method WorkflowExists(req: DeployRequest) returns (r: Result<bool, Refusal>)
      requires existingWorkflowStatus == None
      modifies this
      ensures var j := FindTagged(rec.list, req.name, req.tag);
              if j < |rec.list| && rec.list[j].id == req.id then r == Err(AlreadyDeployed)
              else r == Ok(j < |rec.list|)
                   && existingWorkflowStatus == if j < |rec.list| then Some(rec.list[j].status) else None
    {
      var j := FindTagged(rec.list, req.name, req.tag);
      if j < |rec.list| {
        if rec.list[j].id == req.id {
          return Err(AlreadyDeployed);
        }
        existingWorkflowStatus := Some(rec.list[j].status);
        return Ok(true);
      }
      r := Ok(false);
    }

    /** Either the registry moves by exactly one Deploy step, or it stays as it was and the reason
        is the one the step gives, or some call failed. */
    method Execute(req: DeployRequest, confirmed: bool, calls: Calls) returns (r: Result<(), Refusal>)
      requires existingWorkflowStatus == None
      modifies this, rec
      ensures r == Err(Unavailable) ==> rec.list == old(rec.list) && !calls.AllWork()
      ensures r != Err(Unavailable) ==>
                && rec.list == Step(rec.rules, old(rec.list), DeployCmd(req, confirmed))
                && Outcome(rec.rules, old(rec.list), DeployCmd(req, confirmed))
                   == if r.Ok? then Ok(rec.list) else Err(r.error)
    {
      if !calls.lookupOk {
        return Err(Unavailable);
      }
      var found := WorkflowExists(req);
      if found.Err? {
        return Err(found.error);
      }
      if found.value && !confirmed {
        return Err(Cancelled);
      }
      var checked := CheckBeforeDeploy(rec, req, existingWorkflowStatus, calls);
      if checked.Err? {
        return Err(checked.error);
      }
      var status := ACTIVE;
      if existingWorkflowStatus.Some? {
        status := existingWorkflowStatus.value;
      }
      rec.list := Upsert(rec.rules, rec.list, req, status);
      r := Ok(());
    }
  }

  /** The pause command: reads all pages, keeps the active ids, pauses them in one batch. */
  method ExecutePause(rec: OwnerRecord, name: string, down: nat -> bool) returns (r: Result<(), Refusal>)
    modifies rec
    ensures r == Err(Unavailable) ==> rec.list == old(rec.list) && exists k :: down(k)
    ensures r != Err(Unavailable) ==>
              && rec.list == Step(rec.rules, old(rec.list), PauseCmd(name))
              && Outcome(rec.rules, old(rec.list), PauseCmd(name)) == if r.Ok? then Ok(rec.list) else Err(r.error)
  {
    var fetched := FetchAll(Named(rec.list, name), down);
    if fetched.Err? {
      assert down(fetched.error);
      return Err(Unavailable);
    }
    var workflows := fetched.value;
    if |workflows| == 0 {
      return Err(NotFound);
    }
    var activeIds: seq<string> := [];
    for i := 0 to |workflows|
      invariant activeIds == ActiveIds(workflows[..i])
    {
      assert workflows[..i + 1][..i] == workflows[..i];
      if workflows[i].status == ACTIVE {
        activeIds := activeIds + [workflows[i].id];
      }
    }
    assert workflows[..|workflows|] == workflows;
    if |activeIds| == 0 {
      return Err(NotActive);
    }
    rec.list := BatchPause(rec.list, activeIds);
    r := Ok(());
  }

  /** The activate command. It looks at the first page only; sorted is that page in descending
      order of creation time, equal times in any order. */
  method ExecuteActivate(rec: OwnerRecord, name: string, sorted: seq<Workflow>, calls: Calls)
    returns (r: Result<(), Refusal>)
    requires multiset(sorted) == multiset(Page(Named(rec.list, name), 0))
    requires forall i, j | 0 <= i < j < |sorted| :: sorted[i].createdAt >= sorted[j].createdAt
    modifies rec
    ensures r == Err(Unavailable) ==> rec.list == old(rec.list) && !calls.AllWork()
    ensures r == Err(NotFound) ==> rec.list == old(rec.list) && Page(Named(old(rec.list), name), 0) == []
    ensures r != Err(Unavailable) && r != Err(NotFound) ==>
              exists at: nat ::
                && IsLatest(Page(Named(old(rec.list), name), 0), at)
                && rec.list == Step(rec.rules, old(rec.list), ActivateCmd(name, at))
                && Outcome(rec.rules, old(rec.list), ActivateCmd(name, at))
                   == if r.Ok? then Ok(rec.list) else Err(r.error)
  {
    var page := Page(Named(rec.list, name), 0);
    assert |multiset(sorted)| == |sorted| && |multiset(page)| == |page|;
    if !calls.lookupOk {
      return Err(Unavailable);
    }
    if |sorted| == 0 {
      return Err(NotFound);
    }
    var latest := sorted[0];
    ghost var at := LatestOfSorted(page, sorted);
    ghost var outcome := Outcome(rec.rules, rec.list, ActivateCmd(name, at));
    if latest.status != PAUSED {
      return Err(NotPaused);
    }
    var limit := if calls.limitOk then Some(rec.rules.max) else None;
    var checked := CheckUserDonLimit(limit, rec.list, rec.rules.donFamily, 1, calls.downByOwner);
    if checked.Err? {
      return Err(if checked.error.LimitReached? then OverLimit else Unavailable);
    }
    rec.list := ActivateId(rec.list, latest.id, rec.rules.donFamily);
    r := Ok(());
  }

  lemma LatestOfSorted(page: seq<Workflow>, sorted: seq<Workflow>) returns (k: nat)
    requires multiset(sorted) == multiset(page) && sorted != []
    requires forall i, j | 0 <= i < j < |sorted| :: sorted[i].createdAt >= sorted[j].createdAt
    ensures IsLatest(page, k) && page[k] == sorted[0]
  {
    assert sorted[0] in multiset(page);
    k :| k < |page| && page[k] == sorted[0];
    forall i | 0 <= i < |page| ensures page[i].createdAt <= page[k].createdAt {
      assert page[i] in multiset(sorted);
    }
  }

  // ----------------------------------------------------------------- counting

  lemma {:induction false} CountUpdate(list: seq<Workflow>, j: nat, w: Workflow, donFamily: string)
    requires j < |list|
    ensures ActiveCount(list[j := w], donFamily)
         == ActiveCount(list, donFamily)
            - (if ActiveIn(list[j], donFamily) then 1 else 0) + (if ActiveIn(w, donFamily) then 1 else 0)
  {
    var last := |list| - 1;
    if j == last {
      assert list[j := w][..last] == list[..last];
    } else {
      CountUpdate(list[..last], j, w, donFamily);
      assert list[j := w][..last] == list[..last][j := w];
    }
  }

  lemma CountAppend(list: seq<Workflow>, w: Workflow, donFamily: string)
    ensures ActiveCount(list + [w], donFamily) == ActiveCount(list, donFamily) + if ActiveIn(w, donFamily) then 1 else 0
  {
    assert (list + [w])[..|list|] == list;
  }

  lemma {:induction false} CountPaused(list: seq<Workflow>, name: string, donFamily: string)
    ensures ActiveCount(PauseNamed(list, name), donFamily)
         == ActiveCount(list, donFamily) - ActiveCount(Named(list, name), donFamily)
  {
    if list != [] {
      var last := |list| - 1;
      CountPaused(list[..last], name, donFamily);
      assert PauseNamed(list, name)[..last] == PauseNamed(list[..last], name);
      if list[last].name == name {
        CountAppend(Named(list[..last], name), list[last], donFamily);
      } else {
        assert Named(list, name) == Named(list[..last], name);
      }
    }
  }

  lemma {:induction false} CountMonotone(list: seq<Workflow>, list': seq<Workflow>, donFamily: string)
    requires |list| == |list'|
    requires forall i | 0 <= i < |list| :: ActiveIn(list'[i], donFamily) ==> ActiveIn(list[i], donFamily)
    ensures ActiveCount(list', donFamily) <= ActiveCount(list, donFamily)
  {
    if list != [] {
      CountMonotone(list[..|list| - 1], list'[..|list| - 1], donFamily);
    }
  }

  lemma {:induction false} NamedHolds(list: seq<Workflow>, name: string, i: nat)
    requires i < |list| && list[i].name == name
    ensures list[i] in Named(list, name)
  {
    if i < |list| - 1 {
      NamedHolds(list[..|list| - 1], name, i);
    }
  }

  lemma {:induction false} ActiveIdsHold(list: seq<Workflow>, w: Workflow)
    requires w in list && w.status == ACTIVE
    ensures w.id in ActiveIds(list)
  {
    var last := |list| - 1;
    if w != list[last] {
      assert w in list[..last];
      ActiveIdsHold(list[..last], w);
    }
  }

  /** After a pause nothing of that name is active, and the rest of the order is untouched. */
  lemma PauseStops(list: seq<Workflow>, name: string)
    requires Pause(list, name).Ok?
    ensures var list' := Pause(list, name).value;
            && |list'| == |list|
            && (forall i | 0 <= i < |list| :: list'[i] == list[i] || list'[i] == list[i].(status := PAUSED))
            && forall i | 0 <= i < |list| && list[i].name == name :: list'[i].status != ACTIVE
  {
    var list' := Pause(list, name).value;
    forall i | 0 <= i < |list| && list[i].name == name ensures list'[i].status != ACTIVE {
      if list[i].status == ACTIVE {
        NamedHolds(list, name, i);
        ActiveIdsHold(Named(list, name), list[i]);
      }
    }
  }

  lemma {:induction false} ActiveIdsAre(list: seq<Workflow>, id: string)
    requires id in ActiveIds(list)
    ensures exists w :: w in list && w.id == id && w.status == ACTIVE
  {
    var last := list[|list| - 1];
    if last.id == id && last.status == ACTIVE {
      assert last in list;
    } else {
      ActiveIdsAre(list[..|list| - 1], id);
      var w :| w in list[..|list| - 1] && w.id == id && w.status == ACTIVE;
      assert w in list;
    }
  }

  lemma {:induction false} NamedAre(list: seq<Workflow>, name: string, w: Workflow)
    requires w in Named(list, name)
    ensures w in list && w.name == name
  {
    if w != list[|list| - 1] || list[|list| - 1].name != name {
      NamedAre(list[..|list| - 1], name, w);
    }
  }

  /** With unique ids a pause hits exactly the active workflows of the name. */
  lemma PauseExactly(list: seq<Workflow>, name: string)
    requires Proper(list) && Pause(list, name).Ok?
    ensures var list' := Pause(list, name).value;
            && |list'| == |list|
            && forall i | 0 <= i < |list| ::
                 list'[i] == if list[i].name == name && list[i].status == ACTIVE then list[i].(status := PAUSED)
                             else list[i]
  {
    var ids := ActiveIds(Named(list, name));
    forall i | 0 <= i < |list| ensures list[i].id in ids <==> list[i].name == name && list[i].status == ACTIVE {
      if list[i].name == name && list[i].status == ACTIVE {
        NamedHolds(list, name, i);
        ActiveIdsHold(Named(list, name), list[i]);
      }
      if list[i].id in ids {
        ActiveIdsAre(Named(list, name), list[i].id);
        var w :| w in Named(list, name) && w.id == list[i].id && w.status == ACTIVE;
        NamedAre(list, name, w);
        var k :| 0 <= k < |list| && list[k] == w;
        assert k == i;
      }
    }
  }

  /** A pause is refused exactly when the name is unknown or has nothing active. */
  lemma PauseRefusedExactly(list: seq<Workflow>, name: string)
    ensures Pause(list, name) == Err(NotFound) <==> forall i | 0 <= i < |list| :: list[i].name != name
    ensures Pause(list, name).Ok? <==> exists i | 0 <= i < |list| :: list[i].name == name && list[i].status == ACTIVE
    ensures Pause(list, name).Err? ==> Pause(list, name).error in {NotFound, NotActive}
  {
    var found := Named(list, name);
    forall i | 0 <= i < |list| && list[i].name == name ensures list[i] in found {
      NamedHolds(list, name, i);
    }
    forall i | 0 <= i < |list| && list[i].name == name && list[i].status == ACTIVE ensures ActiveIds(found) != [] {
      ActiveIdsHold(found, list[i]);
    }
    if found != [] {
      NamedAre(list, name, found[0]);
      var i :| 0 <= i < |list| && list[i] == found[0];
    }
    if ActiveIds(found) != [] {
      ActiveIdsAre(found, ActiveIds(found)[0]);
      var w :| w in found && w.id == ActiveIds(found)[0] && w.status == ACTIVE;
      NamedAre(list, name, w);
      var i :| 0 <= i < |list| && list[i] == w;
    }
  }

  /** With unique ids an activation sets status and family of the chosen workflow and nothing else. */
  lemma ActivationExactly(rules: Rules, list: seq<Workflow>, name: string, at: nat)
    requires Proper(list) && Outcome(rules, list, ActivateCmd(name, at)).Ok?
    ensures var chosen := Page(Named(list, name), 0)[at];
            exists j | 0 <= j < |list| ::
              && list[j] == chosen && chosen.name == name && chosen.status == PAUSED
              && Outcome(rules, list, ActivateCmd(name, at)).value
                 == list[j := chosen.(status := ACTIVE, donFamily := rules.donFamily)]
  {
    var chosen := Page(Named(list, name), 0)[at];
    assert chosen in Named(list, name);
    NamedAre(list, name, chosen);
    var j :| 0 <= j < |list| && list[j] == chosen;
    FirstWithId(list, chosen.id, j);
  }

  /** When an activation is refused, and why. */
  lemma ActivationRefusedExactly(rules: Rules, list: seq<Workflow>, name: string, at: nat)
    requires rules.max < 0xFFFF_FFFF && ActiveCount(list, rules.donFamily) <= rules.max
    requires IsLatest(Page(Named(list, name), 0), at)
    ensures var r, chosen := Outcome(rules, list, ActivateCmd(name, at)), Page(Named(list, name), 0)[at];
            && (r == Err(NotPaused) <==> chosen.status != PAUSED)
            && (r == Err(OverLimit) <==>
                  chosen.status == PAUSED && ActiveCount(list, rules.donFamily) + 1 > rules.max)
            && (r.Err? ==> r.error in {NotPaused, OverLimit})
  {
    WithinLimitExactly(ActiveCount(list, rules.donFamily), 1, rules.max);
  }

  lemma {:induction false} FirstWithId(list: seq<Workflow>, id: string, j: nat)
    requires j < |list| && list[j].id == id && forall i | 0 <= i < |list| && list[i].id == id :: i == j
    ensures FindId(list, id) == j
  {
    if j > 0 {
      FirstWithId(list[1..], id, j - 1);
    }
  }

  // ---------------------------------------------------------- one step and the limit

  /** What a registration under a new tag does to the number of active workflows. */
  lemma RegistrationCount(rules: Rules, list: seq<Workflow>, req: DeployRequest)
    requires FindTagged(list, req.name, req.tag) == |list|
    ensures ActiveCount(Upsert(rules, list, req, ACTIVE), rules.donFamily)
         == ActiveCount(list, rules.donFamily) + 1
            - if req.keepAlive then 0 else ActiveCount(Named(list, req.name), rules.donFamily)
  {
    var w := Workflow(req.id, req.name, req.tag, ACTIVE, rules.donFamily, req.createdAt);
    CountPaused(list, req.name, rules.donFamily);
    CountAppend(if req.keepAlive then list else PauseNamed(list, req.name), w, rules.donFamily);
  }

  /** A new deployment replaces, or was counted. */
  lemma RegistrationKeepsLimit(rules: Rules, list: seq<Workflow>, req: DeployRequest)
    requires rules.max < 0xFFFF_FFFF && ActiveCount(list, rules.donFamily) <= rules.max
    requires FindTagged(list, req.name, req.tag) == |list| && Admitted(rules, list, req)
    ensures ActiveCount(Upsert(rules, list, req, ACTIVE), rules.donFamily) <= rules.max
  {
    var d := rules.donFamily;
    RegistrationCount(rules, list, req);
    CountPaused(list, req.name, d);
    AdmissionArithmetic(ActiveCount(list, d), ActiveCount(Named(list, req.name), d), rules.max, req.keepAlive,
                        Pending(list, d, req.name, req.keepAlive));
  }

  lemma AdmissionArithmetic(count: nat, same: nat, max: uint32, keepAlive: bool, pending: uint32)
    requires same <= count <= max < 0xFFFF_FFFF
    requires pending == if !keepAlive && Wrap32(same) >= 1 then 0 else 1
    requires pending == 0 || WithinLimit(count, pending, max)
    ensures count + 1 - (if keepAlive then 0 else same) <= max
  {
    WithinLimitExactly(count, 1, max);
  }

  /** The admission rule refuses nothing that would fit: with a limit that holds, a registration under a
      new tag is admitted exactly when the limit holds afterwards too, counting what it replaces. */
  lemma {:induction false} AdmittedExactly(rules: Rules, list: seq<Workflow>, req: DeployRequest)
    requires rules.max < 0xFFFF_FFFF && ActiveCount(list, rules.donFamily) <= rules.max
    requires FindTagged(list, req.name, req.tag) == |list|
    ensures Admitted(rules, list, req) <==> ActiveCount(Upsert(rules, list, req, ACTIVE), rules.donFamily) <= rules.max
  {
    var d := rules.donFamily;
    RegistrationCount(rules, list, req);
    NamedCountAtMost(list, req.name, d);
    AdmissionExactly(ActiveCount(list, d), ActiveCount(Named(list, req.name), d), rules.max, req.keepAlive);
    AdmittedMeans(rules, list, req);
  }

  lemma {:induction false} NamedCountAtMost(list: seq<Workflow>, name: string, donFamily: string)
    ensures ActiveCount(Named(list, name), donFamily) <= ActiveCount(list, donFamily)
  {
    CountPaused(list, name, donFamily);
  }

  /** The admission rule on the two counts alone. */
  predicate Fits(count: nat, same: nat, max: uint32, keepAlive: bool) {
    var pending: uint32 := if !keepAlive && Wrap32(same) >= 1 then 0 else 1;
    pending == 0 || WithinLimit(count, pending, max)
  }

  lemma {:induction false} AdmittedMeans(rules: Rules, list: seq<Workflow>, req: DeployRequest)
    ensures Admitted(rules, list, req)
       <==> Fits(ActiveCount(list, rules.donFamily), ActiveCount(Named(list, req.name), rules.donFamily), rules.max,
                 req.keepAlive)
  {
  }

  lemma {:induction false} AdmissionExactly(count: nat, same: nat, max: uint32, keepAlive: bool)
    requires same <= count <= max < 0xFFFF_FFFF
    ensures Fits(count, same, max, keepAlive) <==> count + 1 - (if keepAlive then 0 else same) <= max
  {
    WithinLimitExactly(count, 1, max);
  }

  /** When a deployment is refused, and why. */
  lemma DeployRefusedExactly(rules: Rules, list: seq<Workflow>, req: DeployRequest, confirmed: bool)
    requires rules.max < 0xFFFF_FFFF && ActiveCount(list, rules.donFamily) <= rules.max
    ensures var r := Deploy(rules, list, req, confirmed);
            var j := FindTagged(list, req.name, req.tag);
            && (r == Err(AlreadyDeployed) <==> j < |list| && list[j].id == req.id)
            && (r == Err(Cancelled) <==> j < |list| && list[j].id != req.id && !confirmed)
            && (r == Err(OverLimit) <==>
                  j == |list| && ActiveCount(Upsert(rules, list, req, ACTIVE), rules.donFamily) > rules.max)
            && (r.Err? ==> r.error in {AlreadyDeployed, Cancelled, OverLimit})
  {
    if FindTagged(list, req.name, req.tag) == |list| {
      AdmittedExactly(rules, list, req);
    }
  }

  /** What a deployment leaves in the registry: its record under the name and tag, with the status of
      the one it replaces; the other workflows of the name are paused exactly when it is to pause
      them, and nothing else changes. */
  lemma DeployStores(rules: Rules, list: seq<Workflow>, req: DeployRequest, confirmed: bool)
    requires Deploy(rules, list, req, confirmed).Ok?
    ensures var list' := Deploy(rules, list, req, confirmed).value;
            var j := FindTagged(list, req.name, req.tag);
            var pauses := !req.keepAlive && (j == |list| || rules.updatePauses);
            && |list'| == (if j < |list| then |list| else |list| + 1)
            && list'[j] == (if j < |list| then list[j].(id := req.id, donFamily := rules.donFamily)
                            else Workflow(req.id, req.name, req.tag, ACTIVE, rules.donFamily, req.createdAt))
            && forall i | 0 <= i < |list| && i != j ::
                 list'[i] == if pauses && list[i].name == req.name then list[i].(status := PAUSED) else list[i]
  {
  }

  predicate Redeploys(list: seq<Workflow>, cmd: Command) {
    && cmd.DeployCmd? && cmd.confirmed
    && var j := FindTagged(list, cmd.req.name, cmd.req.tag);
       j < |list| && list[j].id != cmd.req.id
  }

  /** What the missing limit check lets through: the limit is used up, and the workflow that is
      redeployed is active but not counted. When an update pauses the workflows of its name, none
      of them may be counted; otherwise it is enough that this one is in another family. */
  predicate SlipsIn(rules: Rules, list: seq<Workflow>, cmd: Command)
    requires Redeploys(list, cmd)
  {
    var previous := list[FindTagged(list, cmd.req.name, cmd.req.tag)];
    && ActiveCount(list, rules.donFamily) == rules.max && previous.status == ACTIVE
    && if rules.updatePauses && !cmd.req.keepAlive
       then ActiveCount(Named(list, cmd.req.name), rules.donFamily) == 0
       else previous.donFamily != rules.donFamily
  }

  /** Redeploying over an existing workflow skips the limit check. Under either reading of
      KeepAlive this says exactly when it exceeds a limit that held before. */
  lemma RedeployExactly(rules: Rules, list: seq<Workflow>, cmd: Command)
    requires ActiveCount(list, rules.donFamily) <= rules.max && Redeploys(list, cmd)
    ensures ActiveCount(Step(rules, list, cmd), rules.donFamily) > rules.max <==> SlipsIn(rules, list, cmd)
  {
    var req := cmd.req;
    var d, j := rules.donFamily, FindTagged(list, req.name, req.tag);
    var base := if req.keepAlive || !rules.updatePauses then list else PauseNamed(list, req.name);
    var w := list[j].(id := req.id, donFamily := d);
    CountUpdate(base, j, w, d);
    CountPaused(list, req.name, d);
    NamedCountHolds(list, req.name, j, d);
    assert Step(rules, list, cmd) == base[j := w];
  }

  lemma {:induction false} NamedCountHolds(list: seq<Workflow>, name: string, i: nat, donFamily: string)
    requires i < |list| && list[i].name == name
    ensures ActiveIn(list[i], donFamily) ==> ActiveCount(Named(list, name), donFamily) >= 1
  {
    var last := |list| - 1;
    if i < last {
      NamedCountHolds(list[..last], name, i, donFamily);
    }
    if list[last].name == name {
      CountAppend(Named(list[..last], name), list[last], donFamily);
    } else {
      assert Named(list, name) == Named(list[..last], name);
    }
  }

  /** Below the largest 32-bit limit a command keeps a limit that holds, except for a redeployment
      that slips in; no assumption on the list. */
  lemma StepKeepsLimitExactly(rules: Rules, list: seq<Workflow>, cmd: Command)
    requires rules.max < 0xFFFF_FFFF && ActiveCount(list, rules.donFamily) <= rules.max
    ensures ActiveCount(Step(rules, list, cmd), rules.donFamily) <= rules.max
       <==> !(Redeploys(list, cmd) && SlipsIn(rules, list, cmd))
  {
    var d := rules.donFamily;
    if Redeploys(list, cmd) {
      RedeployExactly(rules, list, cmd);
    } else if Outcome(rules, list, cmd).Ok? {
      match cmd
      case DeployCmd(req, confirmed) =>
        RegistrationKeepsLimit(rules, list, req);
      case ActivateCmd(name, at) =>
        ActivationKeepsLimit(rules, list, Page(Named(list, name), 0)[at]);
      case PauseCmd(name) =>
        PauseStops(list, name);
        CountMonotone(list, Pause(list, name).value, d);
    }
  }

  lemma ActivationKeepsLimit(rules: Rules, list: seq<Workflow>, latest: Workflow)
    requires rules.max < 0xFFFF_FFFF && ActiveCount(list, rules.donFamily) <= rules.max
    requires Activate(rules, list, latest).Ok?
    ensures ActiveCount(Activate(rules, list, latest).value, rules.donFamily) <= rules.max
  {
    var j := FindId(list, latest.id);
    if j < |list| {
      CountUpdate(list, j, list[j].(status := ACTIVE, donFamily := rules.donFamily), rules.donFamily);
    }
    WithinLimitExactly(ActiveCount(list, rules.donFamily), 1, rules.max);
  }

  // ------------------------------------------------------------------ whole runs

  ghost predicate InFamily(list: seq<Workflow>, donFamily: string) {
    forall w | w in list :: w.donFamily == donFamily
  }

  lemma StepKeepsFamily(rules: Rules, list: seq<Workflow>, cmd: Command)
    requires InFamily(list, rules.donFamily)
    ensures InFamily(Step(rules, list, cmd), rules.donFamily)
  {
    if Outcome(rules, list, cmd).Ok? {
      match cmd
      case DeployCmd(req, _) =>
        UpsertKeepsFamily(rules, list, req, ACTIVE);
        var j := FindTagged(list, req.name, req.tag);
        if j < |list| {
          UpsertKeepsFamily(rules, list, req, list[j].status);
        }
      case ActivateCmd(name, at) =>
        ActivationKeepsFamily(list, Page(Named(list, name), 0)[at].id, rules.donFamily);
      case PauseCmd(name) =>
        PauseKeepsFamily(list, ActiveIds(Named(list, name)), rules.donFamily);
    }
  }

  lemma UpsertKeepsFamily(rules: Rules, list: seq<Workflow>, req: DeployRequest, status: uint8)
    requires InFamily(list, rules.donFamily)
    ensures InFamily(Upsert(rules, list, req, status), rules.donFamily)
  {
    var paused := PauseNamed(list, req.name);
    forall i | 0 <= i < |list| ensures list[i].donFamily == paused[i].donFamily == rules.donFamily {
      assert list[i] in list;
    }
  }

  lemma ActivationKeepsFamily(list: seq<Workflow>, id: string, donFamily: string)
    requires InFamily(list, donFamily)
    ensures InFamily(ActivateId(list, id, donFamily), donFamily)
  {
    forall i | 0 <= i < |list| ensures list[i].donFamily == donFamily {
      assert list[i] in list;
    }
  }

  lemma PauseKeepsFamily(list: seq<Workflow>, ids: seq<string>, donFamily: string)
    requires InFamily(list, donFamily)
    ensures InFamily(BatchPause(list, ids), donFamily)
  {
    forall i | 0 <= i < |list| ensures list[i].donFamily == donFamily {
      assert list[i] in list;
    }
  }

  lemma FamilyNeverSlips(rules: Rules, list: seq<Workflow>, cmd: Command)
    requires InFamily(list, rules.donFamily) && Redeploys(list, cmd)
    ensures !SlipsIn(rules, list, cmd)
  {
    var j := FindTagged(list, cmd.req.name, cmd.req.tag);
    assert list[j] in list;
    NamedCountHolds(list, cmd.req.name, j, rules.donFamily);
  }

  lemma {:induction false} RunKeepsLimit(rules: Rules, list: seq<Workflow>, cmds: seq<Command>)
    requires rules.max < 0xFFFF_FFFF
    requires InFamily(list, rules.donFamily) && ActiveCount(list, rules.donFamily) <= rules.max
    ensures ActiveCount(Run(rules, list, cmds), rules.donFamily) <= rules.max
    decreases cmds
  {
    if cmds != [] {
      if Redeploys(list, cmds[0]) {
        FamilyNeverSlips(rules, list, cmds[0]);
      }
      StepKeepsLimitExactly(rules, list, cmds[0]);
      StepKeepsFamily(rules, list, cmds[0]);
      RunKeepsLimit(rules, Step(rules, list, cmds[0]), cmds[1..]);
    }
  }

  /** A list as the registry holds it: ids are unique, and so are names with their tags. */
  ghost predicate Proper(list: seq<Workflow>) {
    forall i, j | 0 <= i < j < |list| ::
      list[i].id != list[j].id && (list[i].name != list[j].name || list[i].tag != list[j].tag)
  }

  /** A deployment brings an id of its own, or that of the very workflow it is for. */
  ghost predicate OwnId(list: seq<Workflow>, cmd: Command) {
    cmd.DeployCmd? ==>
      forall i | 0 <= i < |list| && list[i].id == cmd.req.id :: i == FindTagged(list, cmd.req.name, cmd.req.tag)
  }

  ghost predicate OwnIds(rules: Rules, list: seq<Workflow>, cmds: seq<Command>)
    decreases cmds
  {
    cmds == [] || (OwnId(list, cmds[0]) && OwnIds(rules, Step(rules, list, cmds[0]), cmds[1..]))
  }

  lemma {:induction false} NotTagged(list: seq<Workflow>, name: string, tag: string)
    requires FindTagged(list, name, tag) == |list|
    ensures forall w | w in list :: w.name != name || w.tag != tag
  {
    if list != [] {
      NotTagged(list[1..], name, tag);
    }
  }

  ghost predicate SameKey(w: Workflow, w': Workflow) {
    w'.id == w.id && w'.name == w.name && w'.tag == w.tag
  }

  ghost predicate SameKeys(list: seq<Workflow>, list': seq<Workflow>) {
    |list'| == |list| && forall i | 0 <= i < |list| :: SameKey(list[i], list'[i])
  }

  lemma SameKeysKeepProper(list: seq<Workflow>, list': seq<Workflow>)
    requires Proper(list) && SameKeys(list, list')
    ensures Proper(list')
  {
    forall i, j | 0 <= i < j < |list'|
      ensures list'[i].id != list'[j].id && (list'[i].name != list'[j].name || list'[i].tag != list'[j].tag)
    {
      assert SameKey(list[i], list'[i]) && SameKey(list[j], list'[j]);
    }
  }

  /** An update may give a workflow an id that no other workflow has. */
  lemma ReplacingKeepsProper(list: seq<Workflow>, j: nat, w: Workflow)
    requires Proper(list) && j < |list| && w.name == list[j].name && w.tag == list[j].tag
    requires forall i | 0 <= i < |list| && i != j :: list[i].id != w.id
    ensures Proper(list[j := w])
  {
  }

  lemma AppendingKeepsProper(list: seq<Workflow>, w: Workflow)
    requires Proper(list)
    requires forall i | 0 <= i < |list| :: list[i].id != w.id && (list[i].name != w.name || list[i].tag != w.tag)
    ensures Proper(list + [w])
  {
  }

  lemma UpsertKeepsProper(rules: Rules, list: seq<Workflow>, req: DeployRequest, status: uint8)
    requires Proper(list)
    requires forall i | 0 <= i < |list| && list[i].id == req.id :: i == FindTagged(list, req.name, req.tag)
    ensures Proper(Upsert(rules, list, req, status))
  {
    var j := FindTagged(list, req.name, req.tag);
    var paused := PauseNamed(list, req.name);
    assert SameKeys(list, paused);
    SameKeysKeepProper(list, paused);
    if j < |list| {
      var base := if req.keepAlive || !rules.updatePauses then list else paused;
      assert forall i | 0 <= i < |list| :: SameKey(list[i], base[i]);
      ReplacingKeepsProper(base, j, list[j].(id := req.id, status := status, donFamily := rules.donFamily));
    } else {
      var base := if req.keepAlive then list else paused;
      NotTagged(list, req.name, req.tag);
      forall i | 0 <= i < |base|
        ensures base[i].id != req.id && (base[i].name != req.name || base[i].tag != req.tag)
      {
        assert SameKey(list[i], base[i]) && list[i] in list;
      }
      AppendingKeepsProper(base, Workflow(req.id, req.name, req.tag, status, rules.donFamily, req.createdAt));
    }
  }

  /** Commands keep the list proper. */
  lemma StepKeepsProper(rules: Rules, list: seq<Workflow>, cmd: Command)
    requires Proper(list) && OwnId(list, cmd)
    ensures Proper(Step(rules, list, cmd))
  {
    var list' := Step(rules, list, cmd);
    match cmd
    case DeployCmd(req, _) =>
      UpsertKeepsProper(rules, list, req, ACTIVE);
      var j := FindTagged(list, req.name, req.tag);
      if j < |list| {
        UpsertKeepsProper(rules, list, req, list[j].status);
      }
    case _ =>
      assert SameKeys(list, list');
      SameKeysKeepProper(list, list');
  }

  /** From any proper list in the family that respects the limit, every run of commands does. */
  ghost predicate AlwaysSafe(rules: Rules) {
    forall list, cmds | && Proper(list) && OwnIds(rules, list, cmds)
                        && InFamily(list, rules.donFamily) && ActiveCount(list, rules.donFamily) <= rules.max ::
      ActiveCount(Run(rules, list, cmds), rules.donFamily) <= rules.max
  }

  /** The limit is safe over all runs for every limit but the largest 32-bit number, where the
      32-bit sum wraps to zero. */
  lemma LimitSafetyExactly(rules: Rules)
    ensures AlwaysSafe(rules) <==> rules.max < 0xFFFF_FFFF
  {
    if rules.max < 0xFFFF_FFFF {
      forall list, cmds | InFamily(list, rules.donFamily) && ActiveCount(list, rules.donFamily) <= rules.max
        ensures ActiveCount(Run(rules, list, cmds), rules.donFamily) <= rules.max
      {
        RunKeepsLimit(rules, list, cmds);
      }
    } else {
      OneTooMany(rules);
    }
  }

  function Fleet(n: nat, donFamily: string): (list: seq<Workflow>)
    ensures |list| == n
  {
    seq(n, i requires 0 <= i < n => Workflow(Decimal(i), Decimal(i), "tag", ACTIVE, donFamily, i))
  }

  lemma {:induction false} FleetCount(n: nat, donFamily: string)
    ensures ActiveCount(Fleet(n, donFamily), donFamily) == n
  {
    if n > 0 {
      assert Fleet(n, donFamily)[..n - 1] == Fleet(n - 1, donFamily);
      FleetCount(n - 1, donFamily);
    }
  }

  lemma FleetIsProper(n: nat, donFamily: string)
    ensures Proper(Fleet(n, donFamily)) && InFamily(Fleet(n, donFamily), donFamily)
  {
    var list := Fleet(n, donFamily);
    forall i, j | 0 <= i < j < |list| ensures list[i].id != list[j].id && list[i].name != list[j].name {
      if Decimal(i) == Decimal(j) {
        DecimalInjective(i, j);
      }
    }
  }

  /** With the largest limit used up by as many workflows of different names, a deployment under a
      further name is still admitted. */
  lemma OneTooMany(rules: Rules)
    requires rules.max == 0xFFFF_FFFF
    ensures !AlwaysSafe(rules)
  {
    var d := rules.donFamily;
    var req := DeployRequest("x", "x", "tag", false, 0);
    FleetCount(rules.max, d);
    FleetIsProper(rules.max, d);
    FleetHasNoX(rules.max, d);
    NewNameSlipsIn(rules, Fleet(rules.max, d), req);
  }

  lemma {:induction false} NewNameSlipsIn(rules: Rules, list: seq<Workflow>, req: DeployRequest)
    requires rules.max == 0xFFFF_FFFF == ActiveCount(list, rules.donFamily)
    requires Proper(list) && InFamily(list, rules.donFamily)
    requires forall i | 0 <= i < |list| :: list[i].id != req.id
    requires FindTagged(list, req.name, req.tag) == |list| && Named(list, req.name) == []
    ensures !AlwaysSafe(rules)
  {
    RegistrationCount(rules, list, req);
    WrapsToAdmission(rules, list, req);
    RunOfOne(rules, list, DeployCmd(req, true));
  }

  lemma RunOfOne(rules: Rules, list: seq<Workflow>, cmd: Command)
    ensures Run(rules, list, [cmd]) == Step(rules, list, cmd)
    ensures OwnIds(rules, list, [cmd]) <==> OwnId(list, cmd)
  {
    assert [cmd][1..] == [];
  }

  /** At the largest limit the sum wraps to zero and admits a new name. */
  lemma WrapsToAdmission(rules: Rules, list: seq<Workflow>, req: DeployRequest)
    requires rules.max == 0xFFFF_FFFF == ActiveCount(list, rules.donFamily)
    requires FindTagged(list, req.name, req.tag) == |list| && Named(list, req.name) == []
    ensures Step(rules, list, DeployCmd(req, true)) == Upsert(rules, list, req, ACTIVE)
  {
  }

  lemma FleetHasNoX(n: nat, donFamily: string)
    ensures var list := Fleet(n, donFamily);
            && (forall i | 0 <= i < n :: list[i].id != "x")
            && FindTagged(list, "x", "tag") == n && Named(list, "x") == []
  {
    var list := Fleet(n, donFamily);
    forall i | 0 <= i < n ensures list[i].id != "x" && list[i].name != "x" {
      assert IsDigit(Decimal(i)[0]);
    }
    NobodyNamed(list, "x");
  }

  lemma {:induction false} NobodyNamed(list: seq<Workflow>, name: string)
    requires forall i | 0 <= i < |list| :: list[i].name != name
    ensures Named(list, name) == []
  {
    if list != [] {
      NobodyNamed(list[..|list| - 1], name);
    }
  }
}
