/** An owner's workflows as the registry contract lists them, and the three paging loops of the
    command line that read them (limits.go, workflow_registry_v2_client.go, pause.go). */
module Registry {
  import opened Text

  type uint8 = x: int | 0 <= x < 0x100
  type uint32 = x: int | 0 <= x < 0x1_0000_0000

  const ACTIVE: uint8 := 0
  const PAUSED: uint8 := 1
  const PAGE_SIZE: nat := 200

  datatype Workflow = Workflow(
    id: string,
    name: string,
    tag: string,
    status: uint8,
    donFamily: string,
    createdAt: nat)

  function Wrap32(x: nat): uint32 {
    x % 0x1_0000_0000
  }

  predicate ActiveIn(w: Workflow, donFamily: string) {
    w.status == ACTIVE && w.donFamily == donFamily
  }

  function ActiveCount(list: seq<Workflow>, donFamily: string): (n: nat)
    ensures n <= |list|
  {
    if list == [] then 0
    else ActiveCount(list[..|list| - 1], donFamily) + if ActiveIn(list[|list| - 1], donFamily) then 1 else 0
  }

  function Named(list: seq<Workflow>, name: string): seq<Workflow> {
    if list == [] then []
    else Named(list[..|list| - 1], name) + if list[|list| - 1].name == name then [list[|list| - 1]] else []
  }

  lemma {:induction false} CountConcat(a: seq<Workflow>, b: seq<Workflow>, donFamily: string)
    ensures ActiveCount(a + b, donFamily) == ActiveCount(a, donFamily) + ActiveCount(b, donFamily)
  {
    if b == [] {
      assert a + b == a;
    } else {
      assert (a + b)[..|a + b| - 1] == a + b[..|b| - 1];
      CountConcat(a, b[..|b| - 1], donFamily);
    }
  }

  /** What the server answers for one page of a fixed list. */
  function Page(all: seq<Workflow>, start: nat): (page: seq<Workflow>)
    ensures |page| <= PAGE_SIZE
  {
    if start >= |all| then []
    else if start + PAGE_SIZE <= |all| then all[start..start + PAGE_SIZE]
    else all[start..]
  }

  /** The call numbers a complete scan makes: a list that fills its last page costs one more. */
  function LastCall(all: seq<Workflow>): nat {
    |all| / PAGE_SIZE
  }

  /** The page at the start of a call is full, or it is the last one. */
  lemma PageEnds(all: seq<Workflow>, call: nat)
    requires PAGE_SIZE * call <= |all|
    ensures call <= LastCall(all)
    ensures var n := |Page(all, PAGE_SIZE * call)|;
            if n < PAGE_SIZE then call == LastCall(all) && PAGE_SIZE * call + n == |all|
            else n == PAGE_SIZE && PAGE_SIZE * (call + 1) <= |all|
  {
  }

  /** down(k) says that the k-th call fails. A scan fails at the first call that does. */
  ghost predicate FailsAt(all: seq<Workflow>, down: nat -> bool, k: nat) {
    k <= LastCall(all) && down(k) && forall j | 0 <= j < k :: !down(j)
  }

  ghost predicate Reachable(all: seq<Workflow>, down: nat -> bool) {
    forall k | 0 <= k <= LastCall(all) :: !down(k)
  }

  /** fetchAllWorkflows: the whole list, each workflow once and in order. */
  method FetchAll(all: seq<Workflow>, down: nat -> bool) returns (r: Result<seq<Workflow>, nat>)
    ensures r.Ok? <==> Reachable(all, down)
    ensures r.Ok? ==> r.value == all
    ensures r.Err? ==> FailsAt(all, down, r.error)
  {
    var workflows: seq<Workflow> := [];
    var start, call := 0, 0;
    while true
      invariant start == PAGE_SIZE * call <= |all|
      invariant workflows == all[..start]
      invariant forall j | 0 <= j < call :: !down(j)
      decreases |all| - start
    {
      PageEnds(all, call);
      if down(call) {
        return Err(call);
      }
      var list := Page(all, start);
      if |list| == 0 {
        break;
      }
      workflows := workflows + list;
      start := start + |list|;
      if |list| < PAGE_SIZE {
        break;
      }
      call := call + 1;
    }
    assert all[..|all|] == all;
    r := Ok(workflows);
  }

  lemma WrapAdd(a: nat, b: nat)
    ensures Wrap32(Wrap32(a) + b) == Wrap32(a + b)
  {
  }

  lemma PagesJoin(all: seq<Workflow>, start: nat)
    requires start <= |all|
    ensures var list := Page(all, start);
            start + |list| <= |all| && all[..start] + list == all[..start + |list|]
  {
  }

  predicate CountedUpTo(count: uint32, all: seq<Workflow>, start: nat, donFamily: string) {
    start <= |all| && count == Wrap32(ActiveCount(all[..start], donFamily))
  }

  lemma CountOnePage(count: uint32, all: seq<Workflow>, start: nat, donFamily: string)
    requires CountedUpTo(count, all, start, donFamily)
    ensures var list := Page(all, start);
            CountedUpTo(Wrap32(count + ActiveCount(list, donFamily)), all, start + |list|, donFamily)
  {
    var list := Page(all, start);
    PagesJoin(all, start);
    CountConcat(all[..start], list, donFamily);
    WrapAdd(ActiveCount(all[..start], donFamily), ActiveCount(list, donFamily));
  }

  lemma CountNext(list: seq<Workflow>, i: nat, donFamily: string)
    requires i < |list|
    ensures ActiveCount(list[..i + 1], donFamily)
         == ActiveCount(list[..i], donFamily) + if ActiveIn(list[i], donFamily) then 1 else 0
  {
    assert list[..i + 1][..i] == list[..i];
  }

  /** The inner loop of both counters. */
  method CountPage(count: uint32, list: seq<Workflow>, donFamily: string) returns (r: uint32)
    ensures r == Wrap32(count + ActiveCount(list, donFamily))
  {
    r := count;
    for i := 0 to |list|
      invariant r == Wrap32(count + ActiveCount(list[..i], donFamily))
    {
      CountNext(list, i, donFamily);
      if list[i].status == ACTIVE && list[i].donFamily == donFamily {
        WrapAdd(count + ActiveCount(list[..i], donFamily), 1);
        r := Wrap32(r + 1);
      }
    }
    assert list[..|list|] == list;
  }

  /** countActiveWorkflowsByOwnerNameAndDON, and the same loop inside CheckUserDonLimit: a 32-bit count
      over the pages of a list. */
  method CountActive(all: seq<Workflow>, donFamily: string, down: nat -> bool) returns (r: Result<uint32, nat>)
    ensures r.Ok? <==> Reachable(all, down)
    ensures r.Ok? ==> r.value == Wrap32(ActiveCount(all, donFamily))
    ensures r.Err? ==> FailsAt(all, down, r.error)
  {
    var count: uint32 := 0;
    var start, call := 0, 0;
    while true
      invariant start == PAGE_SIZE * call <= |all|
      invariant CountedUpTo(count, all, start, donFamily)
      invariant forall j | 0 <= j < call :: !down(j)
      decreases |all| - start
    {
      PageEnds(all, call);
      if down(call) {
        return Err(call);
      }
      var list := Page(all, start);
      if |list| == 0 {
        break;
      }
      CountOnePage(count, all, start, donFamily);
      count := CountPage(count, list, donFamily);
      start := start + |list|;
      if |list| < PAGE_SIZE {
        break;
      }
      call := call + 1;
    }
    assert all[..|all|] == all;
    r := Ok(count);
  }

  datatype LimitError = LimitUnknown | ListUnavailable(call: nat) | LimitReached(current: uint32, max: uint32)

  predicate Exceeds(currentActive: uint32, pending: uint32, max: uint32) {
    Wrap32(currentActive + pending) > max
  }

  /** The admission test in 32-bit arithmetic. */
  predicate WithinLimit(active: nat, pending: uint32, max: uint32) {
    !Exceeds(Wrap32(active), pending, max)
  }

  /** CheckUserDonLimit: fetches the limit, counts the owner's active workflows and compares. */
  method CheckUserDonLimit(maxAllowed: Option<uint32>, all: seq<Workflow>, donFamily: string, pending: uint32,
                           down: nat -> bool)
    returns (r: Result<(), LimitError>)
    ensures r.Ok? <==> maxAllowed.Some? && Reachable(all, down)
                       && WithinLimit(ActiveCount(all, donFamily), pending, maxAllowed.value)
    ensures r.Err? ==>
              match r.error
              case LimitUnknown => maxAllowed.None?
              case ListUnavailable(call) => maxAllowed.Some? && FailsAt(all, down, call)
              case LimitReached(current, max) =>
                && maxAllowed == Some(max) && Reachable(all, down)
                && current == Wrap32(ActiveCount(all, donFamily))
                 && !WithinLimit(ActiveCount(all, donFamily), pending, max)
  {
    if maxAllowed.None? {
      return Err(LimitUnknown);
    }
    var counted := CountActive(all, donFamily, down);
    if counted.Err? {
      return Err(ListUnavailable(counted.error));
    }
    var currentActive := counted.value;
    if Exceeds(currentActive, pending, maxAllowed.value) {
      return Err(LimitReached(currentActive, maxAllowed.value));
    }
    r := Ok(());
  }

  /** The 32-bit test says what the unbounded comparison says exactly when the sum does not wrap,
      or wraps to something still above the limit. */
  lemma WithinLimitExactly(active: nat, pending: uint32, max: uint32)
    ensures (WithinLimit(active, pending, max) == (active + pending <= max))
       <==> (active + pending < 0x1_0000_0000 || Wrap32(active + pending) > max)
  {
    assert Wrap32(Wrap32(active) + pending) == Wrap32(active + pending);
  }
}
