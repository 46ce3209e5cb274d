/** The event poller of the reserve agent (agent/monitor.ts). */
module Monitor {
  import opened Text

  datatype Status = Status(isSolvent: bool, timestamp: nat)

  /** A log of the contract's status event; one without decoded arguments is skipped. */
  type Log = Option<Status>

  /** A chain that only grows: block n holds blocks(n), whoever asks and whenever. */
  type Blocks = nat -> seq<Log>

  /** What happens in one turn of the loop. A node may answer with any height it has seen, and
      the status handler may throw at the status with number at among those of the range. */
  datatype Poll =
    | HeightFails
    | LogsFail(height: nat)
    | HandlerThrows(height: nat, at: nat)
    | Succeeds(height: nat)

  datatype State = State(lastBlock: nat, delivered: seq<Status>)

  function StatusesIn(logs: seq<Log>): seq<Status> {
    if logs == [] then []
    else (if logs[0].Some? then [logs[0].value] else []) + StatusesIn(logs[1..])
  }

  function Logs(blocks: Blocks, from: nat, to: nat): seq<Log>
    decreases to + 1 - from
  {
    if from > to then [] else blocks(from) + Logs(blocks, from + 1, to)
  }

  /** The statuses of the blocks from..to, in order. */
  function Statuses(blocks: Blocks, from: nat, to: nat): seq<Status> {
    StatusesIn(Logs(blocks, from, to))
  }

  function Turn(blocks: Blocks, st: State, poll: Poll): State {
    match poll
    case HeightFails => st
    case LogsFail(_) => st
    case HandlerThrows(height, at) =>
      var range := Statuses(blocks, st.lastBlock + 1, height);
      if height <= st.lastBlock then st
      else if at < |range| then st.(delivered := st.delivered + range[..at + 1])
      else State(height, st.delivered + range)
    case Succeeds(height) =>
      if height <= st.lastBlock then st
      else State(height, st.delivered + Statuses(blocks, st.lastBlock + 1, height))
  }

  function Run(blocks: Blocks, polls: seq<Poll>): State {
    if polls == [] then State(0, []) else Turn(blocks, Run(blocks, polls[..|polls| - 1]), polls[|polls| - 1])
  }

  /** The inner loop: hands over the statuses of the logs until the handler throws. */
  method HandOver(logs: seq<Log>, throwsAt: Option<nat>) returns (given: seq<Status>, threw: bool)
    ensures var all := StatusesIn(logs);
            if throwsAt.Some? && throwsAt.value < |all| then threw && given == all[..throwsAt.value + 1]
            else !threw && given == all
  {
    given, threw := [], false;
    for k := 0 to |logs|
      invariant given + StatusesIn(logs[k..]) == StatusesIn(logs)
      invariant throwsAt.Some? ==> |given| <= throwsAt.value
    {
      assert logs[k..][0] == logs[k] && logs[k..][1..] == logs[k + 1..];
      if logs[k].Some? {
        ghost var rest := StatusesIn(logs[k + 1..]);
        assert given + ([logs[k].value] + rest) == (given + [logs[k].value]) + rest;
        given := given + [logs[k].value];
        if throwsAt == Some(|given| - 1) {
          return given, true;
        }
      } else {
        assert StatusesIn(logs[k..]) == StatusesIn(logs[k + 1..]);
      }
    }
    assert given + [] == given;
  }

  /** The loop until it is stopped: polls are the turns it got to take. */
  method PollLoop(blocks: Blocks, polls: seq<Poll>) returns (delivered: seq<Status>, lastBlock: nat)
    ensures State(lastBlock, delivered) == Run(blocks, polls)
  {
    lastBlock, delivered := 0, [];
    for i := 0 to |polls|
      invariant State(lastBlock, delivered) == Run(blocks, polls[..i])
    {
      assert polls[..i + 1][..i] == polls[..i];
      if !polls[i].HeightFails? {
        var currentBlock := polls[i].height;
        if currentBlock > lastBlock && !polls[i].LogsFail? {
          var logs := Logs(blocks, lastBlock + 1, currentBlock);
          var given, threw := HandOver(logs, if polls[i].HandlerThrows? then Some(polls[i].at) else None);
          delivered := delivered + given;
          if !threw {
            lastBlock := currentBlock;
          }
        }
      }
    }
    assert polls[..|polls|] == polls;
  }

  lemma {:induction false} StatusesInConcat(a: seq<Log>, b: seq<Log>)
    ensures StatusesIn(a + b) == StatusesIn(a) + StatusesIn(b)
  {
    if a == [] {
      assert a + b == b;
    } else {
      assert (a + b)[0] == a[0] && (a + b)[1..] == a[1..] + b;
      StatusesInConcat(a[1..], b);
      var head := if a[0].Some? then [a[0].value] else [];
      assert head + (StatusesIn(a[1..]) + StatusesIn(b)) == (head + StatusesIn(a[1..])) + StatusesIn(b);
    }
  }

  lemma {:induction false} LogsSplit(blocks: Blocks, from: nat, mid: nat, to: nat)
    requires from <= mid + 1 && mid <= to
    ensures Logs(blocks, from, to) == Logs(blocks, from, mid) + Logs(blocks, mid + 1, to)
    decreases mid + 1 - from
  {
    if from <= mid {
      LogsSplit(blocks, from + 1, mid, to);
    }
  }

  lemma StatusesSplit(blocks: Blocks, mid: nat, to: nat)
    requires mid <= to
    ensures Statuses(blocks, 1, to) == Statuses(blocks, 1, mid) + Statuses(blocks, mid + 1, to)
  {
    LogsSplit(blocks, 1, mid, to);
    StatusesInConcat(Logs(blocks, 1, mid), Logs(blocks, mid + 1, to));
  }

  /** The positions of the logs that were handed over: increasing, each with its status, and none with
      decoded arguments left out. */
  ghost predicate HandedOver(logs: seq<Log>, statuses: seq<Status>, positions: seq<nat>) {
    && |positions| == |statuses|
    && (forall k | 0 <= k < |positions| :: positions[k] < |logs| && logs[positions[k]] == Some(statuses[k]))
    && (forall j, k | 0 <= j < k < |positions| :: positions[j] < positions[k])
    && forall i | 0 <= i < |logs| && logs[i].Some? :: i in positions
  }

  /** Of every list of logs exactly those with decoded arguments are handed over, in their order. */
  lemma {:induction false} DecodedAreHandedOver(logs: seq<Log>) returns (positions: seq<nat>)
    ensures HandedOver(logs, StatusesIn(logs), positions)
  {
    positions := [];
    if logs != [] {
      var front, last := logs[..|logs| - 1], logs[|logs| - 1];
      positions := DecodedAreHandedOver(front);
      assert logs == front + [last];
      StatusesInConcat(front, [last]);
      StatusesOfOne(last);
      if last.Some? {
        positions := positions + [|front|];
      }
    }
  }

  lemma StatusesOfOne(log: Log)
    ensures StatusesIn([log]) == if log.Some? then [log.value] else []
  {
    assert [log][1..] == [] && StatusesIn([]) == [];
  }

  lemma StatusesOfBlock(blocks: Blocks, n: nat)
    ensures Statuses(blocks, n, n) == StatusesIn(blocks(n))
  {
    assert Logs(blocks, n + 1, n) == [] && blocks(n) + [] == blocks(n);
  }

  /** Statuses are delivered block by block: what a run without throwing turns delivers is, for every
      block up to its position, what the earlier blocks hold, then that block, then the later ones. */
  lemma BlocksAreDelivered(blocks: Blocks, polls: seq<Poll>, n: nat)
    requires (forall p | p in polls :: !p.HandlerThrows?) && 1 <= n <= Run(blocks, polls).lastBlock
    ensures var st := Run(blocks, polls);
            st.delivered == Statuses(blocks, 1, n - 1) + StatusesIn(blocks(n)) + Statuses(blocks, n + 1, st.lastBlock)
  {
    var last := Run(blocks, polls).lastBlock;
    AsyncHandlerSeesAllOnce(blocks, polls);
    StatusesSplit(blocks, n, last);
    StatusesSplit(blocks, n - 1, n);
    StatusesOfBlock(blocks, n);
  }

  /** How many statuses a turn hands over without moving on. */
  function Repeated(blocks: Blocks, st: State, poll: Poll): nat {
    if poll.HandlerThrows? && poll.height > st.lastBlock
       && poll.at < |Statuses(blocks, st.lastBlock + 1, poll.height)|
    then poll.at + 1 else 0
  }

  function RepeatedInRun(blocks: Blocks, polls: seq<Poll>): nat {
    if polls == [] then 0
    else
      var before := polls[..|polls| - 1];
      RepeatedInRun(blocks, before) + Repeated(blocks, Run(blocks, before), polls[|polls| - 1])
  }

  /** Exactly-once delivery: over every run, the statuses delivered are those of the blocks
      1..lastBlock, in order and each once, if and only if no handler call threw; whatever a
      throwing call saw is delivered on top. */
  lemma {:induction false} DeliversExactlyOnce(blocks: Blocks, polls: seq<Poll>)
    ensures var st := Run(blocks, polls);
            && |st.delivered| == |Statuses(blocks, 1, st.lastBlock)| + RepeatedInRun(blocks, polls)
            && (st.delivered == Statuses(blocks, 1, st.lastBlock) <==> RepeatedInRun(blocks, polls) == 0)
  {
    if polls == [] {
      assert Logs(blocks, 1, 0) == [];
    } else {
      var before := polls[..|polls| - 1];
      DeliversExactlyOnce(blocks, before);
      var st, st' := Run(blocks, before), Run(blocks, polls);
      if st'.lastBlock > st.lastBlock {
        StatusesSplit(blocks, st.lastBlock, st'.lastBlock);
      }
    }
  }

  lemma {:induction false} NothingRepeated(blocks: Blocks, polls: seq<Poll>)
    requires forall p | p in polls :: !p.HandlerThrows?
    ensures RepeatedInRun(blocks, polls) == 0
  {
    if polls != [] {
      NothingRepeated(blocks, polls[..|polls| - 1]);
      assert polls[|polls| - 1] in polls;
    }
  }

  /** The agent's own handler is an async function (agent/index.ts:49): an exception inside it is a
      rejected promise that the loop does not wait for, so it never reaches the loop. With such a
      handler every run delivers the statuses of the blocks 1..lastBlock exactly once, whatever the
      node answers and whichever calls fail. */
  lemma AsyncHandlerSeesAllOnce(blocks: Blocks, polls: seq<Poll>)
    requires forall p | p in polls :: !p.HandlerThrows?
    ensures var st := Run(blocks, polls);
            st.delivered == Statuses(blocks, 1, st.lastBlock)
  {
    NothingRepeated(blocks, polls);
    DeliversExactlyOnce(blocks, polls);
  }

  /** Over any continuation of any run the position never moves back and nothing delivered is taken
      back, and the position has reached every height that a successful turn saw. */
  lemma {:induction false} RunAdvances(blocks: Blocks, polls: seq<Poll>, more: seq<Poll>)
    ensures var st, st' := Run(blocks, polls), Run(blocks, polls + more);
            && st.lastBlock <= st'.lastBlock && st.delivered <= st'.delivered
            && forall p | p in more && p.Succeeds? :: p.height <= st'.lastBlock
  {
    if more == [] {
      assert polls + more == polls;
    } else {
      var front, last := more[..|more| - 1], more[|more| - 1];
      RunAdvances(blocks, polls, front);
      assert (polls + more)[..|polls + more| - 1] == polls + front;
      assert more == front + [last];
    }
  }
}
