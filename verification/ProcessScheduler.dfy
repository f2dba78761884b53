/** The background processes of the event loop take turns. */
module ProcessScheduler {
  import opened Helpers

  /** A process handler is known by its identity. */
  type Process = nat

  /**
   * What one round of the event loop finds: who is enabled, who needs processing, whether a timer is due
   * (then no process is picked) and which processes are registered during the round.
   */
  datatype Round = Round(enabled: set<Process>, needing: set<Process>, timerDue: bool, registered: seq<Process>)

  predicate Waits(p: Process, round: Round) { p in round.enabled && p in round.needing }

  function Enabled(processes: seq<Process>, round: Round): (r: seq<Process>)
    ensures |r| <= |processes|
  {
    if processes == [] then []
    else if processes[0] in round.enabled then [processes[0]] + Enabled(processes[1..], round)
    else Enabled(processes[1..], round)
  }

  /** How many processes come before the first one that waits. */
  function FirstWaiting(processes: seq<Process>, round: Round): (n: nat)
    ensures n <= |processes|
    ensures forall k | 0 <= k < n :: !Waits(processes[k], round)
    ensures n < |processes| ==> Waits(processes[n], round)
  {
    if processes == [] || Waits(processes[0], round) then 0 else 1 + FirstWaiting(processes[1..], round)
  }

  function Ran(processes: seq<Process>, round: Round): Option<Process> {
    var n := FirstWaiting(processes, round);
    if n < |processes| && !round.timerDue then Some(processes[n]) else None
  }

  /** The disabled processes on the way to the first waiting one are dropped; that one goes to the end. */
  function After(processes: seq<Process>, round: Round): seq<Process> {
    var n := FirstWaiting(processes, round);
    Enabled(processes[..n], round)
    + (if Ran(processes, round) == None then processes[n..] else processes[n + 1..] + [processes[n]])
    + round.registered
  }

  /** A process that needs processing when it is registered runs at once, out of turn. */
  function RunAtOnce(registered: seq<Process>, needing: set<Process>): seq<Process> {
    if registered == [] then []
    else RunAtOnce(registered[..|registered| - 1], needing)
         + if registered[|registered| - 1] in needing then [registered[|registered| - 1]] else []
  }

  class EventDispatcher {
    var processes: seq<Process>

    constructor ()
      ensures processes == []
    {
      processes := [];
    }

    method RegisterProcess(h: Process, needsProcessing: bool) returns (runs: bool)
      modifies this
      ensures processes == old(processes) + [h] && runs == needsProcessing
    {
      processes := processes + [h];
      runs := needsProcessing;
    }

    method FindWaiting(round: Round) returns (p: nat, hasWaitingProcess: bool)
      modifies this
      ensures var n := FirstWaiting(old(processes), round);
        && p <= |processes| && processes[..p] == Enabled(old(processes)[..n], round)
        && processes[p..] == old(processes)[n..] && hasWaitingProcess == (n < |old(processes)|)
    {
      p, hasWaitingProcess := 0, false;
      ghost var i := 0;
      ghost var was := processes;
      while p < |processes|
        invariant i <= |was| && p <= |processes| && i <= FirstWaiting(was, round)
        invariant processes[..p] == Enabled(was[..i], round) && processes[p..] == was[i..]
        invariant !hasWaitingProcess
        decreases |was| - i
      {
        assert processes[p] == processes[p..][0] == was[i];
        OneMoreEnabled(was, i, round);
        if processes[p] in round.enabled {
          if processes[p] in round.needing {
            hasWaitingProcess := true;
            break;
          }
          assert processes[..p + 1] == processes[..p] + [was[i]] && processes[p + 1..] == was[i..][1..];
          p := p + 1;
        } else {
          ghost var before := processes;
          processes := processes[..p] + processes[p + 1..];
          assert processes[..p] == before[..p] && processes[p..] == before[p..][1..];
        }
        i := i + 1;
      }
    }

    /** The waiting process is moved to the end before it runs. */
    method MoveToEnd(p: nat) returns (h: Process)
      requires p < |processes|
      modifies this
      ensures h == old(processes)[p]
      ensures processes == old(processes)[..p] + (old(processes)[p..][1..] + [h])
    {
      h := processes[p];
      processes := processes[..p] + processes[p + 1..];
      processes := processes + [h];
    }

    method RegisterAll(hs: seq<Process>, needing: set<Process>) returns (ran: seq<Process>)
      modifies this
      ensures processes == old(processes) + hs
      ensures ran == RunAtOnce(hs, needing)
    {
      ran := [];
      var i := 0;
      while i < |hs|
        invariant 0 <= i <= |hs|
        invariant processes == old(processes) + hs[..i]
        invariant ran == RunAtOnce(hs[..i], needing)
      {
        assert hs[..i + 1][..i] == hs[..i];
        var runs := RegisterProcess(hs[i], hs[i] in needing);
        if runs {
          ran := ran + [hs[i]];
        }
        i := i + 1;
      }
      assert hs[..i] == hs;
    }

    method RunRound(round: Round) returns (ran: Option<Process>, atOnce: seq<Process>)
      modifies this
      ensures ran == Ran(old(processes), round) && atOnce == RunAtOnce(round.registered, round.needing)
      ensures processes == After(old(processes), round)
    {
      hide Enabled;
      ghost var was, n := processes, FirstWaiting(processes, round);
      var p, hasWaitingProcess := FindWaiting(round);
      ran := None;
      assert processes == processes[..p] + processes[p..];
      if hasWaitingProcess && !round.timerDue {
        assert processes[p..][0] == was[n..][0] && was[n..][1..] == was[n + 1..];
        var h := MoveToEnd(p);
        ran := Some(h);
      }
      atOnce := RegisterAll(round.registered, round.needing);
    }
  }

  /** Exactly the registered processes that need processing run at once, as often as they are registered. */
  lemma {:induction false} RunAtOnceIsExact(registered: seq<Process>, needing: set<Process>)
    ensures forall h :: multiset(RunAtOnce(registered, needing))[h]
                        == if h in needing then multiset(registered)[h] else 0
  {
    if registered != [] {
      var init, h := registered[..|registered| - 1], registered[|registered| - 1];
      RunAtOnceIsExact(init, needing);
      assert registered == init + [h];
    }
  }

  /** They run in the order in which they are registered. */
  lemma {:induction false} RunAtOnceInOrder(registered: seq<Process>, more: seq<Process>, needing: set<Process>)
    ensures RunAtOnce(registered + more, needing) == RunAtOnce(registered, needing) + RunAtOnce(more, needing)
  {
    if more == [] {
      assert registered + [] == registered && RunAtOnce(registered, needing) + [] == RunAtOnce(registered, needing);
    } else {
      var init, h := more[..|more| - 1], more[|more| - 1];
      RunAtOnceInOrder(registered, init, needing);
      var all := registered + more;
      assert all[..|all| - 1] == registered + init && all[|all| - 1] == h;
      Assoc(RunAtOnce(registered, needing), RunAtOnce(init, needing), if h in needing then [h] else []);
    }
  }

  lemma {:induction false} OneMoreEnabled(processes: seq<Process>, n: nat, round: Round)
    requires n < |processes|
    ensures Enabled(processes[..n + 1], round)
         == Enabled(processes[..n], round) + if processes[n] in round.enabled then [processes[n]] else []
  {
    if n > 0 {
      OneMoreEnabled(processes[1..], n - 1, round);
      assert processes[..n + 1][1..] == processes[1..][..n] && processes[..n][1..] == processes[1..][..n - 1];
    } else {
      assert processes[..1][1..] == [] && processes[..0] == [];
    }
  }

  /** Exactly the enabled ones are kept, as often as they occur. */
  lemma {:induction false} EnabledIsExact(processes: seq<Process>, round: Round, h: Process)
    ensures multiset(Enabled(processes, round))[h] == if h in round.enabled then multiset(processes)[h] else 0
  {
    if processes != [] {
      EnabledIsExact(processes[1..], round, h);
      assert processes == [processes[0]] + processes[1..];
    }
  }

  /** They keep their order: what is kept of two parts is what is kept of the first and then of the second. */
  lemma {:induction false} EnabledInOrder(processes: seq<Process>, more: seq<Process>, round: Round)
    ensures Enabled(processes + more, round) == Enabled(processes, round) + Enabled(more, round)
  {
    if processes == [] {
      assert [] + more == more && [] + Enabled(more, round) == Enabled(more, round);
    } else {
      EnabledInOrder(processes[1..], more, round);
      assert (processes + more)[0] == processes[0] && (processes + more)[1..] == processes[1..] + more;
      Assoc([processes[0]], Enabled(processes[1..], round), Enabled(more, round));
    }
  }

  predicate IsFirstWaiting(processes: seq<Process>, k: nat, round: Round) {
    && k < |processes| && processes[k] in round.enabled && processes[k] in round.needing
    && forall j | 0 <= j < k :: processes[j] !in round.enabled || processes[j] !in round.needing
  }

  /**
   * The first process that is enabled and needs processing runs and goes to the end, unless a timer is due; disabled
   * ones in front of it are dropped, and new ones come last.
   */
  lemma {:induction false} RoundInDetail(processes: seq<Process>, round: Round, k: nat)
    requires IsFirstWaiting(processes, k, round)
    ensures Ran(processes, round) == if round.timerDue then None else Some(processes[k])
    ensures After(processes, round)
         == Enabled(processes[..k], round)
            + (if round.timerDue then processes[k..] else processes[k + 1..] + [processes[k]]) + round.registered
  {
    assert Waits(processes[k], round);
    var n := FirstWaiting(processes, round);
    assert n < |processes| ==> Waits(processes[n], round);
    assert n == k;
    hide Enabled;
  }

  /** If no process waits, all disabled ones are dropped. */
  lemma {:induction false} RoundWithoutWaiting(processes: seq<Process>, round: Round)
    requires forall k: nat :: !IsFirstWaiting(processes, k, round)
    ensures Ran(processes, round) == None && After(processes, round) == Enabled(processes, round) + round.registered
  {
    var n := FirstWaiting(processes, round);
    assert n < |processes| ==> IsFirstWaiting(processes, n, round);
    assert processes[..n] == processes && processes[n..] == [];
    hide Enabled;
    assert Enabled(processes, round) + [] == Enabled(processes, round);
  }

  // ----- fairness

  predicate IsAt(x: Process, k: nat, processes: seq<Process>) {
    k < |processes| && processes[k] == x
  }

  lemma {:induction false} EnabledStays(processes: seq<Process>, k: nat, round: Round) returns (j: nat)
    requires k < |processes| && processes[k] in round.enabled
    ensures j <= k && IsAt(processes[k], j, Enabled(processes, round))
  {
    if k == 0 {
      j := 0;
    } else {
      j := EnabledStays(processes[1..], k - 1, round);
      if processes[0] in round.enabled {
        j := j + 1;
      }
    }
  }

  /** A process that waits either runs or does not fall back, and comes closer by at least one if another one runs. */
  lemma {:induction false} WaitingComesCloser(x: Process, k: nat, processes: seq<Process>,
                                              round: Round) returns (j: nat)
    requires IsAt(x, k, processes) && Waits(x, round)
    ensures Ran(processes, round) != None || round.timerDue
    ensures Ran(processes, round) != Some(x) ==>
      IsAt(x, j, After(processes, round)) && j + (if round.timerDue then 0 else 1) <= k
  {
    var n := FirstWaiting(processes, round);
    assert n <= k;
    var e := |Enabled(processes[..n], round)|;
    if Ran(processes, round) == None {
      j := e + (k - n);
      assert processes[n..][k - n] == x;
    } else if k > n {
      j := e + (k - n - 1);
      assert processes[n + 1..][k - n - 1] == x;
    } else {
      j := 0;
    }
  }

  function History(processes: seq<Process>, rounds: seq<Round>): (ran: seq<Option<Process>>)
    ensures |ran| == |rounds|
    decreases |rounds|
  {
    if rounds == [] then []
    else [Ran(processes, rounds[0])] + History(After(processes, rounds[0]), rounds[1..])
  }

  /** The rounds in which a process could be picked. */
  function PickingRounds(rounds: seq<Round>): nat {
    if rounds == [] then 0 else (if rounds[0].timerDue then 0 else 1) + PickingRounds(rounds[1..])
  }

  /**
   * Whatever the others do, a process at index `k` that keeps waiting is run by any rounds among which there are
   * more than `k` picking ones: within `k + 1` picking rounds.
   */
  lemma {:induction false} Fairness(x: Process, k: nat, processes: seq<Process>, rounds: seq<Round>)
    requires IsAt(x, k, processes) && forall i | 0 <= i < |rounds| :: Waits(x, rounds[i])
    requires PickingRounds(rounds) > k
    ensures Some(x) in History(processes, rounds)
    decreases |rounds|
  {
    var ran := History(processes, rounds);
    var j := WaitingComesCloser(x, k, processes, rounds[0]);
    if Ran(processes, rounds[0]) == Some(x) {
      assert ran[0] == Some(x);
    } else {
      Fairness(x, j, After(processes, rounds[0]), rounds[1..]);
      assert ran[1..] == History(After(processes, rounds[0]), rounds[1..]);
      assert Some(x) in ran[1..];
    }
  }

  predicate AllWait(processes: seq<Process>, round: Round) {
    !round.timerDue && round.registered == [] && forall p <- processes :: Waits(p, round)
  }

  /** The bound is met exactly: while all wait, process number `k` is the one that runs in round number `k`. */
  lemma {:induction false} TurnsAreTaken(processes: seq<Process>, done: seq<Process>, rounds: seq<Round>)
    requires |rounds| <= |processes| && forall i | 0 <= i < |rounds| :: AllWait(processes + done, rounds[i])
    ensures forall k | 0 <= k < |rounds| :: History(processes + done, rounds)[k] == Some(processes[k])
    decreases |rounds|
  {
    if rounds != [] {
      var all := processes + done;
      var moved := done + [processes[0]];
      assert AllWait(all, rounds[0]) && all[0] == processes[0] && all[0] in all;
      assert all[..0] == [] && all[1..] + [all[0]] == processes[1..] + moved;
      assert After(all, rounds[0]) == processes[1..] + moved;
      forall i | 0 <= i < |rounds| - 1 ensures AllWait(processes[1..] + moved, rounds[1..][i]) {
        assert AllWait(all, rounds[i + 1]);
        assert forall p <- processes[1..] + moved :: p in all;
      }
      TurnsAreTaken(processes[1..], moved, rounds[1..]);
    }
  }
}
