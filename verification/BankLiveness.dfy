/** When every run of the bank simulation comes to a proper end. */
module BankLiveness {
  import opened Command
  import opened BankServer
  import opened BankProtocol
  import opened BankSafety
  import opened Sequences

  // ----- runs are bounded -----

  ghost function AtmWork(length: nat, a: Atm): int {
    if a.done then 0 else if a.waiting then 3 * (length - a.pos) - 1 else 3 * (length - a.pos) + 1
  }

  ghost function AtmsWork(length: nat, atms: seq<Atm>): int {
    if atms == [] then 0 else AtmWork(length, atms[0]) + AtmsWork(length, atms[1..])
  }

  /** How many steps can still be taken, at most. */
  ghost function Work(trace: seq<Cmd>, s: Sys): int {
    AtmsWork(|trace|, s.atms) + |s.inbound|
  }

  lemma {:induction false} AtmsWorkUpdate(length: nat, atms: seq<Atm>, k: nat, a: Atm)
    requires k < |atms|
    ensures AtmsWork(length, atms[k := a]) == AtmsWork(length, atms) - AtmWork(length, atms[k]) + AtmWork(length, a)
  {
    if k > 0 {
      AtmsWorkUpdate(length, atms[1..], k - 1, a);
      assert atms[k := a][1..] == atms[1..][k - 1 := a];
    } else {
      assert atms[k := a][1..] == atms[1..];
    }
  }

  lemma {:induction false} AtmsWorkStart(length: nat, n: nat)
    ensures AtmsWork(length, seq(n, _ => Atm(0, false, false, []))) == n * (3 * length + 1)
  {
    if n > 0 {
      var a := Atm(0, false, false, []);
      assert seq(n, _ => a)[1..] == seq(n - 1, _ => a);
      AtmsWorkStart(length, n - 1);
      OneMore(3 * length + 1, n - 1);
    }
  }

  lemma {:induction false} AtmsWorkNonNegative(length: nat, atms: seq<Atm>)
    requires forall k :: 0 <= k < |atms| ==> AtmWork(length, atms[k]) >= 0
    ensures AtmsWork(length, atms) >= 0
  {
    if atms != [] { AtmsWorkNonNegative(length, atms[1..]); }
  }

  lemma WorkNonNegative(trace: seq<Cmd>, accounts: nat, s: Sys)
    requires SysOk(trace, accounts, s)
    ensures Work(trace, s) >= 0
  {
    hide LogOk, Of, From, Asked, Told;
    forall k | 0 <= k < |s.atms| ensures AtmWork(|trace|, s.atms[k]) >= 0 {
      assert AtmOk(trace, k, s.atms[k], Of(s.log, k), From(s.inbound, k), s.desk.replies[k]);
    }
    AtmsWorkNonNegative(|trace|, s.atms);
  }

  /** Every step uses up work. */
  lemma StepUsesWork(trace: seq<Cmd>, accounts: nat, s: Sys, t: Turn)
    requires SysOk(trace, accounts, s) && CanStep(s, t)
    ensures Work(trace, Step(trace, s, t)) < Work(trace, s)
  {
    hide LogOk, Of, From, Asked, Told, AtmsWork, Handled, StatusOf;
    if t.AtmTurn? {
      var k := t.k;
      assert AtmOk(trace, k, s.atms[k], Of(s.log, k), From(s.inbound, k), s.desk.replies[k]);
      AtmsWorkUpdate(|trace|, s.atms, k, Step(trace, s, t).atms[k]);
      assert Step(trace, s, t).atms == s.atms[k := Step(trace, s, t).atms[k]];
    }
  }

  /** How many turns of the schedule are steps. */
  ghost function Steps(trace: seq<Cmd>, s: Sys, turns: seq<Turn>): nat {
    if turns == [] then 0
    else
      var r := turns[..|turns| - 1];
      Steps(trace, s, r) + if CanStep(Exec(trace, s, r), turns[|turns| - 1]) then 1 else 0
  }

  /** No run goes on for ever: it has at most 3 * |trace| + 1 steps for each ATM. */
  lemma {:induction false} RunsAreBounded(trace: seq<Cmd>, atms: nat, accounts: nat, turns: seq<Turn>)
    ensures var start := Init(atms, accounts);
            && Steps(trace, start, turns) + Work(trace, Exec(trace, start, turns)) <= atms * (3 * |trace| + 1)
            && Work(trace, Exec(trace, start, turns)) >= 0
  {
    hide SysOk, Work, Step, CanStep;
    var start := Init(atms, accounts);
    AlwaysOk(trace, atms, accounts, turns);
    WorkNonNegative(trace, accounts, Exec(trace, start, turns));
    if turns == [] {
      WorkAtStart(trace, atms, accounts);
    } else {
      var n := |turns| - 1;
      RunsAreBounded(trace, atms, accounts, turns[..n]);
      AlwaysOk(trace, atms, accounts, turns[..n]);
      var r := Exec(trace, start, turns[..n]);
      if CanStep(r, turns[n]) { StepUsesWork(trace, accounts, r, turns[n]); }
    }
  }

  lemma WorkAtStart(trace: seq<Cmd>, atms: nat, accounts: nat)
    ensures Work(trace, Init(atms, accounts)) == atms * (3 * |trace| + 1)
  {
    AtmsWorkStart(|trace|, atms);
  }

  // ----- stopping -----

  /** No process can take a step. */
  ghost predicate Stuck(s: Sys) {
    forall t :: !CanStep(s, t)
  }

  /** All ATMs and the bank have ended. */
  ghost predicate Ended(s: Sys) {
    AllDone(s) && s.desk.active == 0
  }

  ghost function IsExit(m: Cmd): int {
    if m.c == EXIT then 1 else 0
  }

  lemma {:induction false} LogExitsIsSum(log: seq<Exchange>)
    ensures LogExits(log) == Sum(Asked(log), IsExit)
  {
    if log != [] {
      var rest, e := log[..|log| - 1], log[|log| - 1];
      LogExitsIsSum(rest);
      SumMore(rest, e, IsExit);
      assert log == rest + [e];
    }
  }

  /** EXITs that the ATMs are to send. */
  ghost function PlannedExits(trace: seq<Cmd>, atms: nat): int {
    Planned(trace, atms, IsExit)
  }

  /** The commands of an ATM, if any, end with EXIT. */
  ghost predicate EndsWithExit(cs: seq<Cmd>) {
    cs == [] || cs[|cs| - 1].c == EXIT
  }

  /** As many EXITs as ATMs, and no ATM has anything left to send after its last EXIT. */
  ghost predicate Leaves(trace: seq<Cmd>, atms: nat) {
    PlannedExits(trace, atms) == atms && forall k :: 0 <= k < atms ==> EndsWithExit(Commands(trace, k))
  }

  /** An ATM that can take no step has ended, or waits for the reply to a request that is still
      in the pipe. */
  lemma StuckAtm(trace: seq<Cmd>, accounts: nat, s: Sys, k: nat)
    requires SysOk(trace, accounts, s) && k < |s.atms| && !CanStep(s, AtmTurn(k))
    ensures s.atms[k].done || (From(s.inbound, k) != [] && Asked(Of(s.log, k)) < Commands(trace, k))
  {
    hide AtmOk, LogOk, Balances, Commands, BankOk;
    var mine, sent, out := Of(s.log, k), From(s.inbound, k), s.desk.replies[k];
    InFlight(trace, k, s.atms[k], mine, sent, out);
    SentIsNext(trace, k, s.atms[k], mine, sent, out);
  }

  /** What was sent and not served yet comes next among the ATM's commands. */
  lemma SentIsNext(trace: seq<Cmd>, k: nat, a: Atm, mine: seq<Exchange>, sent: seq<Cmd>, out: seq<Cmd>)
    requires AtmOk(trace, k, a, mine, sent, out)
    ensures Asked(mine) + sent <= Commands(trace, k)
  {
    var stop := Stop(trace, k);
    var upTo := a.pos + if a.waiting then 1 else 0;
    assert From(trace[..upTo], k) == Asked(mine) + sent by {
      if a.waiting {
        assert trace[..upTo] == trace[..a.pos] + [trace[a.pos]];
        FromMore(trace[..a.pos], trace[a.pos], k);
      }
    }
    assert trace[..stop][..upTo] == trace[..upTo];
    FromPrefix(trace[..stop], k, upTo);
  }

  lemma {:induction false} ExitsNonNegative(cs: seq<Cmd>)
    ensures Sum(cs, IsExit) >= 0
  {
    if cs != [] { ExitsNonNegative(cs[1..]); }
  }

  /** A proper prefix of commands that end with EXIT has fewer EXITs. */
  lemma PrefixExits(part: seq<Cmd>, cs: seq<Cmd>)
    requires part <= cs
    ensures Sum(part, IsExit) <= Sum(cs, IsExit)
    ensures part != cs && EndsWithExit(cs) ==> Sum(part, IsExit) < Sum(cs, IsExit)
  {
    var rest := cs[|part|..];
    assert cs == part + rest;
    SumConcat(part, rest, IsExit);
    ExitsNonNegative(rest);
    if rest != [] && EndsWithExit(cs) {
      var n := |rest| - 1;
      assert rest == rest[..n] + [rest[n]] && rest[n] == cs[|cs| - 1];
      SumConcat(rest[..n], [rest[n]], IsExit);
      ExitsNonNegative(rest[..n]);
    }
  }

  /** If every ATM's served commands begin its commands, there are no more EXITs served than
      planned, and as many only if all were served. */
  lemma {:induction false} ExitsServed(trace: seq<Cmd>, log: seq<Exchange>, n: nat)
    requires forall k :: 0 <= k < n ==> Asked(Of(log, k)) <= Commands(trace, k)
    requires forall k :: 0 <= k < n ==> EndsWithExit(Commands(trace, k))
    ensures ByAtm(log, n, IsExit) <= Planned(trace, n, IsExit)
    ensures ByAtm(log, n, IsExit) == Planned(trace, n, IsExit) ==> AllServed(trace, log, n)
  {
    hide EndsWithExit, Commands, Of;
    if n > 0 {
      ExitsServed(trace, log, n - 1);
      PrefixExits(Asked(Of(log, n - 1)), Commands(trace, n - 1));
    }
  }

  lemma ServedPrefixes(trace: seq<Cmd>, accounts: nat, s: Sys)
    requires SysOk(trace, accounts, s)
    ensures forall k :: 0 <= k < |s.atms| ==> Asked(Of(s.log, k)) <= Commands(trace, k)
    ensures s.desk.active == |s.atms| - ByAtm(s.log, |s.atms|, IsExit)
  {
    hide AtmOk, LogOk, Balances, Commands, Of;
    forall k | 0 <= k < |s.atms| ensures Asked(Of(s.log, k)) <= Commands(trace, k) {
      Matched(trace, k, s.atms[k], Of(s.log, k), From(s.inbound, k), s.desk.replies[k]);
    }
    LogExitsIsSum(s.log);
    assert forall i :: 0 <= i < |s.log| ==> Expected(s.log[i].request, |s.atms|);
    SumByAtm(s.log, |s.atms|, IsExit);
  }

  /** While the bank serves, only an empty pipe stops it; then every ATM that is stuck ended. */
  lemma StuckServing(trace: seq<Cmd>, accounts: nat, s: Sys, k: nat)
    requires SysOk(trace, accounts, s) && s.desk.active != 0 && !CanStep(s, BankTurn(0))
    requires k < |s.atms| && !CanStep(s, AtmTurn(k))
    ensures s.atms[k].done
  {
    hide AtmsOk, LogOk;
    StuckAtm(trace, accounts, s, k);
  }

  lemma StuckEnds(trace: seq<Cmd>, accounts: nat, s: Sys)
    requires SysOk(trace, accounts, s) && Stuck(s) && Leaves(trace, |s.atms|)
    ensures Ended(s)
  {
    hide SysOk, CanStep, EndsWithExit, Commands;
    var n := |s.atms|;
    ServedPrefixes(trace, accounts, s);
    if s.desk.active != 0 {
      forall k | 0 <= k < n ensures s.atms[k].done {
        StuckServing(trace, accounts, s, k);
      }
      DoneIsServed(trace, accounts, s);
      ServedIsPlanned(trace, s.log, n, IsExit);
    } else {
      ExitsServed(trace, s.log, n);
      forall k | 0 <= k < n ensures s.atms[k].done {
        assert Asked(Of(s.log, k)) == Commands(trace, k);
        StuckAtm(trace, accounts, s, k);
      }
    }
  }

  // ----- a run that does not end -----

  /** The ATMs that are held, each with the position in the trace before which it is. */
  type Hold = map<nat, nat>

  /** The turn of an ATM that is about to act on the command it is held before. */
  ghost predicate IsHeld(s: Sys, t: Turn, hold: Hold) {
    t.AtmTurn? && t.k in hold && t.k < |s.atms| && s.atms[t.k].pos == hold[t.k] && !s.atms[t.k].waiting
  }

  ghost predicate StuckButHeld(s: Sys, hold: Hold) {
    forall t :: CanStep(s, t) ==> IsHeld(s, t, hold)
  }

  ghost predicate Before(a: Atm, p: nat) {
    a.pos <= p && !a.done && (a.pos == p ==> !a.waiting)
  }

  /** No held ATM has acted on the command it is held before. */
  ghost predicate NotPast(s: Sys, hold: Hold) {
    forall k :: k in hold ==> k < |s.atms| && Before(s.atms[k], hold[k])
  }

  /** ATMs are held before a command they reach, or before they end. */
  ghost predicate CanHold(trace: seq<Cmd>, atms: nat, hold: Hold) {
    forall k :: k in hold ==> k < atms && hold[k] <= Stop(trace, k)
  }

  lemma ExecMore(trace: seq<Cmd>, s: Sys, turns: seq<Turn>, t: Turn)
    requires CanStep(Exec(trace, s, turns), t)
    ensures Exec(trace, s, turns + [t]) == Step(trace, Exec(trace, s, turns), t)
  {
    assert (turns + [t])[..|turns|] == turns;
  }

  lemma StepBefore(trace: seq<Cmd>, accounts: nat, s: Sys, t: Turn, k: nat, p: nat)
    requires SysOk(trace, accounts, s) && CanStep(s, t) && k < |s.atms| && Before(s.atms[k], p)
    requires t == AtmTurn(k) ==> s.atms[k].pos < p || s.atms[k].waiting
    requires p <= Stop(trace, k)
    ensures k < |Step(trace, s, t).atms| && Before(Step(trace, s, t).atms[k], p)
  {
    hide LogOk, Of, From, Asked, Told, Handled, StatusOf, Balances;
    if t == AtmTurn(k) {
      assert AtmOk(trace, k, s.atms[k], Of(s.log, k), From(s.inbound, k), s.desk.replies[k]);
    }
  }

  lemma StepNotPast(trace: seq<Cmd>, accounts: nat, s: Sys, t: Turn, hold: Hold)
    requires SysOk(trace, accounts, s) && CanStep(s, t) && !IsHeld(s, t, hold)
    requires NotPast(s, hold) && CanHold(trace, |s.atms|, hold)
    ensures NotPast(Step(trace, s, t), hold)
  {
    hide SysOk, CanStep, Step, Stop;
    forall k | k in hold
      ensures k < |Step(trace, s, t).atms| && Before(Step(trace, s, t).atms[k], hold[k]) {
      StepBefore(trace, accounts, s, t, k, hold[k]);
    }
  }

  /** From any reachable state, letting every process run but the held ones leads to a state in
      which only these can step. */
  lemma RunHeld(trace: seq<Cmd>, atms: nat, accounts: nat, turns: seq<Turn>, hold: Hold) returns (more: seq<Turn>)
    requires CanHold(trace, atms, hold) && NotPast(Exec(trace, Init(atms, accounts), turns), hold)
    ensures turns <= more && StuckButHeld(Exec(trace, Init(atms, accounts), more), hold)
    ensures NotPast(Exec(trace, Init(atms, accounts), more), hold)
    decreases Work(trace, Exec(trace, Init(atms, accounts), turns))
  {
    hide SysOk, CanStep, Step, NotPast, IsHeld, Work, Exec, CanHold;
    var s := Exec(trace, Init(atms, accounts), turns);
    AlwaysOk(trace, atms, accounts, turns);
    WorkNonNegative(trace, accounts, s);
    more := turns;
    if t :| CanStep(s, t) && !IsHeld(s, t, hold) {
      ExecMore(trace, Init(atms, accounts), turns, t);
      StepUsesWork(trace, accounts, s, t);
      StepNotPast(trace, accounts, s, t, hold);
      more := RunHeld(trace, atms, accounts, turns + [t], hold);
    }
  }

  lemma RunToStuck(trace: seq<Cmd>, atms: nat, accounts: nat, turns: seq<Turn>) returns (more: seq<Turn>)
    ensures turns <= more && Stuck(Exec(trace, Init(atms, accounts), more))
  {
    hide CanStep, Step, Exec, SysOk;
    more := RunHeld(trace, atms, accounts, turns, map[]);
  }

  /** Once the bank has closed, nothing more is served. */
  lemma {:induction false} ClosedStays(trace: seq<Cmd>, s: Sys, turns: seq<Turn>, more: seq<Turn>)
    requires turns <= more && Exec(trace, s, turns).desk.active == 0
    ensures Exec(trace, s, more).log == Exec(trace, s, turns).log
    ensures Exec(trace, s, more).desk.active == 0
  {
    if |more| > |turns| {
      ClosedStays(trace, s, turns, more[..|more| - 1]);
    } else {
      assert more == turns;
    }
  }

  /** The position in the trace of an ATM's last command. */
  lemma {:induction false} LastOf(ms: seq<Cmd>, k: nat) returns (p: nat)
    requires From(ms, k) != []
    ensures p < |ms| && ms[p].id == k
    ensures From(ms, k) == From(ms[..p], k) + [ms[p]]
  {
    var n := |ms| - 1;
    assert ms == ms[..n] + [ms[n]];
    FromMore(ms[..n], ms[n], k);
    if ms[n].id == k {
      p := n;
    } else {
      p := LastOf(ms[..n], k);
      assert ms[..n][..p] == ms[..p];
    }
  }

  lemma LastCommand(trace: seq<Cmd>, k: nat) returns (p: nat)
    requires Commands(trace, k) != []
    ensures p < Stop(trace, k)
    ensures Commands(trace, k) == From(trace[..p], k) + [trace[p]]
  {
    p := LastOf(trace[..Stop(trace, k)], k);
    assert trace[..Stop(trace, k)][..p] == trace[..p];
  }

  /** An ATM that is held before command `p` has sent at most what comes before it, and just
      that if it is at `p`. */
  lemma HeldSent(trace: seq<Cmd>, k: nat, p: nat, a: Atm, mine: seq<Exchange>, sent: seq<Cmd>, out: seq<Cmd>)
    requires AtmOk(trace, k, a, mine, sent, out) && Before(a, p) && p <= |trace|
    ensures Asked(mine) + sent <= From(trace[..p], k)
    ensures a.pos == p ==> Asked(mine) + sent == From(trace[..p], k)
  {
    var upTo := a.pos + if a.waiting then 1 else 0;
    assert From(trace[..upTo], k) == Asked(mine) + sent by {
      if a.waiting {
        assert trace[..upTo] == trace[..a.pos] + [trace[a.pos]];
        FromMore(trace[..a.pos], trace[a.pos], k);
      }
    }
    assert trace[..p][..upTo] == trace[..upTo];
    FromPrefix(trace[..p], k, upTo);
  }

  lemma AtWithin(trace: seq<Cmd>, k: nat, a: Atm, mine: seq<Exchange>, sent: seq<Cmd>, out: seq<Cmd>)
    requires AtmOk(trace, k, a, mine, sent, out)
    ensures a.pos <= |trace|
  {
  }

  lemma {:induction false} SameExits(trace: seq<Cmd>, log: seq<Exchange>, n: nat)
    requires forall k :: 0 <= k < n ==> Sum(Asked(Of(log, k)), IsExit) == Sum(Commands(trace, k), IsExit)
    ensures ByAtm(log, n, IsExit) == Planned(trace, n, IsExit)
  {
    if n > 0 { SameExits(trace, log, n - 1); }
  }

  lemma SumWithoutLast(cs: seq<Cmd>, part: seq<Cmd>, m: Cmd)
    requires cs == part + [m] && m.c != EXIT
    ensures Sum(part, IsExit) == Sum(cs, IsExit)
  {
    SumConcat(part, [m], IsExit);
  }

  /** While the bank serves, an ATM that is held is where it is held, and all that it sent was
      served; every other ATM has ended. */
  lemma HeldAt(trace: seq<Cmd>, accounts: nat, s: Sys, hold: Hold, k: nat)
    requires SysOk(trace, accounts, s) && StuckButHeld(s, hold) && NotPast(s, hold)
    requires s.desk.active != 0 && k < |s.atms|
    ensures s.inbound == []
    ensures k !in hold ==> s.atms[k].done
    ensures k in hold ==> CanStep(s, AtmTurn(k)) && !s.atms[k].waiting && s.atms[k].pos == hold[k]
                          && Asked(Of(s.log, k)) == From(trace[..hold[k]], k)
  {
    hide AtmOk, LogOk, Balances, Stop;
    assert !CanStep(s, BankTurn(0)) by { assert !IsHeld(s, BankTurn(0), hold); }
    if k !in hold || s.atms[k].waiting {
      assert !IsHeld(s, AtmTurn(k), hold);
      StuckServing(trace, accounts, s, k);
    } else {
      assert CanStep(s, AtmTurn(k));
      AtWithin(trace, k, s.atms[k], Of(s.log, k), From(s.inbound, k), s.desk.replies[k]);
      HeldSent(trace, k, hold[k], s.atms[k], Of(s.log, k), From(s.inbound, k), s.desk.replies[k]);
      assert From(s.inbound, k) == [];
    }
  }

  /** If an ATM still has something else to send after its last EXIT, the others can make the
      bank close first. */
  lemma HeldCloses(trace: seq<Cmd>, accounts: nat, s: Sys, k: nat, p: nat)
    requires SysOk(trace, accounts, s) && StuckButHeld(s, map[k := p]) && NotPast(s, map[k := p])
    requires k < |s.atms| && p < Stop(trace, k) && Commands(trace, k) == From(trace[..p], k) + [trace[p]]
    requires trace[p].c != EXIT && PlannedExits(trace, |s.atms|) == |s.atms|
    ensures s.desk.active == 0
  {
    hide SysOk, StuckButHeld, NotPast, Commands, Of, CanStep;
    if s.desk.active != 0 {
      ServedPrefixes(trace, accounts, s);
      forall j | 0 <= j < |s.atms|
        ensures Sum(Asked(Of(s.log, j)), IsExit) == Sum(Commands(trace, j), IsExit) {
        HeldAt(trace, accounts, s, map[k := p], j);
        if j == k {
          SumWithoutLast(Commands(trace, k), From(trace[..p], k), trace[p]);
        } else {
          DoneSent(trace, accounts, s, j);
        }
      }
      SameExits(trace, s.log, |s.atms|);
    }
  }

  lemma DoneSent(trace: seq<Cmd>, accounts: nat, s: Sys, k: nat)
    requires SysOk(trace, accounts, s) && k < |s.atms| && s.atms[k].done
    ensures Asked(Of(s.log, k)) == Commands(trace, k)
    ensures From(s.inbound, k) == [] && s.desk.replies[k] == []
  {
    hide AtmOk, LogOk, BankOk;
    Matched(trace, k, s.atms[k], Of(s.log, k), From(s.inbound, k), s.desk.replies[k]);
    InFlight(trace, k, s.atms[k], Of(s.log, k), From(s.inbound, k), s.desk.replies[k]);
    DoneIsNotWaiting(trace, k, s.atms[k], Of(s.log, k), From(s.inbound, k), s.desk.replies[k]);
  }

  lemma DoneIsNotWaiting(trace: seq<Cmd>, k: nat, a: Atm, mine: seq<Exchange>, sent: seq<Cmd>, out: seq<Cmd>)
    requires AtmOk(trace, k, a, mine, sent, out) && a.done
    ensures !a.waiting
  {
  }

  /** What a held ATM has had served lies before the command it is held before. */
  lemma HeldServed(trace: seq<Cmd>, accounts: nat, s: Sys, hold: Hold, k: nat)
    requires SysOk(trace, accounts, s) && NotPast(s, hold) && k in hold && hold[k] <= |trace|
    ensures k < |s.atms| && Asked(Of(s.log, k)) <= From(trace[..hold[k]], k)
  {
    hide AtmOk, LogOk, BankOk;
    HeldSent(trace, k, hold[k], s.atms[k], Of(s.log, k), From(s.inbound, k), s.desk.replies[k]);
  }

  lemma NotPastAtStart(trace: seq<Cmd>, atms: nat, accounts: nat, hold: Hold)
    requires CanHold(trace, atms, hold)
    ensures NotPast(Exec(trace, Init(atms, accounts), []), hold)
  {
  }

  /** A schedule after which some ATM waits for ever. */
  lemma StaysOpen(trace: seq<Cmd>, atms: nat, accounts: nat) returns (turns: seq<Turn>)
    requires !Leaves(trace, atms)
    ensures Stuck(Exec(trace, Init(atms, accounts), turns)) && !Ended(Exec(trace, Init(atms, accounts), turns))
  {
    hide Exec, SysOk, Stuck, NotPast, StuckButHeld, Commands, Of, AllDone;
    var start := Init(atms, accounts);
    if PlannedExits(trace, atms) != atms {
      turns := RunToStuck(trace, atms, accounts, []);
      var s := Exec(trace, start, turns);
      AlwaysOk(trace, atms, accounts, turns);
      ServedPrefixes(trace, accounts, s);
      if Ended(s) {
        DoneIsServed(trace, accounts, s);
        ServedIsPlanned(trace, s.log, atms, IsExit);
      }
    } else {
      var k :| 0 <= k < atms && !EndsWithExit(Commands(trace, k));
      var p := LastCommand(trace, k);
      NotPastAtStart(trace, atms, accounts, map[k := p]);
      var held := RunHeld(trace, atms, accounts, [], map[k := p]);
      var t := Exec(trace, start, held);
      AlwaysOk(trace, atms, accounts, held);
      HeldCloses(trace, accounts, t, k, p);
      turns := RunToStuck(trace, atms, accounts, held);
      var s := Exec(trace, start, turns);
      ClosedStays(trace, start, held, turns);
      AlwaysOk(trace, atms, accounts, turns);
      HeldServed(trace, accounts, t, map[k := p], k);
      if Ended(s) { DoneIsServed(trace, accounts, s); }
    }
  }

  /** Every run comes to a proper end, with all ATMs and the bank ended, exactly when the trace
      has as many EXITs as ATMs and no ATM sends anything after its last EXIT. */
  lemma EveryRunEndsIff(trace: seq<Cmd>, atms: nat, accounts: nat)
    ensures (forall turns :: Stuck(Exec(trace, Init(atms, accounts), turns))
                             ==> Ended(Exec(trace, Init(atms, accounts), turns)))
       <==> Leaves(trace, atms)
  {
    hide Exec, SysOk, Stuck, Leaves, Ended;
    if Leaves(trace, atms) {
      forall turns | Stuck(Exec(trace, Init(atms, accounts), turns))
        ensures Ended(Exec(trace, Init(atms, accounts), turns)) {
        AlwaysOk(trace, atms, accounts, turns);
        StuckEnds(trace, accounts, Exec(trace, Init(atms, accounts), turns));
      }
    } else {
      var turns := StaysOpen(trace, atms, accounts);
    }
  }

  /** For such a trace the bank's loop ends exactly when all that the ATMs have to send was served. */
  lemma ClosesWhenAllServed(trace: seq<Cmd>, atms: nat, accounts: nat, turns: seq<Turn>)
    requires Leaves(trace, atms)
    ensures var s := Exec(trace, Init(atms, accounts), turns);
            s.desk.active == 0 <==> AllServed(trace, s.log, atms)
  {
    hide Exec, SysOk, AllServed, Commands, Of, EndsWithExit;
    AlwaysOk(trace, atms, accounts, turns);
    var s := Exec(trace, Init(atms, accounts), turns);
    ServedPrefixes(trace, accounts, s);
    ExitsServed(trace, s.log, atms);
    if AllServed(trace, s.log, atms) { ServedIsPlanned(trace, s.log, atms, IsExit); }
  }

  /** At a proper end all pipes are empty and every command the ATMs had to send was served. */
  lemma NothingIsLeft(trace: seq<Cmd>, atms: nat, accounts: nat, turns: seq<Turn>)
    requires Ended(Exec(trace, Init(atms, accounts), turns))
    ensures var s := Exec(trace, Init(atms, accounts), turns);
            && s.inbound == [] && AllServed(trace, s.log, atms)
            && forall k :: 0 <= k < |s.desk.replies| ==> s.desk.replies[k] == []
  {
    hide Exec, AtmOk, LogOk, Commands, Of;
    AlwaysOk(trace, atms, accounts, turns);
    var s := Exec(trace, Init(atms, accounts), turns);
    forall k | 0 <= k < atms
      ensures Asked(Of(s.log, k)) == Commands(trace, k) && From(s.inbound, k) == [] && s.desk.replies[k] == [] {
      DoneSent(trace, accounts, s, k);
    }
    if s.inbound != [] {
      assert Expected(s.inbound[0], atms);
      InFrom(s.inbound, s.inbound[0].id, 0);
    }
  }

  /** One EXIT for each ATM, as its last command, is enough. */
  lemma {:induction false} OneExitEach(trace: seq<Cmd>, atms: nat)
    requires forall k :: 0 <= k < atms ==> EndsWithExit(Commands(trace, k)) && Sum(Commands(trace, k), IsExit) == 1
    ensures Leaves(trace, atms)
  {
    if atms > 0 { OneExitEach(trace, atms - 1); }
  }
}
