/** What holds in every state that any interleaving of the ATMs and the bank reaches. */
module BankSafety {
  import opened Command
  import opened BankServer
  import opened BankProtocol
  import opened Sequences

  /** At most one message of an ATM is in flight, and only while it waits for it. */
  lemma OneInFlight(trace: seq<Cmd>, atms: nat, accounts: nat, turns: seq<Turn>, k: nat)
    requires k < atms
    ensures var s := Exec(trace, Init(atms, accounts), turns);
            |s.atms| == |s.desk.replies| == atms
            && |From(s.inbound, k)| + |s.desk.replies[k]| == if s.atms[k].waiting then 1 else 0
  {
    hide AtmOk, BankOk;
    AlwaysOk(trace, atms, accounts, turns);
    var s := Exec(trace, Init(atms, accounts), turns);
    InFlight(trace, k, s.atms[k], Of(s.log, k), From(s.inbound, k), s.desk.replies[k]);
  }

  lemma InFlight(trace: seq<Cmd>, k: nat, a: Atm, mine: seq<Exchange>, sent: seq<Cmd>, out: seq<Cmd>)
    requires AtmOk(trace, k, a, mine, sent, out)
    ensures |sent| + |out| == if a.waiting then 1 else 0
  {
  }

  lemma {:induction false} FromPrefix(ms: seq<Cmd>, k: nat, n: nat)
    requires n <= |ms|
    ensures From(ms[..n], k) <= From(ms, k)
  {
    FromConcat(ms[..n], ms[n..], k);
    assert ms == ms[..n] + ms[n..];
  }

  /** An ATM's exchanges are with its commands in order, and the replies it got are those. */
  lemma Matched(trace: seq<Cmd>, k: nat, a: Atm, mine: seq<Exchange>, sent: seq<Cmd>, out: seq<Cmd>)
    requires AtmOk(trace, k, a, mine, sent, out)
    ensures Asked(mine) <= Commands(trace, k) && a.got <= Told(mine)
    ensures a.done ==> Asked(mine) == Commands(trace, k) && sent == []
  {
    var stop := Stop(trace, k);
    var upTo := a.pos + if a.waiting then 1 else 0;
    assert From(trace[..upTo], k) == Asked(mine) + sent by {
      if a.waiting {
        assert trace[..upTo] == trace[..a.pos] + [trace[a.pos]];
        FromMore(trace[..a.pos], trace[a.pos], k);
      }
    }
    assert trace[..stop][..upTo] == trace[..upTo];
    FromPrefix(trace[..stop], k, upTo);
  }

  lemma {:induction false} OfIsFrom(log: seq<Exchange>, k: nat)
    ensures Asked(Of(log, k)) == From(Asked(log), k)
    ensures forall i :: 0 <= i < |Of(log, k)| ==> Of(log, k)[i] in log
  {
    if log != [] {
      var rest, e := log[..|log| - 1], log[|log| - 1];
      OfIsFrom(rest, k);
      FromMore(Asked(rest), e.request, k);
      assert Asked(log) == Asked(rest) + [e.request];
      assert Asked(Of(rest, k) + [e]) == Asked(Of(rest, k)) + [e.request];
    }
  }

  /** The j-th reply an ATM got is the bank's answer to the ATM's j-th command of the trace. */
  lemma RepliesMatchRequests(trace: seq<Cmd>, atms: nat, accounts: nat, turns: seq<Turn>, k: nat, j: nat)
    requires k < atms
    requires var s := Exec(trace, Init(atms, accounts), turns);
             |s.atms| == atms && j < |s.atms[k].got|
    ensures var s := Exec(trace, Init(atms, accounts), turns);
            j < |Commands(trace, k)|
            && exists i :: 0 <= i < |s.log| && s.log[i] == Exchange(Commands(trace, k)[j], s.atms[k].got[j])
                           && IsAnswer(Balances(accounts, s.log[..i]), s.log[i])
  {
    hide AtmOk, IsAnswer, Commands, Balances;
    AlwaysOk(trace, atms, accounts, turns);
    var s := Exec(trace, Init(atms, accounts), turns);
    var mine := Of(s.log, k);
    Matched(trace, k, s.atms[k], mine, From(s.inbound, k), s.desk.replies[k]);
    OfIsFrom(s.log, k);
    assert mine[j].request == Asked(mine)[j] && mine[j].reply == Told(mine)[j];
    assert mine[j] in s.log;
    var i :| 0 <= i < |s.log| && s.log[i] == mine[j];
  }

  /** What was sent to the bank so far, served or not, in the order it was sent. */
  ghost function Sent(s: Sys): seq<Cmd> {
    Asked(s.log) + s.inbound
  }

  lemma SentByStep(trace: seq<Cmd>, accounts: nat, s: Sys, t: Turn)
    requires SysOk(trace, accounts, s) && CanStep(s, t)
    ensures var r := Step(trace, s, t); s.log <= r.log && Sent(s) <= Sent(r)
  {
    hide AtmOk, LogOk, Balances, LogExits, Answer, After, Of, From;
    var r := Step(trace, s, t);
    match t
    case AtmTurn(k) =>
      assert s.inbound <= r.inbound;
    case BankTurn(_) =>
      assert Expected(s.inbound[0], |s.atms|);
      assert Asked(r.log) == Asked(s.log) + [s.inbound[0]];
  }

  /** The bank serves what the ATMs send in the order it was sent: as a run goes on, the requests
      served and those waiting, one after the other, only ever get longer at the end. */
  lemma {:induction false} ServedInOrder(trace: seq<Cmd>, atms: nat, accounts: nat, turns: seq<Turn>, n: nat)
    requires n <= |turns|
    ensures var r, s := Exec(trace, Init(atms, accounts), turns[..n]), Exec(trace, Init(atms, accounts), turns);
            r.log <= s.log && Asked(r.log) + r.inbound <= Asked(s.log) + s.inbound
    decreases |turns|
  {
    hide Init, CanStep, Step, SysOk;
    if n == |turns| {
      assert turns[..n] == turns;
    } else {
      var before := turns[..|turns| - 1];
      assert before[..n] == turns[..n];
      ServedInOrder(trace, atms, accounts, before, n);
      var q, t := Exec(trace, Init(atms, accounts), before), turns[|turns| - 1];
      AlwaysOk(trace, atms, accounts, before);
      if CanStep(q, t) { SentByStep(trace, accounts, q, t); }
    }
  }

  // ----- money -----

  ghost function Inflows(log: seq<Exchange>): int {
    if log == [] then 0
    else Inflows(log[..|log| - 1]) + Inflow(log[|log| - 1].request, log[|log| - 1].reply)
  }

  lemma {:induction false} TotalOfZeros(n: nat)
    ensures Total(seq(n, _ => 0)) == 0
  {
    if n > 0 {
      assert seq(n, _ => 0)[1..] == seq(n - 1, _ => 0);
      TotalOfZeros(n - 1);
    }
  }

  lemma InflowOfAnswer(a: seq<int>, e: Exchange)
    requires IsAnswer(a, e)
    ensures Total(After(a, e.request)) == Total(a) + Inflow(e.request, e.reply)
  {
    var outside :| e.reply == Answer(a, e.request, outside);
    MoneyIsConserved(a, e.request, outside);
  }

  lemma {:induction false} TotalIsInflows(accounts: nat, log: seq<Exchange>)
    requires LogOk(accounts, log)
    ensures Total(Balances(accounts, log)) == Inflows(log)
  {
    hide IsAnswer, After, Inflow, Total;
    if log == [] {
      TotalOfZeros(accounts);
    } else {
      var rest := log[..|log| - 1];
      assert LogOk(accounts, rest) by {
        assert forall i :: 0 <= i < |rest| ==> rest[..i] == log[..i];
      }
      TotalIsInflows(accounts, rest);
      InflowOfAnswer(Balances(accounts, rest), log[|log| - 1]);
    }
  }

  /** No command of the trace would take money by a negative amount. */
  ghost predicate NoNegativeAmounts(trace: seq<Cmd>, accounts: nat) {
    forall i :: 0 <= i < |trace| ==> !TakesByNegative(trace[i], accounts)
  }

  lemma {:induction false} BalancesNonNegative(trace: seq<Cmd>, accounts: nat, log: seq<Exchange>)
    requires NoNegativeAmounts(trace, accounts)
    requires forall i :: 0 <= i < |log| ==> log[i].request in trace
    ensures NonNegative(Balances(accounts, log))
  {
    if log != [] {
      hide After, TakesByNegative;
      var rest := log[..|log| - 1];
      BalancesNonNegative(trace, accounts, rest);
      StaysNonNegative(log[|log| - 1].request, accounts);
    }
  }

  lemma LoggedIsInTrace(trace: seq<Cmd>, s: Sys, accounts: nat, i: nat)
    requires SysOk(trace, accounts, s) && i < |s.log|
    ensures s.log[i].request in trace
  {
    hide AtmOk, LogOk, Balances, Stop;
    var e := s.log[i];
    var k := e.request.id;
    assert Expected(e.request, |s.atms|);
    var mine := Of(s.log, k);
    Matched(trace, k, s.atms[k], mine, From(s.inbound, k), s.desk.replies[k]);
    OfIsFrom(s.log, k);
    InFrom(Asked(s.log), k, i);
    FromIds(trace[..Stop(trace, k)], k);
    assert e.request in Commands(trace, k);
  }

  lemma {:induction false} InFrom(ms: seq<Cmd>, k: nat, i: nat)
    requires i < |ms| && ms[i].id == k
    ensures ms[i] in From(ms, k)
  {
    if i > 0 { InFrom(ms[1..], k, i - 1); }
  }

  /** Conservation: in every reachable state all balances are what accepted deposits brought in
      less what accepted withdrawals took out, and if no command takes by a negative amount no
      balance is negative. */
  lemma MoneyInEveryState(trace: seq<Cmd>, atms: nat, accounts: nat, turns: seq<Turn>)
    ensures var s := Exec(trace, Init(atms, accounts), turns);
            && Total(s.desk.accounts) == Inflows(s.log)
            && (NoNegativeAmounts(trace, accounts) ==> NonNegative(s.desk.accounts))
  {
    hide AtmOk, NonNegative, NoNegativeAmounts, Total, Inflows, After;
    AlwaysOk(trace, atms, accounts, turns);
    var s := Exec(trace, Init(atms, accounts), turns);
    TotalIsInflows(accounts, s.log);
    if NoNegativeAmounts(trace, accounts) {
      forall i | 0 <= i < |s.log| ensures s.log[i].request in trace {
        LoggedIsInTrace(trace, s, accounts, i);
      }
      BalancesNonNegative(trace, accounts, s.log);
    }
  }

  // ----- sums over a log, ATM by ATM -----

  /** The sum over the ATMs below `n` of what their exchanges weigh. */
  ghost function ByAtm(log: seq<Exchange>, n: nat, w: Cmd -> int): int {
    if n == 0 then 0 else ByAtm(log, n - 1, w) + Sum(Asked(Of(log, n - 1)), w)
  }

  lemma SumMore(log: seq<Exchange>, e: Exchange, w: Cmd -> int)
    ensures Sum(Asked(log + [e]), w) == Sum(Asked(log), w) + w(e.request)
  {
    assert Asked(log + [e]) == Asked(log) + [e.request];
    SumConcat(Asked(log), [e.request], w);
  }

  lemma {:induction false} ByAtmMore(log: seq<Exchange>, e: Exchange, n: nat, w: Cmd -> int)
    ensures ByAtm(log + [e], n, w) == ByAtm(log, n, w) + if 0 <= e.request.id < n then w(e.request) else 0
  {
    if n > 0 {
      ByAtmMore(log, e, n - 1, w);
      assert (log + [e])[..|log|] == log;
      SumMore(Of(log, n - 1), e, w);
    }
  }

  /** A sum over all exchanges is the sum over the ATMs. */
  lemma {:induction false} SumByAtm(log: seq<Exchange>, n: nat, w: Cmd -> int)
    requires forall i :: 0 <= i < |log| ==> 0 <= log[i].request.id < n
    ensures Sum(Asked(log), w) == ByAtm(log, n, w)
  {
    if log == [] {
      ByAtmEmpty(n, w);
    } else {
      var rest, e := log[..|log| - 1], log[|log| - 1];
      SumByAtm(rest, n, w);
      SumMore(rest, e, w);
      ByAtmMore(rest, e, n, w);
      assert log == rest + [e];
    }
  }

  lemma {:induction false} ByAtmEmpty(n: nat, w: Cmd -> int)
    ensures ByAtm([], n, w) == 0
  {
    if n > 0 { ByAtmEmpty(n - 1, w); }
  }

  /** The sum over the ATMs below `n` of what the commands they are to send weigh. */
  ghost function Planned(trace: seq<Cmd>, n: nat, w: Cmd -> int): int {
    if n == 0 then 0 else Planned(trace, n - 1, w) + Sum(Commands(trace, n - 1), w)
  }

  ghost predicate AllServed(trace: seq<Cmd>, log: seq<Exchange>, n: nat) {
    forall k :: 0 <= k < n ==> Asked(Of(log, k)) == Commands(trace, k)
  }

  lemma {:induction false} ServedIsPlanned(trace: seq<Cmd>, log: seq<Exchange>, n: nat, w: Cmd -> int)
    requires AllServed(trace, log, n)
    ensures ByAtm(log, n, w) == Planned(trace, n, w)
  {
    if n > 0 { ServedIsPlanned(trace, log, n - 1, w); }
  }

  // ----- interleaving independence -----

  ghost predicate AllDone(s: Sys) {
    forall k :: 0 <= k < |s.atms| ==> s.atms[k].done
  }

  lemma DoneIsServed(trace: seq<Cmd>, accounts: nat, s: Sys)
    requires SysOk(trace, accounts, s) && AllDone(s)
    ensures AllServed(trace, s.log, |s.atms|)
    ensures forall w :: Sum(Asked(s.log), w) == Planned(trace, |s.atms|, w)
  {
    hide AtmOk, LogOk, Commands;
    forall k | 0 <= k < |s.atms| ensures Asked(Of(s.log, k)) == Commands(trace, k) {
      Matched(trace, k, s.atms[k], Of(s.log, k), From(s.inbound, k), s.desk.replies[k]);
    }
    forall w ensures Sum(Asked(s.log), w) == Planned(trace, |s.atms|, w) {
      assert forall i :: 0 <= i < |s.log| ==> Expected(s.log[i].request, |s.atms|);
      SumByAtm(s.log, |s.atms|, w);
      ServedIsPlanned(trace, s.log, |s.atms|, w);
    }
  }

  /** What a command does to account `x` if it is carried out. */
  ghost function Net(x: int, accounts: nat): Cmd -> int {
    m => Credit(m, x, accounts) - Debit(m, x, accounts)
  }

  ghost predicate NoRefusal(log: seq<Exchange>) {
    forall i :: 0 <= i < |log| ==> log[i].reply.c != NOFUNDS
  }

  lemma NetOfAnswer(a: seq<int>, e: Exchange, x: int)
    requires IsAnswer(a, e) && e.reply.c != NOFUNDS && Account(a, x)
    ensures After(a, e.request)[x] == a[x] + Net(x, |a|)(e.request)
  {
    var outside :| e.reply == Answer(a, e.request, outside);
    BalanceChange(a, e.request, outside, x);
  }

  lemma {:induction false} BalanceIsNet(accounts: nat, log: seq<Exchange>, x: int)
    requires LogOk(accounts, log) && NoRefusal(log) && 0 <= x < accounts
    ensures Balances(accounts, log)[x] == Sum(Asked(log), Net(x, accounts))
  {
    hide IsAnswer, After, Net;
    if log != [] {
      var rest, e := log[..|log| - 1], log[|log| - 1];
      assert LogOk(accounts, rest) by {
        assert forall i :: 0 <= i < |rest| ==> rest[..i] == log[..i];
      }
      BalanceIsNet(accounts, rest, x);
      NetOfAnswer(Balances(accounts, rest), e, x);
      SumMore(rest, e, Net(x, accounts));
      assert log == rest + [e];
    }
  }

  /** Once every ATM has ended, if funds never lacked, each balance is the net of the credits
      and debits in the trace: it does not depend on how the processes interleaved. */
  lemma FinalBalances(trace: seq<Cmd>, atms: nat, accounts: nat, turns: seq<Turn>, x: int)
    requires 0 <= x < accounts
    requires var s := Exec(trace, Init(atms, accounts), turns); AllDone(s) && NoRefusal(s.log)
    ensures var s := Exec(trace, Init(atms, accounts), turns);
            |s.desk.accounts| == accounts && s.desk.accounts[x] == Planned(trace, atms, Net(x, accounts))
  {
    hide AtmsOk, LogOk, NoRefusal, AllDone, AllServed;
    AlwaysOk(trace, atms, accounts, turns);
    var s := Exec(trace, Init(atms, accounts), turns);
    DoneIsServed(trace, accounts, s);
    BalanceIsNet(accounts, s.log, x);
  }

  ghost predicate AllKnown(trace: seq<Cmd>, atms: nat) {
    forall i :: 0 <= i < |trace| ==> Expected(trace[i], atms)
  }

  lemma CommandsMore(m: Cmd, ms: seq<Cmd>, k: nat)
    requires Known(m.c)
    ensures Commands([m] + ms, k) == if m.id == k then [m] + Commands(ms, k) else Commands(ms, k)
  {
    var all := [m] + ms;
    assert all[1..] == ms;
    var upTo := all[..Stop(all, k)];
    assert upTo == [m] + ms[..Stop(ms, k)] && upTo[1..] == ms[..Stop(ms, k)];
  }

  lemma {:induction false} PlannedMore(m: Cmd, ms: seq<Cmd>, n: nat, w: Cmd -> int)
    requires Known(m.c)
    ensures Planned([m] + ms, n, w) == Planned(ms, n, w) + if 0 <= m.id < n then w(m) else 0
  {
    hide Commands;
    if n > 0 {
      PlannedMore(m, ms, n - 1, w);
      CommandsMore(m, ms, n - 1);
    }
  }

  /** When every command is known and of one of the ATMs, nothing of the trace is left out. */
  lemma {:induction false} PlannedIsTrace(trace: seq<Cmd>, atms: nat, w: Cmd -> int)
    requires AllKnown(trace, atms)
    ensures Planned(trace, atms, w) == Sum(trace, w)
  {
    if trace == [] {
      PlannedEmpty(atms, w);
    } else {
      PlannedIsTrace(trace[1..], atms, w);
      assert Expected(trace[0], atms);
      PlannedMore(trace[0], trace[1..], atms, w);
      assert trace == [trace[0]] + trace[1..];
    }
  }

  lemma {:induction false} PlannedEmpty(n: nat, w: Cmd -> int)
    ensures Planned([], n, w) == 0
  {
    if n > 0 { PlannedEmpty(n - 1, w); }
  }

  /** Any two such runs end with the same accounts. */
  lemma OrderDoesNotMatter(trace: seq<Cmd>, atms: nat, accounts: nat, one: seq<Turn>, two: seq<Turn>)
    requires var s := Exec(trace, Init(atms, accounts), one); AllDone(s) && NoRefusal(s.log)
    requires var t := Exec(trace, Init(atms, accounts), two); AllDone(t) && NoRefusal(t.log)
    ensures Exec(trace, Init(atms, accounts), one).desk.accounts
         == Exec(trace, Init(atms, accounts), two).desk.accounts
  {
    hide AllDone, NoRefusal, Exec, AtmsOk, LogOk;
    var s, t := Exec(trace, Init(atms, accounts), one), Exec(trace, Init(atms, accounts), two);
    AlwaysOk(trace, atms, accounts, one);
    AlwaysOk(trace, atms, accounts, two);
    forall x | 0 <= x < accounts ensures s.desk.accounts[x] == t.desk.accounts[x] {
      FinalBalances(trace, atms, accounts, one, x);
      FinalBalances(trace, atms, accounts, two, x);
    }
  }
}
