/** What the customers of an ATM are told, and that it is true of the accounts. */
module BankReplies {
  import opened Command
  import opened BankServer
  import opened BankProtocol
  import opened BankSafety
  import opened AtmClient
  import opened Sequences

  // ----- one command -----

  /** The status that `atm` returns for a command the bank served with balances `a` tells what
      became of it: an account it needs does not exist, or it takes more than the account holds,
      or it was carried out; only then is any balance changed. */
  lemma StatusIsTrue(a: seq<int>, m: Cmd, outside: int, more: seq<Cmd>)
    requires 1 <= m.c <= 6 && 0 <= m.id
    ensures var n, status := |a|, Outcome(m, m.id, [Answer(a, m, outside)] + more);
            var noAccount := (m.c in {4, 5, 6} && !(0 <= m.from < n)) || (m.c in {3, 5} && !(0 <= m.to < n));
            && (status == UnknownAccount <==> noAccount)
            && (status == InsufficientFunds <==> !noAccount && m.c in {4, 5} && a[m.from] < m.amt)
            && (status == Success <==> !noAccount && (m.c in {4, 5} ==> a[m.from] >= m.amt))
            && forall x :: 0 <= x < n ==>
                 After(a, m)[x] == a[x] + (if status == Success && m.c in {3, 5} && x == m.to then m.amt else 0)
                                   - (if status == Success && m.c in {4, 5} && x == m.from then m.amt else 0)
  {
    hide After, Answer;
    Refusal(a, m, outside);
    forall x | 0 <= x < |a| { Effect(a, m, outside, x); }
  }

  // ----- every run -----

  /** What the requests answered by OK brought to account `x`, less what they took from it. */
  ghost function Received(log: seq<Exchange>, x: int): int {
    if log == [] then 0
    else
      var m, reply := log[|log| - 1].request, log[|log| - 1].reply;
      Received(log[..|log| - 1], x) + (if reply.c == 0 && m.c in {3, 5} && m.to == x then m.amt else 0)
      - (if reply.c == 0 && m.c in {4, 5} && m.from == x then m.amt else 0)
  }

  lemma {:induction false} BalanceIsReceived(accounts: nat, log: seq<Exchange>, x: nat)
    requires LogOk(accounts, log) && x < accounts
    ensures Balances(accounts, log)[x] == Received(log, x)
  {
    hide After, Answer;
    if log != [] {
      var rest, e := log[..|log| - 1], log[|log| - 1];
      assert LogOk(accounts, rest) && IsAnswer(Balances(accounts, rest), e) by {
        assert forall i :: 0 <= i < |rest| ==> rest[..i] == log[..i];
      }
      BalanceIsReceived(accounts, rest, x);
      var outside :| e.reply == Answer(Balances(accounts, rest), e.request, outside);
      Effect(Balances(accounts, rest), e.request, outside, x);
    }
  }

  /** The j-th exchange of an ATM is where its first j are the ATM's exchanges before. */
  lemma {:induction false} Position(log: seq<Exchange>, k: nat, j: nat) returns (i: nat)
    requires j < |Of(log, k)|
    ensures i < |log| && log[i] == Of(log, k)[j] && |Of(log[..i], k)| == j
  {
    var rest := log[..|log| - 1];
    if j < |Of(rest, k)| {
      i := Position(rest, k, j);
      assert log[..i] == rest[..i];
    } else {
      i := |log| - 1;
    }
  }

  /** Where in the log the j-th command of an ATM was served. */
  ghost predicate ServedAt(trace: seq<Cmd>, s: Sys, k: nat, j: nat, i: nat) {
    && k < |s.atms| && j < |s.atms[k].got| && i < |s.log| && j < |Commands(trace, k)|
    && s.log[i] == Exchange(Commands(trace, k)[j], s.atms[k].got[j]) && |Of(s.log[..i], k)| == j
  }

  lemma AnsweredAt(trace: seq<Cmd>, atms: nat, accounts: nat, turns: seq<Turn>, k: nat, j: nat)
    returns (i: nat, outside: int)
    requires var s := Exec(trace, Init(atms, accounts), turns);
             k < |s.atms| && j < |s.atms[k].got|
    ensures var s := Exec(trace, Init(atms, accounts), turns);
            && ServedAt(trace, s, k, j, i) && LogOk(accounts, s.log[..i])
            && s.log[i].request.id == k && Known(s.log[i].request.c)
            && s.log[i].reply == Answer(Balances(accounts, s.log[..i]), s.log[i].request, outside)
  {
    hide AtmOk, Commands, Balances, Answer;
    AlwaysOk(trace, atms, accounts, turns);
    var s := Exec(trace, Init(atms, accounts), turns);
    var mine := Of(s.log, k);
    Matched(trace, k, s.atms[k], mine, From(s.inbound, k), s.desk.replies[k]);
    OfIsFrom(s.log, k);
    FromIds(Asked(s.log), k);
    assert mine[j].request == Asked(mine)[j] && mine[j].reply == Told(mine)[j];
    i := Position(s.log, k, j);
    assert IsAnswer(Balances(accounts, s.log[..i]), s.log[i]);
    outside :| s.log[i].reply == Answer(Balances(accounts, s.log[..i]), s.log[i].request, outside);
    var before := s.log[..i];
    assert forall n :: 0 <= n < |before| ==> before[..n] == s.log[..n];
  }

  /** In every reachable state, an ATM whose number is an account and that asked for the balance of
      any account was told what its own account had received when the request was served; as
      long as funds had not lacked, that is the net of all requests served before. */
  lemma BalanceTold(trace: seq<Cmd>, atms: nat, accounts: nat, turns: seq<Turn>, k: nat, j: nat) returns (i: nat)
    requires k < accounts
    requires var s := Exec(trace, Init(atms, accounts), turns);
             k < |s.atms| && j < |s.atms[k].got|
    ensures var s := Exec(trace, Init(atms, accounts), turns);
            && ServedAt(trace, s, k, j, i)
            && var m, before := Commands(trace, k)[j], s.log[..i];
               m.c == 6 && 0 <= m.from < accounts ==>
                 && s.atms[k].got[j] == Cmd(0, 0, m.from, m.to, Received(before, k))
                 && (NoRefusal(before) ==> Received(before, k) == Sum(Asked(before), Net(k, accounts)))
  {
    hide Exec, Answer, Of, Commands, NoRefusal, Received, Balances, Net;
    var outside;
    i, outside := AnsweredAt(trace, atms, accounts, turns, k, j);
    var s := Exec(trace, Init(atms, accounts), turns);
    var before, m := s.log[..i], s.log[i].request;
    Refusal(Balances(accounts, before), m, outside);
    ReplyFields(Balances(accounts, before), m, outside);
    BalanceIsReceived(accounts, before, k);
    if NoRefusal(before) { BalanceIsNet(accounts, before, k); }
  }

  /** In every reachable state, the status `atm` returned for its j-th command tells of what the
      accounts had received when it was served. */
  lemma StatusTold(trace: seq<Cmd>, atms: nat, accounts: nat, turns: seq<Turn>, k: nat, j: nat) returns (i: nat)
    requires var s := Exec(trace, Init(atms, accounts), turns);
             k < |s.atms| && j < |s.atms[k].got|
    ensures var s := Exec(trace, Init(atms, accounts), turns);
            && ServedAt(trace, s, k, j, i)
            && var m, held := Commands(trace, k)[j], Received(s.log[..i], Commands(trace, k)[j].from);
               var noFrom, noTo := !(0 <= m.from < accounts), !(0 <= m.to < accounts);
               var noAccount := (m.c in {4, 5, 6} && noFrom) || (m.c in {3, 5} && noTo);
               var status := Outcome(m, k, s.atms[k].got[j..]);
               && (status == UnknownAccount <==> noAccount)
               && (status == InsufficientFunds <==> !noAccount && m.c in {4, 5} && held < m.amt)
               && (status == Success <==> !noAccount && (m.c in {4, 5} ==> held >= m.amt))
  {
    hide Exec, Answer, Of, Commands, Received, Balances, Outcome;
    var outside;
    i, outside := AnsweredAt(trace, atms, accounts, turns, k, j);
    var s := Exec(trace, Init(atms, accounts), turns);
    var before, m, got := s.log[..i], s.log[i].request, s.atms[k].got;
    assert got[j..] == [got[j]] + got[j + 1..];
    StatusIsTrue(Balances(accounts, before), m, outside, got[j + 1..]);
    if 0 <= m.from < accounts { BalanceIsReceived(accounts, before, m.from); }
  }
}
