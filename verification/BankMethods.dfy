/** The step relation and the methods of the bank and of the ATMs say the same. */
module BankMethods {
  import opened Command
  import opened BankServer
  import opened BankProtocol
  import opened BankSafety
  import opened AtmClient
  import opened BankLiveness

  // ----- an ATM -----

  /** One call of `atm` is the ATM's next step and, if it wrote something, its next but one: they
      write and take the same, and the ATM ends where the loop of `atm_run` ends. */
  lemma TransactIsSteps(trace: seq<Cmd>, s: Sys, u: Sys, k: nat)
    requires k < |s.atms| == |s.desk.replies| && !s.atms[k].done && !s.atms[k].waiting
    requires s.atms[k].pos < |trace|
    requires k < |u.atms| == |u.desk.replies| && u.desk.replies[k] != []
    requires u.atms[k] == Advance(trace, s, k).atms[k]
    ensures var a, m, replies := s.atms[k], trace[s.atms[k].pos], u.desk.replies[k];
            && Advance(trace, s, k).inbound == s.inbound + Written(m, k)
            && (u.atms[k].waiting <==> Written(m, k) != [])
            && (Written(m, k) == [] ==>
                  u.atms[k] == if Continues(Outcome(m, k, replies)) then a.(pos := a.pos + 1) else a.(done := true))
            && (Written(m, k) != [] ==>
                  var r := Receive(u, k);
                  && r.desk.replies[k] == Unread(m, k, replies)
                  && r.atms[k] == Atm(a.pos + 1, false, !Continues(Outcome(m, k, replies)), a.got + replies[..1]))
  {
    var replies := u.desk.replies[k];
    assert replies[..1] == [replies[0]];
  }

  lemma {:induction false} AllGood(replies: seq<Cmd>)
    requires forall i :: 0 <= i < |replies| ==> GoesOn(replies[i])
    ensures Good(replies) == |replies|
  {
    GoodIs(replies, |replies|);
  }

  /** The bank sends no reply that ends an ATM. */
  lemma ToldGoesOn(accounts: nat, log: seq<Exchange>, k: nat, i: nat)
    requires LogOk(accounts, log) && i < |Of(log, k)|
    ensures GoesOn(Told(Of(log, k))[i])
  {
    OfIsFrom(log, k);
    hide Of, Balances;
    var e := Of(log, k)[i];
    var j :| 0 <= j < |log| && log[j] == e;
    assert IsAnswer(Balances(accounts, log[..j]), log[j]);
    var outside :| e.reply == Answer(Balances(accounts, log[..j]), e.request, outside);
    Refusal(Balances(accounts, log[..j]), e.request, outside);
  }

  /** An ATM that has ended, or waits on an empty pipe, has sent just what `atm_run` sends when it
      is given the replies this ATM was given; if it has ended, it took them all. */
  lemma AtmIsRun(trace: seq<Cmd>, atms: nat, accounts: nat, turns: seq<Turn>, k: nat)
    requires k < atms
    requires !CanStep(Exec(trace, Init(atms, accounts), turns), AtmTurn(k))
    ensures var s := Exec(trace, Init(atms, accounts), turns);
            && |s.atms| == |s.desk.replies| == atms
            && var result := RunResult(trace, k, s.atms[k].got + s.desk.replies[k]);
               && Asked(Of(s.log, k)) + From(s.inbound, k) == result.0
               && (s.atms[k].done ==> result.1 == [])
               && (!s.atms[k].done ==> result.2 == PipeReadError)
  {
    hide Exec, Of, From, Commands, Good, GoesOn, LogOk;
    AlwaysOk(trace, atms, accounts, turns);
    var s := Exec(trace, Init(atms, accounts), turns);
    var a, mine, sent, out := s.atms[k], Of(s.log, k), From(s.inbound, k), s.desk.replies[k];
    assert AtmOk(trace, k, a, mine, sent, out);
    forall i | 0 <= i < |mine| ensures GoesOn(Told(mine)[i]) { ToldGoesOn(accounts, s.log, k, i); }
    AllGood(a.got + out);
    Matched(trace, k, a, mine, sent, out);
    SentIsNext(trace, k, a, mine, sent, out);
    AsRun(trace, k, a.got + out, Asked(mine), sent, a.done);
  }

  lemma AsRun(trace: seq<Cmd>, k: nat, replies: seq<Cmd>, served: seq<Cmd>, sent: seq<Cmd>, done: bool)
    requires Good(replies) == |replies| == |served| && served + sent <= Commands(trace, k)
    requires if done then served == Commands(trace, k) && sent == [] else |sent| == 1
    ensures var result := RunResult(trace, k, replies);
            && served + sent == result.0 && (done ==> result.1 == []) && (!done ==> result.2 == PipeReadError)
  {
    hide Commands, Good;
  }

  // ----- the bank -----

  /** No request was served after the last ATM had left. */
  ghost predicate ServedWhileOpen(log: seq<Exchange>, atms: nat) {
    forall i :: 0 <= i < |log| ==> LogExits(log[..i]) < atms
  }

  lemma {:induction false} AlwaysWhileOpen(trace: seq<Cmd>, atms: nat, accounts: nat, turns: seq<Turn>)
    ensures ServedWhileOpen(Exec(trace, Init(atms, accounts), turns).log, atms)
  {
    hide AtmsOk, LogOk, LogExits, Balances, Answer;
    if turns != [] {
      var n := |turns| - 1;
      AlwaysWhileOpen(trace, atms, accounts, turns[..n]);
      AlwaysOk(trace, atms, accounts, turns[..n]);
      var r, s := Exec(trace, Init(atms, accounts), turns[..n]), Exec(trace, Init(atms, accounts), turns);
      forall i | 0 <= i < |s.log| ensures LogExits(s.log[..i]) < atms {
        if i < |r.log| { assert s.log[..i] == r.log[..i]; } else { assert s.log[..i] == r.log; }
      }
    }
  }

  /** One more message: it is handled if the bank is still open. */
  lemma {:induction false} ServedMore(d: Desk, input: seq<Cmd>, outside: seq<int>, m: Cmd, o: int)
    requires |outside| == |input|
    requires Served(d, input, outside).1 == PipeReadError && Served(d, input, outside).0.active != 0
    requires StatusOf(Served(d, input, outside).0, m) == Success
    ensures var e := Handled(Served(d, input, outside).0, m, o);
            Served(d, input + [m], outside + [o]) == (e, if e.active == 0 then Success else PipeReadError)
    decreases |input|
  {
    hide Handled, StatusOf;
    var more, others := input + [m], outside + [o];
    if input == [] {
      assert more[1..] == [] && others[1..] == [];
    } else {
      assert more[1..] == input[1..] + [m] && others[1..] == outside[1..] + [o];
      ServedMore(Handled(d, input[0], outside[0]), input[1..], outside[1..], m, o);
    }
  }

  /** What the bank has after a log: balances, ATMs left, and the replies it wrote to each. */
  ghost function DeskAfter(atms: nat, accounts: nat, log: seq<Exchange>): Desk {
    Desk(Balances(accounts, log), atms - LogExits(log), seq(atms, k requires 0 <= k < atms => Told(Of(log, k))))
  }

  lemma DeskStep(atms: nat, accounts: nat, log: seq<Exchange>, e: Exchange, outside: int)
    requires Expected(e.request, atms) && e.reply == Answer(Balances(accounts, log), e.request, outside)
    ensures StatusOf(DeskAfter(atms, accounts, log), e.request) == Success
    ensures DeskAfter(atms, accounts, log + [e]) == Handled(DeskAfter(atms, accounts, log), e.request, outside)
  {
    hide After, Answer, Balances, LogExits, Of;
    LogStep(accounts, log, e);
    var d, more := DeskAfter(atms, accounts, log), DeskAfter(atms, accounts, log + [e]);
    var to := Handled(d, e.request, outside);
    forall k | 0 <= k < atms ensures more.replies[k] == to.replies[k] {
      if k == e.request.id { assert Told(Of(log, k) + [e]) == Told(Of(log, k)) + [e.reply]; }
    }
    assert more.replies == to.replies;
  }

  lemma LogStep(accounts: nat, log: seq<Exchange>, e: Exchange)
    ensures Balances(accounts, log + [e]) == After(Balances(accounts, log), e.request)
    ensures LogExits(log + [e]) == LogExits(log) + if e.request.c == EXIT then 1 else 0
    ensures forall k :: Of(log + [e], k) == if e.request.id == k then Of(log, k) + [e] else Of(log, k)
  {
    hide After;
    assert (log + [e])[..|log|] == log;
  }

  /** The loop of `run_bank`, given the requests of a log, has what the log says. */
  lemma {:induction false} LogIsServed(atms: nat, accounts: nat, log: seq<Exchange>) returns (outside: seq<int>)
    requires LogOk(accounts, log) && ServedWhileOpen(log, atms)
    requires forall i :: 0 <= i < |log| ==> Expected(log[i].request, atms)
    ensures |outside| == |log|
    ensures var d := DeskAfter(atms, accounts, log);
            Served(Opened(atms, accounts), Asked(log), outside) == (d, if d.active == 0 then Success else PipeReadError)
  {
    hide DeskAfter, Expected, Opened, Handled, StatusOf, Answer, Balances, LogExits, Served;
    if log == [] {
      outside := [];
      DeskAtStart(atms, accounts);
    } else {
      var n := |log| - 1;
      var rest, e := log[..n], log[n];
      RestOfLog(atms, accounts, log);
      var before := LogIsServed(atms, accounts, rest);
      var o :| e.reply == Answer(Balances(accounts, rest), e.request, o);
      DeskStep(atms, accounts, rest, e, o);
      DeskOpen(atms, accounts, rest);
      ServedMore(Opened(atms, accounts), Asked(rest), before, e.request, o);
      assert log == rest + [e] && Asked(log) == Asked(rest) + [e.request];
      outside := before + [o];
    }
  }

  lemma DeskAtStart(atms: nat, accounts: nat)
    ensures DeskAfter(atms, accounts, []) == Opened(atms, accounts)
    ensures Asked([]) == []
    ensures Served(Opened(atms, accounts), [], [])
         == (Opened(atms, accounts), if Opened(atms, accounts).active == 0 then Success else PipeReadError)
  {
  }

  lemma DeskOpen(atms: nat, accounts: nat, log: seq<Exchange>)
    ensures DeskAfter(atms, accounts, log).active == atms - LogExits(log)
  {
  }

  lemma RestOfLog(atms: nat, accounts: nat, log: seq<Exchange>)
    requires log != [] && LogOk(accounts, log) && ServedWhileOpen(log, atms)
    ensures var rest := log[..|log| - 1];
            && LogOk(accounts, rest) && ServedWhileOpen(rest, atms) && LogExits(rest) < atms
            && IsAnswer(Balances(accounts, rest), log[|log| - 1])
  {
    hide IsAnswer, Balances, LogExits;
    var rest := log[..|log| - 1];
    assert forall i :: 0 <= i < |rest| ==> rest[..i] == log[..i];
  }

  /** In every reachable state the bank has what `run_bank` has once it took the same requests in
      the same order: the balances, the ATMs that have not left, and for each ATM the replies, of
      which some were received and the others are in its pipe. */
  lemma BankIsRun(trace: seq<Cmd>, atms: nat, accounts: nat, turns: seq<Turn>) returns (outside: seq<int>)
    ensures var s := Exec(trace, Init(atms, accounts), turns);
            && |outside| == |s.log| && |s.atms| == |s.desk.replies| == atms
            && var d := Served(Opened(atms, accounts), Asked(s.log), outside).0;
               && d.accounts == s.desk.accounts && d.active == s.desk.active && |d.replies| == atms
               && forall k :: 0 <= k < atms ==> d.replies[k] == s.atms[k].got + s.desk.replies[k]
  {
    hide Exec, Of, Balances, LogExits, LogOk, Opened, Served, From, ServedWhileOpen;
    var s := Exec(trace, Init(atms, accounts), turns);
    AlwaysOk(trace, atms, accounts, turns);
    AlwaysWhileOpen(trace, atms, accounts, turns);
    outside := LogIsServed(atms, accounts, s.log);
    forall k | 0 <= k < atms ensures Told(Of(s.log, k)) == s.atms[k].got + s.desk.replies[k] {
      assert AtmOk(trace, k, s.atms[k], Of(s.log, k), From(s.inbound, k), s.desk.replies[k]);
    }
  }
}
