/** The ATM processes and the bank process, their pipes, and what every interleaving keeps. */
module BankProtocol {
  import opened Command
  import opened BankServer

  /** A request the bank has served and its reply. */
  datatype Exchange = Exchange(request: Cmd, reply: Cmd)

  /** An ATM process: the command of the trace it is at, whether it waits for the reply to it,
      whether it has returned, and the replies it got. */
  datatype Atm = Atm(pos: nat, waiting: bool, done: bool, got: seq<Cmd>)

  /** All processes and pipes; `log` is what the bank served so far, in order. */
  datatype Sys = Sys(desk: Desk, failed: bool, inbound: seq<Cmd>, atms: seq<Atm>, log: seq<Exchange>)

  /** Whose turn it is; the bank may read `outside` past the end of its accounts. */
  datatype Turn = AtmTurn(k: nat) | BankTurn(outside: int)

  ghost function Init(atms: nat, accounts: nat): Sys {
    Sys(Opened(atms, accounts), false, [], seq(atms, _ => Atm(0, false, false, [])), [])
  }

  /** A process can take a step unless it has ended or waits on an empty pipe. */
  ghost predicate CanStep(s: Sys, t: Turn) {
    match t
    case AtmTurn(k) =>
      k < |s.atms| && k < |s.desk.replies| && !s.atms[k].done && (s.atms[k].waiting ==> s.desk.replies[k] != [])
    case BankTurn(_) => s.desk.active != 0 && !s.failed && s.inbound != []
  }

  /** The reply is one after which atm_run goes on. */
  ghost predicate GoesOn(reply: Cmd) {
    reply.c == OK || reply.c == NOFUNDS || reply.c == ACCUNKN
  }

  ghost function Receive(s: Sys, k: nat): Sys
    requires k < |s.atms| && k < |s.desk.replies| && s.desk.replies[k] != []
  {
    var a, out := s.atms[k], s.desk.replies[k];
    s.(desk := s.desk.(replies := s.desk.replies[k := out[1..]]),
       atms := s.atms[k := Atm(a.pos + 1, false, !GoesOn(out[0]), a.got + [out[0]])])
  }

  /** The next step of an ATM that is not waiting: the end of the trace, a command of another
      ATM, one to send, or one it does not know. */
  ghost function Advance(trace: seq<Cmd>, s: Sys, k: nat): Sys
    requires k < |s.atms|
  {
    var a := s.atms[k];
    if a.pos >= |trace| then s.(atms := s.atms[k := a.(done := true)])
    else if trace[a.pos].id != k then s.(atms := s.atms[k := a.(pos := a.pos + 1)])
    else if Known(trace[a.pos].c) then
      s.(atms := s.atms[k := a.(waiting := true)], inbound := s.inbound + [trace[a.pos]])
    else s.(atms := s.atms[k := a.(done := true)])
  }

  ghost function Serve(s: Sys, outside: int): Sys
    requires s.inbound != []
  {
    var m := s.inbound[0];
    var status := StatusOf(s.desk, m);
    Sys(Handled(s.desk, m, outside), status == UnknownCommand, s.inbound[1..], s.atms,
        s.log + if status == Success then [Exchange(m, Answer(s.desk.accounts, m, outside))] else [])
  }

  ghost function Step(trace: seq<Cmd>, s: Sys, t: Turn): Sys
    requires CanStep(s, t)
  {
    match t
    case AtmTurn(k) => if s.atms[k].waiting then Receive(s, k) else Advance(trace, s, k)
    case BankTurn(outside) => Serve(s, outside)
  }

  /** The state after a schedule; a turn that cannot be taken is passed. */
  ghost function Exec(trace: seq<Cmd>, s: Sys, turns: seq<Turn>): Sys {
    if turns == [] then s
    else
      var r := Exec(trace, s, turns[..|turns| - 1]);
      var t := turns[|turns| - 1];
      if CanStep(r, t) then Step(trace, r, t) else r
  }

  // ----- what belongs to one ATM -----

  /** The messages with this ATM's id. */
  ghost function From(ms: seq<Cmd>, k: nat): seq<Cmd> {
    if ms == [] then [] else if ms[0].id == k then [ms[0]] + From(ms[1..], k) else From(ms[1..], k)
  }

  lemma {:induction false} FromConcat(a: seq<Cmd>, b: seq<Cmd>, k: nat)
    ensures From(a + b, k) == From(a, k) + From(b, k)
  {
    if a == [] {
      assert a + b == b;
    } else {
      FromConcat(a[1..], b, k);
      assert (a + b)[1..] == a[1..] + b;
    }
  }

  lemma {:induction false} FromIds(ms: seq<Cmd>, k: nat)
    ensures forall i :: 0 <= i < |From(ms, k)| ==> From(ms, k)[i].id == k && From(ms, k)[i] in ms
  {
    if ms != [] { FromIds(ms[1..], k); }
  }

  lemma FromMore(ms: seq<Cmd>, m: Cmd, k: nat)
    ensures From(ms + [m], k) == if m.id == k then From(ms, k) + [m] else From(ms, k)
  {
    FromConcat(ms, [m], k);
    FromOne(m, k);
  }

  lemma FromOne(m: Cmd, k: nat)
    ensures From([m], k) == if m.id == k then [m] else []
  {
  }

  /** The exchanges with this ATM. */
  ghost function Of(log: seq<Exchange>, k: nat): seq<Exchange> {
    if log == [] then []
    else
      var e, before := log[|log| - 1], Of(log[..|log| - 1], k);
      if e.request.id == k then before + [e] else before
  }

  ghost function Asked(log: seq<Exchange>): (r: seq<Cmd>)
    ensures |r| == |log|
  {
    seq(|log|, i requires 0 <= i < |log| => log[i].request)
  }

  ghost function Told(log: seq<Exchange>): (r: seq<Cmd>)
    ensures |r| == |log|
  {
    seq(|log|, i requires 0 <= i < |log| => log[i].reply)
  }

  /** Where an ATM stops reading: its first command it does not know, or the end. */
  ghost function Stop(trace: seq<Cmd>, k: nat): (p: nat)
    ensures p <= |trace|
    ensures forall i :: 0 <= i < p && trace[i].id == k ==> Known(trace[i].c)
    ensures p < |trace| ==> trace[p].id == k && !Known(trace[p].c)
  {
    if trace == [] || (trace[0].id == k && !Known(trace[0].c)) then 0 else 1 + Stop(trace[1..], k)
  }

  /** The commands that an ATM sends in a run that completes. */
  ghost function Commands(trace: seq<Cmd>, k: nat): seq<Cmd> {
    From(trace[..Stop(trace, k)], k)
  }

  // ----- the invariant -----

  /** How an ATM stands to its part of the log and of the pipes: what it sent is its part of the
      trace so far, at most one message is in flight, and it got the replies in order. */
  ghost predicate AtmOk(trace: seq<Cmd>, k: nat, a: Atm, mine: seq<Exchange>, sent: seq<Cmd>, out: seq<Cmd>) {
    && a.pos <= Stop(trace, k)
    && (a.waiting ==> !a.done && a.pos < Stop(trace, k) && trace[a.pos].id == k)
    && (a.done ==> a.pos == Stop(trace, k))
    && Asked(mine) + sent == From(trace[..a.pos], k) + (if a.waiting then [trace[a.pos]] else [])
    && |sent| + |out| == (if a.waiting then 1 else 0)
    && a.got + out == Told(mine)
    && forall i :: 0 <= i < |out| ==> GoesOn(out[i])
  }

  ghost predicate AtmsOk(trace: seq<Cmd>, s: Sys) {
    && |s.atms| == |s.desk.replies|
    && forall k :: 0 <= k < |s.atms| ==>
         AtmOk(trace, k, s.atms[k], Of(s.log, k), From(s.inbound, k), s.desk.replies[k])
  }

  /** The accounts after the log. */
  ghost function Balances(accounts: nat, log: seq<Exchange>): (a: seq<int>)
    ensures |a| == accounts
  {
    if log == [] then seq(accounts, _ => 0)
    else After(Balances(accounts, log[..|log| - 1]), log[|log| - 1].request)
  }

  ghost predicate IsAnswer(a: seq<int>, e: Exchange) {
    Known(e.request.c) && exists outside :: e.reply == Answer(a, e.request, outside)
  }

  /** Each reply of the log is the answer for the balances at that time. */
  ghost predicate LogOk(accounts: nat, log: seq<Exchange>) {
    forall i :: 0 <= i < |log| ==> IsAnswer(Balances(accounts, log[..i]), log[i])
  }

  ghost function LogExits(log: seq<Exchange>): nat {
    if log == [] then 0
    else LogExits(log[..|log| - 1]) + if log[|log| - 1].request.c == EXIT then 1 else 0
  }

  ghost predicate Expected(m: Cmd, atms: nat) {
    0 <= m.id < atms && Known(m.c)
  }

  ghost predicate BankOk(accounts: nat, s: Sys) {
    && !s.failed
    && s.desk.accounts == Balances(accounts, s.log)
    && LogOk(accounts, s.log)
    && s.desk.active == |s.atms| - LogExits(s.log) >= 0
    && (forall i :: 0 <= i < |s.inbound| ==> Expected(s.inbound[i], |s.atms|))
    && forall i :: 0 <= i < |s.log| ==> Expected(s.log[i].request, |s.atms|)
  }

  ghost predicate SysOk(trace: seq<Cmd>, accounts: nat, s: Sys) {
    AtmsOk(trace, s) && BankOk(accounts, s)
  }

  lemma InitOk(trace: seq<Cmd>, atms: nat, accounts: nat)
    ensures SysOk(trace, accounts, Init(atms, accounts))
  {
    assert trace[..0] == [];
  }

  /** An ATM that waits receives its reply. */
  lemma ReceiveOk(trace: seq<Cmd>, k: nat, a: Atm, mine: seq<Exchange>, sent: seq<Cmd>, out: seq<Cmd>)
    requires AtmOk(trace, k, a, mine, sent, out) && a.waiting && out != []
    ensures AtmOk(trace, k, Atm(a.pos + 1, false, !GoesOn(out[0]), a.got + [out[0]]), mine, sent, out[1..])
  {
    assert trace[..a.pos + 1] == trace[..a.pos] + [trace[a.pos]];
    FromConcat(trace[..a.pos], [trace[a.pos]], k);
    FromOne(trace[a.pos], k);
    assert a.got + out == a.got + [out[0]] + out[1..];
  }

  /** An ATM passes the commands of other ATMs. */
  lemma SkipOk(trace: seq<Cmd>, k: nat, a: Atm, mine: seq<Exchange>, sent: seq<Cmd>, out: seq<Cmd>)
    requires AtmOk(trace, k, a, mine, sent, out) && !a.waiting && !a.done
    requires a.pos < |trace| && trace[a.pos].id != k
    ensures AtmOk(trace, k, a.(pos := a.pos + 1), mine, sent, out)
  {
    assert trace[..a.pos + 1] == trace[..a.pos] + [trace[a.pos]];
    FromConcat(trace[..a.pos], [trace[a.pos]], k);
    FromOne(trace[a.pos], k);
  }

  lemma SendOk(trace: seq<Cmd>, k: nat, a: Atm, mine: seq<Exchange>, sent: seq<Cmd>, out: seq<Cmd>)
    requires AtmOk(trace, k, a, mine, sent, out) && !a.waiting && !a.done
    requires a.pos < |trace| && trace[a.pos].id == k && Known(trace[a.pos].c)
    ensures AtmOk(trace, k, a.(waiting := true), mine, sent + [trace[a.pos]], out)
  {
    assert Asked(mine) + (sent + [trace[a.pos]]) == Asked(mine) + sent + [trace[a.pos]];
  }

  lemma EndOk(trace: seq<Cmd>, k: nat, a: Atm, mine: seq<Exchange>, sent: seq<Cmd>, out: seq<Cmd>)
    requires AtmOk(trace, k, a, mine, sent, out) && !a.waiting
    requires a.pos >= |trace| || (trace[a.pos].id == k && !Known(trace[a.pos].c))
    ensures AtmOk(trace, k, a.(done := true), mine, sent, out)
  {
  }

  /** The bank serves a request of this ATM. */
  lemma ServedOk(trace: seq<Cmd>, k: nat, a: Atm, mine: seq<Exchange>, sent: seq<Cmd>, out: seq<Cmd>, reply: Cmd)
    requires AtmOk(trace, k, a, mine, sent, out) && sent != [] && GoesOn(reply)
    ensures AtmOk(trace, k, a, mine + [Exchange(sent[0], reply)], sent[1..], out + [reply])
  {
    var more := mine + [Exchange(sent[0], reply)];
    assert Asked(more) == Asked(mine) + [sent[0]] && Told(more) == Told(mine) + [reply];
    assert Asked(more) + sent[1..] == Asked(mine) + sent;
  }

  lemma AdvanceKeeps(trace: seq<Cmd>, accounts: nat, s: Sys, k: nat)
    requires SysOk(trace, accounts, s) && k < |s.atms| && !s.atms[k].done && !s.atms[k].waiting
    ensures SysOk(trace, accounts, Advance(trace, s, k))
  {
    hide AtmOk, From, Of, LogOk, Balances, LogExits, Stop;
    var a, r := s.atms[k], Advance(trace, s, k);
    var mine, sent, out := Of(s.log, k), From(s.inbound, k), s.desk.replies[k];
    if a.pos >= |trace| {
      EndOk(trace, k, a, mine, sent, out);
    } else if trace[a.pos].id != k {
      SkipOk(trace, k, a, mine, sent, out);
    } else if Known(trace[a.pos].c) {
      SendOk(trace, k, a, mine, sent, out);
      forall j: nat ensures From(r.inbound, j) == if j == k then sent + [trace[a.pos]] else From(s.inbound, j) {
        FromMore(s.inbound, trace[a.pos], j);
      }
    } else {
      EndOk(trace, k, a, mine, sent, out);
    }
  }

  lemma ReceiveKeeps(trace: seq<Cmd>, accounts: nat, s: Sys, k: nat)
    requires SysOk(trace, accounts, s) && k < |s.atms| && s.atms[k].waiting && s.desk.replies[k] != []
    ensures SysOk(trace, accounts, Receive(s, k))
  {
    hide AtmOk, From, Of, LogOk, Balances, LogExits, Stop;
    ReceiveOk(trace, k, s.atms[k], Of(s.log, k), From(s.inbound, k), s.desk.replies[k]);
  }

  /** The next request is the only one its ATM has sent. */
  lemma NextRequest(inbound: seq<Cmd>, k: nat)
    requires inbound != []
    ensures From(inbound, k)
         == if inbound[0].id == k then [inbound[0]] + From(inbound[1..], k) else From(inbound[1..], k)
  {
  }

  lemma LogMore(accounts: nat, log: seq<Exchange>, e: Exchange)
    requires LogOk(accounts, log) && IsAnswer(Balances(accounts, log), e)
    ensures LogOk(accounts, log + [e])
    ensures Balances(accounts, log + [e]) == After(Balances(accounts, log), e.request)
    ensures LogExits(log + [e]) == LogExits(log) + if e.request.c == EXIT then 1 else 0
    ensures forall k :: Of(log + [e], k) == if e.request.id == k then Of(log, k) + [e] else Of(log, k)
  {
    hide After, Answer, IsAnswer;
    var more := log + [e];
    assert more[..|log|] == log;
    forall i | 0 <= i < |more| ensures IsAnswer(Balances(accounts, more[..i]), more[i]) {
      if i < |log| { assert more[..i] == log[..i]; }
    }
  }

  lemma ServeAtms(trace: seq<Cmd>, accounts: nat, s: Sys, outside: int)
    requires SysOk(trace, accounts, s) && s.inbound != []
    ensures AtmsOk(trace, Serve(s, outside))
  {
    hide AtmOk, From, Of, LogOk, Balances, LogExits, Stop, After, Answer, IsAnswer;
    var r, m := Serve(s, outside), s.inbound[0];
    assert Expected(m, |s.atms|);
    var e := Exchange(m, Answer(s.desk.accounts, m, outside));
    Refusal(s.desk.accounts, m, outside);
    assert IsAnswer(s.desk.accounts, e) by { AnswerIs(s.desk.accounts, e, outside); }
    LogMore(accounts, s.log, e);
    forall k | 0 <= k < |r.atms|
      ensures AtmOk(trace, k, r.atms[k], Of(r.log, k), From(r.inbound, k), r.desk.replies[k]) {
      NextRequest(s.inbound, k);
      if m.id == k {
        ServedOk(trace, k, s.atms[k], Of(s.log, k), From(s.inbound, k), s.desk.replies[k], e.reply);
        assert From(s.inbound, k)[1..] == From(r.inbound, k);
      }
    }
  }

  lemma AnswerIs(a: seq<int>, e: Exchange, outside: int)
    requires Known(e.request.c) && e.reply == Answer(a, e.request, outside)
    ensures IsAnswer(a, e)
  {
  }

  lemma ServeBank(trace: seq<Cmd>, accounts: nat, s: Sys, outside: int)
    requires SysOk(trace, accounts, s) && s.inbound != [] && s.desk.active != 0
    ensures BankOk(accounts, Serve(s, outside))
  {
    hide AtmsOk, From, Of, LogOk, Balances, LogExits, Stop, After, Answer, IsAnswer;
    var m := s.inbound[0];
    assert Expected(m, |s.atms|);
    assert |s.atms| == |s.desk.replies| by { AtmsShape(trace, s); }
    var e := Exchange(m, Answer(s.desk.accounts, m, outside));
    AnswerIs(s.desk.accounts, e, outside);
    LogMore(accounts, s.log, e);
  }

  lemma AtmsShape(trace: seq<Cmd>, s: Sys)
    requires AtmsOk(trace, s)
    ensures |s.atms| == |s.desk.replies|
  {
  }

  /** Every step of every process keeps the invariant. */
  lemma StepKeeps(trace: seq<Cmd>, accounts: nat, s: Sys, t: Turn)
    requires SysOk(trace, accounts, s) && CanStep(s, t)
    ensures SysOk(trace, accounts, Step(trace, s, t)) && |Step(trace, s, t).atms| == |s.atms|
  {
    hide AtmsOk, BankOk;
    if t.BankTurn? {
      ServeAtms(trace, accounts, s, t.outside);
      ServeBank(trace, accounts, s, t.outside);
    } else if s.atms[t.k].waiting {
      ReceiveKeeps(trace, accounts, s, t.k);
    } else {
      AdvanceKeeps(trace, accounts, s, t.k);
    }
  }

  /** It holds in every state that any interleaving reaches. */
  lemma {:induction false} AlwaysOk(trace: seq<Cmd>, atms: nat, accounts: nat, turns: seq<Turn>)
    ensures var s := Exec(trace, Init(atms, accounts), turns);
            SysOk(trace, accounts, s) && |s.atms| == atms
  {
    InitOk(trace, atms, accounts);
    if turns != [] {
      var n := |turns| - 1;
      AlwaysOk(trace, atms, accounts, turns[..n]);
      var r := Exec(trace, Init(atms, accounts), turns[..n]);
      if CanStep(r, turns[n]) { StepKeeps(trace, accounts, r, turns[n]); }
    }
  }
}
