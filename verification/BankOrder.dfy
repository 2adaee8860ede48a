/** Lacking funds, the accounts do depend on the order in which the bank is reached. */
module BankOrder {
  import opened Command
  import opened BankServer
  import opened BankProtocol
  import opened BankSafety
  import opened BankLiveness
  import opened BankFunds
  import opened Sequences

  lemma {:induction false} ExecConcat(trace: seq<Cmd>, s: Sys, a: seq<Turn>, b: seq<Turn>)
    ensures Exec(trace, s, a + b) == Exec(trace, Exec(trace, s, a), b)
  {
    if b == [] {
      assert a + b == a;
    } else {
      ExecConcat(trace, s, a, b[..|b| - 1]);
      assert (a + b)[..|a + b| - 1] == a + b[..|b| - 1];
    }
  }

  lemma OneTurn(trace: seq<Cmd>, s: Sys, t: Turn)
    requires CanStep(s, t)
    ensures Exec(trace, s, [t]) == Step(trace, s, t)
  {
    assert [t][..0] == [];
    assert Exec(trace, s, []) == s;
  }

  ghost predicate Ready(s: Sys, k: nat) {
    k < |s.atms| == |s.desk.replies| && !s.atms[k].done && !s.atms[k].waiting
  }

  /** An ATM passes a command of another one. */
  lemma Passes(trace: seq<Cmd>, s: Sys, k: nat)
    requires Ready(s, k) && s.atms[k].pos < |trace| && trace[s.atms[k].pos].id != k
    ensures Exec(trace, s, [AtmTurn(k)]) == s.(atms := s.atms[k := s.atms[k].(pos := s.atms[k].pos + 1)])
  {
    OneTurn(trace, s, AtmTurn(k));
  }

  lemma Finishes(trace: seq<Cmd>, s: Sys, k: nat)
    requires Ready(s, k) && s.atms[k].pos == |trace|
    ensures Exec(trace, s, [AtmTurn(k)]) == s.(atms := s.atms[k := s.atms[k].(done := true)])
  {
    OneTurn(trace, s, AtmTurn(k));
  }

  lemma Sends(trace: seq<Cmd>, s: Sys, k: nat)
    requires Ready(s, k) && s.atms[k].pos < |trace| && trace[s.atms[k].pos].id == k
    requires Known(trace[s.atms[k].pos].c)
    ensures Exec(trace, s, [AtmTurn(k)])
         == s.(atms := s.atms[k := s.atms[k].(waiting := true)], inbound := s.inbound + [trace[s.atms[k].pos]])
  {
    OneTurn(trace, s, AtmTurn(k));
  }

  lemma Serves(trace: seq<Cmd>, s: Sys, m: Cmd)
    requires s.inbound == [m] && 0 <= m.id < |s.desk.replies| && Known(m.c)
    requires s.desk.active != 0 && !s.failed && s.desk.replies[m.id] == []
    ensures var reply := Answer(s.desk.accounts, m, 0);
            Exec(trace, s, [BankTurn(0)])
            == Sys(Desk(After(s.desk.accounts, m), s.desk.active - IsExit(m), s.desk.replies[m.id := [reply]]),
                   false, [], s.atms, s.log + [Exchange(m, reply)])
  {
    hide After, Answer;
    OneTurn(trace, s, BankTurn(0));
    assert s.inbound[0] == m && s.inbound[1..] == [];
    assert [] + [Answer(s.desk.accounts, m, 0)] == [Answer(s.desk.accounts, m, 0)];
  }

  lemma Receives(trace: seq<Cmd>, s: Sys, k: nat, reply: Cmd)
    requires k < |s.atms| == |s.desk.replies| && !s.atms[k].done && s.atms[k].waiting
    requires s.desk.replies[k] == [reply] && GoesOn(reply)
    ensures var a := s.atms[k];
            Exec(trace, s, [AtmTurn(k)])
            == s.(desk := s.desk.(replies := s.desk.replies[k := []]),
                  atms := s.atms[k := Atm(a.pos + 1, false, false, a.got + [reply])])
  {
    OneTurn(trace, s, AtmTurn(k));
    assert [reply][1..] == [];
  }

  /** An ATM sends its command, is served at once, and gets the reply. */
  lemma Exchanges(trace: seq<Cmd>, s: Sys, k: nat)
    requires Ready(s, k) && s.atms[k].pos < |trace| && trace[s.atms[k].pos].id == k
    requires Known(trace[s.atms[k].pos].c)
    requires s.inbound == [] && s.desk.replies[k] == [] && s.desk.active != 0 && !s.failed
    ensures var a, m := s.atms[k], trace[s.atms[k].pos];
            var reply := Answer(s.desk.accounts, m, 0);
            Exec(trace, s, [AtmTurn(k)] + [BankTurn(0)] + [AtmTurn(k)])
            == Sys(Desk(After(s.desk.accounts, m), s.desk.active - IsExit(m), s.desk.replies), false, [],
                   s.atms[k := Atm(a.pos + 1, false, false, a.got + [reply])], s.log + [Exchange(m, reply)])
  {
    hide After, Answer, Exec, IsExit;
    var m := trace[s.atms[k].pos];
    var reply := Answer(s.desk.accounts, m, 0);
    Refusal(s.desk.accounts, m, 0);
    Sends(trace, s, k);
    var r := Exec(trace, s, [AtmTurn(k)]);
    assert r.inbound == [m];
    Serves(trace, r, m);
    var u := Exec(trace, r, [BankTurn(0)]);
    Receives(trace, u, k, reply);
    assert u.desk.replies[k := []] == s.desk.replies;
    ExecConcat(trace, s, [AtmTurn(k)], [BankTurn(0)]);
    ExecConcat(trace, s, [AtmTurn(k)] + [BankTurn(0)], [AtmTurn(k)]);
  }

  /** The accounts after these commands, served one after the other. */
  ghost function AfterAll(a: seq<int>, ms: seq<Cmd>): (r: seq<int>)
    ensures |r| == |a|
    decreases |ms|
  {
    if ms == [] then a else AfterAll(After(a, ms[0]), ms[1..])
  }

  /** What an ATM still has to send; the bank stays open for it. */
  ghost predicate CanFinish(trace: seq<Cmd>, s: Sys, k: nat) {
    && Ready(s, k) && s.atms[k].pos <= |trace| == Stop(trace, k)
    && s.inbound == [] && s.desk.replies[k] == [] && !s.failed
    && EndsWithExit(From(trace[s.atms[k].pos..], k))
    && s.desk.active >= Sum(From(trace[s.atms[k].pos..], k), IsExit)
  }

  /** An ATM does all that is left of its work, with nothing in between. */
  lemma {:induction false} RunsAlone(trace: seq<Cmd>, s: Sys, k: nat) returns (turns: seq<Turn>)
    requires CanFinish(trace, s, k)
    ensures var r, rest := Exec(trace, s, turns), From(trace[s.atms[k].pos..], k);
            && r.desk == Desk(AfterAll(s.desk.accounts, rest), s.desk.active - Sum(rest, IsExit), s.desk.replies)
            && !r.failed && r.inbound == [] && |r.atms| == |s.atms| && r.atms[k].done
            && forall j :: 0 <= j < |s.atms| && j != k ==> r.atms[j] == s.atms[j]
    decreases |trace| - s.atms[k].pos
  {
    hide After, Answer, Exec, Stop;
    var p := s.atms[k].pos;
    if p == |trace| {
      Finishes(trace, s, k);
      turns := [AtmTurn(k)];
    } else {
      var m, step := trace[p], [AtmTurn(k)];
      assert trace[p..] == [m] + trace[p + 1..] && trace[p..][1..] == trace[p + 1..];
      if m.id != k {
        Passes(trace, s, k);
      } else {
        RestOf(m, From(trace[p + 1..], k));
        assert From(trace[p..], k) == [m] + From(trace[p + 1..], k);
        step := [AtmTurn(k)] + [BankTurn(0)] + [AtmTurn(k)];
        KnownBeforeStop(trace, k, p);
        Exchanges(trace, s, k);
      }
      var more := RunsAlone(trace, Exec(trace, s, step), k);
      ExecConcat(trace, s, step, more);
      turns := step + more;
    }
  }

  lemma KnownBeforeStop(trace: seq<Cmd>, k: nat, p: nat)
    requires p < Stop(trace, k) && trace[p].id == k
    ensures Known(trace[p].c)
  {
  }

  /** One command less: the EXITs, the end, and the accounts. */
  lemma RestOf(m: Cmd, rest: seq<Cmd>)
    ensures Sum([m] + rest, IsExit) == IsExit(m) + Sum(rest, IsExit) && Sum(rest, IsExit) >= 0
    ensures EndsWithExit([m] + rest) ==> EndsWithExit(rest) && Sum([m] + rest, IsExit) > 0
    ensures forall a :: AfterAll(a, [m] + rest) == AfterAll(After(a, m), rest)
  {
    assert ([m] + rest)[1..] == rest;
    ExitsNonNegative(rest);
    PrefixExits([], [m] + rest);
  }

  /** Two ATMs and one account: the first deposits what the second withdraws. */
  function Contended(): seq<Cmd> {
    [Cmd(DEPOSIT, 0, -1, 0, 5), Cmd(WITHDRAW, 1, 0, -1, 5), Cmd(EXIT, 0, -1, -1, -1), Cmd(EXIT, 1, -1, -1, -1)]
  }

  lemma ContendedCommands()
    ensures var t := Contended();
            && Stop(t, 0) == Stop(t, 1) == |t|
            && From(t[0..], 0) == Commands(t, 0) == [t[0], t[2]]
            && From(t[0..], 1) == Commands(t, 1) == [t[1], t[3]]
            && Sum([t[0], t[2]], IsExit) == Sum([t[1], t[3]], IsExit) == 1
  {
    var t := Contended();
    assert t[1..] == [t[1], t[2], t[3]] && t[1..][1..] == [t[2], t[3]] && [t[2], t[3]][1..] == [t[3]];
    assert t[0..] == t == t[..|t|];
    assert [t[0], t[2]][1..] == [t[2]] && [t[1], t[3]][1..] == [t[3]];
  }

  lemma ContendedLeaves()
    ensures Leaves(Contended(), 2)
  {
    hide Commands;
    ContendedCommands();
    OneExitEach(Contended(), 2);
  }

  /** First one ATM and then the other does all its work. */
  lemma OneThenOther(first: nat, second: nat) returns (turns: seq<Turn>)
    requires {first, second} == {0, 1}
    ensures var t, s := Contended(), Exec(Contended(), Init(2, 1), turns);
            && Ended(s)
            && s.desk.accounts == AfterAll(AfterAll([0], Commands(t, first)), Commands(t, second))
  {
    hide Exec, After, Stop, From, AfterAll, Commands;
    var t, s := Contended(), Init(2, 1);
    ContendedCommands();
    assert first != second;
    assert s.desk.accounts == [0];
    var a := RunsAlone(t, s, first);
    var r := Exec(t, s, a);
    var b := RunsAlone(t, r, second);
    ExecConcat(t, s, a, b);
    turns := a + b;
  }

  /** One trace that lets every run end, and two runs of it that end with different accounts: that
      funds never lack cannot be dropped. */
  lemma OrderMatters() returns (one: seq<Turn>, two: seq<Turn>)
    ensures Leaves(Contended(), 2)
    ensures Ended(Exec(Contended(), Init(2, 1), one)) && Exec(Contended(), Init(2, 1), one).desk.accounts == [0]
    ensures Ended(Exec(Contended(), Init(2, 1), two)) && Exec(Contended(), Init(2, 1), two).desk.accounts == [5]
  {
    hide Exec, Stop, From, Commands, Leaves, Ended;
    ContendedLeaves();
    ContendedCommands();
    var t := Contended();
    one := OneThenOther(0, 1);
    two := OneThenOther(1, 0);
    AfterTwo([0], t[0], t[2]);
    AfterTwo([5], t[1], t[3]);
    AfterTwo([0], t[1], t[3]);
    assert After([0], t[0]) == [5] && After([5], t[1]) == [0];
  }

  /** The condition of BankFunds tells so without a run. */
  lemma ContendedIsNotFunded()
    ensures !AlwaysFunded(Contended(), 2, 1)
  {
    hide Exec, AlwaysFunded;
    var one, two := OrderMatters();
    if AlwaysFunded(Contended(), 2, 1) {
      FundedOrderIsFree(Contended(), 2, 1, one, two);
    }
  }

  lemma AfterTwo(a: seq<int>, m: Cmd, n: Cmd)
    ensures AfterAll(a, [m, n]) == After(After(a, m), n)
  {
    hide After;
    var b := After(a, m);
    assert [m, n][1..] == [n] && [n][1..] == [];
    assert AfterAll(b, [n]) == AfterAll(After(b, n), []) == After(b, n);
  }
}
