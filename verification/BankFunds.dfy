/** When funds never lack, whatever order the bank is reached in: a condition on the trace. */
module BankFunds {
  import opened Command
  import opened BankServer
  import opened BankProtocol
  import opened BankSafety
  import opened BankLiveness
  import opened Sequences

  // ----- the condition -----

  /** How many of the commands to take so that what they weigh is least. */
  ghost function LowestAt(cs: seq<Cmd>, w: Cmd -> int): (p: nat)
    ensures p <= |cs| && forall q :: 0 <= q <= |cs| ==> Sum(cs[..p], w) <= Sum(cs[..q], w)
  {
    if cs == [] then 0
    else
      var n := |cs| - 1;
      var r := LowestAt(cs[..n], w);
      assert forall q :: 0 <= q <= n ==> cs[..n][..q] == cs[..q];
      assert cs[..n + 1] == cs;
      if Sum(cs, w) < Sum(cs[..r], w) then n + 1 else r
  }

  /** The least that a prefix of the commands weighs. */
  ghost function Lowest(cs: seq<Cmd>, w: Cmd -> int): int {
    Sum(cs[..LowestAt(cs, w)], w)
  }

  /** The least that the ATMs below `n` but `k` can have brought. */
  ghost function OthersLowest(trace: seq<Cmd>, k: nat, n: nat, w: Cmd -> int): int {
    if n == 0 then 0
    else OthersLowest(trace, k, n - 1, w) + if n - 1 == k then 0 else Lowest(Commands(trace, n - 1), w)
  }

  /** A command that takes from an account, and that the bank would carry out if there are funds. */
  ghost predicate Takes(m: Cmd, accounts: nat) {
    0 <= m.from < accounts && (m.c == WITHDRAW || (m.c == TRANSFER && 0 <= m.to < accounts))
  }

  /** The account command `i` of ATM `k` takes from holds enough even if only what the ATM sent
      before has come, and from each other ATM what leaves least there. */
  ghost predicate Funded(trace: seq<Cmd>, atms: nat, accounts: nat, k: nat, i: nat)
    requires k < atms && i < |Commands(trace, k)|
  {
    var cs := Commands(trace, k);
    var w := Net(cs[i].from, accounts);
    Takes(cs[i], accounts) ==> Sum(cs[..i], w) + OthersLowest(trace, k, atms, w) >= cs[i].amt
  }

  ghost predicate AlwaysFunded(trace: seq<Cmd>, atms: nat, accounts: nat) {
    forall k: nat, i: nat :: k < atms && i < |Commands(trace, k)| ==> Funded(trace, atms, accounts, k, i)
  }

  // ----- it is enough -----

  /** Each ATM's served commands are a prefix of its commands; together they weigh no less than
      those of `k` and the least prefixes of the others. */
  lemma {:induction false} AtLeastLowest(trace: seq<Cmd>, log: seq<Exchange>, k: nat, n: nat, w: Cmd -> int)
    requires forall j :: 0 <= j < n ==> Asked(Of(log, j)) <= Commands(trace, j)
    ensures ByAtm(log, n, w) >= OthersLowest(trace, k, n, w) + if k < n then Sum(Asked(Of(log, k)), w) else 0
  {
    hide Commands, Of, LowestAt;
    if n > 0 {
      AtLeastLowest(trace, log, k, n - 1, w);
      var part, cs := Asked(Of(log, n - 1)), Commands(trace, n - 1);
      assert part == cs[..|part|];
      LowestIsLeast(cs, |part|, w);
    }
  }

  lemma LowestIsLeast(cs: seq<Cmd>, q: nat, w: Cmd -> int)
    requires q <= |cs|
    ensures Lowest(cs, w) <= Sum(cs[..q], w)
  {
  }

  /** A balance is what the served commands weigh. */
  lemma BalanceByAtm(trace: seq<Cmd>, accounts: nat, s: Sys, x: int)
    requires SysOk(trace, accounts, s) && NoRefusal(s.log) && 0 <= x < accounts
    ensures |s.desk.accounts| == accounts && s.desk.accounts[x] == ByAtm(s.log, |s.atms|, Net(x, accounts))
  {
    hide AtmsOk, LogOk, NoRefusal, Net, Of;
    BalanceIsNet(accounts, s.log, x);
    assert forall i :: 0 <= i < |s.log| ==> Expected(s.log[i].request, |s.atms|);
    SumByAtm(s.log, |s.atms|, Net(x, accounts));
  }

  /** The next request is its ATM's next command. */
  lemma NextIsCommand(trace: seq<Cmd>, accounts: nat, s: Sys)
    requires SysOk(trace, accounts, s) && s.inbound != []
    ensures var m := s.inbound[0];
            && 0 <= m.id < |s.atms|
            && var mine, cs := Of(s.log, m.id), Commands(trace, m.id);
               |mine| < |cs| && cs[|mine|] == m && Asked(mine) == cs[..|mine|]
  {
    hide AtmOk, LogOk, Commands, Of, Balances;
    var m := s.inbound[0];
    assert Expected(m, |s.atms|);
    var k := m.id;
    var mine, sent, cs := Of(s.log, k), From(s.inbound, k), Commands(trace, k);
    SentIsNext(trace, k, s.atms[k], mine, sent, s.desk.replies[k]);
    assert sent[0] == m;
    var all := Asked(mine) + sent;
    assert all == cs[..|all|] && all[|mine|] == m && all[..|mine|] == Asked(mine);
  }

  /** The bank does not refuse the next request for lack of funds. */
  lemma NextIsFunded(trace: seq<Cmd>, accounts: nat, s: Sys, outside: int)
    requires SysOk(trace, accounts, s) && s.inbound != [] && NoRefusal(s.log)
    requires AlwaysFunded(trace, |s.atms|, accounts)
    ensures Known(s.inbound[0].c) && Answer(s.desk.accounts, s.inbound[0], outside).c != NOFUNDS
  {
    hide SysOk, NoRefusal, Commands, Of, Net, OthersLowest, Answer;
    var m := s.inbound[0];
    NextIsCommand(trace, accounts, s);
    NextIsKnown(trace, accounts, s);
    var k, i := m.id, |Of(s.log, m.id)|;
    assert Funded(trace, |s.atms|, accounts, k, i);
    Refusal(s.desk.accounts, m, outside);
    if Takes(m, accounts) {
      BalanceByAtm(trace, accounts, s, m.from);
      ServedPrefixes(trace, accounts, s);
      AtLeastLowest(trace, s.log, k, |s.atms|, Net(m.from, accounts));
    }
  }

  lemma NextIsKnown(trace: seq<Cmd>, accounts: nat, s: Sys)
    requires SysOk(trace, accounts, s) && s.inbound != []
    ensures Known(s.inbound[0].c) && |s.desk.accounts| == accounts
  {
    assert Expected(s.inbound[0], |s.atms|);
  }

  lemma {:induction false} FundedIsEnough(trace: seq<Cmd>, atms: nat, accounts: nat, turns: seq<Turn>)
    requires AlwaysFunded(trace, atms, accounts)
    ensures NoRefusal(Exec(trace, Init(atms, accounts), turns).log)
  {
    hide AlwaysFunded, SysOk, Answer;
    if turns != [] {
      var n := |turns| - 1;
      FundedIsEnough(trace, atms, accounts, turns[..n]);
      AlwaysOk(trace, atms, accounts, turns[..n]);
      var r := Exec(trace, Init(atms, accounts), turns[..n]);
      if CanStep(r, turns[n]) && turns[n].BankTurn? {
        NextIsFunded(trace, accounts, r, turns[n].outside);
      }
    }
  }

  // ----- it is necessary -----

  /** The position of message number `n` of an ATM. */
  ghost function Position(ms: seq<Cmd>, k: nat, n: nat): (h: nat)
    requires n <= |From(ms, k)|
    ensures h <= |ms| && From(ms[..h], k) == From(ms, k)[..n]
    ensures n < |From(ms, k)| ==> h < |ms| && ms[h].id == k && ms[h] == From(ms, k)[n]
  {
    if ms == [] then 0
    else if ms[0].id != k then
      var h := 1 + Position(ms[1..], k, n);
      assert ms[..h][1..] == ms[1..][..h - 1];
      h
    else if n == 0 then 0
    else
      var h := 1 + Position(ms[1..], k, n - 1);
      assert ms[..h][1..] == ms[1..][..h - 1];
      h
  }

  /** Where ATM `j` is held: before command `i` if it is `k`, else after the prefix of its
      commands that weighs least. */
  ghost function HeldPrefix(trace: seq<Cmd>, k: nat, i: nat, w: Cmd -> int, j: nat): (n: nat)
    requires k == j ==> i <= |Commands(trace, k)|
    ensures n <= |Commands(trace, j)|
  {
    if j == k then i else LowestAt(Commands(trace, j), w)
  }

  ghost function HeldPosition(trace: seq<Cmd>, k: nat, i: nat, w: Cmd -> int, j: nat): nat
    requires k == j ==> i <= |Commands(trace, k)|
  {
    Position(trace[..Stop(trace, j)], j, HeldPrefix(trace, k, i, w, j))
  }

  lemma HeldPositionIs(trace: seq<Cmd>, k: nat, i: nat, w: Cmd -> int, j: nat)
    requires k == j ==> i <= |Commands(trace, k)|
    ensures var h, n := HeldPosition(trace, k, i, w, j), HeldPrefix(trace, k, i, w, j);
            && h <= Stop(trace, j) && From(trace[..h], j) == Commands(trace, j)[..n]
            && (n < |Commands(trace, j)| ==>
                  h < Stop(trace, j) && trace[h].id == j && trace[h] == Commands(trace, j)[n])
  {
    hide HeldPrefix, Position;
    var h := HeldPosition(trace, k, i, w, j);
    assert trace[..Stop(trace, j)][..h] == trace[..h];
  }

  ghost function Schedule(trace: seq<Cmd>, atms: nat, k: nat, i: nat, w: Cmd -> int): Hold
    requires i <= |Commands(trace, k)|
  {
    map j: nat | j < atms :: HeldPosition(trace, k, i, w, j)
  }

  /** What is served when every ATM is held where the schedule says. */
  lemma {:induction false} LowestServed(trace: seq<Cmd>, log: seq<Exchange>, k: nat, i: nat, n: nat, w: Cmd -> int)
    requires i <= |Commands(trace, k)|
    requires forall j: nat :: j < n ==> Asked(Of(log, j)) == Commands(trace, j)[..HeldPrefix(trace, k, i, w, j)]
    ensures ByAtm(log, n, w) == OthersLowest(trace, k, n, w) + if k < n then Sum(Commands(trace, k)[..i], w) else 0
  {
    hide Commands, Of, LowestAt;
    if n > 0 {
      LowestServed(trace, log, k, i, n - 1, w);
      assert Asked(Of(log, n - 1)) == Commands(trace, n - 1)[..HeldPrefix(trace, k, i, w, n - 1)];
    }
  }

  /** As long as an ATM has not come to its last command, the bank is open. */
  lemma OpenWhileShort(trace: seq<Cmd>, accounts: nat, s: Sys, k: nat)
    requires SysOk(trace, accounts, s) && Leaves(trace, |s.atms|)
    requires k < |s.atms| && Asked(Of(s.log, k)) != Commands(trace, k)
    ensures s.desk.active != 0
  {
    hide SysOk, Commands, Of, EndsWithExit;
    ServedPrefixes(trace, accounts, s);
    ExitsServed(trace, s.log, |s.atms|);
  }

  /** A state in which exactly the schedule's prefixes were served, and ATM `k` is about to send
      command `i`. */
  ghost predicate AtSchedule(trace: seq<Cmd>, s: Sys, k: nat, i: nat, w: Cmd -> int)
    requires i < |Commands(trace, k)|
  {
    && s.inbound == [] && s.desk.active != 0 && !s.failed && k < |s.atms|
    && CanStep(s, AtmTurn(k)) && !s.atms[k].waiting
    && s.atms[k].pos < |trace| && trace[s.atms[k].pos] == Commands(trace, k)[i] && Commands(trace, k)[i].id == k
    && forall j: nat :: j < |s.atms| ==>
         Asked(Of(s.log, j)) == Commands(trace, j)[..HeldPrefix(trace, k, i, w, j)]
  }

  lemma HeldIsAtSchedule(trace: seq<Cmd>, accounts: nat, s: Sys, k: nat, i: nat, w: Cmd -> int)
    requires SysOk(trace, accounts, s) && Leaves(trace, |s.atms|)
    requires k < |s.atms| && i < |Commands(trace, k)|
    requires var hold := Schedule(trace, |s.atms|, k, i, w); StuckButHeld(s, hold) && NotPast(s, hold)
    ensures AtSchedule(trace, s, k, i, w)
  {
    hide SysOk, Leaves, StuckButHeld, NotPast, CanStep, Commands, Of, Stop, HeldPosition;
    var hold := Schedule(trace, |s.atms|, k, i, w);
    HeldPositionIs(trace, k, i, w, k);
    HeldServed(trace, accounts, s, hold, k);
    OpenWhileShort(trace, accounts, s, k);
    forall j: nat | j < |s.atms|
      ensures s.inbound == [] && CanStep(s, AtmTurn(j)) && !s.atms[j].waiting && s.atms[j].pos == hold[j]
      ensures Asked(Of(s.log, j)) == Commands(trace, j)[..HeldPrefix(trace, k, i, w, j)] {
      HeldAt(trace, accounts, s, hold, j);
      HeldPositionIs(trace, k, i, w, j);
    }
    NotFailed(trace, accounts, s);
  }

  lemma NotFailed(trace: seq<Cmd>, accounts: nat, s: Sys)
    requires SysOk(trace, accounts, s)
    ensures !s.failed && |s.desk.replies| == |s.atms|
  {
  }

  /** From there, two turns bring a refusal. */
  lemma RefusedNext(trace: seq<Cmd>, accounts: nat, s: Sys, k: nat, i: nat)
    requires SysOk(trace, accounts, s) && NoRefusal(s.log)
    requires k < |s.atms| && i < |Commands(trace, k)| && !Funded(trace, |s.atms|, accounts, k, i)
    requires AtSchedule(trace, s, k, i, Net(Commands(trace, k)[i].from, accounts))
    ensures var r := Step(trace, s, AtmTurn(k));
            CanStep(r, BankTurn(0)) && !NoRefusal(Step(trace, r, BankTurn(0)).log)
  {
    hide SysOk, NoRefusal, Commands, Of, Net, OthersLowest, Step, CanStep;
    var m := Commands(trace, k)[i];
    var w := Net(m.from, accounts);
    BalanceByAtm(trace, accounts, s, m.from);
    LowestServed(trace, s.log, k, i, |s.atms|, w);
    RefusesAlone(trace, accounts, s, k, m);
  }

  lemma RefusesAlone(trace: seq<Cmd>, accounts: nat, s: Sys, k: nat, m: Cmd)
    requires SysOk(trace, accounts, s) && k < |s.atms| && CanStep(s, AtmTurn(k)) && !s.atms[k].waiting
    requires s.inbound == [] && s.desk.active != 0 && s.atms[k].pos < |trace|
    requires trace[s.atms[k].pos] == m && m.id == k && Known(m.c)
    requires Takes(m, accounts) && |s.desk.accounts| == accounts && s.desk.accounts[m.from] < m.amt
    ensures var r := Step(trace, s, AtmTurn(k));
            CanStep(r, BankTurn(0)) && !NoRefusal(Step(trace, r, BankTurn(0)).log)
  {
    hide After, Answer, Exec;
    NotFailed(trace, accounts, s);
    Refusal(s.desk.accounts, m, 0);
    hide SysOk;
    var r := Step(trace, s, AtmTurn(k));
    assert r.inbound == [m];
    var u := Step(trace, r, BankTurn(0));
    assert u.log == s.log + [Exchange(m, Answer(s.desk.accounts, m, 0))];
    assert u.log[|s.log|].reply.c == NOFUNDS;
  }

  /** A schedule that serves just the prefixes that leave least, and then the command they do not
      fund, meets a refusal. */
  lemma RefusingRun(trace: seq<Cmd>, atms: nat, accounts: nat, k: nat, i: nat) returns (turns: seq<Turn>)
    requires Leaves(trace, atms) && k < atms && i < |Commands(trace, k)| && !Funded(trace, atms, accounts, k, i)
    ensures !NoRefusal(Exec(trace, Init(atms, accounts), turns).log)
  {
    hide SysOk, Leaves, NoRefusal, Exec, Step, StuckButHeld, NotPast, CanStep, AtSchedule, Commands, Schedule;
    hide CanHold, Funded;
    var w := Net(Commands(trace, k)[i].from, accounts);
    var hold := Schedule(trace, atms, k, i, w);
    ScheduleHolds(trace, atms, k, i, w);
    NotPastAtStart(trace, atms, accounts, hold);
    turns := RunHeld(trace, atms, accounts, [], hold);
    var s := Exec(trace, Init(atms, accounts), turns);
    AlwaysOk(trace, atms, accounts, turns);
    if NoRefusal(s.log) {
      HeldIsAtSchedule(trace, accounts, s, k, i, w);
      RefusedNext(trace, accounts, s, k, i);
      AtScheduleSteps(trace, s, k, i, w);
      ExecMore(trace, Init(atms, accounts), turns, AtmTurn(k));
      ExecMore(trace, Init(atms, accounts), turns + [AtmTurn(k)], BankTurn(0));
      turns := turns + [AtmTurn(k)] + [BankTurn(0)];
    }
  }

  lemma ScheduleHolds(trace: seq<Cmd>, atms: nat, k: nat, i: nat, w: Cmd -> int)
    requires i <= |Commands(trace, k)|
    ensures CanHold(trace, atms, Schedule(trace, atms, k, i, w))
  {
    hide HeldPosition, Commands, Stop;
    forall j: nat | j < atms ensures HeldPosition(trace, k, i, w, j) <= Stop(trace, j) {
      HeldPositionIs(trace, k, i, w, j);
    }
  }

  lemma AtScheduleSteps(trace: seq<Cmd>, s: Sys, k: nat, i: nat, w: Cmd -> int)
    requires i < |Commands(trace, k)| && AtSchedule(trace, s, k, i, w)
    ensures CanStep(s, AtmTurn(k))
  {
  }

  /** No run ever meets a lack of funds if and only if every command that takes is funded by the
      least that can have come before it. */
  lemma NeverRefusedIff(trace: seq<Cmd>, atms: nat, accounts: nat)
    requires Leaves(trace, atms)
    ensures (forall turns :: NoRefusal(Exec(trace, Init(atms, accounts), turns).log))
       <==> AlwaysFunded(trace, atms, accounts)
  {
    hide Exec, NoRefusal, Funded, Leaves, Commands;
    if AlwaysFunded(trace, atms, accounts) {
      forall turns ensures NoRefusal(Exec(trace, Init(atms, accounts), turns).log) {
        FundedIsEnough(trace, atms, accounts, turns);
      }
    } else {
      var k: nat, i: nat :| k < atms && i < |Commands(trace, k)| && !Funded(trace, atms, accounts, k, i);
      var turns := RefusingRun(trace, atms, accounts, k, i);
    }
  }

  /** Then any two runs to the end of all ATMs leave the same accounts. */
  lemma FundedOrderIsFree(trace: seq<Cmd>, atms: nat, accounts: nat, one: seq<Turn>, two: seq<Turn>)
    requires AlwaysFunded(trace, atms, accounts)
    requires AllDone(Exec(trace, Init(atms, accounts), one)) && AllDone(Exec(trace, Init(atms, accounts), two))
    ensures Exec(trace, Init(atms, accounts), one).desk.accounts
         == Exec(trace, Init(atms, accounts), two).desk.accounts
  {
    hide Exec, NoRefusal, AlwaysFunded, AllDone;
    FundedIsEnough(trace, atms, accounts, one);
    FundedIsEnough(trace, atms, accounts, two);
    OrderDoesNotMatter(trace, atms, accounts, one, two);
  }

  /** And every run of the trace comes to the same proper end: each balance is the net of what
      the ATMs had to send, whatever the order. */
  lemma FundedRunsAgree(trace: seq<Cmd>, atms: nat, accounts: nat, turns: seq<Turn>, x: int)
    requires Leaves(trace, atms) && AlwaysFunded(trace, atms, accounts) && 0 <= x < accounts
    requires Stuck(Exec(trace, Init(atms, accounts), turns))
    ensures var s := Exec(trace, Init(atms, accounts), turns);
            && Ended(s) && |s.desk.accounts| == accounts
            && s.desk.accounts[x] == Planned(trace, atms, Net(x, accounts))
  {
    hide Exec, NoRefusal, AlwaysFunded, Leaves, Stuck, SysOk, AllDone;
    AlwaysOk(trace, atms, accounts, turns);
    StuckEnds(trace, accounts, Exec(trace, Init(atms, accounts), turns));
    FundedIsEnough(trace, atms, accounts, turns);
    FinalBalances(trace, atms, accounts, turns, x);
  }
}
