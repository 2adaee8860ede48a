/** The bank: what a message does to the accounts and what is answered. */
module BankServer {
  import opened Command

  ghost predicate Account(accounts: seq<int>, x: int) {
    0 <= x < |accounts|
  }

  ghost function Moved(a: seq<int>, from: int, to: int, amt: int): seq<int>
    requires Account(a, from) && Account(a, to)
  {
    var b := a[from := a[from] - amt];
    b[to := b[to] + amt]
  }

  /** The accounts after a message. */
  ghost function After(a: seq<int>, m: Cmd): (r: seq<int>)
    ensures |r| == |a|
  {
    if m.c == DEPOSIT && Account(a, m.to) then a[m.to := a[m.to] + m.amt]
    else if m.c == WITHDRAW && Account(a, m.from) && a[m.from] >= m.amt then a[m.from := a[m.from] - m.amt]
    else if m.c == TRANSFER && Account(a, m.from) && Account(a, m.to) && a[m.from] >= m.amt then
      Moved(a, m.from, m.to, m.amt)
    else a
  }

  /** The answer to a message; `outside` is what lies past the end of the accounts. */
  ghost function Answer(a: seq<int>, m: Cmd, outside: int): Cmd
    requires Known(m.c)
  {
    if m.c == DEPOSIT then
      if Account(a, m.to) then Ok(m.from, m.to, m.amt) else AccUnkn(m.to)
    else if m.c == WITHDRAW then
      if !Account(a, m.from) then AccUnkn(m.to)
      else if a[m.from] >= m.amt then Ok(m.from, m.to, m.amt) else NoFunds(m.from, m.amt)
    else if m.c == TRANSFER then
      if !Account(a, m.from) then AccUnkn(m.from)
      else if !Account(a, m.to) then AccUnkn(m.to)
      else if a[m.from] < m.amt then NoFunds(m.from, m.amt) else Ok(m.from, m.to, m.amt)
    else if m.c == BALANCE then
      if Account(a, m.from) then Ok(m.from, m.to, if Account(a, m.id) then a[m.id] else outside)
      else AccUnkn(m.to)
    else Ok(m.from, m.to, m.amt)
  }

  /** The bank's side: accounts, ATMs that have not left, and the pipe to each ATM. */
  datatype Desk = Desk(accounts: seq<int>, active: int, replies: seq<seq<Cmd>>)

  ghost function StatusOf(d: Desk, m: Cmd): Status {
    if !(0 <= m.id < |d.replies|) then UnknownAtm else if Known(m.c) then Success else UnknownCommand
  }

  ghost function Handled(d: Desk, m: Cmd, outside: int): (r: Desk)
    ensures |r.replies| == |d.replies|
  {
    if StatusOf(d, m) != Success then d
    else
      Desk(After(d.accounts, m), if m.c == EXIT then d.active - 1 else d.active,
           d.replies[m.id := d.replies[m.id] + [Answer(d.accounts, m, outside)]])
  }

  // ----- one message -----

  ghost function Total(a: seq<int>): int {
    if a == [] then 0 else a[0] + Total(a[1..])
  }

  lemma {:induction false} TotalUpdate(a: seq<int>, i: nat, v: int)
    requires i < |a|
    ensures Total(a[i := v]) == Total(a) - a[i] + v
  {
    if i > 0 {
      TotalUpdate(a[1..], i - 1, v);
      assert a[i := v][1..] == a[1..][i - 1 := v];
    } else {
      assert a[i := v][1..] == a[1..];
    }
  }

  lemma MovedTotal(a: seq<int>, from: int, to: int, amt: int)
    requires Account(a, from) && Account(a, to)
    ensures Total(Moved(a, from, to, amt)) == Total(a)
    ensures from == to ==> Moved(a, from, to, amt) == a
  {
    var b := a[from := a[from] - amt];
    TotalUpdate(a, from, a[from] - amt);
    TotalUpdate(b, to, b[to] + amt);
  }

  /** Money enters only by accepted deposits and leaves only by accepted withdrawals. */
  ghost function Inflow(m: Cmd, reply: Cmd): int {
    if reply.c != OK then 0
    else if m.c == DEPOSIT then m.amt else if m.c == WITHDRAW then -m.amt else 0
  }

  lemma MoneyIsConserved(a: seq<int>, m: Cmd, outside: int)
    requires Known(m.c)
    ensures Total(After(a, m)) == Total(a) + Inflow(m, Answer(a, m, outside))
  {
    if m.c == DEPOSIT && Account(a, m.to) { TotalUpdate(a, m.to, a[m.to] + m.amt); }
    if m.c == WITHDRAW && Account(a, m.from) { TotalUpdate(a, m.from, a[m.from] - m.amt); }
    if m.c == TRANSFER && Account(a, m.from) && Account(a, m.to) { MovedTotal(a, m.from, m.to, m.amt); }
  }

  ghost predicate NonNegative(a: seq<int>) {
    forall i :: 0 <= i < |a| ==> a[i] >= 0
  }

  /** A negative amount that the bank would carry out. */
  ghost predicate TakesByNegative(m: Cmd, n: nat) {
    m.amt < 0 && 0 <= m.to < n && (m.c == DEPOSIT || (m.c == TRANSFER && 0 <= m.from < n && m.from != m.to))
  }

  /** A message keeps all balances non-negative, whatever they are, exactly when it is not a
      deposit or a transfer of a negative amount. */
  lemma StaysNonNegative(m: Cmd, n: nat)
    ensures (forall a :: |a| == n && NonNegative(a) ==> NonNegative(After(a, m))) <==> !TakesByNegative(m, n)
  {
    if TakesByNegative(m, n) {
      var a := seq(n, _ => 0);
      assert NonNegative(a) && After(a, m)[m.to] < 0;
    }
  }

  /** What an accepted message adds to account `x` of `n`. */
  ghost function Credit(m: Cmd, x: int, n: nat): int {
    if (m.c == DEPOSIT && m.to == x) || (m.c == TRANSFER && m.to == x && 0 <= m.from < n) then m.amt else 0
  }

  ghost function Debit(m: Cmd, x: int, n: nat): int {
    if (m.c == WITHDRAW && m.from == x) || (m.c == TRANSFER && m.from == x && 0 <= m.to < n) then m.amt else 0
  }

  /** Unless funds are lacking, a balance changes by the message's credit and debit, whatever
      the balances are. */
  lemma BalanceChange(a: seq<int>, m: Cmd, outside: int, x: int)
    requires Known(m.c) && Account(a, x)
    ensures After(a, m)[x] == a[x] +
            if Answer(a, m, outside).c == NOFUNDS then 0 else Credit(m, x, |a|) - Debit(m, x, |a|)
  {
  }

  // The codes on the wire: 0 is OK, 7 NOFUNDS and 9 ACCUNKN in a reply; 1 to 6 are CONNECT, EXIT,
  // DEPOSIT, WITHDRAW, TRANSFER and BALANCE in a request. What follows is said of these numbers.

  /** The answer names the reason for a refusal, and refusals change nothing. */
  lemma Refusal(a: seq<int>, m: Cmd, outside: int)
    requires 1 <= m.c <= 6
    ensures var r, n := Answer(a, m, outside), |a|;
            && r.c in {0, 7, 9} && (r.c != 0 ==> After(a, m) == a)
            && (r.c == 7 <==> m.c in {4, 5} && 0 <= m.from < n && (m.c == 5 ==> 0 <= m.to < n) && a[m.from] < m.amt)
            && (r.c == 9 <==> (m.c in {4, 5, 6} && !(0 <= m.from < n)) || (m.c in {3, 5} && !(0 <= m.to < n)))
  {
  }

  /** The fields of a reply; a balance request is told the account with the ATM's number. */
  lemma ReplyFields(a: seq<int>, m: Cmd, outside: int)
    requires 1 <= m.c <= 6
    ensures var r, n := Answer(a, m, outside), |a|;
            && r.id == 0
            && (r.c == 0 ==> r.from == m.from && r.to == m.to)
            && (r.c == 0 && m.c != 6 ==> r.amt == m.amt)
            && (r.c == 0 && m.c == 6 ==> r.amt == if 0 <= m.id < n then a[m.id] else outside)
            && (r.c == 7 ==> r.from == m.from && r.to == -1 && r.amt == m.amt)
            && (r.c == 9 ==> r.from == r.amt == -1)
            && (r.c == 9 ==> r.to == if m.c == 5 && !(0 <= m.from < n) then m.from else m.to)
  {
  }

  /** A message that is answered by OK credits the account in its `to` field, if it is a deposit
      or a transfer, and debits the one in its `from` field, if it is a withdrawal or a transfer;
      any other message changes no account. */
  lemma Effect(a: seq<int>, m: Cmd, outside: int, x: nat)
    requires 1 <= m.c <= 6 && x < |a|
    ensures var credit, debit := m.c in {3, 5} && m.to == x, m.c in {4, 5} && m.from == x;
            var change := (if credit then m.amt else 0) - (if debit then m.amt else 0);
            After(a, m)[x] == if Answer(a, m, outside).c == 0 then a[x] + change else a[x]
  {
  }

  /** The account that a refused message needs and that does not exist. */
  ghost function Missing(a: seq<int>, m: Cmd): int {
    if m.c == DEPOSIT || (m.c == TRANSFER && Account(a, m.from)) then m.to else m.from
  }

  /** A refusal for an unknown account names that account, except for a withdrawal or balance
      request: then it does if and only if both of the message's accounts are the same. */
  lemma RefusalNamesAccount(a: seq<int>, m: Cmd, outside: int)
    requires Known(m.c) && Answer(a, m, outside).c == ACCUNKN
    ensures !Account(a, Missing(a, m))
    ensures Answer(a, m, outside).to == Missing(a, m) <==> m.c in {DEPOSIT, TRANSFER} || m.to == m.from
  {
  }

  /** A balance request reports the account it names, whatever the balances are, exactly when
      that account's number is the ATM's own. */
  lemma BalanceReportsOwnNumber(m: Cmd, n: nat)
    requires m.c == BALANCE && 0 <= m.from < n
    ensures (forall a, outside :: |a| == n ==> Answer(a, m, outside).amt == a[m.from]) <==> m.id == m.from
  {
    if m.id != m.from {
      var a := seq(n, i => if i == m.from then 1 else 0);
      assert Answer(a, m, 0).amt != a[m.from];
    }
  }

  // ----- the bank process -----

  class Bank {
    const accounts: array<int>
    const atmOut: array<seq<Cmd>>     // the pipe to each ATM
    const atmCount: nat

    ghost predicate Valid() {
      atmOut.Length == atmCount
    }

    ghost function State(active: int): Desk
      reads accounts, atmOut
    {
      Desk(accounts[..], active, atmOut[..])
    }

    /** bank_open. */
    constructor (atmCount: nat, accountCount: nat)
      ensures Valid() && fresh(accounts) && fresh(atmOut)
      ensures State(atmCount) == Opened(atmCount, accountCount)
    {
      var accounts, atmOut := new int[accountCount], new seq<Cmd>[atmCount](_ => []);
      var i := 0;
      while i < accountCount
        invariant 0 <= i <= accountCount && forall j :: 0 <= j < i ==> accounts[j] == 0
        invariant forall j :: 0 <= j < atmCount ==> atmOut[j] == []
      {
        accounts[i] := 0;
        i := i + 1;
      }
      this.accounts, this.atmOut, this.atmCount := accounts, atmOut, atmCount;
      new;
      assert accounts[..] == seq(accountCount, _ => 0) && atmOut[..] == seq(atmCount, _ => []);
    }

    method Reply(i: int, m: Cmd)
      requires 0 <= i < atmOut.Length
      modifies atmOut
      ensures atmOut[..] == old(atmOut[..])[i := old(atmOut[i]) + [m]]
    {
      atmOut[i] := atmOut[i] + [m];
    }

    predicate IsAccount(x: int)
      ensures IsAccount(x) <==> 0 <= x < accounts.Length
    {
      0 <= x < accounts.Length
    }

    method Deposit(m: Cmd) returns (reply: Cmd)
      requires m.c == DEPOSIT
      modifies accounts
      ensures accounts[..] == After(old(accounts[..]), m)
      ensures forall outside :: reply == Answer(old(accounts[..]), m, outside)
    {
      if IsAccount(m.to) {
        accounts[m.to] := accounts[m.to] + m.amt;
        reply := Ok(m.from, m.to, m.amt);
      } else {
        reply := AccUnkn(m.to);
      }
    }

    method Withdraw(m: Cmd) returns (reply: Cmd)
      requires m.c == WITHDRAW
      modifies accounts
      ensures accounts[..] == After(old(accounts[..]), m)
      ensures forall outside :: reply == Answer(old(accounts[..]), m, outside)
    {
      if IsAccount(m.from) {
        if accounts[m.from] >= m.amt {
          accounts[m.from] := accounts[m.from] - m.amt;
          reply := Ok(m.from, m.to, m.amt);
        } else {
          reply := NoFunds(m.from, m.amt);
        }
      } else {
        reply := AccUnkn(m.to);
      }
    }

    method Transfer(m: Cmd) returns (reply: Cmd)
      requires m.c == TRANSFER
      modifies accounts
      ensures accounts[..] == After(old(accounts[..]), m)
      ensures forall outside :: reply == Answer(old(accounts[..]), m, outside)
    {
      if !IsAccount(m.from) {
        reply := AccUnkn(m.from);
      } else if !IsAccount(m.to) {
        reply := AccUnkn(m.to);
      } else if accounts[m.from] < m.amt {
        reply := NoFunds(m.from, m.amt);
      } else {
        accounts[m.from] := accounts[m.from] - m.amt;
        accounts[m.to] := accounts[m.to] + m.amt;
        reply := Ok(m.from, m.to, m.amt);
      }
    }

    /** The balance read is that of the account with the ATM's number. */
    method Balance(m: Cmd, outside: int) returns (reply: Cmd)
      requires m.c == BALANCE && 0 <= m.id
      ensures reply == Answer(accounts[..], m, outside)
      ensures 0 <= m.from < accounts.Length && m.id < accounts.Length ==>
                reply == Cmd(0, 0, m.from, m.to, accounts[m.id])
    {
      if !IsAccount(m.from) {
        reply := AccUnkn(m.to);
      } else {
        reply := Ok(m.from, m.to, if m.id < accounts.Length then accounts[m.id] else outside);
      }
    }

    /** bank. */
    method Process(m: Cmd, active: int, outside: int) returns (status: Status, left: int)
      requires Valid()
      modifies accounts, atmOut
      ensures status == StatusOf(old(State(active)), m)
      ensures State(left) == Handled(old(State(active)), m, outside)
      ensures status == UnknownAtm <==> !(0 <= m.id < atmCount)
      ensures status == UnknownCommand <==> 0 <= m.id < atmCount && !(1 <= m.c <= 6)
      ensures status == Success <==> 0 <= m.id < atmCount && 1 <= m.c <= 6
      ensures left == active - if status == Success && m.c == 2 then 1 else 0
      ensures forall i :: 0 <= i < atmCount && (i != m.id || status != Success) ==> atmOut[i] == old(atmOut[i])
      ensures status == Success ==> exists reply :: atmOut[m.id] == old(atmOut[m.id]) + [reply]
      ensures status != Success ==> accounts[..] == old(accounts[..])
    {
      left := active;
      if !(0 <= m.id < atmCount) {
        return UnknownAtm, left;
      }
      if !Known(m.c) {
        return UnknownCommand, left;
      }
      hide After, Answer;
      var reply;
      if m.c == DEPOSIT {
        reply := Deposit(m);
      } else if m.c == WITHDRAW {
        reply := Withdraw(m);
      } else if m.c == TRANSFER {
        reply := Transfer(m);
      } else if m.c == BALANCE {
        reply := Balance(m, outside);
        NothingMoves(accounts[..], m, outside);
      } else {
        if m.c == EXIT { left := left - 1; }
        reply := Ok(m.from, m.to, m.amt);
        NothingMoves(accounts[..], m, outside);
      }
      Reply(m.id, reply);
      status := Success;
    }

    /** run_bank: `input` is what arrives before the pipe is closed. */
    method Run(input: seq<Cmd>, outside: seq<int>) returns (status: Status, active: int)
      requires Valid() && |outside| == |input|
      modifies accounts, atmOut
      ensures status == Served(old(State(atmCount)), input, outside).1
      ensures State(active) == Served(old(State(atmCount)), input, outside).0
    {
      hide Handled, StatusOf;
      active := atmCount;
      ghost var start := State(atmCount);
      var n := 0;
      while active != 0
        invariant 0 <= n <= |input|
        invariant Served(start, input, outside) == Served(State(active), input[n..], outside[n..])
        decreases |input| - n
      {
        if n == |input| {
          return PipeReadError, active;
        }
        ghost var before := State(active);
        ServedStep(before, input, outside, n);
        status, active := Process(input[n], active, outside[n]);
        n := n + 1;
        if status == UnknownAtm {
          continue;
        }
        if status != Success {
          return status, active;
        }
      }
      status := Success;
    }
  }

  /** The bank serves what arrives until every ATM has left; messages of unknown ATMs are
      skipped. */
  ghost function Served(d: Desk, input: seq<Cmd>, outside: seq<int>): (Desk, Status)
    requires |outside| == |input|
    decreases |input|
  {
    if d.active == 0 then (d, Success)
    else if input == [] then (d, PipeReadError)
    else if StatusOf(d, input[0]) == UnknownCommand then (d, UnknownCommand)
    else Served(Handled(d, input[0], outside[0]), input[1..], outside[1..])
  }

  lemma ServedStep(d: Desk, input: seq<Cmd>, outside: seq<int>, n: nat)
    requires |outside| == |input| && n < |input| && d.active != 0
    ensures Served(d, input[n..], outside[n..])
         == if StatusOf(d, input[n]) == UnknownCommand then (d, UnknownCommand)
            else Served(Handled(d, input[n], outside[n]), input[n + 1..], outside[n + 1..])
    ensures StatusOf(d, input[n]) in {Success, UnknownAtm, UnknownCommand}
    ensures StatusOf(d, input[n]) == UnknownCommand ==> Handled(d, input[n], outside[n]) == d
  {
  }

  /** How many of these messages are an ATM leaving. */
  ghost function Exits(input: seq<Cmd>, atms: nat): nat {
    if input == [] then 0
    else Exits(input[1..], atms) + if 0 <= input[0].id < atms && input[0].c == EXIT then 1 else 0
  }

  /** Every message is one the bank skips or can answer. */
  ghost predicate Answerable(input: seq<Cmd>, atms: nat) {
    forall i :: 0 <= i < |input| && 0 <= input[i].id < atms ==> Known(input[i].c)
  }

  /** A prefix of what arrives after which the bank closes. */
  ghost predicate Closes(input: seq<Cmd>, atms: nat, active: int, n: int) {
    0 <= n <= |input| && Exits(input[..n], atms) == active && Answerable(input[..n], atms)
  }

  /** The bank closes normally exactly when, before anything it cannot answer, as many EXITs
      arrive as there are ATMs left. */
  lemma {:induction false} ClosesIff(d: Desk, input: seq<Cmd>, outside: seq<int>)
    requires |outside| == |input| && d.active >= 0
    ensures Served(d, input, outside).1 == Success <==> exists n :: Closes(input, |d.replies|, d.active, n)
    decreases |input|
  {
    var atms := |d.replies|;
    if d.active == 0 {
      assert Closes(input, atms, 0, 0);
    } else {
      assert !Closes(input, atms, d.active, 0);
      if input != [] {
        var m, next := input[0], Handled(d, input[0], outside[0]);
        forall n | 0 < n <= |input|
          ensures Closes(input, atms, d.active, n)
             <==> StatusOf(d, m) != UnknownCommand && Closes(input[1..], atms, next.active, n - 1) {
          ServedPrefix(d, input, outside[0], n);
        }
        if StatusOf(d, m) != UnknownCommand {
          ClosesIff(next, input[1..], outside[1..]);
          forall n | Closes(input[1..], atms, next.active, n) ensures Closes(input, atms, d.active, n + 1) {
            assert 0 < n + 1 <= |input|;
          }
        }
      }
    }
  }

  lemma ServedPrefix(d: Desk, input: seq<Cmd>, outside: int, n: nat)
    requires 0 < n <= |input|
    ensures input[..n] == [input[0]] + input[1..][..n - 1]
    ensures StatusOf(d, input[0]) == UnknownCommand
         || Exits(input[..n], |d.replies|) - Exits(input[1..][..n - 1], |d.replies|)
            == d.active - Handled(d, input[0], outside).active
    ensures Answerable(input[..n], |d.replies|)
       <==> StatusOf(d, input[0]) != UnknownCommand && Answerable(input[1..][..n - 1], |d.replies|)
  {
    var p, q := input[..n], input[1..][..n - 1];
    assert p[1..] == q;
    assert forall i :: 0 < i < n ==> p[i] == q[i - 1];
    assert forall i :: 0 <= i < n - 1 ==> q[i] == p[i + 1];
  }

  lemma NothingMoves(a: seq<int>, m: Cmd, outside: int)
    ensures m.c in {CONNECT, EXIT, BALANCE} ==> After(a, m) == a
    ensures m.c in {CONNECT, EXIT} ==> Answer(a, m, outside) == Ok(m.from, m.to, m.amt)
  {
  }

  ghost function Opened(atmCount: nat, accountCount: nat): Desk {
    Desk(seq(accountCount, _ => 0), atmCount, seq(atmCount, _ => []))
  }
}
