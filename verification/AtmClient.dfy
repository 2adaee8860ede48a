/** An ATM process: it sends its own commands of the trace and waits for each reply. */
module AtmClient {
  import opened Command
  import opened BankProtocol
  import opened BankSafety

  /** How many replies come before one that ends the ATM. */
  ghost function Good(replies: seq<Cmd>): (n: nat)
    ensures n <= |replies|
  {
    if replies == [] || !GoesOn(replies[0]) then 0 else 1 + Good(replies[1..])
  }

  lemma {:induction false} GoodIs(replies: seq<Cmd>, n: nat)
    requires n <= |replies| && forall i :: 0 <= i < n ==> GoesOn(replies[i])
    ensures Good(replies) >= n
    ensures n == |replies| || !GoesOn(replies[n]) ==> Good(replies) == n
  {
    if n > 0 { GoodIs(replies[1..], n - 1); }
  }

  /** The commands before position `p`, and the next one. */
  lemma SentBefore(trace: seq<Cmd>, k: nat, p: nat)
    requires p <= Stop(trace, k)
    ensures From(trace[..p], k) <= Commands(trace, k) && (p == 0 ==> From(trace[..p], k) == [])
    ensures p == Stop(trace, k) ==> From(trace[..p], k) == Commands(trace, k)
    ensures p < |trace| && trace[p].id != k ==>
              p < Stop(trace, k) && From(trace[..p + 1], k) == From(trace[..p], k)
    ensures p < |trace| && trace[p].id == k && Known(trace[p].c) ==>
              && p < Stop(trace, k) && From(trace[..p + 1], k) == From(trace[..p], k) + [trace[p]]
              && From(trace[..p], k) + [trace[p]] <= Commands(trace, k)
    ensures p < |trace| && trace[p].id == k && !Known(trace[p].c) ==> p == Stop(trace, k)
  {
    var stop := Stop(trace, k);
    FromPrefix(trace[..stop], k, p);
    assert trace[..stop][..p] == trace[..p];
    if p < stop {
      assert trace[..p + 1] == trace[..p] + [trace[p]];
      FromMore(trace[..p], trace[p], k);
      FromPrefix(trace[..stop], k, p + 1);
      assert trace[..stop][..p + 1] == trace[..p + 1];
    }
  }

  /** What one call of `atm` writes to the bank. */
  ghost function Written(m: Cmd, id: nat): seq<Cmd> {
    if m.id == id && Known(m.c) then [m] else []
  }

  /** What it leaves unread of its replies: one is taken for what was written. */
  ghost function Unread(m: Cmd, id: nat, replies: seq<Cmd>): seq<Cmd> {
    if Written(m, id) == [] || replies == [] then replies else replies[1..]
  }

  ghost function StatusFor(reply: Cmd): Status {
    if reply.c == OK then Success
    else if reply.c == NOFUNDS then InsufficientFunds
    else if reply.c == ACCUNKN then UnknownAccount
    else UnknownCommand
  }

  ghost function Outcome(m: Cmd, id: nat, replies: seq<Cmd>): Status {
    if m.id != id then UnknownAtm
    else if !Known(m.c) then UnknownCommand
    else if replies == [] then PipeReadError
    else StatusFor(replies[0])
  }

  /** A status after which the loop of `atm_run` goes on. */
  predicate Continues(status: Status) {
    status == UnknownAtm || status == UnknownAccount || status == InsufficientFunds || status == Success
  }

  /** What an ATM process writes, leaves unread and returns. With a proper reply to each, it sends
      just its commands, in order, and ends well unless it does not know one; else it stops at the
      command whose reply it lacks or rejects. */
  ghost function RunResult(trace: seq<Cmd>, id: nat, replies: seq<Cmd>): (seq<Cmd>, seq<Cmd>, Status) {
    var cs, good := Commands(trace, id), Good(replies);
    if good >= |cs| then
      (cs, replies[|cs|..], if Stop(trace, id) == |trace| then Success else UnknownCommand)
    else if good < |replies| then
      (cs[..good + 1], replies[good + 1..], UnknownCommand)
    else
      (cs[..good + 1], [], PipeReadError)
  }

  /** How the loop ends: it waits for a reply exactly when one is missing, and ends well exactly
      when it got a proper reply (0, 7 or 9) to each message and knows every command of its own. */
  lemma RunEnds(trace: seq<Cmd>, id: nat, replies: seq<Cmd>)
    ensures var (wrote, unread, status) := RunResult(trace, id, replies);
            var taken := |replies| - |unread|;
            var known := forall i :: 0 <= i < |trace| && trace[i].id == id ==> 1 <= trace[i].c <= 6;
            && 0 <= taken <= |wrote| <= taken + 1 && unread == replies[taken..]
            && (status == PipeReadError <==> taken < |wrote|)
            && (status == Success <==>
                known && taken == |wrote| && forall i :: 0 <= i < taken ==> replies[i].c in {0, 7, 9})
            && status in {Success, UnknownCommand, PipeReadError}
  {
    hide From;
    GoodStops(replies);
  }

  /** The replies counted are proper and the next one, if any, is not. */
  lemma {:induction false} GoodStops(replies: seq<Cmd>)
    ensures forall i :: 0 <= i < Good(replies) ==> GoesOn(replies[i])
    ensures Good(replies) < |replies| ==> !GoesOn(replies[Good(replies)])
  {
    if replies != [] && GoesOn(replies[0]) { GoodStops(replies[1..]); }
  }

  /** The loop ends at position `p`, with a reply got for each command before. */
  lemma EndsRun(trace: seq<Cmd>, id: nat, p: nat, replies: seq<Cmd>)
    requires p < |trace| && p <= Stop(trace, id) && |From(trace[..p], id)| <= |replies|
    requires forall i :: 0 <= i < |From(trace[..p], id)| ==> GoesOn(replies[i])
    requires !Continues(Outcome(trace[p], id, replies[|From(trace[..p], id)|..]))
    ensures var before, m := From(trace[..p], id), trace[p];
            var unread := replies[|before|..];
            RunResult(trace, id, replies)
            == (before + Written(m, id), Unread(m, id, unread), Outcome(m, id, unread))
  {
    hide Commands, From, Stop, Good;
    SentBefore(trace, id, p);
    var before, m, n := From(trace[..p], id), trace[p], |From(trace[..p], id)|;
    GoodIs(replies, n);
    if Known(m.c) {
      assert before + [m] == Commands(trace, id)[..n + 1];
      if n < |replies| { assert replies[n..][1..] == replies[n + 1..]; }
    } else {
      assert before + [] == before;
    }
  }

  class AtmProcess {
    const id: nat
    var bankOut: seq<Cmd>   // what it wrote to the bank's pipe
    var atmIn: seq<Cmd>     // what it will find in its own pipe

    constructor (id: nat, replies: seq<Cmd>)
      ensures this.id == id && bankOut == [] && atmIn == replies
    {
      this.id, bankOut, atmIn := id, [], replies;
    }

    /** atm. */
    method Transact(m: Cmd) returns (status: Status)
      modifies this
      ensures bankOut == old(bankOut) + Written(m, id)
      ensures atmIn == Unread(m, id, old(atmIn)) && status == Outcome(m, id, old(atmIn))
      ensures m.id != id ==> status == UnknownAtm && bankOut == old(bankOut) && atmIn == old(atmIn)
      ensures m.id == id && !(1 <= m.c <= 6) ==>
                status == UnknownCommand && bankOut == old(bankOut) && atmIn == old(atmIn)
      ensures m.id == id && 1 <= m.c <= 6 && old(atmIn) == [] ==>
                status == PipeReadError && bankOut == old(bankOut) + [m] && atmIn == []
      ensures m.id == id && 1 <= m.c <= 6 && old(atmIn) != [] ==>
                bankOut == old(bankOut) + [m] && atmIn == old(atmIn)[1..]
    {
      if id != m.id {
        return UnknownAtm;
      }
      if !Known(m.c) {
        return UnknownCommand;
      }
      bankOut := bankOut + [m];
      if atmIn == [] {
        return PipeReadError;
      }
      var c := atmIn[0].c;
      atmIn := atmIn[1..];
      if c == OK { status := Success; }
      if c == NOFUNDS { status := InsufficientFunds; }
      if c == ACCUNKN {
        status := UnknownAccount;
      } else if c != OK && c != NOFUNDS && c != ACCUNKN {
        status := UnknownCommand;
      }
    }

    /** atm_run. */
    method Run(trace: seq<Cmd>) returns (status: Status)
      requires bankOut == []
      modifies this
      ensures (bankOut, atmIn, status) == RunResult(trace, id, old(atmIn))
    {
      hide Commands, From, Stop, Good;
      ghost var replies := atmIn;
      var p := 0;
      SentBefore(trace, id, 0);
      while p < |trace|
        invariant 0 <= p <= Stop(trace, id) <= |trace|
        invariant bankOut == From(trace[..p], id) && |bankOut| <= |replies| && atmIn == replies[|bankOut|..]
        invariant forall i :: 0 <= i < |bankOut| ==> GoesOn(replies[i])
      {
        SentBefore(trace, id, p);
        status := Transact(trace[p]);
        if Continues(status) {
          p := p + 1;
        } else {
          EndsRun(trace, id, p, replies);
          return status;
        }
      }
      SentBefore(trace, id, p);
      GoodIs(replies, |bankOut|);
      status := Success;
    }
  }
}
