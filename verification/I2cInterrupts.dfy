/**
 The interrupt-driven transactions: the call only queues command words; the interrupt
 callback moves the bytes of a reception, whenever some have come, and closes the
 transaction.
 */
module I2cInterrupts {
  import opened I2c

  class Transaction {
    const master: Master
    const buffer: array<Byte>
    var at: nat          // where the next byte goes
    var size: nat        // how many bytes are still missing
    ghost var base: nat  // how many bytes had left the FIFO before this transaction
    ghost var total: nat // how many bytes were asked for

    /** While receiving, what is stored is what came first, and exactly the rest is missing. */
    ghost predicate Valid()
      reads this, master, buffer
    {
      && master.Valid()
      && (master.irqBusy == Receiving ==>
            0 < size && at + size == total <= buffer.Length && master.Receiving(buffer, base, at, total))
    }

    constructor (master: Master, buffer: array<Byte>)
      requires master.Valid() && master.irqBusy == Idle
      ensures Valid() && this.master == master && this.buffer == buffer
    {
      this.master, this.buffer := master, buffer;
      at, size, base, total := 0, 0, 0, 0;
    }

    /** Queue the read commands of a reception without reading anything. */
    method QueueReads(n: nat, stop: bool, ghost words: seq<Command>) returns (status: Status)
      requires master.Quiet() && 0 < n <= buffer.Length
      requires words == seq(n, i => Command(0, false, stop && i == n - 1))
      modifies master`rxFifo, master`arrived, master`outstanding, master`looks,
               master`reading, master`addressLeft, master`commands
      ensures status in {Success, TimedOut, Nack, ArbLost} && old(master.arrived) <= master.arrived
      ensures master.Receiving(buffer, master.taken, 0, n)
      ensures old(master.commands) <= master.commands <= old(master.commands) + words
      ensures status == Success ==> master.commands == old(master.commands) + words
      ensures old(master.looks) <= master.looks && Justified(status, master.looks, |old(master.looks)|, 0)
    {
      hide Justified, Looked;
      NothingSeen(master.looks);
      var written := 0;
      status := Success;
      while written < n - 1 && status == Success
        invariant 0 <= written < n && status in {Success, TimedOut, Nack, ArbLost}
        invariant old(master.arrived) <= master.arrived
        invariant master.Receiving(buffer, master.taken, 0, written)
        invariant old(master.commands) <= master.commands <= old(master.commands) + words
        invariant status == Success ==> master.commands == old(master.commands) + words[..written]
        invariant old(master.looks) <= master.looks && Justified(status, master.looks, |old(master.looks)|, 0)
      {
        ghost var before, seen := master.commands, master.looks;
        status := master.CmdWrite(0, false, false);
        After(seen, |old(master.looks)|, master.looks, status, 0);
        assert before + [words[written]] == old(master.commands) + words[..written + 1];
        written := written + 1;
      }
      if status == Success {
        ghost var before, seen := master.commands, master.looks;
        status := master.CmdWrite(0, false, stop);
        After(seen, |old(master.looks)|, master.looks, status, 0);
        assert before + [words[written]] == old(master.commands) + words;
      }
    }

    /** Send the address, then the read commands. */
    method Request(n: nat, restart: bool, stop: bool) returns (status: Status)
      requires master.Quiet() && 0 < n <= buffer.Length
      requires master.en ==> master.addressLeft == master.AddressWords() || (restart && !master.reading)
      modifies master`rxFifo, master`arrived, master`outstanding, master`looks,
               master`reading, master`addressLeft, master`commands
      ensures status in {Success, TimedOut, Nack, ArbLost} && master.Valid() && old(master.arrived) <= master.arrived
      ensures status == Success ==> master.Receiving(buffer, master.taken, 0, n)
      ensures old(master.looks) <= master.looks && master.BorneOut(status, |old(master.looks)|, 0)
      ensures status == Success ==> master.Carried(
        old(master.commands), master.commands, true, restart, ReceiveWords(master.target, n, restart, stop)[1..])
      ensures status == Success && master.mode.SevenBit? ==>
        master.commands == old(master.commands) + ReceiveWords(master.target, n, restart, stop)
    {
      hide Justified, Master.Carried;
      ghost var words := ReceiveWords(master.target, n, restart, stop);
      status := master.SendAddress(true, restart);
      master.QuietAgain();
      ghost var seen := master.looks;
      assert [words[0]] + words[1..] == words;
      if status == Success {
        master.CarriesOn(old(master.commands), master.commands, true, restart, words[1..]);
        status := QueueReads(n, stop, words[1..]);
        if master.mode.SevenBit? {
          After(seen, |old(master.looks)|, master.looks, status, 0);
        } else if status != Success {
          Onward(status, seen, |old(master.looks)|, master.looks, 0);
        }
        assert old(master.commands) + [words[0]] + words[1..] == old(master.commands) + words;
      }
    }

    /** Nothing of a transaction has changed. */
    twostate predicate Unchanged()
      reads this, master
    {
      && master.en == old(master.en) && master.irqBusy == old(master.irqBusy)
      && master.commands == old(master.commands)
      && at == old(at) && size == old(size) && base == old(base) && total == old(total)
    }

    /** The calls that are turned away: nothing to do, no callback in place, or a transaction under way. */
    predicate TurnedAway(n: nat, restart: bool)
      reads master
    {
      n == 0 || !master.registered || (master.en && !restart)
    }

    function Refusal(n: nat): Status
      reads master
    {
      if n == 0 then Success else if !master.registered then BadArg else Busy
    }

    /** The beginning both directions share. */
    method Open(n: nat, restart: bool) returns (status: Status)
      requires Valid()
      modifies master`en, master`reading, master`addressLeft, master`irqBusy
      ensures Valid()
      ensures old(TurnedAway(n, restart)) ==> status == old(Refusal(n))
      ensures !old(TurnedAway(n, restart)) ==> status == Success
      ensures old(TurnedAway(n, restart)) || restart ==>
        && Unchanged()
        && master.reading == old(master.reading) && master.addressLeft == old(master.addressLeft)
      ensures !old(TurnedAway(n, restart)) && !restart ==>
        && master.Quiet() && master.en && master.irqBusy == Idle
        && !master.reading && master.addressLeft == master.AddressWords()
    {
      if n == 0 {
        return Success;
      }
      if !master.registered {
        return BadArg;
      }
      status := Success;
      if !restart {
        status := master.Enable();
      }
    }

    /** The end of a call that failed: wait for idle, then disable. */
    method GiveUp(n: nat, ghost from: nat, before: Status) returns (status: Status)
      requires master.Valid() && before != Success
      requires from <= |master.looks| && Justified(before, master.looks, from, 0)
      modifies master`en, master`rxFifo, master`arrived, master`outstanding, master`looks, master`taken
      ensures master.Quiet() && !master.en && old(master.arrived) <= master.arrived
      ensures status in {before, TimedOut} && old(master.looks) <= master.looks
      ensures Justified(status, master.looks, from, PollsFor(n))
      ensures Polled(master.looks, |old(master.looks)|, PollsFor(n))
    {
      hide Justified, Polled;
      ghost var first := master.looks;
      status := master.WaitIdle(10000 * n % POW32, before);
      StillNot(before, first, from, master.looks, status, PollsFor(n));
      master.Disable();
    }

    /** A failure stays justified over a wait for idle, and the wait running out justifies itself. */
    lemma StillNot(before: Status, first: seq<Look>, from: nat, log: seq<Look>, status: Status, polls: nat)
      requires from <= |first| && first <= log && Polled(log, |first|, polls) && polls > 0
      requires Justified(before, first, from, 0) && before != Success
      requires status == if log[|log| - 1] == CoreBusy(true) then TimedOut else before
      ensures Justified(status, log, from, polls)
    {
      if log[|log| - 1] == CoreBusy(true) {
        assert InARow(log, |first|, polls, CoreBusy(true));
      } else {
        Longer(before, first, from, log);
      }
    }

    /** master_receive_using_interrupts: queue the read commands and leave the bytes to the callback. */
    method Start(n: nat, restart: bool, stop: bool) returns (status: Status)
      requires Valid() && n <= buffer.Length && n < POW32
      requires restart ==> master.Quiet() && master.irqBusy != Receiving && (master.en ==> !master.reading)
      modifies this`at, this`size, this`base, this`total, master`irqBusy,
               master`en, master`rxFifo, master`arrived, master`outstanding, master`looks, master`taken,
               master`reading, master`addressLeft, master`commands
      ensures Valid() && old(master.arrived) <= master.arrived
      ensures old(TurnedAway(n, restart)) ==> Unchanged() && status == old(Refusal(n))
      ensures !old(TurnedAway(n, restart)) ==> status in {Success, TimedOut, Nack, ArbLost}
      ensures old(master.looks) <= master.looks
      ensures !old(TurnedAway(n, restart)) ==> master.BorneOut(status, |old(master.looks)|, PollsFor(n))
      ensures !old(TurnedAway(n, restart)) && status != Success ==> master.Quiet() && !master.en
      ensures !old(TurnedAway(n, restart)) ==> (master.irqBusy == Receiving <==> status == Success && stop)
      ensures !old(TurnedAway(n, restart)) && master.irqBusy == Receiving ==>
        base == |old(master.arrived)| && total == size == n && at == 0
      ensures !old(TurnedAway(n, restart)) && status == Success ==> master.Carried(
        old(master.commands), master.commands, true, restart, ReceiveWords(master.target, n, restart, stop)[1..])
      ensures !old(TurnedAway(n, restart)) && status == Success && master.mode.SevenBit? ==>
        master.commands == old(master.commands) + ReceiveWords(master.target, n, restart, stop)
    {
      hide ReceiveWords, Justified, Polled, Master.Carried;
      ghost var from := |master.looks|;
      status := Open(n, restart);
      if n == 0 || status != Success {
        return;
      }
      status := Request(n, restart, stop);
      if status != Success {
        status := GiveUp(n, from, status);
        return;
      }
      if master.mode.SevenBit? {
        NotTimedOut(status, master.looks, from, 0, PollsFor(n));
      }
      if stop {
        at, size := 0, n;
        base, total := master.taken, n;
        master.irqBusy := Phase.Receiving;
      }
    }

    /** master_transmit_using_interrupts: queue everything; the callback only closes the transaction. */
    method Send(data: seq<Byte>, restart: bool, stop: bool) returns (status: Status)
      requires Valid() && |data| < POW32
      requires restart ==> master.Quiet() && master.irqBusy != Receiving && (master.en ==> !master.reading)
      modifies master`irqBusy, master`en, master`rxFifo, master`arrived, master`outstanding, master`looks, master`taken,
               master`reading, master`addressLeft, master`commands
      ensures Valid() && old(master.arrived) <= master.arrived
      ensures old(TurnedAway(|data|, restart)) ==> Unchanged() && status == old(Refusal(|data|))
      ensures !old(TurnedAway(|data|, restart)) ==> status in {Success, TimedOut, Nack, ArbLost}
      ensures old(master.looks) <= master.looks
      ensures !old(TurnedAway(|data|, restart)) ==> master.BorneOut(status, |old(master.looks)|, PollsFor(|data|))
      ensures !old(TurnedAway(|data|, restart)) && status != Success ==> master.Quiet() && !master.en
      ensures !old(TurnedAway(|data|, restart)) && status == Success && stop ==> master.irqBusy == Sending
      ensures !old(TurnedAway(|data|, restart)) && status == Success ==> master.Carried(
        old(master.commands), master.commands, false, restart, TransmitWords(master.target, data, restart, stop)[1..])
      ensures !old(TurnedAway(|data|, restart)) && status == Success && master.mode.SevenBit? ==>
        master.commands == old(master.commands) + TransmitWords(master.target, data, restart, stop)
    {
      hide TransmitWords, Justified, Polled, Master.Carried;
      ghost var from := |master.looks|;
      status := Open(|data|, restart);
      if data == [] || status != Success {
        return;
      }
      status := master.SendAll(data, restart, stop);
      if status != Success {
        status := GiveUp(|data|, from, status);
        return;
      }
      if master.mode.SevenBit? {
        NotTimedOut(status, master.looks, from, 0, PollsFor(|data|));
      }
      if stop {
        master.irqBusy := Sending;
      }
    }

    /**
     The interrupt callback.  While receiving it stores what has come, never more than is
     missing; with nothing missing any more, or outside a reception, it closes the
     transaction.
     */
    method Callback()
      requires Valid()
      modifies this`at, this`size, master`irqBusy,
               master`en, master`rxFifo, master`arrived, master`outstanding, master`looks, master`taken, buffer
      ensures Valid() && old(master.arrived) <= master.arrived
      ensures master.irqBusy == Receiving ==>
        old(master.irqBusy) == Receiving && master.en == old(master.en) && at >= old(at)
      // What is still missing has not come yet.
      ensures master.irqBusy == Receiving ==> |master.arrived| == base + at < base + total
      ensures master.irqBusy != Receiving ==> master.irqBusy == Idle && !master.en && master.Quiet()
      // The transaction is closed after a wait for idle.
      ensures old(master.looks) <= master.looks
      ensures master.irqBusy != Receiving ==> Waited(master.looks, |old(master.looks)|, 100000)
      ensures old(master.irqBusy) == Receiving && master.irqBusy == Idle ==>
        && total <= buffer.Length && base + total <= |master.arrived|
        && buffer[..total] == master.arrived[base..base + total]
      ensures old(master.irqBusy) == Receiving ==> total <= buffer.Length && buffer[total..] == old(buffer[total..])
    {
      hide Polled;
      if master.irqBusy == Receiving {
        StoreArrived();
        if size > 0 {
          return;
        }
      }
      ghost var came := master.arrived;
      CloseTransaction();
      if master.irqBusy == Receiving {
        StillCame(came, master.arrived, base, base + total);
      }
      master.irqBusy := Idle;
    }

    /** Store what has come, as much as is missing at most. */
    method StoreArrived()
      requires Valid() && master.irqBusy == Receiving
      modifies this`at, this`size,
               master`rxFifo, master`arrived, master`outstanding, master`looks, master`taken, buffer
      ensures at + size == total <= buffer.Length && at >= old(at)
      ensures master.Receiving(buffer, base, at, total) && old(master.arrived) <= master.arrived
      ensures size > 0 ==> master.rxFifo == []
      ensures old(master.looks) <= master.looks && buffer[total..] == old(buffer[total..])
    {
      var n := master.RxReadAvailable(buffer, at, size, base, total);
      assert buffer[total..] == buffer[at + n..][size - n..];
      at, size := at + n, size - n;
    }

    /** Wait for idle, then disable. */
    method CloseTransaction()
      requires master.Valid()
      modifies master`en, master`rxFifo, master`arrived, master`outstanding, master`looks, master`taken
      ensures master.Quiet() && !master.en && old(master.arrived) <= master.arrived
      ensures old(master.looks) <= master.looks && Polled(master.looks, |old(master.looks)|, 100000)
    {
      var _ := master.WaitIdle(100000, Success);
      master.Disable();
    }

    /** What has come stays come. */
    lemma StillCame(came: seq<Byte>, later: seq<Byte>, from: nat, to: nat)
      requires came <= later && from <= to <= |came|
      ensures later[from..to] == came[from..to]
    {
    }

    /** A reception of n bytes is over: the buffer holds the bytes that came from the given one on. */
    ghost predicate Complete(from: nat, n: nat)
      reads master, buffer
    {
      && !master.en && n <= buffer.Length && from + n <= |master.arrived|
      && buffer[..n] == master.arrived[from..from + n]
    }

    /** It is not: the first of them are stored, and the rest is missing. */
    ghost predicate Partial(from: nat, n: nat)
      reads this, master, buffer
    {
      base == from && total == n && at + size == n && master.Receiving(buffer, from, at, n)
    }

    /** One callback of a reception. */
    method Strike(ghost from: nat, ghost n: nat)
      requires Valid() && master.irqBusy == Receiving && Partial(from, n)
      modifies this`at, this`size, master`irqBusy,
               master`en, master`rxFifo, master`arrived, master`outstanding, master`looks, master`taken, buffer
      ensures Valid() && old(master.arrived) <= master.arrived
      ensures n <= buffer.Length && buffer[n..] == old(buffer[n..])
      ensures if master.irqBusy == Receiving then Partial(from, n) else Complete(from, n)
    {
      hide Master.Receiving;
      Callback();
    }

    /**
     A whole reception: the call, then as many callbacks as strike.  When it is over the
     buffer holds exactly the first n bytes that came since the call; until then it holds
     those that came first, and the rest is still missing.
     */
    method Reception(n: nat, strikes: nat) returns (status: Status)
      requires Valid() && !master.en && master.registered && 0 < n <= buffer.Length && n < POW32
      modifies this`at, this`size, this`base, this`total, master`irqBusy,
               master`en, master`rxFifo, master`arrived, master`outstanding, master`looks, master`taken,
               master`reading, master`addressLeft, master`commands, buffer
      ensures Valid() && old(master.arrived) <= master.arrived && buffer[n..] == old(buffer[n..])
      ensures status in {Success, TimedOut, Nack, ArbLost}
      ensures status != Success ==> !master.en
      ensures status == Success ==>
        if master.irqBusy == Receiving then Partial(|old(master.arrived)|, n) else Complete(|old(master.arrived)|, n)
    {
      ghost var from := |master.arrived|;
      status := Start(n, false, true);
      if status == Success {
        AwaitAll(strikes, from, n);
      }
    }

    method AwaitAll(strikes: nat, ghost from: nat, ghost n: nat)
      requires Valid() && n <= buffer.Length && master.irqBusy == Receiving && Partial(from, n)
      modifies this`at, this`size, master`irqBusy,
               master`en, master`rxFifo, master`arrived, master`outstanding, master`looks, master`taken, buffer
      ensures Valid() && old(master.arrived) <= master.arrived && buffer[n..] == old(buffer[n..])
      ensures if master.irqBusy == Receiving then Partial(from, n) else Complete(from, n)
    {
      hide Valid, Partial, Complete;
      var left := strikes;
      while left > 0 && master.irqBusy == Receiving
        invariant Valid() && old(master.arrived) <= master.arrived && buffer[n..] == old(buffer[n..])
        invariant if master.irqBusy == Receiving then Partial(from, n) else Complete(from, n)
      {
        Strike(from, n);
        left := left - 1;
      }
    }
  }
}
