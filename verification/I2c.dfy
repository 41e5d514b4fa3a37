/**
 The polled I2C master.

 The controller is adversarial: status bits read as anything, and the receive FIFO
 fills on its own between register accesses.  Three things are relied on: while
 enabled it delivers at most one byte per read command, while disabled it delivers
 none, and disabling it empties its FIFOs.
 */
module I2c {

  const POW32: nat := 0x1_0000_0000
  const RETRIES: nat := 10000

  type Byte = x: int | 0 <= x < 256

  datatype Status = Success | TimedOut | BadArg | Nack | ArbLost | Busy

  datatype AddressMode = SevenBit | TenBit

  /** What the record shared with the interrupt callback says is going on. */
  datatype Phase = Idle | Sending | Receiving

  /** One word of the transfer command FIFO. */
  datatype Command = Command(byte: Byte, restart: bool, stop: bool)

  /** What a status register read showed: one bit, or the level of the receive FIFO. */
  datatype Look =
    | TxReady(bit: bool)
    | NackDet(bit: bool)
    | ArbLostDet(bit: bool)
    | CoreBusy(bit: bool)
    | RxWaiting(level: nat)

  /** From k on, n looks in a row showed this. */
  ghost predicate InARow(log: seq<Look>, k: nat, n: nat, look: Look) {
    k + n <= |log| && forall j :: k <= j < k + n ==> log[j] == look
  }

  ghost predicate Showed(log: seq<Look>, from: nat, look: Look) {
    exists k :: from <= k < |log| && log[k] == look
  }

  /** Since then neither a missing acknowledge nor a loss of arbitration was seen. */
  ghost predicate Clean(log: seq<Look>, from: nat) {
    !Showed(log, from, NackDet(true)) && !Showed(log, from, ArbLostDet(true))
  }

  /** How often the core is looked at before it is given up on; the count is 32 bits wide. */
  function Polls(timeout: nat): nat {
    if timeout == 0 then POW32 else timeout
  }

  /** The polls for a transaction of this size. */
  function PollsFor(size: nat): nat {
    Polls(size * 10000 % POW32)
  }

  /** No room for a command 10000 times in a row, or no byte 100000 times. */
  ghost predicate Stalled(log: seq<Look>, from: nat) {
    || (exists k :: from <= k && InARow(log, k, 10000, TxReady(false)))
    || (exists k :: from <= k && InARow(log, k, 100000, RxWaiting(0)))
  }

  /** The core off idle so many times in a row. */
  ghost predicate KeptBusy(log: seq<Look>, from: nat, polls: nat) {
    exists k :: from <= k && InARow(log, k, polls, CoreBusy(true))
  }

  /** What was seen since bears the status out; without polls the core is not waited for. */
  ghost predicate Justified(status: Status, log: seq<Look>, from: nat, polls: nat) {
    match status
    case Success => Clean(log, from)
    case Nack => Showed(log, from, NackDet(true))
    case ArbLost => Showed(log, from, ArbLostDet(true))
    case TimedOut => Stalled(log, from) || (polls > 0 && KeptBusy(log, from, polls))
    case _ => true
  }

  /** The looks a command write took: a full count of no room, or fewer, then room and the two error bits. */
  ghost predicate Looked(status: Status, log: seq<Look>, from: nat) {
    if status == TimedOut then |log| == from + 10000 && InARow(log, from, 10000, TxReady(false))
    else
      && from + 3 <= |log| < from + 10003
      && InARow(log, from, |log| - 3 - from, TxReady(false))
      && log[|log| - 3] == TxReady(true)
      && ErrorsLooked(status, log, |log| - 2)
  }

  /** The two error bits, of which a loss of arbitration takes precedence. */
  ghost predicate ErrorsLooked(status: Status, log: seq<Look>, from: nat) {
    && |log| == from + 2
    && log[from] in {NackDet(false), NackDet(true)}
    && log[from + 1] in {ArbLostDet(false), ArbLostDet(true)}
    && status ==
       if log[from + 1] == ArbLostDet(true) then ArbLost
       else if log[from] == NackDet(true) then Nack
       else Success
  }

  lemma NoRoom(log: seq<Look>, from: nat)
    requires |log| == from + 10000 && InARow(log, from, 10000, TxReady(false))
    ensures Looked(TimedOut, log, from)
  {
  }

  lemma LookedAfter(status: Status, waited: seq<Look>, from: nat, log: seq<Look>)
    requires from < |waited| <= from + 10000 && waited[|waited| - 1] == TxReady(true)
    requires InARow(waited, from, |waited| - 1 - from, TxReady(false))
    requires waited <= log && ErrorsLooked(status, log, |waited|)
    ensures Looked(status, log, from) && status in {Success, Nack, ArbLost}
  {
  }

  lemma LookedJustified(status: Status, log: seq<Look>, from: nat)
    requires Looked(status, log, from)
    ensures Justified(status, log, from, 0)
  {
    if status == Success {
      forall k | from <= k < |log|
        ensures log[k] != NackDet(true) && log[k] != ArbLostDet(true)
      {
        assert k < |log| - 3 ==> log[k] == TxReady(false);
      }
    }
  }

  /** The looks a wait for idle took: off idle each time but the last, or the full count of times. */
  ghost predicate Polled(log: seq<Look>, from: nat, polls: nat) {
    && from < |log| <= from + polls
    && InARow(log, from, |log| - from - 1, CoreBusy(true))
    && (log[|log| - 1] == CoreBusy(false) || (log[|log| - 1] == CoreBusy(true) && |log| == from + polls))
  }

  /** The log ends with a wait for idle and a look for a missing acknowledge, which decides the status. */
  ghost predicate Closing(status: Status, log: seq<Look>, from: nat, polls: nat) {
    && log != [] && log[|log| - 1] in {NackDet(true), NackDet(false)}
    && (log[|log| - 1] == NackDet(true) ==> status == Nack)
    && Waited(log[..|log| - 1], from, polls)
  }

  /** The log ends with a wait for idle that began then or later. */
  ghost predicate Waited(log: seq<Look>, from: nat, polls: nat) {
    exists k :: from <= k && Polled(log, k, polls)
  }

  lemma ClosedNow(status: Status, waited: seq<Look>, k: nat, log: seq<Look>, from: nat, polls: nat)
    requires Polled(waited, k, polls) && from <= k
    requires log == waited + [NackDet(true)] || log == waited + [NackDet(false)]
    requires log[|log| - 1] == NackDet(true) ==> status == Nack
    ensures Closing(status, log, from, polls)
  {
    assert log[..|log| - 1] == waited;
  }

  /** The looks a wait for a byte took. */
  ghost predicate Awaited(status: Status, log: seq<Look>, from: nat) {
    if status == TimedOut then |log| == from + 100000 && InARow(log, from, 100000, RxWaiting(0))
    else
      && from < |log| <= from + 100000
      && InARow(log, from, |log| - from - 1, RxWaiting(0))
      && log[|log| - 1].RxWaiting? && log[|log| - 1].level > 0
  }

  lemma AwaitedJustified(status: Status, log: seq<Look>, from: nat)
    requires Awaited(status, log, from) && status in {Success, TimedOut}
    ensures Justified(status, log, from, 0)
  {
    if status == Success {
      forall k | from <= k < |log|
        ensures log[k].RxWaiting?
      {
        assert k < |log| - 1 ==> log[k] == RxWaiting(0);
      }
    }
  }

  /** After looks that showed no error, a status is justified from where they began. */
  lemma Onward(status: Status, first: seq<Look>, from: nat, log: seq<Look>, polls: nat)
    requires from <= |first| && first <= log && Justified(status, log, |first|, polls)
    requires status == Success ==> Clean(first, from)
    ensures Justified(status, log, from, polls)
  {
    if status == Success {
      forall k | from <= k < |log|
        ensures log[k] != NackDet(true) && log[k] != ArbLostDet(true)
      {
        assert k < |first| ==> log[k] == first[k];
      }
    }
  }

  lemma NothingSeen(log: seq<Look>)
    ensures Justified(Success, log, |log|, 0)
  {
  }

  /** What follows a success is justified from where that began. */
  lemma After(first: seq<Look>, from: nat, log: seq<Look>, status: Status, polls: nat)
    requires from <= |first| && first <= log
    requires Justified(Success, first, from, 0) && Justified(status, log, |first|, polls)
    ensures Justified(status, log, from, polls)
  {
    hide Clean, Showed;
    Onward(status, first, from, log, polls);
  }

  /** Only giving up depends on the polls. */
  lemma NotTimedOut(status: Status, log: seq<Look>, from: nat, polls: nat, others: nat)
    requires Justified(status, log, from, polls) && status != TimedOut
    ensures Justified(status, log, from, others)
  {
  }

  lemma Joined(first: seq<Look>, from: nat, log: seq<Look>, polls: nat, status: Status, others: nat)
    requires from <= |first| && first <= log
    requires Justified(Success, first, from, polls) && Justified(status, log, |first|, others)
    ensures Justified(status, log, from, others)
  {
    NotTimedOut(Success, first, from, polls, 0);
    After(first, from, log, status, others);
  }

  /** A transaction is ended: a wait for idle, then a look for a missing acknowledge. */
  lemma Ended(before: Status, first: seq<Look>, from: nat, waited: seq<Look>, nack: bool, status: Status, polls: nat)
    requires from <= |first| && first <= waited && Polled(waited, |first|, polls)
    requires Justified(before, first, from, 0)
    requires status ==
      if nack then Nack else if waited[|waited| - 1] == CoreBusy(true) then TimedOut else before
    ensures Justified(status, waited + [NackDet(nack)], from, polls)
  {
    hide Stalled;
    var log := waited + [NackDet(nack)];
    if nack {
      assert log[|log| - 1] == NackDet(true);
    } else if waited[|waited| - 1] == CoreBusy(true) {
      assert InARow(log, |first|, polls, CoreBusy(true));
    } else {
      Longer(before, first, from, log);
      if before == Success {
        forall k | |first| <= k < |log|
          ensures log[k] in {CoreBusy(true), CoreBusy(false), NackDet(false)}
        {
          assert k < |waited| - 1 ==> waited[k] == CoreBusy(true);
        }
        Onward(before, first, from, log, 0);
      }
    }
  }

  /** A failure stays justified. */
  lemma Longer(status: Status, first: seq<Look>, from: nat, log: seq<Look>)
    requires Justified(status, first, from, 0) && first <= log
    ensures status != Success ==> Justified(status, log, from, 0)
  {
    if k :| from <= k && InARow(first, k, 10000, TxReady(false)) {
      assert InARow(log, k, 10000, TxReady(false));
    }
    if k :| from <= k && InARow(first, k, 100000, RxWaiting(0)) {
      assert InARow(log, k, 100000, RxWaiting(0));
    }
    if k :| from <= k < |first| && first[k] == NackDet(true) {
      assert log[k] == NackDet(true);
    }
    if k :| from <= k < |first| && first[k] == ArbLostDet(true) {
      assert log[k] == ArbLostDet(true);
    }
  }

  /** The address byte: a 7-bit address, then the direction (section 3.1.10 of NXP UM10204). */
  function AddressByte(target: nat, read: bool): Byte {
    (target * 2 + if read then 1 else 0) % 256
  }

  /** What a complete transmission writes: the address, the data, a stop on the last word only. */
  function TransmitWords(target: nat, data: seq<Byte>, restart: bool, stop: bool): (words: seq<Command>)
    requires data != []
    ensures |words| == 1 + |data|
  {
    [Command(AddressByte(target, false), restart, false)]
    + seq(|data|, i requires 0 <= i < |data| => Command(data[i], false, stop && i == |data| - 1))
  }

  /** What a complete reception writes: the address, then one word per byte to read. */
  function ReceiveWords(target: nat, size: nat, restart: bool, stop: bool): (words: seq<Command>)
    requires size > 0
    ensures |words| == 1 + size
  {
    [Command(AddressByte(target, true), restart, false)]
    + seq(size, i => Command(0, false, stop && i == size - 1))
  }

  /** The address byte carries the address and the direction, and nothing is lost below 128. */
  lemma AddressDecodes(target: nat, read: bool)
    requires target < 128
    ensures AddressByte(target, read) / 2 == target && (AddressByte(target, read) % 2 == 1 <==> read)
  {
  }

  /** A transmission restarts, if at all, on its first word, and stops, if at all, on its last. */
  lemma TransmitShape(target: nat, data: seq<Byte>, restart: bool, stop: bool, i: nat)
    requires data != [] && i <= |data|
    ensures var w := TransmitWords(target, data, restart, stop)[i];
      && (w.restart <==> restart && i == 0)
      && (w.stop <==> stop && i == |data|)
      && w.byte == if i == 0 then AddressByte(target, false) else data[i - 1]
  {
  }

  /** One call: where in the log of looks it began, and what it returned. */
  datatype Attempt = Attempt(from: nat, status: Status)

  /** So does a reception, whose read commands carry no byte. */
  lemma ReceiveShape(target: nat, size: nat, restart: bool, stop: bool, i: nat)
    requires size > 0 && i <= size
    ensures var w := ReceiveWords(target, size, restart, stop)[i];
      && (w.restart <==> restart && i == 0)
      && (w.stop <==> stop && i == size)
      && w.byte == if i == 0 then AddressByte(target, true) else 0
  {
  }

  ghost predicate EndsWith(log: seq<Command>, words: seq<Command>) {
    |words| <= |log| && log[|log| - |words|..] == words
  }

  class Master {
    // the controller
    var en: bool
    var rxFifo: seq<Byte>
    var reading: bool         // the address last sent asked to read
    var addressLeft: nat      // address words the controller still expects
    var outstanding: nat      // read commands it has yet to answer
    ghost var commands: seq<Command>  // every command word ever written
    ghost var arrived: seq<Byte>      // every byte that ever entered the receive FIFO
    ghost var taken: nat              // how many of those have left it
    // the driver's device record
    var mode: AddressMode
    var target: nat
    const registered: bool    // the optional interrupt callback is in place
    var irqBusy: Phase
    ghost var looks: seq<Look>        // everything status registers ever showed
    ghost var sent: seq<Attempt>      // the calls of master_transmit
    ghost var fetched: seq<Attempt>   // the calls of master_receive
    ghost var rounds: seq<Attempt>    // the rounds of master_tx_rx

    ghost predicate Valid()
      reads this
    {
      && taken <= |arrived| && rxFifo == arrived[taken..]
      && (!en ==> rxFifo == [] && outstanding == 0)
    }

    /** Nothing received and nothing still to come. */
    ghost predicate Quiet()
      reads this
    {
      Valid() && rxFifo == [] && outstanding == 0
    }

    constructor (mode: AddressMode, target: nat, registered: bool)
      ensures Quiet() && !en && commands == [] && arrived == []
      ensures this.mode == mode && this.target == target && this.registered == registered && irqBusy == Idle
    {
      en, rxFifo, reading, addressLeft, outstanding := false, [], false, 0, 0;
      commands, arrived, taken := [], [], 0;
      this.mode, this.target, this.registered := mode, target, registered;
      irqBusy, looks, sent, fetched, rounds := Idle, [], [], [], [];
    }

    /** The bytes that have arrived or may yet. */
    ghost function Due(): nat
      reads this`arrived, this`outstanding
    {
      |arrived| + outstanding
    }

    function AddressWords(): nat
      reads this
    {
      if mode.TenBit? then 2 else 1
    }

    // ---------- the controller ----------

    /** What may happen between two register accesses: answers to read commands arrive. */
    method BusActs()
      requires Valid()
      modifies this`rxFifo, this`arrived, this`outstanding
      ensures Valid() && old(arrived) <= arrived
      ensures Due() == old(Due())
    {
      var answers :| 0 <= answers <= outstanding;
      for i := 0 to answers
        invariant Valid() && old(arrived) <= arrived
        invariant Due() == old(Due())
        invariant outstanding == old(outstanding) - i
      {
        var b: Byte :| 0 <= b < 256;
        rxFifo, arrived := rxFifo + [b], arrived + [b];
        outstanding := outstanding - 1;
      }
    }

    /** Read STATUS: is the core off idle? */
    method IsBusy() returns (bit: bool)
      requires Valid()
      modifies this`rxFifo, this`arrived, this`outstanding, this`looks
      ensures Valid() && old(arrived) <= arrived
      ensures Due() == old(Due()) && looks == old(looks) + [CoreBusy(bit)]
    {
      BusActs();
      bit := *;
      looks := looks + [CoreBusy(bit)];
    }

    /** Read the interrupt status: is there room for a command? */
    method IsTxReady() returns (bit: bool)
      requires Valid()
      modifies this`rxFifo, this`arrived, this`outstanding, this`looks
      ensures Valid() && old(arrived) <= arrived
      ensures Due() == old(Due()) && looks == old(looks) + [TxReady(bit)]
    {
      BusActs();
      bit := *;
      looks := looks + [TxReady(bit)];
    }

    /** Was an acknowledge missing? */
    method IsNackDet() returns (bit: bool)
      requires Valid()
      modifies this`rxFifo, this`arrived, this`outstanding, this`looks
      ensures Valid() && old(arrived) <= arrived
      ensures Due() == old(Due()) && looks == old(looks) + [NackDet(bit)]
    {
      BusActs();
      bit := *;
      looks := looks + [NackDet(bit)];
    }

    /** Was arbitration lost? */
    method IsArbLostDet() returns (bit: bool)
      requires Valid()
      modifies this`rxFifo, this`arrived, this`outstanding, this`looks
      ensures Valid() && old(arrived) <= arrived
      ensures Due() == old(Due()) && looks == old(looks) + [ArbLostDet(bit)]
    {
      BusActs();
      bit := *;
      looks := looks + [ArbLostDet(bit)];
    }

    /** Read the receive FIFO level. */
    method RxLevel() returns (level: nat)
      requires Valid()
      modifies this`rxFifo, this`arrived, this`outstanding, this`looks
      ensures Valid() && old(arrived) <= arrived
      ensures Due() == old(Due())
      ensures level == |rxFifo| && looks == old(looks) + [RxWaiting(level)]
    {
      BusActs();
      level := |rxFifo|;
      looks := looks + [RxWaiting(level)];
    }

    /** Pop the receive FIFO; an empty one reads as anything. */
    method RxData() returns (b: Byte)
      requires Valid()
      modifies this`rxFifo, this`arrived, this`outstanding, this`taken
      ensures Valid() && old(arrived) <= arrived
      ensures Due() == old(Due())
      ensures old(rxFifo) != [] ==> taken == old(taken) + 1 && b == arrived[old(taken)]
      ensures taken == old(taken) || (taken == old(taken) + 1 && old(taken) < |arrived|)
    {
      BusActs();
      if rxFifo == [] {
        b :| 0 <= b < 256;
      } else {
        b, rxFifo := rxFifo[0], rxFifo[1..];
        taken := taken + 1;
      }
    }

    /** What writing a command word does to an enabled controller, and to a disabled one. */
    twostate predicate Sent(c: Command)
      reads this
    {
      && commands == old(commands) + [c]
      && if !en then Due() == old(Due())
         else if c.restart || old(addressLeft) == AddressWords() then
           Due() == old(Due()) && reading == (c.byte % 2 == 1) && addressLeft == AddressWords() - 1
         else
           && Due() == old(Due()) + (if old(addressLeft) == 0 && old(reading) then 1 else 0)
           && reading == old(reading)
           && addressLeft == if c.stop then AddressWords() else if old(addressLeft) > 0 then old(addressLeft) - 1 else 0
    }

    twostate predicate NothingSent()
      reads this
    {
      commands == old(commands) && Due() == old(Due()) && reading == old(reading) && addressLeft == old(addressLeft)
    }

    /**
     Write a command word.  An enabled controller takes the first words after a start for
     the address; after an address that asked to read, each word is one read command.
     */
    method WriteCommand(c: Command)
      requires Valid()
      modifies this`rxFifo, this`arrived, this`outstanding, this`reading, this`addressLeft, this`commands
      ensures Valid() && old(arrived) <= arrived && Sent(c)
    {
      BusActs();
      commands := commands + [c];
      if en {
        if c.restart || addressLeft == AddressWords() {
          reading, addressLeft := c.byte % 2 == 1, AddressWords() - 1;
        } else {
          if addressLeft > 0 {
            addressLeft := addressLeft - 1;
          } else if reading {
            outstanding := outstanding + 1;
          }
          if c.stop {
            addressLeft := AddressWords();
          }
        }
      }
    }

    // ---------- the driver ----------

    /** Enable the controller for a new transaction, unless it already is. */
    method Enable() returns (status: Status)
      requires Valid()
      modifies this`en, this`reading, this`addressLeft, this`irqBusy
      ensures Valid() && en
      ensures old(en) ==> status == Busy && reading == old(reading) && addressLeft == old(addressLeft)
      ensures !old(en) ==> status == Success && !reading && addressLeft == AddressWords()
      ensures irqBusy == if !old(en) && registered then Idle else old(irqBusy)
    {
      if en {
        return Busy;
      }
      if registered {
        irqBusy := Idle;
      }
      en, reading, addressLeft := true, false, AddressWords();
      status := Success;
    }

    method Disable()
      requires Valid()
      modifies this`en, this`rxFifo, this`outstanding, this`taken
      ensures Quiet() && !en
    {
      en, rxFifo, outstanding := false, [], 0;
      taken := |arrived|;
    }

    /** If no acknowledge was detected, the status becomes Nack. */
    method CheckNack(before: Status) returns (status: Status)
      requires Valid()
      modifies this`rxFifo, this`arrived, this`outstanding, this`looks
      ensures Valid() && old(arrived) <= arrived && Due() == old(Due())
      ensures looks == old(looks) + [NackDet(true)] || looks == old(looks) + [NackDet(false)]
      ensures status == if looks[|looks| - 1] == NackDet(true) then Nack else before
    {
      var bit := IsNackDet();
      status := if bit then Nack else before;
    }

    /** If arbitration was lost, the status becomes ArbLost. */
    method CheckArbLost(before: Status) returns (status: Status)
      requires Valid()
      modifies this`rxFifo, this`arrived, this`outstanding, this`looks
      ensures Valid() && old(arrived) <= arrived && Due() == old(Due())
      ensures looks == old(looks) + [ArbLostDet(true)] || looks == old(looks) + [ArbLostDet(false)]
      ensures status == if looks[|looks| - 1] == ArbLostDet(true) then ArbLost else before
    {
      var bit := IsArbLostDet();
      status := if bit then ArbLost else before;
    }

    /** Look for room for a command until there is some, 10000 times at most. */
    method AwaitRoom() returns (ready: bool)
      requires Valid()
      modifies this`rxFifo, this`arrived, this`outstanding, this`looks
      ensures Valid() && old(arrived) <= arrived && Due() == old(Due()) && old(looks) <= looks
      ensures !ready ==> |looks| == |old(looks)| + 10000 && InARow(looks, |old(looks)|, 10000, TxReady(false))
      ensures ready ==>
        && |old(looks)| < |looks| <= |old(looks)| + 10000 && looks[|looks| - 1] == TxReady(true)
        && InARow(looks, |old(looks)|, |looks| - 1 - |old(looks)|, TxReady(false))
    {
      ghost var from := |looks|;
      var timeout := 10000;
      ready := IsTxReady();
      while !ready
        invariant Valid() && old(arrived) <= arrived && Due() == old(Due())
        invariant 0 < timeout <= 10000 && old(looks) <= looks && |looks| == from + 10001 - timeout
        invariant InARow(looks, from, |looks| - 1 - from, TxReady(false)) && looks[|looks| - 1] == TxReady(ready)
        decreases timeout
      {
        timeout := timeout - 1;
        if timeout == 0 {
          return;
        }
        ready := IsTxReady();
      }
    }

    /** When there is room, write a command word, then look for errors. */
    method CmdWrite(byte: Byte, restart: bool, stop: bool) returns (status: Status)
      requires Valid()
      modifies this`rxFifo, this`arrived, this`outstanding, this`looks, this`reading, this`addressLeft, this`commands
      ensures Valid() && old(arrived) <= arrived
      ensures status in {Success, TimedOut, Nack, ArbLost}
      ensures if status == TimedOut then NothingSent() else Sent(Command(byte, restart, stop))
      ensures old(looks) <= looks && Looked(status, looks, |old(looks)|)
      ensures Justified(status, looks, |old(looks)|, 0)
    {
      hide Justified, Looked, ErrorsLooked;
      ghost var from := |looks|;
      var ready := AwaitRoom();
      if !ready {
        status := TimedOut;
        NoRoom(looks, from);
      } else {
        WriteCommand(Command(byte, restart, stop));
        ghost var waited := looks;
        status := CheckErrors();
        LookedAfter(status, waited, from, looks);
      }
      LookedJustified(status, looks, from);
    }

    /** After a command word: was an acknowledge missing, or arbitration lost? */
    method CheckErrors() returns (status: Status)
      requires Valid()
      modifies this`rxFifo, this`arrived, this`outstanding, this`looks
      ensures Valid() && old(arrived) <= arrived && Due() == old(Due())
      ensures old(looks) <= looks && ErrorsLooked(status, looks, |old(looks)|)
    {
      status := CheckNack(Success);
      status := CheckArbLost(status);
    }

    /** The first byte of a 10-bit address: its pattern, two address bits and the direction. */
    function TenBitByte(read: bool): Byte
      reads this`target
    {
      0xF0 + target / 256 % 8 * 2 + if read then 1 else 0
    }

    /** The two bytes carry the address and the direction, the first after its pattern. */
    lemma TenBitDecodes(read: bool)
      requires target < 1024
      ensures var first, second := TenBitByte(read), target % 256;
        first / 8 == 0x1E && (first % 2 == 1 <==> read) && first / 2 % 4 * 256 + second == target
    {
    }

    /** The words of a 10-bit address that were written, each of which may be missing. */
    function TenBitWords(read: bool, restart: bool, first: bool, second: bool): seq<Command>
      reads this`target
    {
      (if first then [Command(TenBitByte(read), restart, false)] else [])
      + if second then [Command(target % 256, false, false)] else []
    }

    /** The words of an address that was sent, in either mode; the first of a 10-bit one may be missing. */
    function AddressSent(read: bool, restart: bool, first: bool): seq<Command>
      reads this`mode, this`target
    {
      if mode.SevenBit? then [Command(AddressByte(target, read), restart, false)]
      else TenBitWords(read, restart, first, true)
    }

    /** Since `before` the address has been written, and behind it exactly these words. */
    ghost predicate Carried(before: seq<Command>, log: seq<Command>, read: bool, restart: bool, words: seq<Command>)
      reads this`mode, this`target
    {
      exists first {:trigger AddressSent(read, restart, first)} ::
        log == before + AddressSent(read, restart, first) + words
    }

    lemma CarriesOn(before: seq<Command>, middle: seq<Command>, read: bool, restart: bool, words: seq<Command>)
      requires Carried(before, middle, read, restart, [])
      ensures Carried(before, middle + words, read, restart, words)
    {
      var first {:trigger AddressSent(read, restart, first)} :|
        middle == before + AddressSent(read, restart, first) + [];
      assert middle + words == before + AddressSent(read, restart, first) + words;
    }

    /** The log ends with the address and these words. */
    ghost predicate EndsCarried(log: seq<Command>, read: bool, restart: bool, words: seq<Command>)
      reads this`mode, this`target
    {
      exists before :: Carried(before, log, read, restart, words)
    }

    /** The status is what was seen since says; of a 10-bit address only the second word's looks count. */
    ghost predicate BorneOut(status: Status, from: nat, polls: nat)
      reads this`looks, this`mode
    {
      (status == Success && mode.TenBit?) || Justified(status, looks, from, polls)
    }

    /** Send the address.  In 10-bit mode the first byte's status is overwritten by the second's. */
    method SendAddress(read: bool, restart: bool) returns (status: Status)
      requires Valid() && (en ==> addressLeft == AddressWords() || (restart && !reading))
      modifies this`rxFifo, this`arrived, this`outstanding, this`looks, this`reading, this`addressLeft, this`commands
      ensures Valid() && old(arrived) <= arrived && Due() == old(Due())
      ensures status in {Success, TimedOut, Nack, ArbLost}
      ensures old(commands) <= commands
      ensures old(looks) <= looks && BorneOut(status, |old(looks)|, 0)
      ensures mode.SevenBit? ==> (
        if status == TimedOut then NothingSent() else Sent(Command(AddressByte(target, read), restart, false)))
      // In 10-bit mode the status is that of the second word alone: the first may be missing.
      ensures status == Success ==> Carried(old(commands), commands, read, restart, [])
      ensures mode.TenBit? ==> (exists first: bool {:trigger TenBitWords(read, restart, first, true)} ::
        commands == old(commands) + TenBitWords(read, restart, first, status != TimedOut))
    {
      hide Justified, Looked;
      ghost var first := true;
      if mode.TenBit? {
        status := CmdWrite(TenBitByte(read), restart, false);
        ghost var between := looks;
        first := status != TimedOut;
        status := CmdWrite(target % 256, false, false);
        if status != Success {
          Onward(status, between, |old(looks)|, looks, 0);
        }
        assert commands == old(commands) + TenBitWords(read, restart, first, status != TimedOut);
        ghost var _ := TenBitWords(read, restart, first, true);
      } else {
        status := CmdWrite(AddressByte(target, read), restart, false);
      }
      if status == Success {
        assert commands == old(commands) + AddressSent(read, restart, first) + [];
      }
    }

    /** Poll until the core is idle, at most `timeout` times; the count is 32 bits wide. */
    method WaitIdle(timeout: nat, before: Status) returns (status: Status)
      requires Valid() && timeout < POW32
      modifies this`rxFifo, this`arrived, this`outstanding, this`looks
      ensures Valid() && old(arrived) <= arrived && Due() == old(Due())
      ensures old(looks) <= looks && Polled(looks, |old(looks)|, Polls(timeout))
      ensures status == if looks[|looks| - 1] == CoreBusy(true) then TimedOut else before
    {
      status := before;
      ghost var from := |looks|;
      var left := timeout;
      var busy := IsBusy();
      while busy
        invariant Valid() && old(arrived) <= arrived && Due() == old(Due())
        invariant 0 <= left < POW32 && old(looks) <= looks && from < |looks| <= from + Polls(timeout)
        invariant InARow(looks, from, |looks| - 1 - from, CoreBusy(true)) && looks[|looks| - 1] == CoreBusy(busy)
        invariant if |looks| == from + 1 then left == timeout else left == Polls(timeout) + from + 1 - |looks| > 0
        decreases if left == 0 then POW32 else left
      {
        left := (left - 1) % POW32;
        if left == 0 {
          return TimedOut;
        }
        busy := IsBusy();
      }
    }

    /** The end of a transaction: wait for idle, look for a missing acknowledge, disable. */
    method Finish(timeout: nat, before: Status) returns (status: Status)
      requires Valid() && timeout < POW32
      modifies this`en, this`rxFifo, this`arrived, this`outstanding, this`looks, this`taken
      ensures Quiet() && !en && old(arrived) <= arrived && |arrived| <= old(Due())
      ensures status in {before, TimedOut, Nack} && |looks| >= |old(looks)| + 2
      // The last look is for a missing acknowledge, those before it are the wait.
      ensures old(looks) <= looks && old(looks) < looks[..|looks| - 1]
      ensures Polled(looks[..|looks| - 1], |old(looks)|, Polls(timeout))
      ensures looks[|looks| - 1] in {NackDet(true), NackDet(false)}
      ensures status ==
        if looks[|looks| - 1] == NackDet(true) then Nack
        else if looks[|looks| - 2] == CoreBusy(true) then TimedOut else before
    {
      status := WaitIdle(timeout, before);
      ghost var waited := looks;
      status := CheckNack(status);
      assert looks[..|looks| - 1] == waited;
      Disable();
    }

    /** The end of a transaction that began at the given look. */
    method Close(size: nat, ghost from: nat, before: Status) returns (status: Status)
      requires Valid() && from <= |looks| && BorneOut(before, from, 0)
      modifies this`en, this`rxFifo, this`arrived, this`outstanding, this`looks, this`taken
      ensures Quiet() && !en && old(arrived) <= arrived && |arrived| <= old(Due())
      ensures status in {before, TimedOut, Nack} && old(looks) <= looks && BorneOut(status, from, PollsFor(size))
      ensures Closing(status, looks, from, PollsFor(size))
    {
      hide Polled, Justified, Closing;
      ghost var first := looks;
      status := Finish(size * 10000 % POW32, before);
      ghost var waited := looks[..|looks| - 1];
      assert looks == waited + [NackDet(looks[|looks| - 1] == NackDet(true))];
      ClosedNow(status, waited, |first|, looks, from, PollsFor(size));
      if mode.SevenBit? || before != Success {
        Ended(before, first, from, waited, looks[|looks| - 1] == NackDet(true), status, PollsFor(size));
      } else if status != Success {
        NothingSeen(first);
        Ended(before, first, |first|, waited, looks[|looks| - 1] == NackDet(true), status, PollsFor(size));
        Onward(status, first, from, looks, PollsFor(size));
      }
    }

    /** The data words of a transmission, until one fails. */
    method SendData(data: seq<Byte>, stop: bool, ghost words: seq<Command>) returns (status: Status)
      requires Valid() && data != []
      requires words == seq(|data|, i requires 0 <= i < |data| => Command(data[i], false, stop && i == |data| - 1))
      requires mode.SevenBit? ==> Quiet() && (en ==> !reading && addressLeft == 0)
      modifies this`rxFifo, this`arrived, this`outstanding, this`looks, this`reading, this`addressLeft, this`commands
      ensures Valid() && status in {Success, TimedOut, Nack, ArbLost} && old(arrived) <= arrived
      ensures old(looks) <= looks && Justified(status, looks, |old(looks)|, 0)
      ensures old(commands) <= commands <= old(commands) + words
      ensures status == Success ==> commands == old(commands) + words
      ensures mode.SevenBit? ==> Quiet() && (en ==> !reading)
    {
      hide Justified, Looked;
      status := Success;
      NothingSeen(looks);
      var pos := 0;
      while |data| - pos > 1 && status == Success
        invariant 0 <= pos < |data| && Valid() && old(arrived) <= arrived
        invariant status in {Success, TimedOut, Nack, ArbLost}
        invariant old(looks) <= looks && Justified(status, looks, |old(looks)|, 0)
        invariant old(commands) <= commands <= old(commands) + words
        invariant status == Success ==> commands == old(commands) + words[..pos]
        invariant mode.SevenBit? ==> Quiet() && (en ==> !reading && addressLeft == 0)
      {
        ghost var before, seen := commands, looks;
        status := CmdWrite(data[pos], false, false);
        After(seen, |old(looks)|, looks, status, 0);
        assert before + [words[pos]] == old(commands) + words[..pos + 1];
        pos := pos + 1;
      }
      if status == Success {
        ghost var before, seen := commands, looks;
        status := CmdWrite(data[pos], false, stop);
        After(seen, |old(looks)|, looks, status, 0);
        assert before + [words[pos]] == old(commands) + words;
      }
    }

    /** master_transmit: address, data, and, unless more is to follow, the end of the transaction. */
    method Transmit(buffer: seq<Byte>, size: nat, restart: bool, stop: bool) returns (status: Status)
      requires Quiet() && size <= |buffer| && size < POW32
      requires restart && en ==> !reading
      modifies this`en, this`rxFifo, this`arrived, this`outstanding, this`looks, this`taken,
               this`reading, this`addressLeft, this`commands, this`irqBusy, this`sent
      ensures old(looks) <= looks && sent == old(sent) + [Attempt(|old(looks)|, status)]
      ensures BorneOut(status, |old(looks)|, PollsFor(size))
      ensures size > 0 && (restart || !old(en)) && (stop || status != Success) ==>
        Closing(status, looks, |old(looks)|, PollsFor(size))
      ensures Valid() && (mode.SevenBit? ==> Quiet()) && old(commands) <= commands && old(arrived) <= arrived
      ensures size == 0 ==> status == Success && en == old(en) && commands == old(commands)
      ensures size > 0 && old(en) && !restart ==> status == Busy && en && commands == old(commands)
      ensures size > 0 && (restart || !old(en)) ==> status in {Success, TimedOut, Nack, ArbLost}
      // Bracketing: an ended or failed transaction leaves the controller disabled.
      ensures size > 0 && (restart || !old(en)) && (stop || status != Success) ==> !en
      ensures size > 0 && (restart || !old(en)) && !stop && status == Success ==> en == (old(en) || !restart)
      ensures size > 0 && status == Success ==>
        Carried(old(commands), commands, false, restart, TransmitWords(target, buffer[..size], restart, stop)[1..])
      ensures mode.SevenBit? && size > 0 ==>
        commands <= old(commands) + TransmitWords(target, buffer[..size], restart, stop)
      ensures mode.SevenBit? && size > 0 && status == Success ==>
        commands == old(commands) + TransmitWords(target, buffer[..size], restart, stop) && (en ==> !reading)
    {
      hide TransmitWords, Sent, NothingSent, Polled, Closing, Carried;
      ghost var from := |looks|;
      if size == 0 {
        sent := sent + [Attempt(from, Success)];
        return Success;
      }
      if !restart {
        status := Enable();
        if status != Success {
          sent := sent + [Attempt(from, status)];
          return;
        }
      }
      status := SendAll(buffer[..size], restart, stop);
      if stop || status != Success {
        status := Close(size, from, status);
      }
      sent := sent + [Attempt(from, status)];
    }

    /** A transmission between its brackets: the address word, then the data. */
    method SendAll(data: seq<Byte>, restart: bool, stop: bool) returns (status: Status)
      requires Quiet() && data != []
      requires en ==> addressLeft == AddressWords() || (restart && !reading)
      modifies this`rxFifo, this`arrived, this`outstanding, this`looks, this`reading, this`addressLeft, this`commands
      ensures Valid() && (mode.SevenBit? ==> Quiet()) && old(commands) <= commands && old(arrived) <= arrived
      ensures status in {Success, TimedOut, Nack, ArbLost}
      ensures old(looks) <= looks && BorneOut(status, |old(looks)|, 0)
      ensures status == Success ==>
        Carried(old(commands), commands, false, restart, TransmitWords(target, data, restart, stop)[1..])
      ensures mode.SevenBit? ==> commands <= old(commands) + TransmitWords(target, data, restart, stop)
      ensures mode.SevenBit? && status == Success ==>
        commands == old(commands) + TransmitWords(target, data, restart, stop) && (en ==> !reading)
    {
      hide Justified, Carried;
      ghost var words := TransmitWords(target, data, restart, stop);
      status := SendAddress(false, restart);
      ghost var seen := looks;
      assert [words[0]] + words[1..] == words;
      if status == Success {
        CarriesOn(old(commands), commands, false, restart, words[1..]);
        status := SendData(data, stop, words[1..]);
        if mode.SevenBit? {
          After(seen, |old(looks)|, looks, status, 0);
        } else if status != Success {
          Onward(status, seen, |old(looks)|, looks, 0);
        }
        assert old(commands) + [words[0]] + words[1..] == old(commands) + words;
      }
    }

    /** The bytes stored so far are the first ones that came, and no more than asked for can come. */
    ghost predicate Receiving(buffer: array<Byte>, base: nat, got: nat, asked: nat)
      reads this, buffer
    {
      && Valid() && got <= buffer.Length && taken == base + got && Due() <= base + asked
      && buffer[..got] == arrived[base..taken]
    }

    /** Drain the receive FIFO into the buffer from `at` on; max == 0 means without limit. */
    method RxReadAvailable(buffer: array<Byte>, at: nat, max: nat, ghost base: nat, ghost asked: nat) returns (n: nat)
      requires Receiving(buffer, base, at, asked) && asked <= buffer.Length
      modifies this`rxFifo, this`arrived, this`outstanding, this`looks, this`taken, buffer
      ensures Receiving(buffer, base, at + n, asked) && old(arrived) <= arrived && Due() == old(Due())
      ensures buffer[at + n..] == old(buffer[at + n..])
      // Everything that has come has been stored, or as much as was asked for.
      ensures if rxFifo == [] then max != 0 ==> n <= max else max != 0 && n == max
      ensures !en ==> n == 0
      ensures old(looks) <= looks && Justified(Success, looks, |old(looks)|, 0)
    {
      hide Receiving, Valid, Justified;
      n := 0;
      var level := LevelWhile(buffer, base, at, asked);
      while level > 0
        invariant Receiving(buffer, base, at + n, asked) && old(arrived) <= arrived && Due() == old(Due())
        invariant level == |rxFifo| && at + n <= buffer.Length
        invariant buffer[at + n..] == old(buffer[at + n..])
        invariant max != 0 ==> n < max || n == 0
        invariant !en ==> n == 0 && level == 0
        invariant old(looks) <= looks && Justified(Success, looks, |old(looks)|, 0)
        decreases buffer.Length - (at + n)
      {
        ghost var was := buffer[..];
        PopInto(buffer, base, at + n, asked);
        assert buffer[at + n + 1..] == was[at + n + 1..] == was[at + n..][1..];
        n := n + 1;
        if n == max && max != 0 {
          break;
        }
        ghost var seen := looks;
        level := LevelWhile(buffer, base, at + n, asked);
        After(seen, |old(looks)|, looks, Success, 0);
      }
    }

    /** Read the FIFO level in the middle of a reception. */
    method LevelWhile(buffer: array<Byte>, ghost base: nat, got: nat, ghost asked: nat) returns (level: nat)
      requires Receiving(buffer, base, got, asked)
      modifies this`rxFifo, this`arrived, this`outstanding, this`looks
      ensures Receiving(buffer, base, got, asked) && old(arrived) <= arrived && Due() == old(Due())
      ensures old(looks) <= looks && Justified(Success, looks, |old(looks)|, 0)
      ensures level == |rxFifo| && (!en ==> level == 0) && got <= buffer.Length
    {
      level := RxLevel();
    }

    /** Move one byte from a non-empty FIFO to the next place in the buffer. */
    method PopInto(buffer: array<Byte>, ghost base: nat, got: nat, ghost asked: nat)
      requires Receiving(buffer, base, got, asked) && asked <= buffer.Length && rxFifo != []
      modifies this`rxFifo, this`arrived, this`outstanding, this`taken, buffer
      ensures Receiving(buffer, base, got + 1, asked) && old(arrived) <= arrived && Due() == old(Due())
      ensures taken == old(taken) + 1 && got < buffer.Length && buffer[got + 1..] == old(buffer[got + 1..])
    {
      var b := RxData();
      buffer[got] := b;
      assert buffer[..] == old(buffer[..])[got := b];
      assert buffer[..got + 1] == old(buffer[..got]) + [b];
      assert arrived[base..taken] == arrived[base..old(taken)] + [b];
    }

    /** Wait for a byte and read it; on a timeout whatever the register shows is stored. */
    method RxRead(buffer: array<Byte>, at: nat) returns (status: Status)
      requires Valid() && at < buffer.Length
      modifies this`rxFifo, this`arrived, this`outstanding, this`looks, this`taken, buffer
      ensures Valid() && old(arrived) <= arrived && Due() == old(Due())
      ensures status in {Success, TimedOut}
      ensures old(looks) <= looks && Awaited(status, looks, |old(looks)|)
      ensures Justified(status, looks, |old(looks)|, 0)
      ensures buffer[..at] == old(buffer[..at]) && buffer[at + 1..] == old(buffer[at + 1..])
      ensures status == Success ==> en && taken == old(taken) + 1 && buffer[at] == arrived[old(taken)]
    {
      hide Justified;
      status := Success;
      ghost var from := |looks|;
      var timeout := 100000;
      var level := RxLevel();
      while level == 0
        modifies this`rxFifo, this`arrived, this`outstanding, this`looks
        invariant Valid() && old(arrived) <= arrived && Due() == old(Due()) && level == |rxFifo|
        invariant taken == old(taken)
        invariant 0 < timeout <= 100000 && old(looks) <= looks && |looks| == from + 100001 - timeout
        invariant InARow(looks, from, |looks| - 1 - from, RxWaiting(0)) && looks[|looks| - 1] == RxWaiting(level)
        decreases timeout
      {
        timeout := timeout - 1;
        if timeout == 0 {
          status := TimedOut;
          break;
        }
        level := RxLevel();
      }
      AwaitedJustified(status, looks, from);
      var b := RxData();
      buffer[at] := b;
      assert buffer[..] == old(buffer[..])[at := b];
    }

    /** One read command that is not the last, and whatever has come by then. */
    method ReadStep(buffer: array<Byte>, ghost base: nat, got: nat, ghost asked: nat)
      returns (status: Status, more: nat)
      requires Receiving(buffer, base, got, asked) && asked < buffer.Length
      modifies this`rxFifo, this`arrived, this`outstanding, this`looks, this`taken,
               this`reading, this`addressLeft, this`commands, buffer
      ensures status in {Success, TimedOut, Nack, ArbLost} && old(arrived) <= arrived
      ensures got <= more <= asked + 1 && Receiving(buffer, base, more, asked + 1)
      ensures buffer[more..] == old(buffer[more..])
      ensures commands == old(commands) + if status == TimedOut then [] else [Command(0, false, false)]
      ensures !en ==> more == got
      ensures old(looks) <= looks && Justified(status, looks, |old(looks)|, 0)
    {
      hide Justified, Looked;
      more := got;
      status := CmdWrite(0, false, false);
      if status == Success {
        ghost var seen := looks;
        var n := RxReadAvailable(buffer, got, 0, base, asked + 1);
        After(seen, |old(looks)|, looks, status, 0);
        more := got + n;
      }
    }

    /** The last read command. */
    method LastRead(ghost buffer: array<Byte>, stop: bool, ghost base: nat, ghost got: nat, ghost asked: nat)
      returns (status: Status)
      requires Receiving(buffer, base, got, asked) && asked < buffer.Length
      modifies this`rxFifo, this`arrived, this`outstanding, this`looks,
               this`reading, this`addressLeft, this`commands
      ensures status in {Success, TimedOut, Nack, ArbLost} && old(arrived) <= arrived
      ensures Receiving(buffer, base, got, asked + 1)
      ensures commands == old(commands) + if status == TimedOut then [] else [Command(0, false, stop)]
      ensures old(looks) <= looks && Justified(status, looks, |old(looks)|, 0)
    {
      hide Justified, Looked;
      status := CmdWrite(0, false, stop);
    }

    lemma AskedMore(buffer: array<Byte>, base: nat, got: nat, asked: nat, more: nat)
      requires Receiving(buffer, base, got, asked) && asked <= more
      ensures Receiving(buffer, base, got, more) && Valid()
    {
    }

    lemma NothingYet(buffer: array<Byte>)
      requires Quiet()
      ensures Receiving(buffer, taken, 0, 0)
    {
    }

    /** The read commands of a reception, draining the FIFO after each but the last. */
    method SendReads(buffer: array<Byte>, size: nat, stop: bool, ghost words: seq<Command>)
      returns (status: Status, got: nat)
      requires 0 < size <= buffer.Length && Quiet()
      requires words == seq(size, i => Command(0, false, stop && i == size - 1))
      modifies this`rxFifo, this`arrived, this`outstanding, this`looks, this`taken,
               this`reading, this`addressLeft, this`commands, buffer
      ensures status in {Success, TimedOut, Nack, ArbLost} && got <= size && old(arrived) <= arrived
      ensures Receiving(buffer, old(taken), got, size) && buffer[got..] == old(buffer[got..])
      ensures old(commands) <= commands <= old(commands) + words
      ensures status == Success ==> commands == old(commands) + words
      ensures !en ==> got == 0
      ensures old(looks) <= looks && Justified(status, looks, |old(looks)|, 0)
    {
      hide Justified, Receiving, Valid;
      NothingYet(buffer);
      NothingSeen(looks);
      status, got := Success, 0;
      var written := 0;
      while written < size - 1 && status == Success
        invariant 0 <= written < size && status in {Success, TimedOut, Nack, ArbLost} && old(arrived) <= arrived
        invariant Receiving(buffer, old(taken), got, written) && got <= written
        invariant buffer[got..] == old(buffer[got..]) && (!en ==> got == 0)
        invariant old(commands) <= commands <= old(commands) + words
        invariant status == Success ==> commands == old(commands) + words[..written]
        invariant old(looks) <= looks && Justified(status, looks, |old(looks)|, 0)
      {
        ghost var before, seen := commands, looks;
        status, got := ReadStep(buffer, old(taken), got, written);
        After(seen, |old(looks)|, looks, status, 0);
        assert before + [words[written]] == old(commands) + words[..written + 1];
        written := written + 1;
      }
      if status == Success {
        ghost var before, seen := commands, looks;
        status := LastRead(buffer, stop, old(taken), got, written);
        After(seen, |old(looks)|, looks, status, 0);
        assert before + [words[written]] == old(commands) + words;
        written := written + 1;
      }
      AskedMore(buffer, old(taken), got, written, size);
    }

    /** One byte that is still missing. */
    method ReadOne(buffer: array<Byte>, ghost base: nat, n: nat, ghost size: nat) returns (status: Status)
      requires Receiving(buffer, base, n, size) && n < size <= buffer.Length
      modifies this`rxFifo, this`arrived, this`outstanding, this`looks, this`taken, buffer
      ensures Valid() && old(arrived) <= arrived && status in {Success, TimedOut}
      ensures buffer[n + 1..] == old(buffer[n + 1..])
      ensures old(looks) <= looks && Justified(status, looks, |old(looks)|, 0)
      ensures status == Success ==> en && Receiving(buffer, base, n + 1, size)
    {
      hide Justified, Awaited;
      status := RxRead(buffer, n);
      if status == Success {
        assert buffer[..n + 1] == buffer[..n] + [buffer[n]];
        assert arrived[base..taken] == arrived[base..old(taken)] + [arrived[old(taken)]];
      }
    }

    /** The bytes still missing once all read commands are out. */
    method ReadRest(buffer: array<Byte>, got: nat, size: nat, ghost base: nat) returns (status: Status)
      requires got <= size <= buffer.Length && size > 0
      requires Receiving(buffer, base, got, size) && (!en ==> got == 0)
      modifies this`rxFifo, this`arrived, this`outstanding, this`looks, this`taken, buffer
      ensures Valid() && old(arrived) <= arrived && status in {Success, TimedOut}
      ensures buffer[size..] == old(buffer[size..])
      ensures old(looks) <= looks && Justified(status, looks, |old(looks)|, 0)
      ensures status == Success ==> en && Receiving(buffer, base, size, size)
    {
      hide Justified, Receiving;
      NothingSeen(looks);
      AskedMore(buffer, base, got, size, size);
      status := Success;
      var n := got;
      while n < size && status == Success
        invariant got <= n <= size && Valid() && old(arrived) <= arrived && status in {Success, TimedOut}
        invariant buffer[size..] == old(buffer[size..])
        invariant status == Success ==> Receiving(buffer, base, n, size) && (!en ==> n == 0)
        invariant old(looks) <= looks && Justified(status, looks, |old(looks)|, 0)
        decreases size - n
      {
        ghost var seen := looks;
        status := ReadOne(buffer, base, n, size);
        After(seen, |old(looks)|, looks, status, 0);
        assert buffer[size..] == buffer[n + 1..][size - n - 1..];
        n := n + 1;
      }
    }

    /** The read commands, then the bytes still missing. */
    method ReadAll(buffer: array<Byte>, size: nat, stop: bool, ghost words: seq<Command>) returns (status: Status)
      requires 0 < size <= buffer.Length && Quiet()
      requires words == seq(size, i => Command(0, false, stop && i == size - 1))
      modifies this`rxFifo, this`arrived, this`outstanding, this`looks, this`taken,
               this`reading, this`addressLeft, this`commands, buffer
      ensures Valid() && old(arrived) <= arrived && buffer[size..] == old(buffer[size..])
      ensures status in {Success, TimedOut, Nack, ArbLost}
      ensures old(looks) <= looks && Justified(status, looks, |old(looks)|, 0)
      ensures old(commands) <= commands <= old(commands) + words
      ensures status == Success ==> commands == old(commands) + words
      ensures status == Success ==> en && arrived == old(arrived) + buffer[..size] && rxFifo == [] && outstanding == 0
    {
      hide Justified;
      ghost var was := buffer[..];
      var got;
      status, got := SendReads(buffer, size, stop, words);
      ghost var seen := looks;
      assert buffer[size..] == was[got..][size - got..];
      if status == Success {
        status := ReadRest(buffer, got, size, |old(arrived)|);
        After(seen, |old(looks)|, looks, status, 0);
      }
    }

    /** master_receive: address, read commands, the bytes, and the end of the transaction. */
    method Receive(buffer: array<Byte>, size: nat, restart: bool, stop: bool) returns (status: Status)
      requires Quiet() && size <= buffer.Length && size < POW32
      requires restart && en ==> !reading
      modifies this`en, this`rxFifo, this`arrived, this`outstanding, this`looks, this`taken,
               this`reading, this`addressLeft, this`commands, this`irqBusy, this`fetched, buffer
      ensures old(looks) <= looks && fetched == old(fetched) + [Attempt(|old(looks)|, status)]
      ensures BorneOut(status, |old(looks)|, PollsFor(size))
      ensures size > 0 && (restart || !old(en)) && (stop || status != Success) ==>
        Closing(status, looks, |old(looks)|, PollsFor(size))
      ensures Valid() && old(arrived) <= arrived && buffer[size..] == old(buffer[size..])
      ensures size == 0 ==> status == Success && Quiet() && en == old(en) && commands == old(commands)
      ensures size > 0 && old(en) && !restart ==> status == Busy && en && commands == old(commands)
      ensures size > 0 && (restart || !old(en)) ==> status in {Success, TimedOut, Nack, ArbLost}
      // Bracketing, as for Transmit.
      ensures size > 0 && (restart || !old(en)) && (stop || status != Success) ==> !en && Quiet()
      // Conservation: success means the buffer holds exactly the bytes that came, in order.
      ensures size > 0 && status == Success ==>
        arrived == old(arrived) + buffer[..size] && rxFifo == [] && outstanding == 0 && (restart ==> old(en))
      ensures size > 0 && status == Success ==>
        Carried(old(commands), commands, true, restart, ReceiveWords(target, size, restart, stop)[1..])
      ensures mode.SevenBit? && size > 0 && status == Success ==>
        commands == old(commands) + ReceiveWords(target, size, restart, stop)
      ensures mode.SevenBit? && size > 0 ==>
        commands <= old(commands) + ReceiveWords(target, size, restart, stop)
    {
      hide ReceiveWords, Closing, Carried;
      ghost var from := |looks|;
      if size == 0 {
        fetched := fetched + [Attempt(from, Success)];
        return Success;
      }
      if !restart {
        status := Enable();
        if status != Success {
          fetched := fetched + [Attempt(from, status)];
          return;
        }
      }
      status := Transfer(buffer, size, restart, stop);
      if stop || status != Success {
        status := Close(size, from, status);
      }
      fetched := fetched + [Attempt(from, status)];
    }

    /** A reception between its brackets. */
    method Transfer(buffer: array<Byte>, size: nat, restart: bool, stop: bool) returns (status: Status)
      requires Quiet() && 0 < size <= buffer.Length
      requires en ==> addressLeft == AddressWords() || (restart && !reading)
      modifies this`rxFifo, this`arrived, this`outstanding, this`looks, this`taken,
               this`reading, this`addressLeft, this`commands, buffer
      ensures Valid() && old(arrived) <= arrived && buffer[size..] == old(buffer[size..])
      ensures status in {Success, TimedOut, Nack, ArbLost}
      ensures old(looks) <= looks && BorneOut(status, |old(looks)|, 0)
      ensures status == Success ==> en && arrived == old(arrived) + buffer[..size] && rxFifo == [] && outstanding == 0
      ensures status == Success ==>
        Carried(old(commands), commands, true, restart, ReceiveWords(target, size, restart, stop)[1..])
      ensures mode.SevenBit? && status == Success ==>
        commands == old(commands) + ReceiveWords(target, size, restart, stop)
      ensures mode.SevenBit? ==> commands <= old(commands) + ReceiveWords(target, size, restart, stop)
    {
      hide Justified, Carried;
      ghost var words := ReceiveWords(target, size, restart, stop);
      status := SendAddress(true, restart);
      QuietAgain();
      ghost var seen := looks;
      assert [words[0]] + words[1..] == words;
      if status == Success {
        CarriesOn(old(commands), commands, true, restart, words[1..]);
        status := ReadAll(buffer, size, stop, words[1..]);
        assert old(commands) + [words[0]] + words[1..] == old(commands) + words;
        if mode.SevenBit? {
          After(seen, |old(looks)|, looks, status, 0);
        } else if status != Success {
          Onward(status, seen, |old(looks)|, looks, 0);
        }
      }
    }

    /** Before the first read command nothing can have come. */
    lemma QuietAgain()
      requires Valid() && taken == Due()
      ensures Quiet()
    {
    }

    function Retried(status: Status): bool {
      status in {ArbLost, Nack, Busy}
    }

    /** A log of attempts since `before`: each one but the last called for another, and there are not too many. */
    ghost predicate Tried(before: seq<Attempt>, log: seq<Attempt>, status: Status) {
      && before < log && |log| <= |before| + 10000
      && (forall k :: |before| <= k < |log| - 1 ==> log[k].status in {ArbLost, Nack, Busy})
      && log[|log| - 1].status == status
      && (status in {ArbLost, Nack, Busy} ==> |log| == |before| + 10000)
    }

    /** master_tx: transmit with retries, from a disabled controller to a disabled one. */
    method MasterTx(buffer: seq<Byte>, size: nat) returns (status: Status)
      requires Quiet() && !en && size <= |buffer| && size < POW32
      modifies this`en, this`rxFifo, this`arrived, this`outstanding, this`looks, this`taken,
               this`reading, this`addressLeft, this`commands, this`irqBusy, this`sent
      ensures Quiet() && !en && old(commands) <= commands && status != Busy
      ensures Tried(old(sent), sent, status) && old(looks) <= looks
      ensures var last := sent[|sent| - 1].from; |old(looks)| <= last && BorneOut(status, last, PollsFor(size))
      ensures size > 0 ==> Closing(status, looks, sent[|sent| - 1].from, PollsFor(size))
      ensures status == Success && size > 0 ==>
        EndsCarried(commands, false, false, TransmitWords(target, buffer[..size], false, true)[1..])
      ensures status == Success && size > 0 && mode.SevenBit? ==>
        EndsWith(commands, TransmitWords(target, buffer[..size], false, true))
    {
      hide TransmitWords, BorneOut, Closing, Carried;
      var retry := RETRIES;
      status := TimedOut;
      while retry > 0
        invariant Quiet() && !en && old(commands) <= commands
        invariant old(looks) <= looks && old(sent) <= sent && |sent| == |old(sent)| + (RETRIES - retry)
        invariant forall k :: |old(sent)| <= k < |sent| ==> Retried(sent[k].status)
        invariant retry < RETRIES ==> sent[|sent| - 1].status == status && |old(looks)| <= sent[|sent| - 1].from
        invariant retry < RETRIES ==> BorneOut(status, sent[|sent| - 1].from, PollsFor(size))
        invariant retry < RETRIES && size > 0 ==> Closing(status, looks, sent[|sent| - 1].from, PollsFor(size))
        invariant 0 <= retry <= RETRIES && (retry < RETRIES ==> Retried(status) && status != Busy)
      {
        retry := retry - 1;
        status := Transmit(buffer, size, false, true);
        if !Retried(status) {
          break;
        }
      }
    }

    /** master_rx: receive with retries. */
    method MasterRx(buffer: array<Byte>, size: nat) returns (status: Status)
      requires Quiet() && !en && size <= buffer.Length && size < POW32
      modifies this`en, this`rxFifo, this`arrived, this`outstanding, this`looks, this`taken,
               this`reading, this`addressLeft, this`commands, this`irqBusy, this`fetched, buffer
      ensures Quiet() && !en && old(arrived) <= arrived && buffer[size..] == old(buffer[size..])
      ensures Tried(old(fetched), fetched, status) && old(looks) <= looks && status != Busy
      ensures var last := fetched[|fetched| - 1].from; |old(looks)| <= last && BorneOut(status, last, PollsFor(size))
      ensures size > 0 ==> Closing(status, looks, fetched[|fetched| - 1].from, PollsFor(size))
      ensures status == Success && size > 0 ==> size <= |arrived| && buffer[..size] == arrived[|arrived| - size..]
      ensures status == Success && size > 0 ==>
        EndsCarried(commands, true, false, ReceiveWords(target, size, false, true)[1..])
      ensures status == Success && size > 0 && mode.SevenBit? ==>
        EndsWith(commands, ReceiveWords(target, size, false, true))
    {
      hide ReceiveWords, BorneOut, Closing, Carried;
      var retry := RETRIES;
      status := TimedOut;
      while retry > 0
        invariant Quiet() && !en && old(arrived) <= arrived && buffer[size..] == old(buffer[size..])
        invariant old(looks) <= looks && old(fetched) <= fetched && |fetched| == |old(fetched)| + (RETRIES - retry)
        invariant forall k :: |old(fetched)| <= k < |fetched| ==> Retried(fetched[k].status)
        invariant retry < RETRIES ==> fetched[|fetched| - 1].status == status
        invariant retry < RETRIES ==> |old(looks)| <= fetched[|fetched| - 1].from
        invariant retry < RETRIES ==> BorneOut(status, fetched[|fetched| - 1].from, PollsFor(size))
        invariant retry < RETRIES && size > 0 ==> Closing(status, looks, fetched[|fetched| - 1].from, PollsFor(size))
        invariant 0 <= retry <= RETRIES && (retry < RETRIES ==> Retried(status) && status != Busy)
      {
        retry := retry - 1;
        status := Receive(buffer, size, false, true);
        if !Retried(status) {
          break;
        }
      }
    }

    /**
     master_tx_rx: transmit, repeated start, receive, with retries.  A transmission that
     timed out is not retried but followed by a reception on the disabled controller, so
     success with bytes to receive still means that both halves went through, in one
     attempt.  With nothing to receive it ends with the controller still enabled, or hides
     the timeout.
     */
    method MasterTxRx(txBuffer: seq<Byte>, txSize: nat, rxBuffer: array<Byte>, rxSize: nat) returns (status: Status)
      requires Quiet() && !en && mode.SevenBit?
      requires txSize <= |txBuffer| && txSize < POW32 && rxSize <= rxBuffer.Length && rxSize < POW32
      modifies this`en, this`rxFifo, this`arrived, this`outstanding, this`looks, this`taken,
               this`reading, this`addressLeft, this`commands, this`irqBusy,
               this`sent, this`fetched, this`rounds, rxBuffer
      ensures Quiet() && old(arrived) <= arrived && rxBuffer[rxSize..] == old(rxBuffer[rxSize..])
      // With nothing to receive a successful transmission leaves the controller enabled, and one that
      // timed out is reported as a success.
      ensures |sent| > |old(sent)| && old(looks) <= looks
      ensures en <==> sent[|sent| - 1].status == Success && txSize > 0 && rxSize == 0
      ensures rxSize == 0 && sent[|sent| - 1].status in {Success, TimedOut} ==> status == Success
      ensures rxSize == 0 && sent[|sent| - 1].status !in {Success, TimedOut} ==> status == sent[|sent| - 1].status
      ensures Tried(old(rounds), rounds, status) && status != Busy
      ensures |fetched| - |old(fetched)| <= |sent| - |old(sent)| == |rounds| - |old(rounds)|
      ensures var last := rounds[|rounds| - 1].from;
        |old(looks)| <= last && (rxSize > 0 ==> BorneOut(status, last, PollsFor(rxSize)))
      ensures status == Success && rxSize > 0 ==>
        txSize > 0 && rxSize <= |arrived| && rxBuffer[..rxSize] == arrived[|arrived| - rxSize..]
      ensures status == Success && rxSize > 0 ==> EndsWith(commands,
        TransmitWords(target, txBuffer[..txSize], false, false) + ReceiveWords(target, rxSize, true, true))
      ensures en ==> EndsWith(commands, TransmitWords(target, txBuffer[..txSize], false, false))
    {
      hide TransmitWords, ReceiveWords, EndsWith, BorneOut;
      var retry := RETRIES;
      status := TimedOut;
      while retry > 0
        invariant Quiet() && !en && old(arrived) <= arrived && rxBuffer[rxSize..] == old(rxBuffer[rxSize..])
        invariant old(looks) <= looks && old(rounds) <= rounds && |rounds| == |old(rounds)| + (RETRIES - retry)
        invariant forall k :: |old(rounds)| <= k < |rounds| ==> Retried(rounds[k].status)
        invariant retry < RETRIES ==> rounds[|rounds| - 1].status == status
        invariant retry < RETRIES ==> |old(looks)| <= rounds[|rounds| - 1].from
        invariant retry < RETRIES && rxSize > 0 ==> BorneOut(status, rounds[|rounds| - 1].from, PollsFor(rxSize))
        invariant |fetched| - |old(fetched)| <= |sent| - |old(sent)| == |rounds| - |old(rounds)|
        invariant 0 <= retry <= RETRIES && (retry < RETRIES ==> Retried(status) && status != Busy)
        invariant retry < RETRIES ==> |sent| > 0 && !(sent[|sent| - 1].status == Success && txSize > 0 && rxSize == 0)
        invariant retry < RETRIES && rxSize == 0 ==> status == sent[|sent| - 1].status
      {
        retry := retry - 1;
        status := TxRxOnce(txBuffer, txSize, rxBuffer, rxSize);
        if !Retried(status) {
          break;
        }
      }
    }

    /** One attempt of master_tx_rx. */
    method TxRxOnce(txBuffer: seq<Byte>, txSize: nat, rxBuffer: array<Byte>, rxSize: nat) returns (status: Status)
      requires Quiet() && !en && mode.SevenBit?
      requires txSize <= |txBuffer| && txSize < POW32 && rxSize <= rxBuffer.Length && rxSize < POW32
      modifies this`en, this`rxFifo, this`arrived, this`outstanding, this`looks, this`taken,
               this`reading, this`addressLeft, this`commands, this`irqBusy,
               this`sent, this`fetched, this`rounds, rxBuffer
      ensures Quiet() && old(arrived) <= arrived && rxBuffer[rxSize..] == old(rxBuffer[rxSize..])
      ensures status in {Success, TimedOut, Nack, ArbLost}
      // With nothing to receive a successful transmission leaves the controller enabled, and one that
      // timed out is reported as a success.
      ensures |sent| > |old(sent)| && old(looks) <= looks
      ensures en <==> sent[|sent| - 1].status == Success && txSize > 0 && rxSize == 0
      ensures rxSize == 0 && sent[|sent| - 1].status in {Success, TimedOut} ==> status == Success
      ensures rxSize == 0 && sent[|sent| - 1].status !in {Success, TimedOut} ==> status == sent[|sent| - 1].status
      ensures |sent| == |old(sent)| + 1 && |old(fetched)| <= |fetched| <= |old(fetched)| + 1
      ensures rounds == old(rounds) + [Attempt(|old(looks)|, status)]
      ensures rxSize > 0 ==> BorneOut(status, |old(looks)|, PollsFor(rxSize))
      ensures status == Success && rxSize > 0 ==>
        txSize > 0 && rxSize <= |arrived| && rxBuffer[..rxSize] == arrived[|arrived| - rxSize..]
      ensures status == Success && rxSize > 0 ==> EndsWith(commands,
        TransmitWords(target, txBuffer[..txSize], false, false) + ReceiveWords(target, rxSize, true, true))
      ensures en ==> EndsWith(commands, TransmitWords(target, txBuffer[..txSize], false, false))
    {
      hide TransmitWords, ReceiveWords, EndsWith, Justified;
      status := Transmit(txBuffer, txSize, false, false);
      ghost var between, first := looks, status;
      if Retried(status) {
        NotTimedOut(status, looks, |old(looks)|, PollsFor(txSize), PollsFor(rxSize));
        rounds := rounds + [Attempt(|old(looks)|, status)];
        return;
      }
      status := Receive(rxBuffer, rxSize, true, true);
      if rxSize > 0 {
        if first == Success {
          Joined(between, |old(looks)|, looks, PollsFor(txSize), status, PollsFor(rxSize));
        } else {
          Onward(status, between, |old(looks)|, looks, PollsFor(rxSize));
        }
      }
      rounds := rounds + [Attempt(|old(looks)|, status)];
      if txSize > 0 && rxSize > 0 && status == Success {
        BothEnd(old(commands), TransmitWords(target, txBuffer[..txSize], false, false),
                ReceiveWords(target, rxSize, true, true));
      }
      if en {
        Ends(old(commands), TransmitWords(target, txBuffer[..txSize], false, false));
      }
    }

    lemma Ends(log: seq<Command>, words: seq<Command>)
      ensures EndsWith(log + words, words)
    {
    }

    lemma BothEnd(log: seq<Command>, a: seq<Command>, b: seq<Command>)
      ensures EndsWith(log + a + b, a + b)
    {
    }
  }
}
