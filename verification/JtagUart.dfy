/**
 The interrupt-driven JTAG UART driver.

 The hardware (class Device) acts between any two register accesses; interrupts
 (method Interrupts) strike between any two accesses the foreground makes to
 shared state.  Every contract therefore holds for all interleavings.
 */
module JtagUart {
  import opened Ring

  const INT_MAX: nat := 0x7FFF_FFFF
  const DEFAULT_TIMEOUT: nat := 10

  /** The CONTROL register, field by field. */
  datatype Control = Control(re: bool, we: bool, ri: bool, wi: bool, ac: bool, wspace: nat)

  /** The DATA register: a byte, whether it is one, and how many wait behind it. */
  datatype Data = Data(rvalid: bool, value: Byte, ravail: nat)

  /** Some interrupt is signalled. */
  predicate Pending(c: Control) {
    c.ri || c.wi
  }

  /** The two interrupt-enable bits, as the driver's irq_enable word holds them. */
  datatype Enables = Enables(re: bool, we: bool)

  /**
   The UART block.  Its host end is free: before every register access the host
   may send bytes, collect bytes and touch the activity flag.
   */
  class Device {
    const depth: nat
    var re: bool
    var we: bool
    var ac: bool
    var rxFifo: seq<Byte>
    var txFifo: seq<Byte>
    ghost var fromHost: seq<Byte>  // all bytes the host ever sent
    ghost var popped: seq<Byte>    // all bytes ever read from DATA
    ghost var stored: seq<Byte>    // all bytes ever written to DATA and kept
    ghost var toHost: seq<Byte>    // all bytes the host ever collected
    ghost var controls: seq<Control>  // all values CONTROL was ever read with
    ghost var datas: seq<Data>        // all values DATA was ever read with

    ghost predicate Valid()
      reads this
    {
      && fromHost == popped + rxFifo
      && stored == toHost + txFifo
      && |txFifo| <= depth
    }

    constructor (depth: nat)
      ensures Valid() && this.depth == depth
      ensures !re && !we
      ensures popped == [] && stored == [] && fromHost == [] && toHost == []
    {
      this.depth := depth;
      re, we, ac := false, false, false;
      rxFifo, txFifo := [], [];
      fromHost, popped, stored, toHost, controls, datas := [], [], [], [], [], [];
    }

    /** What the host may do at any moment. */
    method HostActs()
      requires Valid()
      modifies this
      ensures Valid()
      ensures re == old(re) && we == old(we) && popped == old(popped) && stored == old(stored)
      ensures controls == old(controls) && datas == old(datas)
      ensures old(rxFifo) <= rxFifo && |txFifo| <= |old(txFifo)|
      ensures old(fromHost) <= fromHost && old(toHost) <= toHost
    {
      var sent: seq<Byte> := *;
      rxFifo, fromHost := rxFifo + sent, fromHost + sent;
      var collected :| 0 <= collected <= |txFifo|;
      toHost := toHost + txFifo[..collected];
      txFifo := txFifo[collected..];
      ac := *;
    }

    /**
     Read CONTROL.  A read interrupt is only ever signalled with its enable bit
     set and a byte waiting, a write interrupt only with its enable bit set and
     room in the transmit FIFO.
     */
    method ReadControl() returns (c: Control)
      requires Valid()
      modifies this
      ensures Valid()
      ensures re == old(re) && we == old(we) && popped == old(popped) && stored == old(stored)
      ensures old(fromHost) <= fromHost && old(toHost) <= toHost
      ensures controls == old(controls) + [c] && datas == old(datas)
      ensures c.re == re && c.we == we && c.wspace == depth - |txFifo|
      ensures c.ri ==> re && rxFifo != []
      ensures c.wi ==> we && c.wspace > 0
    {
      HostActs();
      var ri, wi: bool := *, *;
      c := Control(re, we, ri && re && rxFifo != [], wi && we && |txFifo| < depth, ac, depth - |txFifo|);
      controls := controls + [c];
    }

    /** Write CONTROL: the enable bits are replaced, a one clears the activity flag. */
    method WriteControl(e: Enables, clearActivity: bool)
      requires Valid()
      modifies this
      ensures Valid()
      ensures re == e.re && we == e.we && popped == old(popped) && stored == old(stored)
      ensures controls == old(controls) && datas == old(datas) && (clearActivity ==> !ac)
      ensures old(rxFifo) <= rxFifo && old(fromHost) <= fromHost && old(toHost) <= toHost
      ensures |txFifo| <= |old(txFifo)|
    {
      HostActs();
      re, we := e.re, e.we;
      if clearActivity {
        ac := false;
      }
    }

    /** Read DATA: pops one byte if there is one; an invalid read reports nothing available. */
    method ReadData() returns (d: Data)
      requires Valid()
      modifies this
      ensures Valid()
      ensures re == old(re) && we == old(we) && stored == old(stored) && controls == old(controls)
      ensures old(fromHost) <= fromHost && old(toHost) <= toHost
      ensures |txFifo| <= |old(txFifo)|
      ensures old(rxFifo) != [] ==> d.rvalid
      ensures d.rvalid ==> popped == old(popped) + [d.value]
      ensures !d.rvalid ==> popped == old(popped) && d.ravail == 0
      ensures datas == old(datas) + [d]
    {
      HostActs();
      if rxFifo == [] {
        var junk: Byte := *;
        d := Data(false, junk, 0);
      } else {
        d := Data(true, rxFifo[0], |rxFifo| - 1);
        popped, rxFifo := popped + [rxFifo[0]], rxFifo[1..];
      }
      datas := datas + [d];
    }

    /** Write DATA: the byte is kept if the transmit FIFO has room and lost otherwise. */
    method WriteData(b: Byte)
      requires Valid()
      modifies this
      ensures Valid()
      ensures re == old(re) && we == old(we) && popped == old(popped)
      ensures controls == old(controls) && datas == old(datas)
      ensures old(rxFifo) <= rxFifo && old(fromHost) <= fromHost && old(toHost) <= toHost
      ensures |txFifo| <= |old(txFifo)| + 1
      ensures |old(txFifo)| < depth ==> stored == old(stored) + [b]
    {
      HostActs();
      if |txFifo| < depth {
        txFifo, stored := txFifo + [b], stored + [b];
      }
    }
  }

  /**
   How a driver call ended.  Blocked is not a return: it is a call that is still
   spinning when the observed part of the run stops, with n bytes moved so far.
   */
  datatype Outcome =
    | Count(n: nat)
    | WouldBlock
    | IoError
    | Blocked(n: nat)

  /** How one wait of write() ended; Spinning, like Blocked, is not a return. */
  datatype Wait = Again | HostGone | Spinning

  function Moved(o: Outcome): nat {
    match o
    case Count(n) => n
    case Blocked(n) => n
    case _ => 0
  }

  /** The host counted as gone at some check of the log from the given one on. */
  ghost predicate GoneSince(log: seq<nat>, check: int, timeout: nat) {
    exists k :: 0 <= k < |log| && check <= k && log[k] >= timeout
  }

  lemma GoneStays(log: seq<nat>, check: int, timeout: nat, longer: seq<nat>, earlier: int)
    requires GoneSince(log, check, timeout) && log <= longer && earlier <= check
    ensures GoneSince(longer, earlier, timeout)
  {
    var k :| 0 <= k < |log| && check <= k && log[k] >= timeout;
    assert longer[k] >= timeout;
  }

  class Driver {
    const dev: Device
    const rxBuf: array<Byte>
    const txBuf: array<Byte>
    var timeout: nat
    var irqEnable: Enables
    var hostInactive: nat
    var rxIn: nat
    var rxOut: nat
    var txIn: nat
    var txOut: nat

    ghost var received: seq<Byte>   // all bytes the interrupt routine put in rxBuf
    ghost var delivered: seq<Byte>  // all bytes a reader took out of rxBuf
    ghost var accepted: seq<Byte>   // all bytes a writer put in txBuf
    ghost var hostLog: seq<nat>     // all values hostInactive ever had, one for each check
    ghost var checks: seq<nat>      // the values of it that the foreground looked at
    ghost var readDebt: bool        // a reader freed slots and has yet to set RE
    ghost var kickDebt: bool        // a writer queued bytes and has yet to set WE

    /** The receive stream, intact. */
    ghost predicate RxRing()
      reads this`rxIn, this`rxOut, this`received, this`delivered, rxBuf
    {
      IsRing(rxBuf[..], rxIn, rxOut, received, delivered)
    }

    /** The transmit stream, intact. */
    ghost predicate TxRing()
      reads this`txIn, this`txOut, this`accepted, dev`stored, txBuf
    {
      IsRing(txBuf[..], txIn, txOut, accepted, dev.stored)
    }

    ghost predicate Streams()
      reads this, dev, rxBuf, txBuf
    {
      && dev.Valid()
      && rxBuf != txBuf
      && RxRing() && TxRing()
      && received == dev.popped
    }

    /**
     The wake-up protocol: the enable word mirrors the device; receive interrupts
     are off only while the ring is full or a reader still owes the re-enable;
     queued bytes imply transmit interrupts, or a writer that still owes the kick.
     */
    ghost predicate WakeUps()
      reads this, dev
    {
      && dev.re == irqEnable.re && dev.we == irqEnable.we
      && (!dev.re ==> |received| - |delivered| == BUF_LEN - 1 || readDebt)
      && (|dev.stored| < |accepted| ==> dev.we || kickDebt)
    }

    ghost predicate HostWatched()
      reads this`hostInactive, this`hostLog
    {
      hostLog != [] && hostLog[|hostLog| - 1] == hostInactive
    }

    ghost predicate Valid()
      reads this, dev, rxBuf, txBuf
    {
      Streams() && WakeUps() && HostWatched()
    }

    /** What interrupts may not touch: the foreground's own indices, bytes and debts. */
    twostate predicate ForegroundKept()
      reads this, txBuf
    {
      && timeout == old(timeout)
      && rxOut == old(rxOut) && delivered == old(delivered)
      && txIn == old(txIn) && accepted == old(accepted)
      && txBuf[..] == old(txBuf[..])
      && readDebt == old(readDebt) && kickDebt == old(kickDebt)
    }

    /** What interrupts may only extend. */
    twostate predicate StreamsGrow()
      reads this, dev
    {
      && old(received) <= received
      && old(hostLog) <= hostLog
      && old(dev.stored) <= dev.stored
      && old(dev.controls) <= dev.controls
      && old(dev.fromHost) <= dev.fromHost
      && old(dev.toHost) <= dev.toHost
    }

    /** Initialisation: receive interrupts on, both rings empty, one alarm requested. */
    constructor (dev: Device, alarmStarted: bool)
      requires dev.Valid() && dev.popped == [] && dev.stored == []
      modifies dev
      ensures Valid() && this.dev == dev && fresh(rxBuf) && fresh(txBuf)
      ensures rxBuf.Length == txBuf.Length == 2048
      ensures irqEnable == Enables(true, false) && hostInactive == 0
      ensures timeout == if alarmStarted then 10 else 0x7FFF_FFFF
      ensures received == [] && delivered == [] && accepted == [] && dev.stored == []
      ensures !readDebt && !kickDebt
    {
      this.dev := dev;
      rxBuf := new Byte[BUF_LEN](_ => 0);
      txBuf := new Byte[BUF_LEN](_ => 0);
      rxIn, rxOut, txIn, txOut := 0, 0, 0, 0;
      received, delivered, accepted := [], [], [];
      readDebt, kickDebt := false, false;
      irqEnable := Enables(true, false);
      hostInactive, hostLog, checks := 0, [0], [];
      timeout := if alarmStarted then DEFAULT_TIMEOUT else INT_MAX;
      new;
      dev.WriteControl(irqEnable, false);
    }

    /** Bounds the passes of the interrupt routine: slots, queued bytes and set enables left. */
    ghost function Work(): int
      reads this, dev
    {
      (BUF_LEN - 1 - (|received| - |delivered|)) + (|accepted| - |dev.stored|)
      + (if irqEnable.re then 1 else 0) + (if irqEnable.we then 1 else 0)
    }

    /** The receive indices decide empty and full. */
    lemma RxEmptyAndFull()
      requires RxRing()
      ensures rxIn == rxOut <==> received == delivered
      ensures (rxIn + 1) % BUF_LEN == rxOut <==> |received| - |delivered| == BUF_LEN - 1
      ensures rxOut == |delivered| % BUF_LEN
      ensures |delivered| <= |received| < |delivered| + BUF_LEN
    {
      EmptyAndFull(rxBuf[..], rxIn, rxOut, received, delivered);
    }

    /** The transmit indices decide empty. */
    lemma TxEmpty()
      requires TxRing()
      ensures txIn == txOut <==> accepted == dev.stored
      ensures txIn == txOut <==> |accepted| == |dev.stored|
      ensures |dev.stored| <= |accepted| < |dev.stored| + BUF_LEN
      ensures txOut < BUF_LEN
    {
      EmptyAndFull(txBuf[..], txIn, txOut, accepted, dev.stored);
    }

    /** Move the oldest queued byte to the device. */
    method SendByte()
      requires Streams() && accepted != dev.stored && |dev.txFifo| < dev.depth
      modifies this`txOut, dev
      ensures Streams() && StreamsGrow() && |dev.stored| == |old(dev.stored)| + 1
      ensures dev.re == old(dev.re) && dev.we == old(dev.we)
      ensures |dev.txFifo| <= |old(dev.txFifo)| + 1
    {
      hide RxRing;
      Take(txBuf[..], txIn, txOut, accepted, dev.stored, 1);
      dev.WriteData(txBuf[txOut]);
      assert dev.stored == accepted[..|old(dev.stored)| + 1];
      txOut := (txOut + 1) % BUF_LEN;
    }

    /** Put one byte read from the device into the receive ring. */
    method StoreByte(b: Byte)
      requires RxRing() && |received| - |delivered| < BUF_LEN - 1
      modifies this`rxIn, this`received, rxBuf
      ensures RxRing() && received == old(received) + [b]
    {
      Publish(rxBuf[..], rxIn, rxOut, received, delivered, rxBuf[..][rxIn := b], [b]);
      rxBuf[rxIn] := b;
      assert rxBuf[..] == old(rxBuf[..])[rxIn := b];
      rxIn := (rxIn + 1) % BUF_LEN;
      received := received + [b];
    }

    /**
     The inner receive loop: move device bytes into the ring until either runs out.
     `more` is what the last byte read said about the bytes behind it.
     */
    method Unload() returns (more: bool)
      requires Valid() && dev.re && dev.rxFifo != []
      modifies this`rxIn, this`received, dev, rxBuf
      ensures Valid() && ForegroundKept() && StreamsGrow() && dev.re
      ensures dev.stored == old(dev.stored) && |dev.txFifo| <= |old(dev.txFifo)|
      // It ends only on a full ring or on a read that found nothing.
      ensures old(dev.datas) <= dev.datas
      ensures |received| - |delivered| == BUF_LEN - 1
        || (dev.datas != old(dev.datas) && !dev.datas[|dev.datas| - 1].rvalid)
      ensures more == (dev.datas == old(dev.datas) || dev.datas[|dev.datas| - 1].ravail > 0)
      ensures more ==> |received| - |delivered| == BUF_LEN - 1
      ensures received == old(received) ==> more
    {
      hide RxRing, TxRing;
      more := true;
      while true
        invariant Valid() && ForegroundKept() && StreamsGrow() && dev.re
        invariant dev.stored == old(dev.stored) && |dev.txFifo| <= |old(dev.txFifo)|
        invariant received == old(received) ==> more && dev.rxFifo != []
        invariant old(dev.datas) <= dev.datas
        invariant more == (dev.datas == old(dev.datas) || dev.datas[|dev.datas| - 1].ravail > 0)
        decreases BUF_LEN - (|received| - |delivered|)
      {
        RxEmptyAndFull();
        var next := (rxIn + 1) % BUF_LEN;
        if next == rxOut {
          break;
        }
        var data := dev.ReadData();
        more := data.ravail > 0;
        if !data.rvalid {
          break;
        }
        StoreByte(data.value);
      }
    }

    /** The receive half of the interrupt routine. */
    method IrqReceive()
      requires Valid() && dev.re && dev.rxFifo != []
      modifies this`rxIn, this`received, this`irqEnable, dev, rxBuf
      ensures Valid() && ForegroundKept() && StreamsGrow()
      ensures dev.stored == old(dev.stored) && irqEnable.we == old(irqEnable.we)
      ensures |dev.txFifo| <= |old(dev.txFifo)|
      // The enable goes off exactly on a full ring with more to come, as far as the last read said.
      ensures dev.re || |received| - |delivered| == BUF_LEN - 1
      ensures old(dev.datas) <= dev.datas
      ensures dev.re == (dev.datas != old(dev.datas) && dev.datas[|dev.datas| - 1].ravail == 0)
      ensures Work() < old(Work())
    {
      hide RxRing, TxRing;
      var more := Unload();
      if more {
        irqEnable := irqEnable.(re := false);
        dev.WriteControl(irqEnable, false);
        var _ := dev.ReadControl();
      }
    }

    /** The transmit half of the interrupt routine; `space` is the room CONTROL reported. */
    method IrqTransmit(space: nat)
      requires Valid() && dev.we && 0 < space <= dev.depth - |dev.txFifo|
      modifies this`txOut, this`irqEnable, dev
      ensures Valid() && ForegroundKept() && StreamsGrow()
      ensures received == old(received) && irqEnable.re == old(irqEnable.re)
      ensures Work() < old(Work())
      // As much as there is room for is sent, and the interrupt stays on unless that empties the ring too early.
      ensures var queued := |accepted| - |old(dev.stored)|;
        |dev.stored| - |old(dev.stored)| == (if space < queued then space else queued) && dev.we == (space <= queued)
    {
      hide RxRing, TxRing;
      var left := space;
      TxEmpty();
      while left > 0 && txOut != txIn
        invariant Streams() && WakeUps() && dev.we
        invariant ForegroundKept() && StreamsGrow()
        invariant received == old(received) && irqEnable == old(irqEnable)
        invariant left <= space && left <= dev.depth - |dev.txFifo|
        invariant |dev.stored| == |old(dev.stored)| + (space - left) <= |accepted|
        invariant txOut == txIn <==> accepted == dev.stored
      {
        SendByte();
        left := left - 1;
        TxEmpty();
      }
      if left > 0 {
        irqEnable := irqEnable.(we := false);
        dev.WriteControl(irqEnable, false);
        var _ := dev.ReadControl();
      }
    }

    /** The read of CONTROL that opens each pass; the streams only grow, and work is left to bound the passes. */
    method ReadControl() returns (c: Control)
      requires Valid()
      modifies dev
      ensures Valid() && StreamsGrow() && dev.controls == old(dev.controls) + [c]
      ensures c.ri ==> dev.re && dev.rxFifo != []
      ensures c.wi ==> dev.we && 0 < c.wspace <= dev.depth - |dev.txFifo|
      ensures 0 <= Work() == old(Work())
    {
      hide RxRing, TxRing;
      RxEmptyAndFull();
      TxEmpty();
      c := dev.ReadControl();
    }

    /** Both halves of the interrupt routine, for the interrupts that one read of CONTROL showed. */
    method Serve(control: Control)
      requires Valid() && Pending(control)
      requires control.ri ==> dev.re && dev.rxFifo != []
      requires control.wi ==> dev.we && 0 < control.wspace <= dev.depth - |dev.txFifo|
      modifies this`rxIn, this`received, this`txOut, this`irqEnable, dev, rxBuf
      ensures Valid() && ForegroundKept() && StreamsGrow()
      ensures Work() < old(Work())
    {
      hide RxRing, TxRing, Streams, HostWatched, Work;
      if control.ri {
        IrqReceive();
      }
      if control.wi {
        IrqTransmit(control.wspace);
      }
    }

    /** The interrupt routine.  It always ends, whatever the host does meanwhile. */
    method Irq()
      requires Valid()
      modifies this`rxIn, this`received, this`txOut, this`irqEnable, dev, rxBuf
      ensures Valid() && ForegroundKept() && StreamsGrow()
      // It ends only on a read of CONTROL that shows no interrupt, and if the first one showed any it
      // has moved bytes, or turned receiving off on a full ring, or transmitting off on an empty one.
      ensures |dev.controls| > |old(dev.controls)| && !Pending(dev.controls[|dev.controls| - 1])
      ensures Pending(dev.controls[|old(dev.controls)|]) ==> Work() < old(Work())
    {
      hide RxRing, TxRing, HostWatched, Work;
      ghost var first := |dev.controls|;
      while true
        invariant Valid() && ForegroundKept() && StreamsGrow()
        invariant Work() <= old(Work())
        invariant |dev.controls| > first ==> Pending(dev.controls[first]) && Work() < old(Work())
        decreases Work()
      {
        var control := ReadControl();
        if !control.ri && !control.wi {
          break;
        }
        Serve(control);
      }
    }

    /** The once-a-second host check, run from the timer interrupt. */
    method Timeout()
      requires Valid()
      modifies this`hostInactive, this`hostLog, dev
      ensures Valid() && ForegroundKept() && StreamsGrow()
      ensures received == old(received) && dev.stored == old(dev.stored)
      ensures hostLog == old(hostLog) + [hostInactive]
      ensures |dev.controls| == |old(dev.controls)| + 1
      ensures var active := dev.controls[|old(dev.controls)|].ac;
        && (active ==> hostInactive == 0 && !dev.ac)
        && (!active && old(hostInactive) < 0x7FFF_FFFD ==> hostInactive == old(hostInactive) + 1)
        && (!active && old(hostInactive) >= 0x7FFF_FFFD ==> hostInactive == old(hostInactive))
    {
      var control := dev.ReadControl();
      if control.ac {
        dev.WriteControl(irqEnable, true);
        hostInactive := 0;
      } else if hostInactive < INT_MAX - 2 {
        hostInactive := hostInactive + 1;
      }
      hostLog := hostLog + [hostInactive];
    }

    /** Any number of interrupts, of either kind, between two foreground accesses. */
    method Interrupts()
      requires Valid()
      modifies this`rxIn, this`received, this`txOut, this`irqEnable, this`hostInactive, this`hostLog, dev, rxBuf
      ensures Valid() && ForegroundKept() && StreamsGrow()
    {
      var strikes: nat := *;
      while strikes > 0
        invariant Valid() && ForegroundKept() && StreamsGrow()
      {
        if * {
          Irq();
        } else {
          Timeout();
        }
        strikes := strikes - 1;
      }
    }

    /** Copy a run of the caller's bytes into free slots, with interrupts at every byte. */
    method CopyIn(start: nat, bytes: seq<Byte>)
      requires Valid() && start == txIn
      requires txIn + |bytes| <= BUF_LEN && |accepted| + |bytes| < |dev.stored| + BUF_LEN
      modifies this`rxIn, this`received, this`txOut, this`irqEnable, this`hostInactive, this`hostLog, dev, rxBuf, txBuf
      ensures Valid() && StreamsGrow()
      ensures rxOut == old(rxOut) && delivered == old(delivered) && txIn == old(txIn)
      ensures forall k :: 0 <= k < |bytes| ==> txBuf[start + k] == bytes[k]
    {
      var j := 0;
      while j < |bytes|
        invariant 0 <= j <= |bytes|
        invariant Valid() && StreamsGrow()
        invariant rxOut == old(rxOut) && delivered == old(delivered) && txIn == old(txIn)
        invariant forall k :: 0 <= k < j ==> txBuf[start + k] == bytes[k]
      {
        ghost var stored := txBuf[start..start + j];
        Interrupts();
        assert forall k :: 0 <= k < j ==> txBuf[start + k] == stored[k];
        PokeFree(j, bytes[j]);
        j := j + 1;
      }
    }

    /** Storing into a slot past the write index disturbs no queued byte. */
    method PokeFree(j: nat, b: Byte)
      requires Valid()
      requires txIn + j < BUF_LEN && |accepted| + j + 1 < |dev.stored| + BUF_LEN
      modifies txBuf
      ensures Valid() && txBuf[..] == old(txBuf[..])[txIn + j := b]
    {
      txBuf[txIn + j] := b;
      assert txBuf[..] == old(txBuf[..])[txIn + j := b];
      forall i | |dev.stored| <= i < |accepted|
        ensures txBuf[..][i % BUF_LEN] == accepted[i]
      {
        RunSlot(|accepted|, j);
        SlotsDiffer(i, |accepted| + j);
        assert old(txBuf[..])[i % BUF_LEN] == accepted[i];
      }
      assert RxRing();
    }

    /** Make a copied run visible to the interrupt routine by moving the write index. */
    method PublishRun(start: nat, bytes: seq<Byte>)
      requires Valid() && start == txIn
      requires txIn + |bytes| <= BUF_LEN && |accepted| + |bytes| < |dev.stored| + BUF_LEN
      requires forall k :: 0 <= k < |bytes| ==> txBuf[start + k] == bytes[k]
      modifies this`txIn, this`accepted, this`kickDebt
      ensures Valid() && accepted == old(accepted) + bytes && kickDebt
    {
      Publish(txBuf[..], txIn, txOut, accepted, dev.stored, txBuf[..], bytes);
      txIn := (start + |bytes|) % BUF_LEN;
      accepted := accepted + bytes;
      kickDebt := true;
    }

    /** Set an interrupt enable with interrupts disabled around the update. */
    method Enable(e: Enables)
      requires Valid() && (irqEnable.re ==> e.re) && (irqEnable.we ==> e.we)
      modifies this`irqEnable, this`readDebt, this`kickDebt, dev
      ensures Valid() && StreamsGrow() && irqEnable == e && dev.re == e.re && dev.we == e.we
      ensures dev.stored == old(dev.stored)
      ensures readDebt == (old(readDebt) && !e.re) && kickDebt == (old(kickDebt) && !e.we)
    {
      hide RxRing, TxRing;
      irqEnable := e;
      dev.WriteControl(irqEnable, false);
      readDebt, kickDebt := readDebt && !e.re, kickDebt && !e.we;
    }

    lemma PrefixGrows(start: seq<Byte>, s: seq<Byte>, from: nat, to: nat)
      requires from <= to <= |s|
      ensures start + s[..from] + s[from..to] == start + s[..to]
    {
    }

    lemma RunsJoin(start: seq<Byte>, s: seq<Byte>, from: nat, mid: nat, to: nat)
      requires from <= mid <= to <= |s|
      ensures start + s[from..mid] + s[mid..to] == start + s[from..to]
    {
    }

    /** The outer loop of write(): queue, kick, and unless told not to wait for room for the rest. */
    method Push(ptr: seq<Byte>, count: int, nonblock: bool, patience: nat) returns (pos: nat, wait: Wait)
      requires Valid() && !readDebt && !kickDebt
      requires count <= |ptr|
      modifies this`rxIn, this`received, this`txOut, this`irqEnable, this`hostInactive, this`hostLog, this`checks,
               this`txIn, this`accepted, this`readDebt, this`kickDebt, dev, rxBuf, txBuf
      ensures Valid() && StreamsGrow() && !readDebt && !kickDebt
      ensures pos <= |ptr| && accepted == old(accepted) + ptr[..pos]
      ensures if count > 0 then pos <= count else pos == 0
      ensures pos < count ==> |accepted| >= |old(dev.stored)| + BUF_LEN - 1
      ensures wait == Again ==> pos >= count || nonblock
      ensures wait == HostGone ==> pos < count && hostInactive > 0 && !nonblock
      ensures wait == Spinning ==> pos < count && !nonblock && (dev.we || accepted == dev.stored)
      ensures wait == Spinning ==> |checks| >= |old(checks)| + patience && StillAlive(|old(checks)|)
    {
      hide RxRing, TxRing, Streams, WakeUps, HostWatched;
      var left, waits := count, patience;
      ghost var start := accepted;
      pos, wait := 0, Again;
      while true
        invariant Valid() && StreamsGrow() && !readDebt && !kickDebt
        invariant 0 <= pos <= |ptr| && (count > 0 ==> pos + left == count && 0 <= left)
        invariant count <= 0 ==> pos == 0 && left == count
        invariant accepted == start + ptr[..pos] && wait == Again
        invariant old(checks) <= checks && |checks| >= |old(checks)| + patience - waits
        invariant 0 <= waits <= patience && StillAlive(|old(checks)|)
        decreases waits
      {
        ghost var from := pos;
        var out;
        ghost var seen;
        pos, left, out, seen := FillAndKick(ptr, pos, left);
        PrefixGrows(start, ptr, from, pos);
        if left <= 0 || nonblock {
          return;
        }
        waits, wait := Await(out, seen, waits);
        if wait != Again {
          return;
        }
      }
    }

    /**
     write(): queue as many bytes as fit, kick the transmit interrupt, and wait for
     room unless told not to.  `patience` bounds the observed number of waits.
     */
    method Write(ptr: seq<Byte>, count: int, nonblock: bool, patience: nat) returns (o: Outcome)
      requires Valid() && !readDebt && !kickDebt
      requires count <= |ptr|
      modifies this`rxIn, this`received, this`txOut, this`irqEnable, this`hostInactive, this`hostLog, this`checks,
               this`txIn, this`accepted, this`readDebt, this`kickDebt, dev, rxBuf, txBuf
      ensures Valid() && StreamsGrow() && !readDebt && !kickDebt
      ensures Moved(o) <= |ptr| && accepted == old(accepted) + ptr[..Moved(o)]
      ensures o.Count? ==> 0 < o.n <= count && (o.n < count ==> nonblock || hostInactive > 0)
      // It falls short of the count only after the ring has been full.
      ensures Moved(o) < count ==> |accepted| >= |old(dev.stored)| + BUF_LEN - 1
      ensures count > 0 && Moved(o) == 0 ==> |accepted| == |old(dev.stored)| + BUF_LEN - 1
      ensures o.WouldBlock? ==> nonblock
      ensures o.IoError? ==> !nonblock && (count > 0 ==> hostInactive > 0)
      // A call that is stuck has looked at the host time and again, and not found it gone.
      ensures o.Blocked? ==> !nonblock && o.n < count && (dev.we || accepted == dev.stored)
      ensures o.Blocked? ==> |checks| >= |old(checks)| + patience && StillAlive(|old(checks)|)
    {
      hide RxRing, TxRing, Streams, WakeUps, HostWatched, StreamsGrow, StillAlive;
      DeliveredIsPrefix();
      var pos, wait := Push(ptr, count, nonblock, patience);
      if wait == Spinning {
        return Blocked(pos);
      }
      if pos > 0 {
        o := Count(pos);
      } else if nonblock {
        o := WouldBlock;
      } else {
        o := IoError;
      }
    }

    /** Wait for room, then decide whether to try again. */
    method Await(out: nat, ghost seen: seq<Byte>, patience: nat) returns (waits: nat, wait: Wait)
      requires Valid() && !kickDebt && seen <= dev.stored
      requires out == |seen| % BUF_LEN && |accepted| == |seen| + BUF_LEN - 1
      modifies this`rxIn, this`received, this`txOut, this`irqEnable, this`hostInactive, this`hostLog, this`checks,
               dev, rxBuf
      ensures Valid() && ForegroundKept() && StreamsGrow() && waits <= patience
      ensures wait == Again ==> waits < patience
      ensures wait == HostGone ==> hostInactive > 0
      ensures old(checks) <= checks && |checks| >= |old(checks)| + patience - waits
      ensures wait == Spinning ==> waits == 0
      ensures wait != HostGone ==> StillAlive(|old(checks)|)
      ensures wait == Spinning ==> dev.we || accepted == dev.stored
    {
      var spinning;
      waits, spinning := WaitForRoom(out, seen, patience);
      if spinning {
        return waits, Spinning;
      }
      Interrupts();
      var inactive := LookAtHost();
      if inactive > 0 {
        return waits, HostGone;
      }
      if waits == 0 {
        return waits, Spinning;
      }
      return waits - 1, Again;
    }

    /** Read the inactivity count, as a waiting call does. */
    method LookAtHost() returns (n: nat)
      modifies this`checks
      ensures n == hostInactive && checks == old(checks) + [n]
    {
      n := hostInactive;
      checks := checks + [n];
    }

    /** If the host was looked at since, the last look did not show it gone. */
    ghost predicate StillAlive(from: nat)
      reads this`checks, this`timeout
    {
      |checks| > from ==> checks[|checks| - 1] == 0 || checks[|checks| - 1] < timeout
    }

    /** Spin until the interrupt routine frees a slot or the host is given up on. */
    method WaitForRoom(out: nat, ghost seen: seq<Byte>, patience: nat) returns (waits: nat, spinning: bool)
      requires Valid() && !kickDebt && seen <= dev.stored
      requires out == |seen| % BUF_LEN && |accepted| == |seen| + BUF_LEN - 1
      modifies this`rxIn, this`received, this`txOut, this`irqEnable, this`hostInactive, this`hostLog, this`checks,
               dev, rxBuf
      ensures Valid() && ForegroundKept() && StreamsGrow() && waits <= patience
      ensures old(checks) <= checks && |checks| >= |old(checks)| + patience - waits
      ensures spinning ==> waits == 0 && StillAlive(|old(checks)|)
      // No lost kick: a writer that spins has a full ring and the transmit interrupt on.
      ensures spinning ==> |accepted| - |dev.stored| == BUF_LEN - 1 && dev.we
    {
      hide RxRing, TxRing, HostWatched, GoneSince;
      waits := patience;
      while true
        invariant Valid() && ForegroundKept() && StreamsGrow() && waits <= patience
        invariant old(checks) <= checks && |checks| == |old(checks)| + patience - waits
        invariant StillAlive(|old(checks)|)
        decreases waits
      {
        Interrupts();
        if out != txOut {
          return waits, false;
        }
        StillFull(seen);
        if waits == 0 {
          return waits, true;
        }
        Interrupts();
        var inactive := LookAtHost();
        if inactive >= timeout {
          return waits, false;
        }
        waits := waits - 1;
      }
    }

    /** While the transmit read index has not moved since the ring was full, it still is. */
    lemma StillFull(seen: seq<Byte>)
      requires TxRing() && seen <= dev.stored && |accepted| == |seen| + BUF_LEN - 1
      requires txOut == |seen| % BUF_LEN
      ensures dev.stored == seen
    {
    }

    /** Read both transmit indices, interrupts striking in between, and size the free run. */
    method SampleSpace() returns (inn: nat, out: nat, ghost seen: seq<Byte>, n: int)
      requires Valid()
      modifies this`rxIn, this`received, this`txOut, this`irqEnable, this`hostInactive, this`hostLog, dev, rxBuf
      ensures Valid() && ForegroundKept() && StreamsGrow()
      ensures inn == txIn && out == |seen| % BUF_LEN && old(dev.stored) <= seen <= dev.stored
      ensures 0 <= n && inn + n <= BUF_LEN && |accepted| + n < |dev.stored| + BUF_LEN
      ensures n == 0 <==> |accepted| == |seen| + BUF_LEN - 1
    {
      Interrupts();
      inn := txIn;
      Interrupts();
      out, seen := txOut, dev.stored;
      FreeRunFits(txBuf[..], inn, out, accepted, dev.stored);
      n := FreeRun(inn, out);
      Interrupts();
    }

    /** Copy a run in, then make it visible. */
    method Append(start: nat, bytes: seq<Byte>)
      requires Valid() && start == txIn
      requires txIn + |bytes| <= BUF_LEN && |accepted| + |bytes| < |dev.stored| + BUF_LEN
      modifies this`rxIn, this`received, this`txOut, this`irqEnable, this`hostInactive, this`hostLog,
               this`txIn, this`accepted, this`kickDebt, dev, rxBuf, txBuf
      ensures Valid() && StreamsGrow()
      ensures accepted == old(accepted) + bytes && kickDebt
    {
      CopyIn(start, bytes);
      ghost var copied := txBuf[start..start + |bytes|];
      Interrupts();
      assert forall k :: 0 <= k < |bytes| ==> txBuf[start + k] == copied[k];
      PublishRun(start, bytes);
    }

    /** Queue what fits, then turn transmit interrupts on whatever was queued. */
    method FillAndKick(ptr: seq<Byte>, from: nat, count: int)
      returns (pos: nat, left: int, out: nat, ghost seen: seq<Byte>)
      requires Valid() && !readDebt && !kickDebt
      requires from <= |ptr| && (count > 0 ==> from + count <= |ptr|)
      modifies this`rxIn, this`received, this`txOut, this`irqEnable, this`hostInactive, this`hostLog,
               this`txIn, this`accepted, this`readDebt, this`kickDebt, dev, rxBuf, txBuf
      ensures Valid() && StreamsGrow() && !readDebt && !kickDebt
      ensures from <= pos <= |ptr| && pos + left == from + count && (count > 0 ==> left >= 0)
      ensures count <= 0 ==> pos == from
      ensures accepted == old(accepted) + ptr[from..pos]
      ensures left > 0 ==> out == |seen| % BUF_LEN && |accepted| == |seen| + BUF_LEN - 1 && seen <= dev.stored
      ensures left > 0 ==> |old(dev.stored)| <= |seen|
    {
      pos, left, out, seen := Fill(ptr, from, count);
      Interrupts();
      Enable(irqEnable.(we := true));
      Interrupts();
    }

    /**
     The inner loop of write(): copy runs until nothing is left or the ring is full.
     `out` is the read index last seen and `seen` the transmitted stream at that moment.
     */
    method Fill(ptr: seq<Byte>, from: nat, count: int)
      returns (pos: nat, left: int, out: nat, ghost seen: seq<Byte>)
      requires Valid() && (count > 0 ==> from + count <= |ptr|)
      requires from <= |ptr|
      modifies this`rxIn, this`received, this`txOut, this`irqEnable, this`hostInactive, this`hostLog,
               this`txIn, this`accepted, this`kickDebt, dev, rxBuf, txBuf
      ensures Valid() && StreamsGrow()
      ensures from <= pos <= |ptr| && pos + left == from + count && (count > 0 ==> left >= 0)
      ensures count <= 0 ==> pos == from
      ensures accepted == old(accepted) + ptr[from..pos]
      ensures kickDebt ==> old(kickDebt) || pos > from
      ensures left > 0 ==> out == |seen| % BUF_LEN && |accepted| == |seen| + BUF_LEN - 1 && seen <= dev.stored
      ensures left > 0 ==> |old(dev.stored)| <= |seen|
    {
      hide RxRing, TxRing, Streams, WakeUps, HostWatched;
      ghost var start := accepted;
      pos, left, out, seen := from, count, 0, dev.stored;
      while left > 0
        invariant Valid() && StreamsGrow()
        invariant from <= pos <= |ptr| && pos + left == from + count
        invariant count > 0 ==> left >= 0
        invariant count <= 0 ==> pos == from
        invariant accepted == start + ptr[from..pos]
        invariant kickDebt ==> old(kickDebt) || pos > from
        decreases left
      {
        var inn, n;
        inn, out, seen, n := SampleSpace();
        if n == 0 {
          break;
        }
        if n > left {
          n := left;
        }
        var run := ptr[pos..pos + n];
        Append(inn, run);
        RunsJoin(start, ptr, from, pos, pos + n);
        pos, left := pos + n, left - n;
      }
    }

    /** Copy a run of unread bytes to the caller, with interrupts at every byte. */
    method CopyOut(buffer: array<Byte>, at: nat, n: nat)
      requires Valid() && |delivered| + n <= |received| && rxOut + n <= BUF_LEN
      requires at + n <= buffer.Length && buffer != rxBuf && buffer != txBuf
      modifies this`rxIn, this`received, this`txOut, this`irqEnable, this`hostInactive, this`hostLog, dev, rxBuf, buffer
      ensures Valid() && ForegroundKept() && StreamsGrow()
      ensures buffer[..at] == old(buffer[..at]) && buffer[at + n..] == old(buffer[at + n..])
      ensures buffer[at..at + n] == received[|delivered|..|delivered| + n]
    {
      hide RxRing, TxRing, Streams, WakeUps, HostWatched;
      ghost var due := received[|delivered|..|delivered| + n];
      var j := 0;
      while j < n
        invariant 0 <= j <= n
        invariant Valid() && ForegroundKept() && StreamsGrow()
        invariant received[|delivered|..|delivered| + n] == due
        invariant buffer[..at] == old(buffer[..at]) && buffer[at + n..] == old(buffer[at + n..])
        invariant forall i :: 0 <= i < j ==> buffer[at + i] == due[i]
      {
        Interrupts();
        UnreadSlot(j);
        assert due[j] == received[|delivered| + j];
        buffer[at + j] := rxBuf[rxOut + j];
        j := j + 1;
      }
    }

    lemma UnreadSlot(j: nat)
      requires Valid() && |delivered| + j < |received| && rxOut + j < BUF_LEN
      ensures rxBuf.Length == BUF_LEN && rxBuf[rxOut + j] == received[|delivered| + j]
    {
      hide TxRing, WakeUps;
      RunSlot(|delivered|, j);
      assert rxBuf[..][(|delivered| + j) % BUF_LEN] == received[|delivered| + j];
    }

    /** Give the slots of a copied run back by moving the read index. */
    method ReleaseRun(n: nat)
      requires Valid() && |delivered| + n <= |received| && rxOut + n <= BUF_LEN
      modifies this`rxOut, this`delivered, this`readDebt
      ensures Valid() && readDebt
      ensures delivered == old(delivered) + received[|old(delivered)|..|old(delivered)| + n]
    {
      hide TxRing;
      Take(rxBuf[..], rxIn, rxOut, received, delivered, n);
      rxOut := (rxOut + n) % BUF_LEN;
      assert received[..|delivered| + n] == delivered + received[|delivered|..|delivered| + n];
      delivered := received[..|delivered| + n];
      readDebt := true;
    }

    /** Copy a run out, then give its slots back. */
    method Deliver(buffer: array<Byte>, at: nat, n: nat)
      requires Valid() && |delivered| + n <= |received| && rxOut + n <= BUF_LEN
      requires at + n <= buffer.Length && buffer != rxBuf && buffer != txBuf
      modifies this`rxIn, this`received, this`txOut, this`irqEnable, this`hostInactive, this`hostLog,
               this`rxOut, this`delivered, this`readDebt, dev, rxBuf, buffer
      ensures Valid() && StreamsGrow() && readDebt
      ensures buffer[..at] == old(buffer[..at]) && buffer[at + n..] == old(buffer[at + n..])
      ensures delivered == old(delivered) + buffer[at..at + n]
    {
      hide RxRing, TxRing;
      CopyOut(buffer, at, n);
      Interrupts();
      ReleaseRun(n);
    }

    /** Read both receive indices, interrupts striking in between, and size the unread run. */
    method SampleUnread() returns (inn: nat, n: int, ghost seen: seq<Byte>)
      requires Valid()
      modifies this`rxIn, this`received, this`txOut, this`irqEnable, this`hostInactive, this`hostLog, dev, rxBuf
      ensures Valid() && ForegroundKept() && StreamsGrow()
      ensures inn == |seen| % BUF_LEN && old(received) <= seen <= received
      ensures 0 <= n && rxOut + n <= BUF_LEN && |delivered| + n <= |seen|
      ensures n == 0 <==> seen == delivered
    {
      hide TxRing;
      Interrupts();
      inn, seen := rxIn, received;
      var out := rxOut;
      FilledRunFits(rxBuf[..], inn, out, received, delivered);
      n := FilledRun(inn, out);
      Interrupts();
    }

    /** One round of the inner loop of read(): sample, and move a run to the caller. */
    method MoveRun(buffer: array<Byte>, at: nat, space: nat) returns (n: nat, inn: nat, ghost seen: seq<Byte>)
      requires Valid() && at < space <= buffer.Length && buffer != rxBuf && buffer != txBuf
      modifies this`rxIn, this`received, this`txOut, this`irqEnable, this`hostInactive, this`hostLog,
               this`rxOut, this`delivered, this`readDebt, dev, rxBuf, buffer
      ensures Valid() && StreamsGrow() && at + n <= space
      ensures delivered == old(delivered) + buffer[at..at + n]
      ensures buffer[..at + n] == old(buffer[..at]) + buffer[at..at + n] && buffer[at + n..] == old(buffer[at + n..])
      ensures n == 0 ==> inn == |seen| % BUF_LEN && seen == delivered && readDebt == old(readDebt)
      ensures n == 0 ==> old(received) <= seen
    {
      hide RxRing, TxRing, Streams, WakeUps, HostWatched;
      var run;
      inn, run, seen := SampleUnread();
      n := if run > space - at then space - at else run;
      if n > 0 {
        Deliver(buffer, at, n);
      }
    }

    /** The inner loop of read(): move runs until the caller is full or nothing is unread. */
    method Drain(buffer: array<Byte>, space: nat) returns (pos: nat, inn: nat, ghost seen: seq<Byte>)
      requires Valid() && 0 < space <= buffer.Length && buffer != rxBuf && buffer != txBuf
      modifies this`rxIn, this`received, this`txOut, this`irqEnable, this`hostInactive, this`hostLog,
               this`rxOut, this`delivered, this`readDebt, dev, rxBuf, buffer
      ensures Valid() && StreamsGrow() && pos <= space
      ensures delivered == old(delivered) + buffer[..pos] && buffer[pos..] == old(buffer[pos..])
      ensures pos == 0 ==> inn == |seen| % BUF_LEN && seen == delivered && readDebt == old(readDebt)
      // Room left over means that all that was unread at first has been moved.
      ensures pos < space ==> old(received) <= delivered
    {
      hide RxRing, TxRing, Streams, WakeUps, HostWatched;
      pos := 0;
      while true
        invariant Valid() && StreamsGrow() && pos < space
        invariant delivered == old(delivered) + buffer[..pos] && buffer[pos..] == old(buffer[pos..])
        invariant pos == 0 ==> readDebt == old(readDebt)
        decreases space - pos
      {
        ghost var rest := buffer[pos..];
        var n;
        n, inn, seen := MoveRun(buffer, pos, space);
        if n == 0 {
          break;
        }
        assert buffer[pos + n..] == rest[n..];
        pos := pos + n;
        if pos == space {
          break;
        }
      }
    }

    /** Readers get a prefix of what arrived; the transmitter sends a prefix of what was queued. */
    lemma DeliveredIsPrefix()
      requires Streams()
      ensures |delivered| <= |received| <= |delivered| + BUF_LEN - 1 && delivered == received[..|delivered|]
      ensures |dev.stored| <= |accepted| <= |dev.stored| + BUF_LEN - 1 && dev.stored == accepted[..|dev.stored|]
    {
    }

    /** End to end: nothing is lost, reordered or invented, and what is in flight is bounded. */
    lemma EndToEnd()
      requires Streams()
      ensures delivered <= dev.fromHost && |dev.fromHost| < |delivered| + 2048 + |dev.rxFifo|
      ensures dev.toHost <= accepted && |accepted| < |dev.toHost| + dev.depth + 2048
    {
    }

    lemma GoneNow(check: int)
      requires HostWatched() && hostInactive >= timeout && check < |hostLog|
      ensures GoneSince(hostLog, check, timeout)
    {
      assert hostLog[|hostLog| - 1] >= timeout;
    }

    /** Spin until the interrupt routine stores a byte or the host is given up on. */
    method WaitForData(inn: nat, ghost seen: seq<Byte>, patience: nat) returns (spinning: bool)
      requires Valid() && !readDebt && seen == delivered && inn == |seen| % BUF_LEN && seen <= received
      modifies this`rxIn, this`received, this`txOut, this`irqEnable, this`hostInactive, this`hostLog, this`checks,
               dev, rxBuf
      ensures Valid() && ForegroundKept() && StreamsGrow() 
      ensures old(checks) <= checks
      ensures spinning ==> |checks| == |old(checks)| + patience && StillAlive(|old(checks)|)
      // No deadlock: a reader that spins has the receive interrupt on.
      ensures spinning ==> received == delivered && dev.re
      ensures !spinning ==> |received| > |delivered| || GoneSince(hostLog, |old(hostLog)| - 1, timeout)
    {
      hide RxRing, TxRing, HostWatched, GoneSince;
      var waits := patience;
      while true
        invariant Valid() && ForegroundKept() && StreamsGrow() && waits <= patience
        invariant old(checks) <= checks && |checks| == |old(checks)| + patience - waits
        invariant StillAlive(|old(checks)|)
        invariant 0 <= waits
        decreases waits
      {
        Interrupts();
        RxEmptyAndFull();
        if inn != rxIn {
          return false;
        }
        if waits == 0 {
          return true;
        }
        Interrupts();
        var inactive := LookAtHost();
        if inactive >= timeout {
          GoneNow(|old(hostLog)| - 1);
          return false;
        }
        waits := waits - 1;
      }
    }

    /** Wait for data, then decide whether to look again. */
    method AwaitData(inn: nat, ghost seen: seq<Byte>, patience: nat) returns (wait: Wait)
      requires Valid() && !readDebt && seen == delivered && inn == |seen| % BUF_LEN
      modifies this`rxIn, this`received, this`txOut, this`irqEnable, this`hostInactive, this`hostLog, this`checks,
               dev, rxBuf
      ensures Valid() && ForegroundKept() && StreamsGrow()
      ensures wait == Again ==> |received| > |delivered|
      ensures wait == Spinning ==> dev.re || |received| - |delivered| == BUF_LEN - 1
      ensures old(checks) <= checks
      ensures wait == Spinning ==> |checks| == |old(checks)| + patience && StillAlive(|old(checks)|)
      ensures wait == HostGone ==> GoneSince(hostLog, |old(hostLog)| - 1, timeout)
    {
      hide RxRing, TxRing;
      DeliveredIsPrefix();
      var spinning := WaitForData(inn, seen, patience);
      if spinning {
        return Spinning;
      }
      ghost var log := hostLog;
      Interrupts();
      RxEmptyAndFull();
      if inn == rxIn {
        GoneStays(log, |old(hostLog)| - 1, timeout, hostLog, |old(hostLog)| - 1);
      }
      return if inn == rxIn then HostGone else Again;
    }

    /** The outer loop of read(): drain, and unless told not to wait for the first byte. */
    method Gather(buffer: array<Byte>, space: int, nonblock: bool, patience: nat) returns (pos: nat, wait: Wait)
      requires Valid() && !readDebt && !kickDebt
      requires space <= buffer.Length && buffer != rxBuf && buffer != txBuf
      modifies this`rxIn, this`received, this`txOut, this`irqEnable, this`hostInactive, this`hostLog, this`checks,
               this`rxOut, this`delivered, this`readDebt, dev, rxBuf, buffer
      ensures Valid() && StreamsGrow() && (pos == 0 ==> !readDebt)
      ensures pos <= buffer.Length && (pos > 0 ==> pos <= space)
      ensures delivered == old(delivered) + buffer[..pos] && buffer[pos..] == old(buffer[pos..])
      ensures wait == Spinning ==>
        !nonblock && space > 0 && pos == 0 && (dev.re || |received| - |delivered| == BUF_LEN - 1)
      ensures pos < space ==> old(received) <= delivered
      ensures wait == Spinning ==> |checks| == |old(checks)| + patience && StillAlive(|old(checks)|)
      ensures pos == 0 && wait != Spinning && !nonblock && space > 0 ==>
        GoneSince(hostLog, |old(hostLog)| - 1, timeout)
    {
      hide RxRing, TxRing, Streams, WakeUps, HostWatched, GoneSince;
      DeliveredIsPrefix();
      pos, wait := 0, Again;
      while space > 0
        invariant Valid() && StreamsGrow() && !readDebt && pos == 0 && wait == Again
        invariant delivered == old(delivered) && buffer[..] == old(buffer[..])
        invariant checks == old(checks) || |received| > |delivered|
        decreases if |received| > |delivered| then 0 else 1
      {
        DeliveredIsPrefix();
        var inn;
        ghost var seen;
        pos, inn, seen := Drain(buffer, space);
        if pos > 0 || nonblock {
          return;
        }
        ghost var check := |hostLog| - 1;
        wait := AwaitData(inn, seen, patience);
        if wait == HostGone {
          GoneStays(hostLog, check, timeout, hostLog, |old(hostLog)| - 1);
        }
        if wait != Again {
          return;
        }
      }
    }

    /**
     read(): return whatever is unread, up to `space` bytes, waiting for the first
     byte unless told not to.  `patience` bounds the observed number of waits.
     */
    method Read(buffer: array<Byte>, space: int, nonblock: bool, patience: nat) returns (o: Outcome)
      requires Valid() && !readDebt && !kickDebt
      requires space <= buffer.Length && buffer != rxBuf && buffer != txBuf
      modifies this`rxIn, this`received, this`txOut, this`irqEnable, this`hostInactive, this`hostLog, this`checks,
               this`rxOut, this`delivered, this`readDebt, this`kickDebt, dev, rxBuf, buffer
      ensures Valid() && StreamsGrow() && !readDebt && !kickDebt
      ensures Moved(o) <= buffer.Length && delivered == old(delivered) + buffer[..Moved(o)]
      ensures buffer[Moved(o)..] == old(buffer[Moved(o)..])
      ensures o.Count? ==> 0 < o.n <= space && dev.re
      // It falls short of the space only when nothing that was there at the call is left unread.
      ensures space > 0 && Moved(o) < space ==> old(received) <= delivered
      ensures space > 0 && Moved(o) == 0 ==> old(received) == old(delivered)
      ensures o.WouldBlock? ==> nonblock
      // An input error means the host was given up on during the call.
      ensures o.IoError? ==> !nonblock && (space > 0 ==> GoneSince(hostLog, |old(hostLog)| - 1, timeout))
      ensures o.Blocked? ==>
        && !nonblock && space > 0 && o.n == 0 && (dev.re || |received| - |delivered| == BUF_LEN - 1)
        && |checks| == |old(checks)| + patience && StillAlive(|old(checks)|)
    {
      hide RxRing, TxRing, Streams, WakeUps, HostWatched, GoneSince;
      DeliveredIsPrefix();
      var pos, wait := Gather(buffer, space, nonblock, patience);
      if wait == Spinning {
        return Blocked(0);
      }
      if pos > 0 {
        Interrupts();
        Enable(irqEnable.(re := true));
        o := Count(pos);
      } else if nonblock {
        o := WouldBlock;
      } else {
        o := IoError;
      }
    }

    /** close(): wait for the transmit ring to empty, unless told not to or the host is gone. */
    method Close(nonblock: bool, patience: nat) returns (o: Outcome)
      requires Valid() && !readDebt && !kickDebt
      modifies this`rxIn, this`received, this`txOut, this`irqEnable, this`hostInactive, this`hostLog, this`checks,
               dev, rxBuf
      ensures Valid() && ForegroundKept() && StreamsGrow()
      ensures o == Count(0) ==> dev.stored == accepted || hostInactive >= timeout
      ensures o.WouldBlock? ==> nonblock && |old(dev.stored)| < |accepted|
      ensures o.Blocked? ==> !nonblock && dev.we && |checks| == |old(checks)| + patience && StillAlive(|old(checks)|)
      ensures o in {Count(0), WouldBlock, Blocked(0)}
    {
      hide RxRing, TxRing, HostWatched, GoneSince;
      var waits := patience;
      while true
        invariant Valid() && ForegroundKept() && StreamsGrow()
        invariant old(checks) <= checks && |checks| == |old(checks)| + patience - waits
        invariant 0 <= waits <= patience && StillAlive(|old(checks)|)
        decreases waits
      {
        Interrupts();
        TxEmpty();
        if txOut == txIn {
          return Count(0);
        }
        if waits == 0 && !nonblock {
          return Blocked(0);
        }
        Interrupts();
        var inactive := LookAtHost();
        if inactive >= timeout {
          return Count(0);
        }
        if nonblock {
          return WouldBlock;
        }
        waits := waits - 1;
      }
    }
  }

  /** One foreground call. */
  datatype Call =
    | WriteCall(bytes: seq<Byte>, nonblock: bool)
    | ReadCall(space: nat, nonblock: bool)
    | CloseCall(nonblock: bool)

  /** A call with its outcome and, for a read, the bytes it gave the caller. */
  datatype Done = Done(call: Call, outcome: Outcome, data: seq<Byte>)

  predicate IsDone(d: Done) {
    match d.call
    case WriteCall(bytes, _) => Moved(d.outcome) <= |bytes| && d.data == []
    case ReadCall(space, _) => |d.data| == Moved(d.outcome) <= space
    case CloseCall(_) => d.data == []
  }

  /** The bytes a write was told it queued. */
  function Queued(d: Done): seq<Byte> {
    if d.call.WriteCall? && Moved(d.outcome) <= |d.call.bytes| then d.call.bytes[..Moved(d.outcome)] else []
  }

  /** What writers were told they wrote, call after call. */
  function Written(history: seq<Done>): seq<Byte> {
    if history == [] then []
    else Written(history[..|history| - 1]) + Queued(history[|history| - 1])
  }

  /** What readers were given, call after call. */
  function ReadBack(history: seq<Done>): seq<Byte> {
    if history == [] then []
    else ReadBack(history[..|history| - 1]) + history[|history| - 1].data
  }

  /** The history records the first calls of the script, in order. */
  ghost predicate Logs(history: seq<Done>, calls: seq<Call>) {
    && |history| <= |calls|
    && forall k :: 0 <= k < |history| ==> IsDone(history[k]) && history[k].call == calls[k]
  }

  ghost predicate NoneBlocked(history: seq<Done>) {
    forall k :: 0 <= k < |history| ==> !history[k].outcome.Blocked?
  }

  lemma {:induction false} LogGrows(history: seq<Done>, calls: seq<Call>, d: Done)
    requires Logs(history, calls) && |history| < |calls| && d.call == calls[|history|] && IsDone(d)
    ensures Logs(history + [d], calls)
    ensures Written(history + [d]) == Written(history) + Queued(d)
    ensures ReadBack(history + [d]) == ReadBack(history) + d.data
    ensures NoneBlocked(history) && !d.outcome.Blocked? ==> NoneBlocked(history + [d])
    ensures NoneBlocked(history) ==> NoneBlocked((history + [d])[..|history|])
  {
    var longer := history + [d];
    assert longer[..|history|] == history && longer[|history|] == d;
  }

  /** A read into a buffer of its own. */
  method ReadInto(driver: Driver, space: nat, nonblock: bool, patience: nat) returns (o: Outcome, data: seq<Byte>)
    requires driver.Valid() && !driver.readDebt && !driver.kickDebt
    modifies driver, driver.dev, driver.rxBuf, driver.txBuf
    ensures driver.Valid() && !driver.readDebt && !driver.kickDebt
    ensures |data| == Moved(o) <= space && driver.accepted == old(driver.accepted)
    ensures driver.delivered == old(driver.delivered) + data
    ensures |data| < space ==> old(driver.received) <= driver.delivered
  {
    hide Driver.Valid, Driver.StreamsGrow, Driver.StillAlive, GoneSince, Moved;
    var buffer := new Byte[space];
    o := driver.Read(buffer, space, nonblock, patience);
    data := buffer[..Moved(o)];
  }

  /** Carry out one call. */
  method Perform(driver: Driver, call: Call, patience: nat) returns (d: Done)
    requires driver.Valid() && !driver.readDebt && !driver.kickDebt
    modifies driver, driver.dev, driver.rxBuf, driver.txBuf
    ensures driver.Valid() && !driver.readDebt && !driver.kickDebt
    ensures d.call == call && IsDone(d)
    ensures driver.accepted == old(driver.accepted) + Queued(d)
    ensures driver.delivered == old(driver.delivered) + d.data
    // A write queues all its bytes or leaves the ring full, a read gives all that is unread or fills its space.
    ensures call.WriteCall? && Queued(d) != call.bytes ==>
      |driver.accepted| >= |old(driver.dev.stored)| + 2047
    ensures call.ReadCall? && |d.data| < call.space ==> old(driver.received) <= driver.delivered
  {
    hide Driver.Valid, Driver.StreamsGrow, Driver.StillAlive, GoneSince;
    match call {
      case WriteCall(bytes, nonblock) =>
        var o := driver.Write(bytes, |bytes|, nonblock, patience);
        d := Done(call, o, []);
      case ReadCall(space, nonblock) =>
        var o, data := ReadInto(driver, space, nonblock, patience);
        d := Done(call, o, data);
      case CloseCall(nonblock) =>
        var o := driver.Close(nonblock, patience);
        d := Done(call, o, []);
    }
  }

  /**
   A whole run: initialise, then any calls, with any interrupts and any host behaviour.
   The readers see a prefix of what the host sent, the host a prefix of what writers were
   told they wrote, and what is in flight fits in the two buffers of each direction.
   */
  method Session(dev: Device, alarmStarted: bool, calls: seq<Call>, patience: nat) returns (history: seq<Done>)
    requires dev.Valid() && dev.popped == [] && dev.stored == []
    modifies dev
    ensures Logs(history, calls)
    ensures history != [] ==> NoneBlocked(history[..|history| - 1])
    ensures |history| < |calls| ==> history != [] && history[|history| - 1].outcome.Blocked?
    ensures ReadBack(history) <= dev.fromHost
    ensures |dev.fromHost| < |ReadBack(history)| + 2048 + |dev.rxFifo|
    ensures dev.toHost <= Written(history)
    ensures |Written(history)| < |dev.toHost| + dev.depth + 2048
  {
    var driver := new Driver(dev, alarmStarted);
    history := [];
    hide *;
    while |history| < |calls|
      invariant fresh(driver) && driver.dev == dev && fresh(driver.rxBuf) && fresh(driver.txBuf)
      invariant driver.Valid() && !driver.readDebt && !driver.kickDebt
      invariant Logs(history, calls) && NoneBlocked(history) && |history| <= |calls|
      invariant history != [] ==> NoneBlocked(history[..|history| - 1])
      invariant driver.delivered == ReadBack(history)
      invariant driver.accepted == Written(history)
      decreases |calls| - |history|
    {
      var d := Perform(driver, calls[|history|], patience);
      LogGrows(history, calls, d);
      history := history + [d];
      if d.outcome.Blocked? {
        break;
      }
    }
    driver.EndToEnd();
  }
}
