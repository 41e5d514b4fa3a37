/**
 The system clock: machine timer, tick counter and alarms.

 The machine time advances on its own between any two steps.  The compare register
 is two 32-bit words, and an interrupt is pending while the time is at or past their
 value (section 3.2.1 of the RISC-V Privileged Architecture, version 20211203).
 */
module AlarmTimer {
  import opened AlarmList

  const POW32: nat := 0x1_0000_0000
  const POW64: nat := 0x1_0000_0000_0000_0000
  const CPU_FREQ: nat := 50_000_000
  const TICKS_PER_SEC: nat := 1000
  const DELTA: nat := CPU_FREQ / TICKS_PER_SEC

  /** What every compare value during an update is at least. */
  const GUARD: nat := 0xFFFF_FFFF_0000_0000

  /** The timer at one moment: machine time and compare value. */
  datatype Instant = Instant(mtime: nat, compare: nat)

  /** An interrupt is signalled. */
  predicate Signalled(i: Instant) {
    i.mtime >= i.compare
  }

  /** What a callback answered, and its alarm at that moment. */
  datatype Answer = Answer(period: nat, wanted: bool, time: nat)

  datatype StartResult = Started | NotSupported | Invalid

  class Clock {
    // hardware
    var mtime: nat
    var cmpLow: nat
    var cmpHigh: nat
    ghost var instants: seq<Instant>  // the timer after every step it ever took
    // _alt_tick_rate, _alt_nticks and alt_alarm_list
    var tickRate: nat
    var nticks: nat
    const head: Alarm

    // the model's own record of the list and of the walk in progress
    var done: seq<Alarm>     // listed alarms the walk is past (all of them, outside a walk)
    var pending: seq<Alarm>  // listed alarms the walk has yet to reach
    var current: Alarm?      // the alarm being called back
    ghost var stopped: set<Alarm>  // the alarms unlisted since the last tick
    ghost var walked: seq<Alarm>   // the alarms the walk of the last tick stepped past
    ghost var called: seq<Alarm>   // the alarms called back since the last tick
    ghost var answers: seq<Answer> // what they answered
    ghost var startedAt: nat       // the machine time when the timer was set up
    ghost var lastTick: nat        // the machine time the last tick was taken at

    function Compare(): nat
      reads this`cmpLow, this`cmpHigh
    {
      cmpHigh * POW32 + cmpLow
    }

    /** The list, intact. */
    ghost predicate Linked()
      reads this`done, this`pending, head`next, head`previous, done`next, done`previous, pending`next, pending`previous
    {
      IsRing([head] + done + pending)
    }

    /** An alarm fires at the ticks it is due; one with a constant period, at exactly those. */
    ghost predicate OnSchedule(a: Alarm)
      reads this`nticks, a`time, a`callback, a`startTick, a`startMtime, a`delay, a`fired, a`firstMtime
    {
      && (forall k :: 0 <= k < |a.fired| ==> a.fired[k] <= nticks)
      && (a.fired == [] ==> a.time == a.startTick + a.delay + 1)
      && (a.fired != [] ==>
            a.fired[0] == a.startTick + a.delay + 1 && a.startMtime + a.delay * DELTA <= a.firstMtime)
      && (a.callback.Periodic? ==>
            && a.time == a.startTick + a.delay + 1 + |a.fired| * a.callback.period
            && forall k :: 0 <= k < |a.fired| ==> a.fired[k] == a.startTick + a.delay + 1 + k * a.callback.period)
    }

    /** If the next tick is not before `at`, an alarm yet to fire is not early. */
    ghost predicate NotEarly(a: Alarm, at: nat)
      reads this`nticks, a`time, a`startMtime, a`delay, a`fired
    {
      a.fired == [] ==> a.startMtime + a.delay * DELTA <= at + (a.time - nticks - 1) * DELTA
    }

    /** No tick before this machine time. */
    ghost function NextTick(): nat
      reads this`mtime, this`lastTick
    {
      if mtime > lastTick + DELTA then mtime else lastTick + DELTA
    }

    /** Ticks are never ahead of the machine time. */
    ghost predicate TicksNotAhead()
      reads this`startedAt, this`nticks, this`lastTick, this`mtime
    {
      startedAt + nticks * DELTA <= lastTick <= mtime < POW64 - DELTA
    }

    /** The alarms of the list, given a machine time no tick can come before. */
    ghost predicate Alarms(at: nat)
      reads this`nticks, this`done, this`pending, this`current, head, done, pending
    {
      && Linked()
      && (forall a :: a in done && a != current ==> a.time > nticks && OnSchedule(a) && NotEarly(a, at))
      && (forall a :: a in pending ==> a.time >= nticks && a != current && OnSchedule(a) && NotEarly(a, at))
    }

    /** Holds throughout, in and out of a walk. */
    ghost predicate Inv()
      reads this, head, done, pending
    {
      TicksNotAhead() && Alarms(NextTick())
    }

    /** Holds between ticks: every listed alarm is due at a later tick. */
    ghost predicate Valid()
      reads this, head, done, pending
    {
      Inv() && pending == [] && current == null
    }

    constructor (now: nat)
      requires now < POW64 - DELTA
      ensures Valid() && done == [] && nticks == 0 && tickRate == 0 && mtime == now
      ensures fresh(head) && lastTick == now == startedAt
    {
      var h := new Alarm();
      h.next, h.previous := h, h;
      head := h;
      mtime, cmpLow, cmpHigh := now, 0, 0;
      tickRate, nticks := 0, 0;
      done, pending, current, startedAt, lastTick := [], [], null, now, now;
      stopped, instants, walked, called, answers := {}, [], [], [], [];
      new;
      assert [head] + done + pending == [head];
    }

    /** Machine time goes by. */
    method Pass()
      requires mtime < POW64 - DELTA
      modifies this`mtime, this`instants
      ensures old(mtime) <= mtime < POW64 - DELTA
      ensures instants == old(instants) + [Instant(mtime, Compare())]
      ensures old(Inv()) ==> Inv()
    {
      var later: nat :| mtime <= later < POW64 - DELTA;
      mtime := later;
      instants := instants + [Instant(mtime, Compare())];
    }

    /** A store to the high word of the compare register. */
    method StoreHigh(word: nat)
      requires word < POW32
      modifies this`cmpHigh, this`instants
      ensures cmpHigh == word && instants == old(instants) + [Instant(mtime, Compare())]
    {
      cmpHigh := word;
      instants := instants + [Instant(mtime, Compare())];
    }

    /** A store to its low word. */
    method StoreLow(word: nat)
      requires word < POW32
      modifies this`cmpLow, this`instants
      ensures cmpLow == word && instants == old(instants) + [Instant(mtime, Compare())]
    {
      cmpLow := word;
      instants := instants + [Instant(mtime, Compare())];
    }

    /**
     Read the 64-bit machine time as two words, again and again until no roll-over came
     between.  The result is a time it really was during the call: the one at which the
     low word was read.
     */
    method MtimeGet() returns (t: nat)
      requires mtime < POW64 - DELTA
      modifies this`mtime, this`instants
      ensures old(mtime) <= t <= mtime < POW64 - DELTA && old(instants) <= instants
      ensures exists k :: |old(instants)| <= k < |instants| && instants[k].mtime == t
    {
      hide Inv, Signalled;
      ghost var lastHigh := -1;
      while true
        invariant old(mtime) <= mtime < POW64 - DELTA && old(instants) <= instants
        invariant lastHigh < mtime / POW32
        decreases POW32 - lastHigh
      {
        Pass();
        ghost var first := mtime;
        var high := mtime / POW32;
        Pass();
        var low := mtime % POW32;
        ghost var k, sampled := |instants| - 1, mtime;
        Pass();
        if mtime / POW32 == high {
          t := high * POW32 + low;
          SameHigh(first, sampled, mtime);
          assert t == sampled && instants[k].mtime == t;
          return;
        }
        lastHigh := high;
      }
    }

    static lemma SameHigh(first: nat, t: nat, last: nat)
      requires first <= t <= last && first / POW32 == last / POW32
      ensures first / POW32 * POW32 + t % POW32 == t
    {
    }

    /** Every compare value of the log from `from` on is the one before, the one after, or at least GUARD. */
    static ghost predicate Guarded(log: seq<Instant>, from: nat, before: nat, after: nat) {
      forall k :: from <= k < |log| ==> log[k].compare == before || log[k].compare >= GUARD || log[k].compare == after
    }

    /**
     Write the 64-bit compare value as three word stores.  Every value the register holds
     meanwhile is the old one, the new one, or at least GUARD.
     */
    method MtimecmpSet(time: nat)
      requires mtime < POW64 - DELTA && time < POW64 && cmpLow < POW32
      modifies this`mtime, this`instants, this`cmpLow, this`cmpHigh
      ensures Compare() == time && cmpLow < POW32
      ensures old(mtime) <= mtime < POW64 - DELTA && old(instants) <= instants
      ensures Guarded(instants, |old(instants)|, old(Compare()), time)
      // So nothing is signalled meanwhile, unless the old value, the new one or GUARD had been reached.
      ensures forall k :: |old(instants)| <= k < |instants| && Signalled(instants[k]) ==>
        instants[k].mtime >= old(Compare()) || instants[k].mtime >= time || instants[k].mtime >= GUARD
    {
      Pass();
      StoreHigh(0xFFFF_FFFF);
      Pass();
      StoreLow(time % POW32);
      Pass();
      StoreHigh(time / POW32);
    }

    /** alt_sysclk_init: the tick rate can be set once. */
    method SysclkInit(rate: nat) returns (ok: bool)
      modifies this`tickRate
      ensures ok == (old(tickRate) == 0)
      ensures tickRate == if ok then rate else old(tickRate)
    {
      if tickRate == 0 {
        tickRate := rate;
        return true;
      }
      return false;
    }

    ghost predicate Listed(alarm: Alarm)
      reads this`done, this`pending
    {
      alarm in [head] + done + pending
    }

    /** Put an alarm at the front of the list. */
    method LinkFirst(alarm: Alarm, ghost all: set<Alarm>)
      requires Linked() && alarm != head && forall a :: Listed(a) ==> a in all
      modifies this`done, head`next, head.next`previous, alarm`next, alarm`previous
      ensures done == [alarm] + old(done)
      ensures !old(Listed(alarm)) ==> Linked()
      ensures old(Listed(alarm)) ==> NoWayBack(head, all)
    {
      ghost var ring := [head] + done + pending;
      assert forall a :: a in ring ==> Listed(a);
      Insert(head, alarm, ring, all);
      assert [head, alarm] + ring[1..] == [head] + ([alarm] + done) + pending;
      done := [alarm] + done;
    }

    /** Fill in an alarm. */
    method SetUp(alarm: Alarm, delay: nat, callback: Callback)
      modifies alarm`time, alarm`callback, alarm`startTick, alarm`startMtime, alarm`delay, alarm`fired, alarm`wanted
      ensures alarm.wanted && alarm.time == nticks + delay + 1 && alarm.callback == callback && alarm.fired == []
      ensures alarm.startTick == nticks && alarm.startMtime == mtime && alarm.delay == delay
      ensures OnSchedule(alarm) && NotEarly(alarm, NextTick())
    {
      alarm.callback := callback;
      var now := nticks;
      alarm.time := delay + now + 1;
      alarm.startTick, alarm.delay, alarm.fired, alarm.startMtime := now, delay, [], mtime;
      alarm.wanted := true;
    }

    /** Fill in an alarm and list it. */
    method Enlist(alarm: Alarm, delay: nat, callback: Callback, ghost all: set<Alarm>)
      requires Inv() && alarm != head && forall a :: Listed(a) ==> a in all
      modifies this`done, head`next, head.next`previous, alarm
      ensures done == [alarm] + old(done) && OnSchedule(alarm) && NotEarly(alarm, NextTick())
      ensures alarm.wanted && alarm.stops == old(alarm.stops)
      ensures alarm.time == nticks + delay + 1 && alarm.callback == callback && alarm.fired == []
      ensures alarm.startTick == nticks && alarm.startMtime == mtime && alarm.delay == delay
      ensures !old(Listed(alarm)) ==> Inv()
      ensures old(Listed(alarm)) ==> NoWayBack(head, all)
    {
      hide IsRing, OnSchedule, NotEarly, NoWayBack, NextTick;
      assert alarm in done || alarm in pending ==> Listed(alarm);
      SetUp(alarm, delay, callback);
      LinkFirst(alarm, all);
    }

    /**
     alt_alarm_start: list an alarm to fire once `delay` full ticks have gone by.  Starting
     one that is still listed cuts the way back to the head, and no walk ends any more.
     */
    method Start(alarm: Alarm?, delay: nat, callback: Callback, ghost all: set<Alarm>) returns (r: StartResult)
      requires Inv() && alarm != head && forall a :: Listed(a) ==> a in all
      modifies this`mtime, this`instants, this`done, head`next, head.next`previous, alarm
      ensures old(mtime) <= mtime
      ensures r == if tickRate == 0 then NotSupported else if alarm == null then Invalid else Started
      ensures r.Started? ==> done == [alarm] + old(done) && OnSchedule(alarm) && NotEarly(alarm, NextTick())
      ensures r.Started? ==> alarm.wanted && alarm.stops == old(alarm.stops)
      ensures r.Started? ==> alarm.time == nticks + delay + 1 && alarm.callback == callback && alarm.fired == []
      ensures r.Started? ==> alarm.startTick == nticks && alarm.startMtime == mtime && alarm.delay == delay
      ensures r.Started? && !old(Listed(alarm)) ==> Inv()
      ensures r.Started? && old(Listed(alarm)) ==> NoWayBack(head, all)
      ensures !r.Started? ==> Inv() && done == old(done) && (alarm != null ==> unchanged(alarm))
    {
      hide IsRing, OnSchedule, NotEarly, Alarms, NoWayBack;
      if tickRate != 0 {
        if alarm != null {
          Pass();
          Enlist(alarm, delay, callback, all);
          r := Started;
        } else {
          r := Invalid;
        }
      } else {
        r := NotSupported;
      }
    }

    /** Take an alarm out of the list, if it is in it. */
    method Unlink(alarm: Alarm)
      requires Linked() && alarm != head
      requires alarm in done + pending || IsRing([alarm])
      requires alarm.next != null && alarm.previous != null
      modifies this`done, this`pending, alarm`next, alarm`previous, alarm.next`previous, alarm.previous`next
      ensures Linked() && IsRing([alarm])
      ensures done == Without(old(done), alarm) && pending == Without(old(pending), alarm)
    {
      hide IsRing, Distinct;
      ghost var listed := alarm in done + pending;
      ghost var ring, i := [alarm], 0;
      if listed {
        ring := [head] + done + pending;
        assert ring[1..] == done + pending;
        RingDistinct(ring);
        i := Position(ring, alarm);
      }
      Remove(alarm, ring, i);
      if listed {
        WithoutAt(ring, i);
        WithoutJoins([head] + done, pending, alarm);
        WithoutJoins([head], done, alarm);
      } else {
        WithoutAbsent(done, alarm);
        WithoutAbsent(pending, alarm);
      }
      done, pending := Without(done, alarm), Without(pending, alarm);
    }

    ghost method Position(ring: seq<Alarm>, alarm: Alarm) returns (i: nat)
      requires |ring| > 0 && alarm in ring[1..]
      ensures 0 < i < |ring| && ring[i] == alarm
    {
      var j :| 0 <= j < |ring[1..]| && ring[1..][j] == alarm;
      i := j + 1;
    }

    /** alt_alarm_stop: unlist an alarm, or do nothing to one that is already unlisted. */
    method Stop(alarm: Alarm)
      requires Inv() && alarm != head
      requires alarm in done + pending || IsRing([alarm])
      requires alarm.next != null && alarm.previous != null
      modifies this`done, this`pending, this`stopped,
               alarm`next, alarm`previous, alarm.next`previous, alarm.previous`next
      ensures Inv() && IsRing([alarm])
      ensures done == Without(old(done), alarm) && pending == Without(old(pending), alarm)
      ensures stopped == old(stopped) + {alarm}
      ensures old(pending) != [] && alarm != old(pending[0]) ==> pending != [] && pending[0] == old(pending[0])
    {
      hide IsRing, OnSchedule, NotEarly, NextTick;
      ghost var d, p := done, pending;
      stopped := stopped + {alarm};
      Unlink(alarm);
      WithoutMembers(d, alarm);
      WithoutMembers(p, alarm);
      if p == [] || p[0] != alarm {
        WithoutFirst(p, alarm);
      }
    }

    /**
     A walk that has saved a node reaches the head again, however many links it follows,
     if and only if the node is still listed.
     */
    lemma SavedNodeLeadsBack(saved: Alarm, all: set<Alarm>)
      requires Linked() && saved != head && (saved in done + pending || IsRing([saved]))
      requires saved in all && forall a :: Listed(a) ==> a in all
      ensures (exists k {:trigger Steps(saved, k, all)} :: Steps(saved, k, all) == head) <==> saved in done + pending
    {
      var ring := [head] + done + pending;
      if saved in done + pending {
        assert saved in ring;
        var i :| 0 <= i < |ring| && ring[i] == saved;
        LeadsToFirst(ring, i, all);
      } else {
        forall k: nat
          ensures Steps(saved, k, all) == saved
        {
          assert [saved][0] == saved;
          NeverLeaves(saved, k, {saved}, all);
        }
      }
    }

    /**
     What happens when a callback stops the alarm whose node the walk has saved: the list is
     intact, but the walk stays at the saved node for ever.
     */
    method StopSaved(ghost all: set<Alarm>)
      requires Inv() && pending != []
      requires forall a :: Listed(a) ==> a in all
      modifies this`done, this`pending, this`stopped, head, done, pending
      ensures Inv()
      ensures forall k: nat {:trigger Steps(old(pending[0]), k, all)} ::
        Steps(old(pending[0]), k, all) == old(pending[0])
    {
      var saved := pending[0];
      CursorLinks();
      LinksInside(saved);
      LinksInside(head);
      assert Listed(saved);
      Stop(saved);
      forall k: nat
        ensures Steps(saved, k, all) == saved
      {
        assert [saved][0] == saved;
        NeverLeaves(saved, k, {saved}, all);
      }
    }

    /** The list holds only alarms of the application: exactly those started and neither stopped nor ended since. */
    ghost predicate Owned(apps: seq<Alarm>)
      reads this`done, this`pending, apps`wanted
    {
      && head !in apps && (forall a :: a in done ==> a in apps) && (forall a :: a in pending ==> a in apps)
      && (forall a :: a in apps ==> (a.wanted <==> a in done || a in pending))
    }

    /** The links of a listed element lead to listed elements. */
    lemma LinksInside(alarm: Alarm)
      requires Linked() && (alarm in done || alarm in pending || alarm == head)
      ensures alarm.next != null && (alarm.next in done || alarm.next in pending || alarm.next == head)
      ensures alarm.previous != null && (alarm.previous in done || alarm.previous in pending || alarm.previous == head)
    {
      var ring := [head] + done + pending;
      assert alarm in ring;
      var i :| 0 <= i < |ring| && ring[i] == alarm;
      assert i < |ring| - 1 ==> ring[i].next == ring[i + 1];
      assert 0 < i ==> ring[i].previous == ring[i - 1];
    }

    lemma ListedLinks(alarm: Alarm)
      requires Inv() && (alarm in done || alarm in pending || alarm == head)
      ensures alarm.next != null && (alarm.next in done || alarm.next in pending || alarm.next == head)
      ensures alarm.previous != null && (alarm.previous in done || alarm.previous in pending || alarm.previous == head)
    {
      hide OnSchedule, NotEarly, IsRing;
      LinksInside(alarm);
    }

    /** The alarm being called back: still listed unless it was stopped, otherwise untouched. */
    ghost predicate InService(alarm: Alarm)
      reads this`done, this`pending, this`current, alarm`next, alarm`previous
    {
      current == alarm && alarm != head && alarm !in pending && (alarm in done || IsRing([alarm]))
    }

    twostate predicate Untouched(alarm: Alarm)
      reads alarm
    {
      && alarm.time == old(alarm.time) && alarm.callback == old(alarm.callback)
      && alarm.startTick == old(alarm.startTick) && alarm.startMtime == old(alarm.startMtime)
      && alarm.delay == old(alarm.delay)
      && alarm.fired == old(alarm.fired) && alarm.firstMtime == old(alarm.firstMtime)
    }

    /** The walk's saved next node stays where it is, and only stopping takes an alarm out of the walk;
     those to come keep their times. */
    twostate predicate SavedKept()
      reads this`pending, this`stopped, this`walked, pending
    {
      && old(stopped) <= stopped && walked == old(walked)
      && (forall a :: a in pending ==> a in old(pending) && a.time == old(a.time))
      && (forall a :: a in old(pending) ==> a in pending || a in stopped)
      && (pending == [] <==> old(pending) == [])
      && (pending != [] ==> pending[0] == old(pending[0]) && |pending| <= |old(pending)|)
    }

    /** An alarm called back this tick that its own callback has started anew. */
    ghost predicate Renewed(a: Alarm)
      reads this`nticks, this`mtime, a`time, a`startTick, a`startMtime, a`delay, a`fired
    {
      a.fired == [] && a.startTick == nticks && a.startMtime <= mtime && a.time == nticks + a.delay + 1
    }

    lemma RenewedIsListable(a: Alarm)
      requires Renewed(a)
      ensures a.time > nticks && OnSchedule(a) && NotEarly(a, NextTick())
    {
    }

    /** What application code leaves alone: the saved node and, unless it starts it anew, the alarm in service. */
    twostate predicate WalkKept()
      reads this, current, pending
    {
      && current == old(current) && SavedKept() && called == old(called) && answers == old(answers)
      && old(mtime) <= mtime
      && (current != null ==> Untouched(current) || Renewed(current))
    }

    /** What application code leaves alone: alarms it does not stop. */
    twostate predicate LeftAlone(apps: seq<Alarm>)
      reads apps
    {
      forall a :: a in apps ==>
        && old(a.stops) <= a.stops
        && (old(a.wanted) && a.stops == old(a.stops) ==> a.wanted && Untouched(a))
    }

    /** A periodic alarm that the application does not stop stays started as it was. */
    twostate predicate Carries(apps: seq<Alarm>)
      reads apps
    {
      forall a :: a in apps ==>
        && old(a.stops) <= a.stops
        && (old(a.wanted && a.callback.Periodic? && a.callback.period > 0) && a.stops == old(a.stops) ==>
              && a.wanted && a.callback == old(a.callback) && a.delay == old(a.delay)
              && a.startTick == old(a.startTick) && a.startMtime == old(a.startMtime))
    }

    ghost predicate Sound(apps: seq<Alarm>)
      reads this, head, done, pending, current, apps`wanted
    {
      Inv() && Owned(apps) && (current != null ==> InService(current))
    }

    /** Application code starts an alarm, if it may: one not listed. */
    method StartSome(x: Alarm, apps: seq<Alarm>)
      requires Sound(apps) && x in apps
      modifies this`mtime, this`instants, this`done, head, apps
      ensures Sound(apps) && WalkKept() && LeftAlone(apps)
    {
      hide Inv, OnSchedule, NotEarly, IsRing, NoWayBack;
      if x !in done && x !in pending {
        var delay :| 0 <= delay;
        var callback: Callback := *;
        ListedLinks(head);
        ghost var all := set a | a in [head] + done + pending;
        var _ := Start(x, delay, callback, all);
      }
    }

    lemma AloneInRing(x: Alarm)
      requires x.next == x && x.previous == x
      ensures IsRing([x])
    {
    }

    /** Take an alarm out of the list for good. */
    method TakeOut(x: Alarm, apps: seq<Alarm>)
      requires Inv() && Owned(apps) && x in apps && (pending == [] || x != pending[0])
      requires x in done || x in pending || IsRing([x])
      modifies this`done, this`pending, this`stopped, head, apps
      ensures Inv() && Owned(apps) && SavedKept() && !x.wanted && IsRing([x])
      ensures forall a :: a in done <==> a in old(done) && a != x
      ensures forall a :: a in apps ==>
        Untouched(a) && a.stops == old(a.stops) && (a != x ==> a.wanted == old(a.wanted))
      ensures forall a :: a in apps && a != x && a !in old(done) && a !in old(pending) ==>
        a.next == old(a.next) && a.previous == old(a.previous)
    {
      hide Inv, IsRing;
      if x in done || x in pending {
        ListedLinks(x);
      } else {
        AloneLinks(x);
      }
      Delist(x);
      NoLongerWanted(x);
    }

    /** alt_alarm_stop, by membership: the alarm is gone from the list, and nothing else is. */
    method Delist(x: Alarm)
      requires Inv() && x != head && (pending == [] || x != pending[0])
      requires (x in done || x in pending || IsRing([x])) && x.next != null && x.previous != null
      modifies this`done, this`pending, this`stopped, x`next, x`previous, x.next`previous, x.previous`next
      ensures Inv() && IsRing([x]) && stopped == old(stopped) + {x}
      ensures forall a :: a in done <==> a in old(done) && a != x
      ensures forall a :: a in pending <==> a in old(pending) && a != x
      ensures (pending == [] <==> old(pending) == []) && |pending| <= |old(pending)|
      ensures pending != [] ==> pending[0] == old(pending[0])
    {
      hide Inv, IsRing;
      ghost var d, p := done, pending;
      Stop(x);
      WithoutMembers(d, x);
      WithoutMembers(p, x);
      WithoutShorter(p, x);
    }

    ghost method NoLongerWanted(x: Alarm)
      requires Inv() && x !in done && x !in pending && x != head
      modifies x`wanted
      ensures Inv() && !x.wanted
    {
      hide OnSchedule, NotEarly, IsRing;
      x.wanted := false;
    }

    lemma AloneLinks(x: Alarm)
      requires IsRing([x])
      ensures x.next == x && x.previous == x
    {
      assert [x][0].next == x;
    }

    /** Application code stops an alarm, if it may: not the one a walk steps to next. */
    method StopSome(x: Alarm, apps: seq<Alarm>)
      requires Sound(apps) && x in apps
      modifies this`done, this`pending, this`stopped, head, apps
      ensures Sound(apps) && WalkKept() && LeftAlone(apps)
    {
      hide Inv, IsRing;
      if (x in done || x in pending || (x.next == x && x.previous == x)) && (pending == [] || x != pending[0]) {
        if x !in done && x !in pending {
          AloneInRing(x);
        }
        TakeOut(x, apps);
        x.stops := x.stops + 1;
      }
    }

    /**
     One thing a callback may do: start an unlisted alarm, or stop any alarm but the one
     whose node the walk has saved.  Either may be its own.
     */
    method CallbackActs(alarm: Alarm, apps: seq<Alarm>)
      requires Inv() && InService(alarm) && alarm in apps && Owned(apps)
      modifies this`mtime, this`instants, this`done, this`pending, this`stopped, head, apps
      ensures Inv() && InService(alarm) && Owned(apps) && WalkKept() && LeftAlone(apps)
      ensures old(JustFired(alarm)) ==> (JustFired(alarm) && Untouched(alarm)) || Renewed(alarm)
      ensures old(Renewed(alarm)) ==> Renewed(alarm)
    {
      hide Alarms, OnSchedule, NotEarly, IsRing;
      var x :| x in apps;
      if * {
        StartSome(x, apps);
      } else {
        StopSome(x, apps);
      }
      if Untouched(alarm) {
        Carried(alarm);
      }
    }

    /** An alarm left alone stays as it is while machine time goes by. */
    twostate lemma Carried(alarm: Alarm)
      requires Untouched(alarm) && old(mtime) <= mtime && nticks == old(nticks) && lastTick == old(lastTick)
      ensures old(JustFired(alarm)) ==> JustFired(alarm)
      ensures old(Renewed(alarm)) ==> Renewed(alarm)
    {
    }

    lemma OneOrTheOther(alarm: Alarm)
      ensures !(JustFired(alarm) && Renewed(alarm))
    {
    }

    /** A callback: any number of actions, then the ticks to its next call, 0 for none. */
    method CallBack(alarm: Alarm, apps: seq<Alarm>) returns (period: nat)
      requires Inv() && InService(alarm) && alarm in apps && Owned(apps) && JustFired(alarm)
      modifies this`mtime, this`instants, this`done, this`pending, this`stopped, this`answers, head, apps
      ensures Inv() && InService(alarm) && Owned(apps) && SavedKept() && LeftAlone(apps)
      ensures called == old(called) && old(mtime) <= mtime
      ensures answers == old(answers) + [Answer(period, alarm.wanted, alarm.time)]
      ensures (JustFired(alarm) && Untouched(alarm)) || Renewed(alarm)
      ensures JustFired(alarm) && alarm.callback.Periodic? ==> period == alarm.callback.period
    {
      hide Alarms, OnSchedule, NotEarly, IsRing, JustFired, Renewed;
      var callback := alarm.callback;
      var actions: nat := *;
      while actions > 0
        invariant Inv() && InService(alarm) && Owned(apps) && SavedKept() && LeftAlone(apps)
        invariant called == old(called) && answers == old(answers) && old(mtime) <= mtime
        invariant (JustFired(alarm) && Untouched(alarm)) || Renewed(alarm)
      {
        CallbackActs(alarm, apps);
        actions := actions - 1;
      }
      OneOrTheOther(alarm);
      match callback {
        case Periodic(p) => period := p;
        case Custom => period :| 0 <= period;
      }
      answers := answers + [Answer(period, alarm.wanted, alarm.time)];
    }

    /** Called back this tick, and on schedule so far. */
    ghost predicate CalledNow(a: Alarm)
      reads this`nticks, a`callback, a`startTick, a`startMtime, a`delay, a`fired, a`firstMtime
    {
      && a.fired != []
      && (forall k :: 0 <= k < |a.fired| ==> a.fired[k] <= nticks)
      && a.fired[0] == a.startTick + a.delay + 1 && a.startMtime + a.delay * DELTA <= a.firstMtime
      && (a.callback.Periodic? ==>
            && nticks == a.startTick + a.delay + 1 + (|a.fired| - 1) * a.callback.period
            && forall k :: 0 <= k < |a.fired| ==> a.fired[k] == a.startTick + a.delay + 1 + k * a.callback.period)
    }

    /** Called back this tick, next time not set yet. */
    ghost predicate JustFired(a: Alarm)
      reads this`nticks, a`time, a`callback, a`startTick, a`startMtime, a`delay, a`fired, a`firstMtime
    {
      a.time == nticks && CalledNow(a)
    }

    lemma NextCall(a: Alarm, period: nat)
      requires CalledNow(a) && period > 0 && a.time == nticks + period
      requires a.callback.Periodic? ==> period == a.callback.period
      ensures a.fired != [] && OnSchedule(a) && NotEarly(a, NextTick())
    {
      Period(|a.fired|, period);
    }

    /** One period more. */
    lemma Period(n: nat, p: nat)
      ensures n > 0 ==> n * p == (n - 1) * p + p
    {
    }

    /** What it takes to call an alarm back that has come due. */
    lemma Due(a: Alarm)
      requires TicksNotAhead() && OnSchedule(a) && NotEarly(a, NextTick()) && a.time == nticks
      ensures forall k :: 0 <= k < |a.fired| ==> a.fired[k] <= nticks
      ensures a.fired == [] ==> nticks == a.startTick + a.delay + 1 && a.startMtime + a.delay * DELTA <= mtime
      ensures a.fired != [] ==> a.fired[0] == a.startTick + a.delay + 1
      ensures a.fired != [] ==> a.startMtime + a.delay * DELTA <= a.firstMtime
      ensures a.callback.Periodic? ==>
        && nticks == a.startTick + a.delay + 1 + |a.fired| * a.callback.period
        && forall k :: 0 <= k < |a.fired| ==> a.fired[k] == a.startTick + a.delay + 1 + k * a.callback.period
    {
    }

    ghost method Log(alarm: Alarm)
      requires Inv() && InService(alarm) && alarm.time == nticks && OnSchedule(alarm) && NotEarly(alarm, NextTick())
      modifies this`called, alarm`fired, alarm`firstMtime
      ensures Inv() && InService(alarm) && JustFired(alarm) && called == old(called) + [alarm]
      ensures alarm.fired == old(alarm.fired) + [nticks]
      // Not before its delay has passed in machine time.
      ensures old(alarm.fired) == [] ==> alarm.startMtime + alarm.delay * DELTA <= alarm.firstMtime == mtime
    {
      hide IsRing, OnSchedule, NotEarly;
      Due(alarm);
      called := called + [alarm];
      if alarm.fired == [] {
        alarm.firstMtime := mtime;
      }
      alarm.fired := alarm.fired + [nticks];
    }

    /** Add what the callback returned to the alarm's time; one started anew is put off by as much. */
    method Rearm(alarm: Alarm, period: nat)
      requires Inv() && InService(alarm) && period > 0 && (JustFired(alarm) || Renewed(alarm))
      requires JustFired(alarm) && alarm.callback.Periodic? ==> period == alarm.callback.period
      modifies alarm`time, alarm`delay
      ensures Inv() && alarm.time > nticks && OnSchedule(alarm) && NotEarly(alarm, NextTick())
      ensures Renewed(alarm) == old(Renewed(alarm))
      ensures alarm.time == old(alarm.time) + period && (alarm.fired != [] ==> alarm.delay == old(alarm.delay))
    {
      hide OnSchedule, NotEarly, CalledNow;
      OneOrTheOther(alarm);
      ghost var renewed := Renewed(alarm);
      if renewed {
        alarm.delay := alarm.delay + period;
      }
      alarm.time := alarm.time + period;
      if renewed {
        RenewedIsListable(alarm);
      } else {
        NextCall(alarm, period);
      }
    }

    /** The alarm of the walk has come due: call it back, then unlist it or set its next time. */
    method Fire(alarm: Alarm, apps: seq<Alarm>)
      requires Inv() && InService(alarm) && alarm in done && alarm in apps && Owned(apps)
      requires alarm.time == nticks && OnSchedule(alarm) && NotEarly(alarm, NextTick())
      modifies this`mtime, this`instants, this`done, this`pending, this`stopped, this`called, this`answers, head, apps
      ensures Inv() && Owned(apps) && SavedKept() && old(mtime) <= mtime && Carries(apps)
      ensures alarm in done ==> alarm.time > nticks && OnSchedule(alarm) && NotEarly(alarm, NextTick())
      // It is called back once, now, and the first time not before its delay has passed in machine time.
      ensures called == old(called) + [alarm]
      ensures alarm.fired == old(alarm.fired) + [nticks] || (alarm.fired == [] && alarm.startTick == nticks)
      ensures old(alarm.fired) == [] ==> old(alarm.startMtime) + old(alarm.delay) * DELTA <= old(mtime)
      // A positive answer raises its time and leaves it listed, if the application left it so; 0 unlists it.
      ensures |answers| == |old(answers)| + 1 && old(answers) <= answers
      ensures var answer := answers[|old(answers)|];
        && (alarm.wanted <==> answer.wanted && answer.period > 0)
        && alarm.time == answer.time + answer.period
        && (alarm.stops == old(alarm.stops) ==> answer.wanted && answer.time == nticks)
        && (alarm.stops == old(alarm.stops) && old(alarm.callback).Periodic? ==>
              answer.period == old(alarm.callback).period)
    {
      hide Inv, OnSchedule, NotEarly, IsRing;
      Log(alarm);
      var period := CallBack(alarm, apps);
      Settle(alarm, period, apps);
    }

    /** What the answer means for the alarm: unlist it, or set its next time. */
    method Settle(alarm: Alarm, period: nat, apps: seq<Alarm>)
      requires Inv() && InService(alarm) && alarm in apps && Owned(apps)
      requires JustFired(alarm) || Renewed(alarm)
      requires JustFired(alarm) && alarm.callback.Periodic? ==> period == alarm.callback.period
      requires answers != [] && answers[|answers| - 1].period == period
      modifies this`done, this`pending, this`stopped, head, apps
      ensures Inv() && Owned(apps) && SavedKept()
      ensures alarm in done ==> alarm.time > nticks && OnSchedule(alarm) && NotEarly(alarm, NextTick())
      ensures alarm.wanted == (old(alarm.wanted) && period > 0) && alarm.time == old(alarm.time) + period
      ensures period > 0 && alarm.fired != [] ==> alarm.delay == old(alarm.delay)
      ensures forall a :: a in apps ==>
        a.stops == old(a.stops) && a.callback == old(a.callback) && a.fired == old(a.fired)
      ensures forall a :: a in apps ==> a.startTick == old(a.startTick) && a.startMtime == old(a.startMtime)
      ensures forall a :: a in apps && a != alarm ==> a.wanted == old(a.wanted) && a.delay == old(a.delay)
    {
      hide Inv, OnSchedule, NotEarly, IsRing, JustFired, Renewed;
      if period == 0 {
        End(alarm, apps);
      } else {
        Rearm(alarm, period);
      }
    }

    /** A callback that returned 0 ends its alarm. */
    method End(alarm: Alarm, apps: seq<Alarm>)
      requires Inv() && InService(alarm) && alarm in apps && Owned(apps)
      requires answers != [] && answers[|answers| - 1].period == 0
      modifies this`done, this`pending, this`stopped, head, apps
      ensures Inv() && Owned(apps) && SavedKept() && Untouched(alarm)
      ensures !alarm.wanted && alarm.stops == old(alarm.stops)
      ensures forall a :: a in apps && a != alarm ==>
        a.wanted == old(a.wanted) && a.stops == old(a.stops) && Untouched(a)
    {
      hide Inv, IsRing;
      TakeOut(alarm, apps);
    }

    /** The element the walk is at: the first it has yet to pass, or the head again. */
    ghost function Cursor(): Alarm
      reads this`pending
    {
      if pending == [] then head else pending[0]
    }

    lemma CursorLinks()
      requires Linked() && pending != []
      ensures pending[0].next == if |pending| == 1 then head else pending[1]
      ensures pending[0] !in pending[1..] && pending[0] != head
      ensures [head] + (done + [pending[0]]) + pending[1..] == [head] + done + pending
    {
      var ring := [head] + done + pending;
      assert ring[0] == head && ring[|done| + 1] == pending[0];
      assert |pending| > 1 ==> ring[|done| + 2] == pending[1];
      assert forall j :: 0 < j < |pending| ==> ring[|done| + 1 + j] == pending[j];
    }

    /** Step past the element the walk is at, saving the one after it. */
    method StepPast(alarm: Alarm) returns (next: Alarm)
      requires Inv() && current == null && pending != [] && alarm == pending[0]
      modifies this`done, this`pending, this`current, this`walked
      ensures Inv() && InService(alarm) && alarm in done && next == Cursor()
      ensures walked == old(walked) + [alarm]
      ensures done == old(done) + [alarm] && pending == old(pending)[1..]
      ensures alarm.time >= nticks && OnSchedule(alarm) && NotEarly(alarm, NextTick())
    {
      hide OnSchedule, NotEarly, IsRing;
      CursorLinks();
      next := alarm.next;
      done, pending, current := done + [alarm], pending[1..], alarm;
      walked := walked + [alarm];
    }

    /** One round of the walk. */
    method Visit(alarm: Alarm, apps: seq<Alarm>) returns (next: Alarm)
      requires Inv() && current == null && Owned(apps) && pending != [] && alarm == pending[0]
      modifies this`mtime, this`instants, this`done, this`pending, this`stopped, this`current,
               this`walked, this`called, this`answers, head, apps
      ensures Inv() && current == null && Owned(apps) && next == Cursor() && Carries(apps)
      ensures |pending| < |old(pending)| && old(mtime) <= mtime && old(stopped) <= stopped
      ensures forall a :: a in pending ==> a in old(pending) && a != alarm && a.time == old(a.time)
      ensures forall a :: a in old(pending) ==> a == alarm || a in pending || a in stopped
      ensures walked == old(walked) + [alarm]
      ensures |answers| - |called| == |old(answers)| - |old(called)|
      ensures called == old(called) + if old(alarm.time) <= nticks then [alarm] else []
    {
      hide Alarms, OnSchedule, NotEarly, IsRing;
      next := StepPast(alarm);
      if alarm.time <= nticks {
        Fire(alarm, apps);
      }
      Passed();
    }

    /** The alarm in service has been dealt with. */
    method Passed()
      requires Inv() && current != null
      requires current in done ==> current.time > nticks && OnSchedule(current) && NotEarly(current, NextTick())
      modifies this`current
      ensures Inv() && current == null
    {
      hide OnSchedule, NotEarly, IsRing;
      current := null;
    }

    method FirstListed() returns (alarm: Alarm)
      requires Inv() && done == []
      ensures alarm == Cursor()
    {
      assert pending != [] ==> ([head] + done + pending)[1] == pending[0];
      alarm := head.next;
    }

    /** One tick taken at machine time `at`: the tick itself, before the walk. */
    method CountTick(ghost at: nat)
      requires Alarms(at) && pending == [] && current == null
      requires startedAt + (nticks + 1) * DELTA <= at <= mtime < POW64 - DELTA
      modifies this`nticks, this`lastTick, this`done, this`pending, this`stopped, this`walked, this`called,
               this`answers
      ensures Inv() && current == null && done == [] && pending == old(done)
      ensures stopped == {} && walked == [] && called == [] && answers == []
      ensures nticks == old(nticks) + 1 && lastTick == at
    {
      hide IsRing, OnSchedule, NotEarly, NextTick;
      AllAhead();
      done, pending, stopped, walked, called, answers := [], done, {}, [], [], [];
      nticks := nticks + 1;
      lastTick := at;
      OneTickOn(at);
    }

    lemma AllAhead()
      requires Linked() && pending == []
      ensures IsRing([head] + [] + done)
    {
      assert [head] + [] + done == [head] + done + [];
    }

    /** A tick later the alarms are still on their schedules, and the next tick a period further on. */
    twostate lemma OneTickOn(at: nat)
      requires nticks == old(nticks) + 1 && lastTick == at && pending == old(done) && unchanged(pending)
      requires forall a :: a in pending ==> old(OnSchedule(a)) && old(NotEarly(a, at))
      ensures forall a :: a in pending ==> OnSchedule(a) && NotEarly(a, NextTick())
    {
    }

    /** A walk of a list: visited elements, those to come, and those stopped. */
    static ghost predicate OnceEach(list: seq<Alarm>, visited: seq<Alarm>, pending: seq<Alarm>, stopped: set<Alarm>) {
      && (forall j, k :: 0 <= j < k < |visited| ==> visited[j] != visited[k])
      && (forall a :: a in visited ==> a in list && a !in pending)
      && (forall a :: a in pending ==> a in list)
      && (forall a :: a in list ==> a in visited || a in pending || a in stopped)
    }

    static lemma NoneYet(list: seq<Alarm>)
      ensures OnceEach(list, [], list, {})
    {
    }

    static lemma OneMore(list: seq<Alarm>, visited: seq<Alarm>, pending: seq<Alarm>, stopped: set<Alarm>,
                         pending': seq<Alarm>, stopped': set<Alarm>)
      requires OnceEach(list, visited, pending, stopped) && pending != [] && stopped <= stopped'
      requires forall a :: a in pending' ==> a in pending && a != pending[0]
      requires forall a :: a in pending ==> a == pending[0] || a in pending' || a in stopped'
      ensures OnceEach(list, visited + [pending[0]], pending', stopped')
    {
      assert pending[0] in pending;
      assert forall j :: 0 <= j < |visited| ==> visited[j] in visited;
    }

    /**
     alt_tick: count the tick and call back every alarm that has come due, saving the next
     list element before each callback.  The walk ends although callbacks start alarms.
     */
    method Tick(apps: seq<Alarm>, ghost at: nat)
      requires Alarms(at) && pending == [] && current == null && Owned(apps)
      requires startedAt + (nticks + 1) * DELTA <= at <= mtime < POW64 - DELTA
      modifies this`mtime, this`instants, this`nticks, this`lastTick, this`done, this`pending, this`stopped,
               this`current, this`walked, this`called, this`answers, head, apps
      ensures Valid() && Owned(apps) && Carries(apps)
      ensures nticks == old(nticks) + 1 && lastTick == at && old(mtime) <= mtime
      // Nothing is visited twice, and what was listed is visited unless it was stopped.
      ensures OnceEach(old(done), walked, [], stopped)
      // Of those visited, exactly the ones that were due have been called back, once each.
      ensures called == Among(walked, set a | a in old(done) && old(a.time) <= old(nticks) + 1)
      ensures |answers| == |called|
    {
      hide Inv, Alarms, OnSchedule, NotEarly, IsRing, OnceEach, Among;
      CountTick(at);
      ghost var due := set a | a in pending && a.time <= nticks;
      var alarm := FirstListed();
      Walk(alarm, apps, pending, due);
      assert due == set a | a in old(done) && old(a.time) <= old(nticks) + 1;
    }

    /** The walk of one tick, from the first listed alarm round to the head. */
    method Walk(first: Alarm, apps: seq<Alarm>, ghost list: seq<Alarm>, ghost due: set<Alarm>)
      requires Inv() && current == null && Owned(apps) && first == Cursor() && pending == list
      requires stopped == {} && walked == [] && called == [] && answers == []
      requires forall a :: a in pending ==> (a.time <= nticks <==> a in due)
      modifies this`mtime, this`instants, this`done, this`pending, this`stopped, this`current,
               this`walked, this`called, this`answers, head, apps
      ensures Valid() && Owned(apps) && Carries(apps) && old(mtime) <= mtime
      ensures OnceEach(list, walked, [], stopped)
      ensures called == Among(walked, due) && |answers| == |called|
    {
      hide Inv, OnSchedule, NotEarly, IsRing, OnceEach, Among;
      NoneYet(pending);
      AmongNone(due);
      var alarm := first;
      while alarm != head
        invariant Inv() && current == null && Owned(apps) && alarm == Cursor() && Carries(apps)
        invariant old(mtime) <= mtime
        invariant OnceEach(list, walked, pending, stopped)
        invariant called == Among(walked, due) && |answers| == |called|
        invariant forall a :: a in pending ==> (a.time <= nticks <==> a in due)
        decreases |pending|
      {
        ghost var visited, p, gone := walked, pending, stopped;
        alarm := Visit(alarm, apps);
        OneMore(list, visited, p, gone, pending, stopped);
        AmongNext(visited, p[0], due);
      }
    }

    /** Set the timer up: the first interrupt one period from now. */
    method InterruptInit()
      requires Valid() && nticks == 0 && cmpLow < POW32
      modifies this`mtime, this`instants, this`cmpLow, this`cmpHigh, this`lastTick, this`startedAt
      ensures Valid() && cmpLow < POW32 && Compare() == lastTick + 50_000 && startedAt == lastTick
      ensures old(mtime) <= startedAt
    {
      hide IsRing, OnSchedule;
      var now := MtimeGet();
      lastTick, startedAt := now, now;
      MtimecmpSet(now + DELTA);
    }

    /** Re-arm the compare register one period after the time just read. */
    method ScheduleNext() returns (ghost at: nat)
      requires mtime < POW64 - DELTA && cmpLow < POW32
      modifies this`mtime, this`instants, this`cmpLow, this`cmpHigh
      ensures old(mtime) <= at <= mtime < POW64 - DELTA && cmpLow < POW32 && Compare() == at + 50_000
    {
      var now := MtimeGet();
      at := now;
      MtimecmpSet(now + DELTA);
    }

    /** If no tick can come before one time, none that comes later makes an alarm early. */
    lemma AlarmsLater(soonest: nat, at: nat)
      requires Alarms(soonest) && soonest <= at
      ensures Alarms(at)
    {
      hide IsRing, OnSchedule;
    }

    /**
     The timer interrupt, taken when one is pending: re-arm the compare register one
     period after the time just read, then tick.
     */
    method TimerIsr(apps: seq<Alarm>)
      requires Valid() && Owned(apps) && cmpLow < POW32
      requires Compare() == lastTick + DELTA && mtime >= Compare()
      modifies this`mtime, this`instants, this`cmpLow, this`cmpHigh, this`nticks, this`lastTick,
               this`done, this`pending, this`stopped, this`current, this`walked, this`called, this`answers, head, apps
      ensures Valid() && Owned(apps) && Carries(apps) && cmpLow < POW32 && Compare() == lastTick + DELTA
      ensures nticks == old(nticks) + 1 && old(mtime) <= lastTick
    {
      hide IsRing, OnSchedule, NotEarly, Alarms, Compare, OnceEach, Among, Owned;
      ghost var soonest := NextTick();
      ghost var at := ScheduleNext();
      AlarmsLater(soonest, at);
      Tick(apps, at);
    }

    /**
     An alarm with constant period p >= 1, started at tick c with delay n, has been called
     back at exactly the ticks c + n + 1 + k * p there have been so far, once each.
     */
    lemma ExactSchedule(alarm: Alarm, apps: seq<Alarm>, tick: nat)
      requires Valid() && Owned(apps) && alarm in apps && alarm.wanted
      requires alarm.callback.Periodic? && alarm.callback.period > 0
      ensures tick in alarm.fired <==>
        tick <= nticks && exists k: nat :: tick == alarm.startTick + alarm.delay + 1 + k * alarm.callback.period
      ensures forall k :: 0 <= k < |alarm.fired| ==>
        alarm.fired[k] == alarm.startTick + alarm.delay + 1 + k * alarm.callback.period
    {
      assert OnSchedule(alarm) && alarm.time > nticks;
      Progression(alarm.fired, alarm.startTick + alarm.delay + 1, alarm.callback.period, nticks, tick);
    }

    /** Whatever its callback does later, an alarm is first called back delay + 1 ticks after its start. */
    lemma FirstCall(alarm: Alarm, apps: seq<Alarm>)
      requires Valid() && Owned(apps) && alarm in apps && alarm.wanted
      ensures alarm.fired == [] <==> nticks < alarm.startTick + alarm.delay + 1
      ensures alarm.fired != [] ==> alarm.fired[0] == alarm.startTick + alarm.delay + 1
      ensures alarm.fired != [] ==> alarm.startMtime + alarm.delay * DELTA <= alarm.firstMtime
    {
      assert OnSchedule(alarm) && alarm.time > nticks;
    }

    /** A log of the multiples of p from `first` on that stops short of a later one than `now`. */
    lemma Progression(log: seq<nat>, first: nat, p: nat, now: nat, tick: nat)
      requires forall k :: 0 <= k < |log| ==> log[k] == first + k * p && log[k] <= now
      requires now < first + |log| * p
      ensures tick in log <==> tick <= now && exists k: nat :: tick == first + k * p
    {
      if k: nat :| tick <= now && tick == first + k * p {
        MulOrder(|log|, k, p);
        assert log[k] == tick;
      }
    }

    lemma MulOrder(m: nat, n: nat, p: nat)
      ensures m <= n ==> m * p <= n * p
    {
    }

    /**
     A whole run: time passes, alarms are started and stopped, and the timer interrupt is
     taken when it is pending.  Throughout, each listed alarm is due at a later tick and on
     its schedule, and the ticks counted never get ahead of the machine time.
     */
    method Run(apps: seq<Alarm>)
      requires Valid() && Owned(apps) && cmpLow < POW32 && Compare() == lastTick + DELTA
      modifies this`mtime, this`instants, this`cmpLow, this`cmpHigh, this`nticks, this`lastTick,
               this`done, this`pending, this`stopped, this`current, this`walked, this`called, this`answers, head, apps
      ensures Valid() && Owned(apps) && Carries(apps) && cmpLow < POW32 && Compare() == lastTick + DELTA
      ensures old(nticks) <= nticks && startedAt + nticks * DELTA <= mtime
    {
      hide Alarms, OnSchedule, NotEarly, IsRing;
      var events: nat := *;
      while events > 0
        invariant Valid() && Owned(apps) && Carries(apps) && cmpLow < POW32 && Compare() == lastTick + DELTA
        invariant old(nticks) <= nticks
      {
        Event(apps);
        events := events - 1;
      }
    }

    /**
     A periodic alarm, started and left to any run: as long as the application does not stop
     it, it is called back at exactly the ticks of its progression, once each.
     */
    method StartAndRun(alarm: Alarm, delay: nat, period: nat, apps: seq<Alarm>)
      requires Valid() && Owned(apps) && alarm in apps && !alarm.wanted && period > 0 && tickRate > 0
      requires cmpLow < POW32 && Compare() == lastTick + DELTA
      modifies this`mtime, this`instants, this`cmpLow, this`cmpHigh, this`nticks, this`lastTick,
               this`done, this`pending, this`stopped, this`current, this`walked, this`called, this`answers, head, apps
      ensures Valid() && Owned(apps)
      ensures alarm.stops == old(alarm.stops) ==> alarm.wanted && forall tick: nat :: tick in alarm.fired <==>
        tick <= nticks && exists k: nat :: tick == old(nticks) + delay + 1 + k * period
      ensures alarm.stops == old(alarm.stops) ==> forall k :: 0 <= k < |alarm.fired| ==>
        alarm.fired[k] == old(nticks) + delay + 1 + k * period
    {
      hide Inv, OnSchedule, NotEarly, IsRing, NoWayBack;
      ListedLinks(head);
      ghost var all := set a | a in [head] + done + pending;
      var _ := Start(alarm, delay, Periodic(period), all);
      Run(apps);
      if alarm.stops == old(alarm.stops) {
        forall tick: nat
          ensures tick in alarm.fired <==>
            tick <= nticks && exists k: nat :: tick == old(nticks) + delay + 1 + k * period
        {
          ExactSchedule(alarm, apps, tick);
        }
        ExactSchedule(alarm, apps, 0);
      }
    }

    method Event(apps: seq<Alarm>)
      requires Valid() && Owned(apps) && cmpLow < POW32 && Compare() == lastTick + DELTA
      modifies this`mtime, this`instants, this`cmpLow, this`cmpHigh, this`nticks, this`lastTick,
               this`done, this`pending, this`stopped, this`current, this`walked, this`called, this`answers, head, apps
      ensures Valid() && Owned(apps) && Carries(apps) && cmpLow < POW32 && Compare() == lastTick + DELTA
      ensures nticks in {old(nticks), old(nticks) + 1}
    {
      hide Alarms, OnSchedule, NotEarly, IsRing;
      Pass();
      var interruptsOn: bool := *;
      if interruptsOn && mtime >= Compare() {
        TimerIsr(apps);
      } else if apps != [] {
        assert apps[0] in apps;
        var x :| x in apps;
        if * {
          StartSome(x, apps);
        } else {
          StopSome(x, apps);
        }
      }
    }
  }
}
