/**
 The intrusive circular list of alarms.  The list head is itself an element; a list
 is the sequence of its elements starting at the head.
 */
module AlarmList {

  /** What an alarm's callback does with itself; Custom callbacks may do anything allowed. */
  datatype Callback = Periodic(period: nat) | Custom

  class Alarm {
    var next: Alarm?
    var previous: Alarm?
    var time: nat
    var callback: Callback
    ghost var startTick: nat   // the tick count when it was last started
    ghost var startMtime: nat  // the machine time when it was last started
    ghost var delay: nat       // the delay it was last started with, and what its own callback added
    ghost var fired: seq<nat>  // the tick counts at which it has been called back since
    ghost var firstMtime: nat  // the machine time of the first of those
    ghost var wanted: bool     // started, and since then neither stopped by the application nor ended by its callback
    ghost var stops: nat       // how often the application has stopped it

    constructor ()
      ensures next == null && previous == null && !wanted
    {
      next, previous, time, callback := null, null, 0, Custom;
      startTick, startMtime, delay, fired, firstMtime := 0, 0, 0, [], 0;
      wanted, stops := false, 0;
    }
  }

  ghost predicate Distinct(s: seq<Alarm>) {
    forall j, k :: 0 <= j < k < |s| ==> s[j] != s[k]
  }

  /** s, closed into a ring by both kinds of link. */
  ghost predicate IsRing(s: seq<Alarm>)
    reads s`next, s`previous
  {
    && |s| > 0
    && Distinct(s)
    && (forall i {:trigger s[i].next} :: 0 <= i < |s| - 1 ==> s[i].next == s[i + 1])
    && (forall i {:trigger s[i].previous} :: 0 < i < |s| ==> s[i].previous == s[i - 1])
    && s[|s| - 1].next == s[0] && s[0].previous == s[|s| - 1]
  }

  lemma RingDistinct(s: seq<Alarm>)
    requires IsRing(s)
    ensures Distinct(s)
  {
  }

  function Without(s: seq<Alarm>, a: Alarm): seq<Alarm> {
    if s == [] then []
    else if s[0] == a then Without(s[1..], a)
    else [s[0]] + Without(s[1..], a)
  }

  lemma WithoutShorter(s: seq<Alarm>, a: Alarm)
    ensures |Without(s, a)| <= |s|
  {
  }

  lemma {:induction false} WithoutAbsent(s: seq<Alarm>, a: Alarm)
    requires a !in s
    ensures Without(s, a) == s
  {
    if s != [] {
      WithoutAbsent(s[1..], a);
    }
  }

  lemma {:induction false} WithoutJoins(s: seq<Alarm>, t: seq<Alarm>, a: Alarm)
    ensures Without(s + t, a) == Without(s, a) + Without(t, a)
  {
    if s == [] {
      assert s + t == t;
    } else {
      assert (s + t)[1..] == s[1..] + t;
      WithoutJoins(s[1..], t, a);
    }
  }

  /** Taking an element out by position is taking it out by name, when nothing is listed twice. */
  lemma WithoutAt(s: seq<Alarm>, i: nat)
    requires i < |s| && Distinct(s)
    ensures s[..i] + s[i + 1..] == Without(s, s[i])
  {
    hide *;
    var a := s[i];
    Around(s, i);
    WithoutJoins(s[..i], [a] + s[i + 1..], a);
    WithoutJoins([a], s[i + 1..], a);
    WithoutAbsent(s[..i], a);
    WithoutAbsent(s[i + 1..], a);
    WithoutOnly(a);
    Nothing(Without(s[i + 1..], a));
  }

  lemma Around(s: seq<Alarm>, i: nat)
    requires i < |s| && Distinct(s)
    ensures s == s[..i] + ([s[i]] + s[i + 1..]) && s[i] !in s[..i] && s[i] !in s[i + 1..]
  {
  }

  lemma Nothing(s: seq<Alarm>)
    ensures [] + s == s
  {
  }

  lemma WithoutOnly(a: Alarm)
    ensures Without([a], a) == []
  {
  }

  /** Another element's removal leaves the first where it is. */
  lemma WithoutFirst(s: seq<Alarm>, a: Alarm)
    requires s != [] ==> s[0] != a
    ensures Without(s, a) == [] <==> s == []
    ensures s != [] ==> Without(s, a)[0] == s[0]
  {
  }

  lemma {:induction false} WithoutMembers(s: seq<Alarm>, a: Alarm)
    ensures forall b {:trigger b in Without(s, a)} {:trigger b in s} :: b in Without(s, a) <==> b in s && b != a
  {
    if s != [] {
      WithoutMembers(s[1..], a);
      assert s == [s[0]] + s[1..];
    }
  }

  /** The elements of s that are due, in order. */
  function Among(s: seq<Alarm>, due: set<Alarm>): seq<Alarm> {
    if s == [] then []
    else Among(s[..|s| - 1], due) + if s[|s| - 1] in due then [s[|s| - 1]] else []
  }

  lemma AmongNone(due: set<Alarm>)
    ensures Among([], due) == []
  {
  }

  lemma AmongNext(s: seq<Alarm>, a: Alarm, due: set<Alarm>)
    ensures Among(s + [a], due) == Among(s, due) + if a in due then [a] else []
  {
    assert (s + [a])[..|s|] == s;
  }

  // ---------- following the links ----------

  /** The element k links on from a, as far as the links stay inside the elements looked at. */
  ghost function Steps(a: Alarm?, k: nat, all: set<Alarm>): Alarm?
    reads all
    decreases k
  {
    if k == 0 || a == null || a !in all then a else Steps(a.next, k - 1, all)
  }

  ghost predicate Closed(s: set<Alarm>)
    reads s
  {
    forall a :: a in s ==> a.next != null && a.next in s
  }

  /** Links that stay inside a set never leave it. */
  lemma {:induction false} NeverLeaves(a: Alarm, k: nat, s: set<Alarm>, all: set<Alarm>)
    requires Closed(s) && a in s && s <= all
    ensures Steps(a, k, all) != null && Steps(a, k, all) in s
    decreases k
  {
    if k > 0 {
      NeverLeaves(a.next, k - 1, s, all);
    }
  }

  /** From the element at i the links lead round to the first one. */
  lemma {:induction false} LeadsToFirst(ring: seq<Alarm>, i: nat, all: set<Alarm>)
    requires IsRing(ring) && i < |ring| && forall a :: a in ring ==> a in all
    ensures Steps(ring[i], |ring| - i, all) == ring[0]
    decreases |ring| - i
  {
    assert ring[i] in ring;
    if i < |ring| - 1 {
      assert ring[i].next == ring[i + 1];
      LeadsToFirst(ring, i + 1, all);
    }
  }

  /**
   Link an entry in right after the head.  If it is already listed, the links from then on
   never lead back to the head, so that a walk of the list does not end.
   */
  method Insert(list: Alarm, entry: Alarm, ghost ring: seq<Alarm>, ghost all: set<Alarm>)
    requires IsRing(ring) && ring[0] == list && entry != list
    requires forall a :: a in ring ==> a in all
    modifies list`next, list.next`previous, entry`next, entry`previous
    ensures entry !in ring ==> IsRing([list, entry] + ring[1..])
    ensures entry in ring ==> NoWayBack(list, all)
  {
    entry.previous := list;
    entry.next := list.next;
    list.next.previous := entry;
    list.next := entry;
    if entry in ring {
      var i :| 0 <= i < |ring| && ring[i] == entry;
      assert list in ring;
      Loops(list, ring, i, all);
    }
  }

  /** However many links are followed from the head, it is not met again. */
  ghost predicate NoWayBack(list: Alarm, all: set<Alarm>)
    reads all
  {
    forall k: nat {:trigger Steps(list, k, all)} :: k > 0 ==> Steps(list, k, all) != list
  }

  /** A head that leads to ring[i], from where the links go round ring[1] to ring[i]. */
  lemma Loops(list: Alarm, ring: seq<Alarm>, i: nat, all: set<Alarm>)
    requires 0 < i < |ring| && list !in ring[1..] && list.next == ring[i]
    requires ring[i].next == ring[1] && forall j :: 1 <= j < i ==> ring[j].next == ring[j + 1]
    requires list in all && forall a :: a in ring ==> a in all
    ensures NoWayBack(list, all)
  {
    hide Closed;
    var loop := Loop(ring, i);
    LoopClosed(ring, i);
    assert list !in loop by {
      hide Steps;
      assert forall j :: 1 <= j <= i ==> ring[j] == ring[1..][j - 1];
    }
    assert ring[i] in loop;
    forall k: nat | k > 0
      ensures Steps(list, k, all) != list
    {
      NeverLeaves(ring[i], k - 1, loop, all);
    }
  }

  ghost function Loop(ring: seq<Alarm>, i: nat): set<Alarm>
    requires i < |ring|
  {
    set j | 1 <= j <= i :: ring[j]
  }

  lemma LoopClosed(ring: seq<Alarm>, i: nat)
    requires 0 < i < |ring|
    requires ring[i].next == ring[1] && forall j :: 1 <= j < i ==> ring[j].next == ring[j + 1]
    ensures Closed(Loop(ring, i))
  {
    forall a | a in Loop(ring, i)
      ensures a.next != null && a.next in Loop(ring, i)
    {
      var j :| 1 <= j <= i && a == ring[j];
      assert ring[1] in Loop(ring, i) && (j < i ==> ring[j + 1] in Loop(ring, i));
    }
  }

  /**
   Unlink an entry, wherever it is, and link it to itself; on an entry that is
   already unlinked this changes nothing.
   */
  method Remove(entry: Alarm, ghost ring: seq<Alarm>, ghost i: nat)
    requires IsRing(ring) && i < |ring| && ring[i] == entry
    modifies entry`next, entry`previous, entry.next`previous, entry.previous`next
    ensures IsRing([entry])
    ensures |ring| > 1 ==> IsRing(ring[..i] + ring[i + 1..])
    ensures |ring| == 1 ==> entry.next == old(entry.next) && entry.previous == old(entry.previous)
  {
    entry.next.previous := entry.previous;
    entry.previous.next := entry.next;
    entry.previous := entry;
    entry.next := entry;
  }
}
