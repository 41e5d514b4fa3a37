/**
 The file descriptor table: allocation, the high-water mark and exclusive use.
 */
module FileTable {

  const MAX_FD: nat := 32
  const EACCES: int := 13
  const EMFILE: int := 24

  /** What a descriptor can refer to. */
  datatype Device = Character(id: nat) | FileSystem(id: nat)

  /** A slot: free, or referring to a device; the two flags are the ones the table itself uses. */
  datatype Fd = Free | Used(dev: Device, isDev: bool, excl: bool)

  /** The descriptor pool and the highest descriptor ever allocated (-1 before the first). */
  datatype Table = Table(fds: seq<Fd>, max: int)

  const NULL_DEVICE := Character(0)

  /** At reset the three standard descriptors refer to the null device. */
  function Reset(): Table {
    Table(seq(MAX_FD, i => if i < 3 then Used(NULL_DEVICE, false, false) else Free), -1)
  }

  predicate Shaped(t: Table) {
    |t.fds| == MAX_FD && -1 <= t.max < MAX_FD
  }

  predicate Same(t: Table, i: nat, j: nat)
    requires i < |t.fds| && j < |t.fds|
  {
    t.fds[i].Used? && t.fds[j].Used? && t.fds[i].dev == t.fds[j].dev
  }

  /** What holds over all runs, whatever is locked. */
  ghost predicate Sound(t: Table) {
    && Shaped(t)
    && (forall i :: 0 <= i < 3 ==> t.fds[i].Used?)
    && (forall i {:trigger t.fds[i]} :: 0 <= i < MAX_FD && t.fds[i].Used? ==> i <= 2 || i <= t.max)
    && (forall i {:trigger t.fds[i]} :: 0 <= i < MAX_FD && t.fds[i].Used? && t.fds[i].excl ==> t.fds[i].isDev)
    && (forall i {:trigger t.fds[i]} :: 0 <= i < MAX_FD && t.fds[i].Used? && t.fds[i].isDev ==>
          t.fds[i].dev.Character? && i <= t.max && 3 <= t.max)
  }

  /** A descriptor held for exclusive use is the only one on its device. */
  ghost predicate Exclusive(t: Table) {
    forall i, j {:trigger Same(t, i, j)} :: 0 <= i < |t.fds| && 0 <= j < |t.fds| && i != j ==>
      t.fds[i].Used? && t.fds[i].excl ==> !Same(t, i, j)
  }

  // ---------- the operations on values ----------

  /** The first free slot from i on, or MAX_FD. */
  function FirstFree(fds: seq<Fd>, i: nat): (k: nat)
    requires |fds| == MAX_FD && i <= MAX_FD
    ensures i <= k <= MAX_FD
    ensures k < MAX_FD ==> fds[k].Free?
    ensures forall j :: i <= j < k ==> fds[j].Used?
    decreases MAX_FD - i
  {
    if i == MAX_FD || fds[i].Free? then i else FirstFree(fds, i + 1)
  }

  /** Does a descriptor below `bound`, other than fd, hold fd's device for exclusive use? */
  predicate LockedBelow(t: Table, fd: nat, bound: int)
    requires fd < |t.fds| && bound <= |t.fds|
  {
    exists i :: 0 <= i < bound && i != fd && Same(t, i, fd) && t.fds[i].excl
  }

  /** Does a descriptor below `bound`, other than fd, refer to fd's device? */
  predicate SharedBelow(t: Table, fd: nat, bound: int)
    requires fd < |t.fds| && bound <= |t.fds|
  {
    exists i :: 0 <= i < bound && i != fd && Same(t, i, fd)
  }

  /** A slot taken for a new descriptor, the mark raised to it. */
  function Allocated(t: Table, k: nat, dev: Device, isDev: bool): Table
    requires k < |t.fds|
  {
    Table(t.fds[k := Used(dev, isDev, false)], if k > t.max then k else t.max)
  }

  /** Descriptors 0 to 2 are never given back. */
  function Released(t: Table, fd: int): Table
    requires fd < |t.fds|
  {
    if fd > 2 then t.(fds := t.fds[fd := Free]) else t
  }

  /**
   open(): the descriptor or a negated error.  `driver` is what the driver's own open
   answers, negative for an error; file systems are not checked for locks.
   */
  function Opened(t: Table, dev: Device, driver: int): (Table, int)
    requires Shaped(t)
  {
    var k := FirstFree(t.fds, 0);
    if k == MAX_FD then (t, -EMFILE)
    else
      var t' := Allocated(t, k, dev, dev.Character?);
      if dev.Character? && LockedBelow(t', k, t'.max + 1) then (Released(t', k), -EACCES)
      else if driver < 0 then (Released(t', k), driver)
      else (t', k)
  }

  /**
   alt_open_fd: open the device and move what the new descriptor holds to a standard one;
   if it cannot be opened nothing changes.
   */
  function Redirected(t: Table, fd: nat, dev: Device, driver: int): Table
    requires Shaped(t) && fd < 3
  {
    var (u, k) := Opened(t, dev, driver);
    if k < 0 then u else Released(u.(fds := u.fds[fd := u.fds[k]]), k)
  }

  /** The lock request: refused if a descriptor below `bound` shares the device. */
  function Locked(t: Table, fd: nat, bound: int): (Table, int)
    requires fd < |t.fds| && t.fds[fd].Used? && bound <= |t.fds|
  {
    if SharedBelow(t, fd, bound) then (t, -EACCES)
    else (t.(fds := t.fds[fd := t.fds[fd].(excl := true)]), 0)
  }

  function Unlocked(t: Table, fd: nat): Table
    requires fd < |t.fds| && t.fds[fd].Used?
  {
    t.(fds := t.fds[fd := t.fds[fd].(excl := false)])
  }

  // ---------- the table in place ----------

  class Descriptors {
    const list: array<Fd>
    var max: int

    ghost function State(): Table
      reads this, list
    {
      Table(list[..], max)
    }

    constructor ()
      ensures State() == Reset() && fresh(list) && list.Length == 32
    {
      list := new Fd[MAX_FD](i => if 0 <= i < 3 then Used(NULL_DEVICE, false, false) else Free);
      max := -1;
      new;
      assert list[..] == Reset().fds;
    }

    /** alt_get_fd: take the first free slot. */
    method GetFd(dev: Device, isDev: bool) returns (rc: int)
      requires list.Length == MAX_FD && max < MAX_FD
      modifies this, list
      ensures var k := FirstFree(old(list[..]), 0);
        if k == MAX_FD then rc == -EMFILE && State() == old(State())
        else rc == k && State() == Allocated(old(State()), k, dev, isDev)
    {
      var i := 0;
      while i < MAX_FD
        invariant 0 <= i <= MAX_FD && State() == old(State())
        invariant FirstFree(list[..], 0) == FirstFree(list[..], i)
      {
        if list[i].Free? {
          list[i] := Used(dev, isDev, false);
          if i > max {
            max := i;
          }
          assert list[..] == old(list[..])[i := Used(dev, isDev, false)];
          return i;
        }
        i := i + 1;
      }
      return -EMFILE;
    }

    /** alt_file_locked: look for an exclusive holder of the same device, up to the mark. */
    method FileLocked(fd: nat) returns (locked: bool)
      requires list.Length == MAX_FD && fd < MAX_FD && list[fd].Used? && 0 <= max < MAX_FD
      ensures locked == LockedBelow(State(), fd, max + 1)
    {
      var i := 0;
      while i <= max
        invariant 0 <= i <= max + 1
        invariant !LockedBelow(State(), fd, i)
      {
        if list[i].Used? && list[i].dev == list[fd].dev && list[i].excl && i != fd {
          assert Same(State(), i, fd);
          return true;
        }
        i := i + 1;
      }
      return false;
    }

    method Release(fd: int)
      requires list.Length == MAX_FD && fd < MAX_FD
      modifies list
      ensures State() == Released(old(State()), fd)
    {
      if fd > 2 {
        list[fd] := Free;
        assert list[..] == old(list[..])[fd := Free];
      }
    }

    method Open(dev: Device, driver: int) returns (rc: int)
      requires list.Length == MAX_FD && -1 <= max < MAX_FD
      modifies this, list
      ensures (State(), rc) == Opened(old(State()), dev, driver)
    {
      rc := GetFd(dev, dev.Character?);
      if rc >= 0 {
        var fd := rc;
        if dev.Character? {
          var locked := FileLocked(fd);
          if locked {
            rc := -EACCES;
          }
        }
        if rc >= 0 && driver < 0 {
          rc := driver;
        }
        if rc < 0 {
          Release(fd);
        }
      }
    }

    method Redirect(fd: nat, dev: Device, driver: int)
      requires list.Length == MAX_FD && -1 <= max < MAX_FD && fd < 3
      modifies this, list
      ensures State() == Redirected(old(State()), fd, dev, driver)
    {
      var k := Open(dev, driver);
      if k >= 0 {
        ghost var was := list[..];
        list[fd] := list[k];
        assert list[..] == was[fd := was[k]];
        Release(k);
      }
    }

    /** alt_fd_lock: the scan stops short of the mark. */
    method Lock(fd: nat) returns (rc: int)
      requires list.Length == MAX_FD && fd < MAX_FD && list[fd].Used? && max < MAX_FD
      modifies list
      ensures (State(), rc) == Locked(old(State()), fd, max)
    {
      var i := 0;
      while i < max
        invariant 0 <= i && (i <= max || i == 0) && State() == old(State())
        invariant !SharedBelow(State(), fd, i)
      {
        if i != fd && list[i].Used? && list[i].dev == list[fd].dev {
          assert Same(State(), i, fd);
          return -EACCES;
        }
        i := i + 1;
      }
      list[fd] := list[fd].(excl := true);
      assert list[..] == old(list[..])[fd := old(list[fd]).(excl := true)];
      return 0;
    }

    method Unlock(fd: nat)
      requires list.Length == MAX_FD && fd < MAX_FD && list[fd].Used?
      modifies list
      ensures State() == Unlocked(old(State()), fd)
    {
      list[fd] := list[fd].(excl := false);
      assert list[..] == old(list[..])[fd := old(list[fd]).(excl := false)];
    }

    /** close(): `driverRc` is what the driver's own close answers; the slot is given back whatever it is. */
    method Close(fd: int, driverRc: int) returns (rc: int)
      requires list.Length == MAX_FD && fd < MAX_FD && (fd >= 0 ==> list[fd].Used?)
      modifies list
      ensures rc == if fd < 0 || driverRc < 0 then -1 else 0
      ensures State() == Released(old(State()), fd)
    {
      if fd < 0 {
        return -1;
      }
      Release(fd);
      rc := if driverRc < 0 then -1 else 0;
    }

    /** One call of a run. */
    method Perform(op: Op)
      requires Shaped(State())
      modifies this, list
      ensures State() == Step(old(State()), op, false)
    {
      match op {
        case OpenOp(dev, driver) =>
          var fd := Open(dev, driver);
        case RedirectOp(fd, dev, driver) =>
          if fd < 3 {
            Redirect(fd, dev, driver);
          }
        case LockOp(fd) =>
          if fd < MAX_FD && list[fd].Used? && list[fd].isDev {
            var rc := Lock(fd);
          }
        case UnlockOp(fd) =>
          if fd < MAX_FD && list[fd].Used? && list[fd].isDev {
            Unlock(fd);
          }
        case CloseOp(fd) =>
          if fd < MAX_FD && list[fd].Used? {
            var rc := Close(fd, 0);
          }
      }
    }

    /** A whole run of calls on the table in place. */
    method PerformAll(ops: seq<Op>)
      requires Shaped(State())
      modifies this, list
      ensures State() == Run(old(State()), ops, false)
    {
      hide Step;
      var i := 0;
      while i < |ops|
        invariant 0 <= i <= |ops| && Shaped(State())
        invariant Run(old(State()), ops, false) == Run(State(), ops[i..], false)
      {
        assert ops[i..][0] == ops[i] && ops[i..][1..] == ops[i + 1..];
        Perform(ops[i]);
        i := i + 1;
      }
    }
  }

  // ---------- all runs ----------

  datatype Op =
    | OpenOp(dev: Device, driver: int)
    | RedirectOp(fd: nat, dev: Device, driver: int)
    | LockOp(fd: nat)
    | UnlockOp(fd: nat)
    | CloseOp(fd: nat)

  predicate InUse(t: Table, fd: nat) {
    fd < |t.fds| && t.fds[fd].Used?
  }

  /** How far a lock's scan goes: up to the mark as the code has it, or including it, as open() does. */
  function Bound(t: Table, inclusive: bool): int {
    if inclusive then t.max + 1 else t.max
  }

  /** One call; lock and unlock requests reach the table only for descriptors of devices. */
  function Step(t: Table, op: Op, inclusive: bool): (u: Table)
    requires Shaped(t)
    ensures Shaped(u)
  {
    match op
    case OpenOp(dev, driver) => Opened(t, dev, driver).0
    case RedirectOp(fd, dev, driver) => if fd < 3 then Redirected(t, fd, dev, driver) else t
    case LockOp(fd) => if InUse(t, fd) && t.fds[fd].isDev then Locked(t, fd, Bound(t, inclusive)).0 else t
    case UnlockOp(fd) => if InUse(t, fd) && t.fds[fd].isDev then Unlocked(t, fd) else t
    case CloseOp(fd) => if InUse(t, fd) then Released(t, fd) else t
  }

  lemma StepSound(t: Table, op: Op, inclusive: bool)
    requires Sound(t)
    ensures Sound(Step(t, op, inclusive))
  {
    hide Opened, Redirected, Locked, Unlocked, Released;
    match op {
      case OpenOp(dev, driver) => OpenSound(t, dev, driver);
      case RedirectOp(fd, dev, driver) =>
        if fd < 3 {
          RedirectSound(t, fd, dev, driver);
        }
      case LockOp(fd) =>
        if InUse(t, fd) && t.fds[fd].isDev {
          LockSound(t, fd, Bound(t, inclusive));
        }
      case UnlockOp(fd) =>
        if InUse(t, fd) && t.fds[fd].isDev {
          UnlockSound(t, fd);
        }
      case CloseOp(fd) =>
        if InUse(t, fd) {
          CloseSound(t, fd);
        }
    }
  }

  lemma OpenSound(t: Table, dev: Device, driver: int)
    requires Sound(t)
    ensures Sound(Opened(t, dev, driver).0)
    ensures var (u, k) := Opened(t, dev, driver);
      k >= 0 ==> 3 <= k < MAX_FD && u.max >= k && u.fds[k] == Used(dev, dev.Character?, false)
  {
    hide LockedBelow;
  }

  lemma RedirectSound(t: Table, fd: nat, dev: Device, driver: int)
    requires Sound(t) && fd < 3
    ensures Sound(Redirected(t, fd, dev, driver))
  {
    hide Opened;
    OpenSound(t, dev, driver);
  }

  lemma LockSound(t: Table, fd: nat, bound: int)
    requires Sound(t) && InUse(t, fd) && t.fds[fd].isDev && bound <= |t.fds|
    ensures Sound(Locked(t, fd, bound).0)
  {
    hide SharedBelow;
  }

  lemma UnlockSound(t: Table, fd: nat)
    requires Sound(t) && InUse(t, fd)
    ensures Sound(Unlocked(t, fd))
  {
  }

  lemma CloseSound(t: Table, fd: nat)
    requires Sound(t) && fd < MAX_FD
    ensures Sound(Released(t, fd))
  {
  }

  // ---------- what the calls answer ----------

  /** Some descriptor holds the device for exclusive use. */
  predicate Held(t: Table, dev: Device) {
    exists i :: 0 <= i < |t.fds| && t.fds[i].Used? && t.fds[i].dev == dev && t.fds[i].excl
  }

  predicate HasRoom(t: Table) {
    exists i :: 0 <= i < |t.fds| && t.fds[i].Free?
  }

  /**
   open() answers: no room first, then a held device, then the driver's own error.  On
   success the first free slot refers to the device; on an error every slot is as before.
   */
  lemma OpenAnswers(t: Table, dev: Device, driver: int)
    requires Sound(t)
    ensures var (u, rc) := Opened(t, dev, driver);
      && rc == (if !HasRoom(t) then -24
                else if dev.Character? && Held(t, dev) then -13
                else if driver < 0 then driver
                else FirstFree(t.fds, 0))
      && (rc >= 0 ==> 3 <= rc < MAX_FD && t.fds[rc].Free? && u.fds == t.fds[rc := Used(dev, dev.Character?, false)])
      && (rc < 0 ==> u.fds == t.fds)
      && (rc >= 0 ==> u.max == if rc > t.max then rc else t.max)
  {
    var k := FirstFree(t.fds, 0);
    if k < MAX_FD {
      assert t.fds[k].Free?;
      var t' := Allocated(t, k, dev, dev.Character?);
      HeldBelowMark(t);
      HeldSeen(t, k, dev);
      assert t.fds[k := Used(dev, dev.Character?, false)][k := Free] == t.fds;
    }
  }

  /** The scan up to the mark finds a holder exactly when there is one. */
  lemma HeldSeen(t: Table, k: nat, dev: Device)
    requires Shaped(t) && k < MAX_FD && t.fds[k].Free?
    requires forall i {:trigger t.fds[i]} :: 0 <= i < |t.fds| && t.fds[i].Used? && t.fds[i].excl ==>
      t.fds[i].dev.Character? && i <= t.max
    ensures var t' := Allocated(t, k, dev, dev.Character?);
      LockedBelow(t', k, t'.max + 1) <==> Held(t, dev)
  {
    var t' := Allocated(t, k, dev, dev.Character?);
    if Held(t, dev) {
      var i :| 0 <= i < |t.fds| && t.fds[i].Used? && t.fds[i].dev == dev && t.fds[i].excl;
      assert Same(t', i, k) && t'.fds[i].excl;
    }
    if LockedBelow(t', k, t'.max + 1) {
      var i :| 0 <= i < t'.max + 1 && i != k && Same(t', i, k) && t'.fds[i].excl;
      assert t.fds[i].Used? && t.fds[i].dev == dev && t.fds[i].excl;
    }
  }

  /** close() gives back what open() took, and nothing else; the standard descriptors stay. */
  lemma CloseUndoesOpen(t: Table, dev: Device, driver: int, fd: nat)
    requires Sound(t) && fd < MAX_FD
    ensures var (u, rc) := Opened(t, dev, driver); rc >= 0 ==> Released(u, rc).fds == t.fds
    ensures Released(t, fd).fds == if fd <= 2 then t.fds else t.fds[fd := Free]
  {
    hide Opened, Held;
    OpenAnswers(t, dev, driver);
    var (u, rc) := Opened(t, dev, driver);
    if rc >= 0 {
      assert t.fds[rc := Used(dev, dev.Character?, false)][rc := Free] == t.fds;
    }
  }

  /** A redirection changes the one standard descriptor if the device opens, and no slot if it does not. */
  lemma RedirectAnswers(t: Table, fd: nat, dev: Device, driver: int)
    requires Sound(t) && fd < 3
    ensures Redirected(t, fd, dev, driver).fds ==
      if Opened(t, dev, driver).1 >= 0 then t.fds[fd := Used(dev, dev.Character?, false)] else t.fds
  {
    hide Opened, Held;
    OpenAnswers(t, dev, driver);
    var (u, k) := Opened(t, dev, driver);
    if k >= 0 {
      assert u.fds[fd := u.fds[k]][k := Free] == t.fds[fd := Used(dev, dev.Character?, false)];
    }
  }

  /** Unlocking undoes locking, and lets the device be opened that was refused before. */
  lemma UnlockUndoesLock(t: Table, fd: nat, bound: int, driver: int)
    requires Sound(t) && Exclusive(t) && InUse(t, fd) && bound <= |t.fds|
    ensures !t.fds[fd].excl ==> Unlocked(Locked(t, fd, bound).0, fd) == t
    ensures Unlocked(t, fd).fds == t.fds[fd := Used(t.fds[fd].dev, t.fds[fd].isDev, false)]
    ensures t.fds[fd].excl && HasRoom(t) ==> Opened(t, t.fds[fd].dev, driver).1 == -13
    ensures t.fds[fd].excl && HasRoom(t) && driver >= 0 ==> Opened(Unlocked(t, fd), t.fds[fd].dev, driver).1 >= 0
  {
    hide Opened, SharedBelow;
    var dev, u := t.fds[fd].dev, Unlocked(t, fd);
    if !t.fds[fd].excl {
      var held := t.fds[fd := t.fds[fd].(excl := true)];
      assert held[fd := held[fd].(excl := false)] == t.fds;
    } else if HasRoom(t) {
      OpenAnswers(t, dev, driver);
      UnlockSound(t, fd);
      OpenAnswers(u, dev, driver);
      var i :| 0 <= i < |t.fds| && t.fds[i].Free?;
      assert u.fds[i].Free?;
      NotHeld(t, fd);
    }
  }

  /** An exclusive holder is the only one. */
  lemma NotHeld(t: Table, fd: nat)
    requires Exclusive(t) && InUse(t, fd) && t.fds[fd].excl
    ensures !Held(Unlocked(t, fd), t.fds[fd].dev)
  {
    var u := Unlocked(t, fd);
    forall i | 0 <= i < |u.fds| && u.fds[i].Used? && u.fds[i].dev == t.fds[fd].dev
      ensures !u.fds[i].excl
    {
      assert i != fd ==> Same(t, fd, i);
    }
  }

  /** The descriptors the lock's scan leaves out: those at the mark and above. */
  predicate SharedAtTop(t: Table, fd: nat)
    requires fd < |t.fds|
  {
    exists i :: 0 <= i < |t.fds| && t.max <= i && i != fd && Same(t, i, fd)
  }

  /** The one call that can break exclusive use. */
  predicate Breaks(t: Table, op: Op)
    requires Shaped(t)
  {
    && op.LockOp? && InUse(t, op.fd) && t.fds[op.fd].isDev
    && !SharedBelow(t, op.fd, t.max) && SharedAtTop(t, op.fd)
  }

  /** A call keeps use exclusive exactly when it is not such a lock. */
  lemma StepExclusive(t: Table, op: Op)
    requires Sound(t) && Exclusive(t)
    ensures Exclusive(Step(t, op, false)) <==> !Breaks(t, op)
  {
    match op {
      case OpenOp(dev, driver) => OpenExclusive(t, dev, driver);
      case RedirectOp(fd, dev, driver) =>
        if fd < 3 {
          RedirectExclusive(t, fd, dev, driver);
        }
      case LockOp(fd) =>
        if InUse(t, fd) && t.fds[fd].isDev && !SharedBelow(t, fd, t.max) {
          LockExclusive(t, fd);
        }
      case UnlockOp(fd) => Fewer(t, Step(t, op, false));
      case CloseOp(fd) => Fewer(t, Step(t, op, false));
    }
  }

  /** Fewer descriptors in use, or fewer held, keeps use exclusive. */
  lemma Fewer(t: Table, u: Table)
    requires Exclusive(t) && |t.fds| == |u.fds|
    requires forall i {:trigger u.fds[i]} :: 0 <= i < |u.fds| && u.fds[i].Used? ==>
      t.fds[i].Used? && u.fds[i].dev == t.fds[i].dev && (u.fds[i].excl ==> t.fds[i].excl)
    ensures Exclusive(u)
  {
    forall i, j | 0 <= i < |u.fds| && 0 <= j < |u.fds| && i != j && u.fds[i].Used? && u.fds[i].excl
      ensures !Same(u, i, j)
    {
      assert !Same(t, i, j);
    }
  }

  /** open() never lets a second descriptor onto a device held for exclusive use. */
  lemma OpenExclusive(t: Table, dev: Device, driver: int)
    requires Sound(t) && Exclusive(t)
    ensures Exclusive(Opened(t, dev, driver).0)
  {
    hide Opened;
    OpenAnswers(t, dev, driver);
    HeldBelowMark(t);
    var (u, k) := Opened(t, dev, driver);
    if k >= 0 {
      AddedExclusive(t, u, k, dev);
    } else {
      SameSlots(t, u);
    }
  }

  /** A held descriptor is on a character device, at or below the mark. */
  lemma HeldBelowMark(t: Table)
    requires Sound(t)
    ensures forall i {:trigger t.fds[i]} :: 0 <= i < |t.fds| && t.fds[i].Used? && t.fds[i].excl ==>
      t.fds[i].dev.Character? && i <= t.max
  {
  }

  lemma SameSlots(t: Table, u: Table)
    requires Exclusive(t) && u.fds == t.fds
    ensures Exclusive(u)
  {
    Fewer(t, u);
  }

  lemma AddedExclusive(t: Table, u: Table, k: nat, dev: Device)
    requires Exclusive(t) && k < |t.fds| && u.fds == t.fds[k := Used(dev, dev.Character?, false)]
    requires forall i {:trigger t.fds[i]} :: 0 <= i < |t.fds| && t.fds[i].Used? && t.fds[i].excl ==>
      t.fds[i].dev.Character?
    requires dev.Character? ==> !Held(t, dev)
    ensures Exclusive(u)
  {
    forall i, j | 0 <= i < |u.fds| && 0 <= j < |u.fds| && i != j && u.fds[i].Used? && u.fds[i].excl
      ensures !Same(u, i, j)
    {
      assert i != k && t.fds[i].excl;
      if j != k {
        assert !Same(t, i, j);
      }
    }
  }

  /** Moving a descriptor just opened onto a standard one keeps use exclusive. */
  lemma RedirectExclusive(t: Table, fd: nat, dev: Device, driver: int)
    requires Sound(t) && Exclusive(t) && fd < 3
    ensures Exclusive(Redirected(t, fd, dev, driver))
  {
    OpenExclusive(t, dev, driver);
    var (u, k) := Opened(t, dev, driver);
    if k >= 0 {
      var v := Redirected(t, fd, dev, driver);
      forall i, j | 0 <= i < |v.fds| && 0 <= j < |v.fds| && i != j && v.fds[i].Used? && v.fds[i].excl
        ensures !Same(v, i, j)
      {
        assert !Same(u, i, if j == fd then k else j);
      }
    }
  }

  /** A granted lock is exclusive exactly when no descriptor the scan left out shares the device. */
  lemma LockExclusive(t: Table, fd: nat)
    requires Sound(t) && Exclusive(t) && InUse(t, fd) && !SharedBelow(t, fd, t.max)
    ensures Exclusive(Locked(t, fd, t.max).0) <==> !SharedAtTop(t, fd)
  {
    var u := Locked(t, fd, t.max).0;
    if SharedAtTop(t, fd) {
      var i :| 0 <= i < |t.fds| && t.max <= i && i != fd && Same(t, i, fd);
      assert Same(u, fd, i);
    } else {
      forall i, j | 0 <= i < |u.fds| && 0 <= j < |u.fds| && i != j && u.fds[i].Used? && u.fds[i].excl
        ensures !Same(u, i, j)
      {
        if i == fd {
          var sharing := Same(t, j, fd);
        } else {
          assert !Same(t, i, j);
        }
      }
    }
  }

  /** While two standard descriptors share a device, none of its descriptors is ever granted a lock. */
  lemma ConsoleNeverLocked(t: Table, fd: nat)
    requires Sound(t) && InUse(t, fd) && t.fds[fd].isDev && Same(t, 0, fd) && Same(t, 1, fd)
    ensures Locked(t, fd, t.max) == (t, -EACCES)
  {
    var i := if fd == 0 then 1 else 0;
    assert 0 <= i < t.max && i != fd && Same(t, i, fd);
  }

  function Run(t: Table, ops: seq<Op>, inclusive: bool): (u: Table)
    requires Shaped(t)
    ensures Shaped(u)
    decreases |ops|
  {
    if ops == [] then t else Run(Step(t, ops[0], inclusive), ops[1..], inclusive)
  }

  /** Some call of the run is a lock that leaves out a sharer. */
  predicate SomeBreaks(t: Table, ops: seq<Op>)
    requires Shaped(t)
    decreases |ops|
  {
    ops != [] && (Breaks(t, ops[0]) || SomeBreaks(Step(t, ops[0], false), ops[1..]))
  }

  /** Over all runs allocated descriptors stay at or below max(2, mark), among the rest of Sound. */
  lemma {:induction false} RunSound(t: Table, ops: seq<Op>, inclusive: bool)
    requires Sound(t)
    ensures Sound(Run(t, ops, inclusive))
    decreases |ops|
  {
    if ops != [] {
      StepSound(t, ops[0], inclusive);
      RunSound(Step(t, ops[0], inclusive), ops[1..], inclusive);
    }
  }

  /** Use is exclusive before, between and after the calls of a run. */
  ghost predicate ExclusiveThroughout(t: Table, ops: seq<Op>, inclusive: bool)
    requires Shaped(t)
    decreases |ops|
  {
    Exclusive(t) && (ops != [] ==> ExclusiveThroughout(Step(t, ops[0], inclusive), ops[1..], inclusive))
  }

  /** A run keeps use exclusive all the way through exactly when it has no such lock. */
  lemma {:induction false} RunExclusive(t: Table, ops: seq<Op>)
    requires Sound(t) && Exclusive(t)
    ensures ExclusiveThroughout(t, ops, false) <==> !SomeBreaks(t, ops)
    ensures !SomeBreaks(t, ops) ==> Exclusive(Run(t, ops, false))
    decreases |ops|
  {
    hide Step, Breaks;
    if ops != [] {
      StepSound(t, ops[0], false);
      StepExclusive(t, ops[0]);
      if !Breaks(t, ops[0]) {
        RunExclusive(Step(t, ops[0], false), ops[1..]);
      }
    }
  }

  /** With the inclusive scan no call breaks exclusive use. */
  lemma InclusiveStep(t: Table, op: Op)
    requires Sound(t) && Exclusive(t)
    ensures Exclusive(Step(t, op, true))
  {
    if op.LockOp? && InUse(t, op.fd) && t.fds[op.fd].isDev && !SharedBelow(t, op.fd, t.max + 1) {
      InclusiveScan(t, op.fd);
      InclusiveLock(t, op.fd);
    } else if !op.LockOp? {
      StepExclusive(t, op);
    }
  }

  lemma InclusiveLock(t: Table, fd: nat)
    requires Exclusive(t) && fd < |t.fds| && t.fds[fd].Used? && t.max < |t.fds|
    requires forall i :: 0 <= i < |t.fds| && i != fd ==> !Same(t, i, fd)
    ensures Exclusive(Locked(t, fd, t.max + 1).0)
  {
    var u := Locked(t, fd, t.max + 1).0;
    forall i, j | 0 <= i < |u.fds| && 0 <= j < |u.fds| && i != j && u.fds[i].Used? && u.fds[i].excl
      ensures !Same(u, i, j)
    {
      if i == fd {
        assert !Same(t, j, fd);
      } else {
        assert !Same(t, i, j);
      }
    }
  }

  /** With the inclusive scan every run keeps use exclusive all the way through. */
  lemma {:induction false} InclusiveRun(t: Table, ops: seq<Op>)
    requires Sound(t) && Exclusive(t)
    ensures ExclusiveThroughout(t, ops, true) && Exclusive(Run(t, ops, true))
    decreases |ops|
  {
    hide Step;
    if ops != [] {
      StepSound(t, ops[0], true);
      InclusiveStep(t, ops[0]);
      InclusiveRun(Step(t, ops[0], true), ops[1..]);
    }
  }

  /** In particular every run from reset. */
  lemma InclusiveFromReset(ops: seq<Op>)
    ensures ExclusiveThroughout(Reset(), ops, true)
  {
    ResetSound();
    InclusiveRun(Reset(), ops);
  }

  lemma ResetSound()
    ensures Sound(Reset()) && Exclusive(Reset())
  {
  }

  /** What alt_io_redirect does before main: standard out, standard in, standard error. */
  function Startup(output: Device, input: Device, error: Device, d1: int, d0: int, d2: int): seq<Op> {
    [RedirectOp(1, output, d1), RedirectOp(0, input, d0), RedirectOp(2, error, d2)]
  }

  /**
   The table an application starts with, whatever its three devices answer, and every run
   from there: exclusive throughout exactly when no lock misses a sharer, and always with
   the inclusive scan.
   */
  lemma FromStartup(output: Device, input: Device, error: Device, d1: int, d0: int, d2: int, ops: seq<Op>)
    ensures var t := Run(Reset(), Startup(output, input, error, d1, d0, d2), false);
      && Sound(t) && Exclusive(t)
      && (ExclusiveThroughout(t, ops, false) <==> !SomeBreaks(t, ops))
      && ExclusiveThroughout(t, ops, true)
  {
    hide *;
    var startup := Startup(output, input, error, d1, d0, d2);
    ResetSound();
    NoLocksAtStartup(output, input, error, d1, d0, d2);
    RunSound(Reset(), startup, false);
    RunExclusive(Reset(), startup);
    var t := Run(Reset(), startup, false);
    RunExclusive(t, ops);
    InclusiveRun(t, ops);
  }

  lemma NoLocksAtStartup(output: Device, input: Device, error: Device, d1: int, d0: int, d2: int)
    ensures !SomeBreaks(Reset(), Startup(output, input, error, d1, d0, d2))
  {
    hide Reset;
    ResetSound();
    NoLockBreaks(Reset(), Startup(output, input, error, d1, d0, d2));
  }

  lemma {:induction false} NoLockBreaks(t: Table, ops: seq<Op>)
    requires Shaped(t) && forall i :: 0 <= i < |ops| ==> !ops[i].LockOp?
    ensures !SomeBreaks(t, ops)
    decreases |ops|
  {
    hide Step;
    if ops != [] {
      NoLockBreaks(Step(t, ops[0], false), ops[1..]);
    }
  }

  /**
   With standard input on a device of its own, that device opened again as descriptor 3,
   the mark, and standard input locked: the lock misses descriptor 3.
   */
  lemma LockOfStdin(a: nat, b: nat)
    requires a != b && a != 0
    ensures var ops := Startup(Character(b), Character(a), Character(b), 0, 0, 0)
        + [OpenOp(Character(a), 0), LockOp(0)];
      var t := Run(Reset(), ops, false);
      !Exclusive(t) && t.fds[0] == Used(Character(a), true, true) && t.fds[3] == Used(Character(a), true, false)
  {
    hide Run, Exclusive;
    var A, B := Used(Character(a), true, false), Used(Character(b), true, false);
    var t1 := RedirectFirst(Reset(), 1, Character(b));
    var t2 := RedirectFirst(t1, 0, Character(a));
    var t3 := RedirectFirst(t2, 2, Character(b));
    var t4 := Step(t3, OpenOp(Character(a), 0), false);
    assert FirstFree(t3.fds, 0) == 3;
    assert t4 == Table(t3.fds[3 := A], 3);
    var t5 := Step(t4, LockOp(0), false);
    assert t5 == Table(t4.fds[0 := Used(Character(a), true, true)], 3);
    assert !Exclusive(t5) by {
      SharedWithHeld(t5, 0, 3);
    }
    var ops := Startup(Character(b), Character(a), Character(b), 0, 0, 0);
    FiveSteps(Reset(), ops + [OpenOp(Character(a), 0), LockOp(0)]);
  }

  /** Redirecting while only the standard descriptors are in use. */
  lemma RedirectFirst(t: Table, fd: nat, dev: Device) returns (u: Table)
    requires |t.fds| == MAX_FD && t.max <= 3 && -1 <= t.max && fd < 3 && dev.Character?
    requires forall i {:trigger t.fds[i]} :: 0 <= i < MAX_FD ==> (t.fds[i].Used? <==> i < 3)
    requires forall i {:trigger t.fds[i]} :: 0 <= i < 3 ==> !t.fds[i].excl
    ensures u == Step(t, RedirectOp(fd, dev, 0), false) == Table(t.fds[fd := Used(dev, true, false)], 3)
  {
    assert FirstFree(t.fds, 0) == 3;
    u := Step(t, RedirectOp(fd, dev, 0), false);
    assert u.fds == t.fds[fd := Used(dev, true, false)];
  }

  lemma SharedWithHeld(t: Table, i: nat, j: nat)
    requires i < |t.fds| && j < |t.fds| && i != j && Same(t, i, j) && t.fds[i].excl
    ensures !Exclusive(t)
  {
  }

  lemma FiveSteps(t: Table, ops: seq<Op>)
    requires Shaped(t) && |ops| == 5
    ensures Run(t, ops, false) ==
      Step(Step(Step(Step(Step(t, ops[0], false), ops[1], false), ops[2], false), ops[3], false), ops[4], false)
  {
    hide Step, Run;
    NextStep(t, ops, 0);
    NextStep(Step(t, ops[0], false), ops, 1);
    NextStep(Step(Step(t, ops[0], false), ops[1], false), ops, 2);
    NextStep(Step(Step(Step(t, ops[0], false), ops[1], false), ops[2], false), ops, 3);
    NextStep(Step(Step(Step(Step(t, ops[0], false), ops[1], false), ops[2], false), ops[3], false), ops, 4);
    RunOver(Step(Step(Step(Step(Step(t, ops[0], false), ops[1], false), ops[2], false), ops[3], false), ops[4], false));
    assert ops[0..] == ops && ops[5..] == [];
  }

  lemma NextStep(t: Table, ops: seq<Op>, i: nat)
    requires Shaped(t) && i < |ops|
    ensures Run(t, ops[i..], false) == Run(Step(t, ops[i], false), ops[i + 1..], false)
  {
    hide Step;
    assert ops[i..][1..] == ops[i + 1..];
  }

  lemma RunOver(t: Table)
    requires Shaped(t)
    ensures Run(t, [], false) == t
  {
  }

  /** Two opens of one device and a lock of the first: the second is the mark, and is missed. */
  lemma TwoOnALockedDevice(id: nat)
    requires id != 0
    ensures var t := Run(Reset(), [OpenOp(Character(id), 0), OpenOp(Character(id), 0), LockOp(3)], false);
      !Exclusive(t) && t.fds[3] == Used(Character(id), true, true) && t.fds[4] == Used(Character(id), true, false)
  {
    var open := OpenOp(Character(id), 0);
    var t1 := Step(Reset(), open, false);
    assert FirstFree(Reset().fds, 0) == 3;
    assert t1 == Table(Reset().fds[3 := Used(Character(id), true, false)], 3);
    var t2 := Step(t1, open, false);
    assert FirstFree(t1.fds, 0) == 4;
    assert t2 == Table(t1.fds[4 := Used(Character(id), true, false)], 4);
    var t3 := Step(t2, LockOp(3), false);
    assert Same(t3, 3, 4);
    assert Run(Reset(), [open, open, LockOp(3)], false) == Run(t1, [open, LockOp(3)], false)
      == Run(t2, [LockOp(3)], false) == Run(t3, [], false);
  }

  /** With the bound open() uses, a lock is granted exactly to the only descriptor on a device. */
  lemma InclusiveScan(t: Table, fd: nat)
    requires Sound(t) && InUse(t, fd) && t.max >= 2
    ensures !SharedBelow(t, fd, t.max + 1) <==> forall i :: 0 <= i < MAX_FD && i != fd ==> !Same(t, i, fd)
  {
  }
}
