// The table of file descriptors: allocation of the lowest free slot, exclusive locks on devices,
// the clean-up after a failed open, and the redirection of the standard descriptors at start-up.
module FdTable {

  type word = bv32

  const MAX_FD: nat := 32
  const EXCL: word := 0x8000_0000
  const DEV: word := 0x4000_0000
  const EACCES: int := 13
  const ENODEV: int := 19
  const EMFILE: int := 24
  const EBADFD: int := 81

  /** A device or file system; 0 is the null pointer. */
  type dev = nat

  datatype Entry = Entry(dev: dev, flags: word)

  const FREE := Entry(0, 0)

  /** The pool, and the highest index ever handed out. */
  datatype Table = Table(fds: seq<Entry>, maxFd: int)

  /** What a name stands for. */
  datatype Target = Device(d: dev) | FileSystem(d: dev) | Missing

  /** What `ioctl` is asked for: the two requests about locks, or one for the driver. */
  datatype Request = Exclusive | NotExclusive | Other

  function IsLocked(flags: word): bool { flags & EXCL != 0 }

  function IsDevice(flags: word): bool { flags & DEV != 0 }

  function WithLock(flags: word): word { flags | EXCL }

  function WithoutLock(flags: word): word { flags & !EXCL }

  function UserFlags(flags: word): word { flags & !(EXCL | DEV) }

  function Marked(flags: word): word { flags | DEV }

  lemma FlagBits(flags: word)
    ensures IsLocked(WithLock(flags)) && !IsLocked(WithoutLock(flags)) && !IsLocked(UserFlags(flags))
    ensures IsLocked(Marked(flags)) == IsLocked(flags) && !IsLocked(0)
  {
  }

  lemma DeviceBit(flags: word)
    ensures IsDevice(Marked(flags)) && !IsDevice(UserFlags(flags))
  {
  }

  /** The flags a caller may choose are kept apart from the two that the table uses. */
  lemma UserBits(flags: word)
    ensures UserFlags(UserFlags(flags)) == UserFlags(flags)
  {
  }

  lemma UserBitsMarked(flags: word)
    ensures UserFlags(Marked(flags)) == UserFlags(flags)
  {
  }

  // ----- the operations as functions of the table

  function FirstFree(fds: seq<Entry>, i: nat): (r: int)
    requires i <= |fds|
    ensures r == -1 || i <= r < |fds|
    decreases |fds| - i
  {
    if i == |fds| then -1 else if fds[i].dev == 0 then i else FirstFree(fds, i + 1)
  }

  lemma {:induction false} FirstFreeIsLowest(fds: seq<Entry>, i: nat)
    requires i <= |fds|
    ensures var r := FirstFree(fds, i);
      if r == -1 then forall k :: i <= k < |fds| ==> fds[k].dev != 0
      else fds[r].dev == 0 && forall k :: i <= k < r ==> fds[k].dev != 0
    decreases |fds| - i
  {
    if i < |fds| && fds[i].dev != 0 { FirstFreeIsLowest(fds, i + 1); }
  }

  /** Another descriptor holds the device of `fd` for itself. */
  ghost predicate HeldElsewhere(t: Table, fd: nat)
    requires fd < |t.fds|
  {
    exists i :: 0 <= i <= t.maxFd && i < |t.fds| && i != fd && t.fds[i].dev == t.fds[fd].dev && IsLocked(t.fds[i].flags)
  }

  ghost function Release(t: Table, fd: int): Table
    requires fd < |t.fds|
  {
    if fd > 2 then t.(fds := t.fds[fd := FREE]) else t
  }

  /** The slot taken for `d`. */
  function Taken(t: Table, fd: nat, d: dev): Table
    requires fd < |t.fds|
  {
    Table(t.fds[fd := Entry(d, t.fds[fd].flags)], if fd > t.maxFd then fd else t.maxFd)
  }

  function WithFlags(t: Table, fd: nat, flags: word): Table
    requires fd < |t.fds|
  {
    t.(fds := t.fds[fd := t.fds[fd].(flags := flags)])
  }

  /** `status` is what the driver's own open routine would report. */
  ghost function Opened(t: Table, target: Target, flags: word, status: int): (Table, int) {
    var fd := FirstFree(t.fds, 0);
    if target.Missing? || target.d == 0 then (t, -ENODEV)
    else if fd < 0 then (t, -EMFILE)
    else
      var t1 := WithFlags(Taken(t, fd, target.d), fd, UserFlags(flags));
      var t2 := if target.Device? then WithFlags(t1, fd, Marked(UserFlags(flags))) else t1;
      if target.Device? && HeldElsewhere(t2, fd) then (Release(t2, fd), -EACCES)
      else if status < 0 then (Release(t2, fd), status)
      else (t2, fd)
  }

  /** Another descriptor of the same device, among those the lock looks at. */
  ghost predicate SharedBelow(t: Table, fd: nat)
    requires fd < |t.fds|
  {
    exists i :: 0 <= i < t.maxFd && i < |t.fds| && i != fd && t.fds[i].dev == t.fds[fd].dev
  }

  ghost function Locked(t: Table, fd: nat): (Table, int)
    requires fd < |t.fds|
  {
    if SharedBelow(t, fd) then (t, -EACCES) else (WithFlags(t, fd, WithLock(t.fds[fd].flags)), 0)
  }

  ghost function Unlocked(t: Table, fd: nat): Table
    requires fd < |t.fds|
  {
    WithFlags(t, fd, WithoutLock(t.fds[fd].flags))
  }

  ghost function Closed(t: Table, fd: int, status: int): (Table, int)
    requires fd < |t.fds|
  {
    if fd < 0 then (t, -EBADFD) else (Release(t, fd), if status < 0 then status else 0)
  }

  /**
   * A request about a lock is served here if the descriptor is a device's; every other one gets the
   * answer `driver` of the device's own routine, or of the missing one.
   */
  ghost function Requested(t: Table, fd: nat, req: Request, driver: int): (Table, int)
    requires fd < |t.fds|
  {
    if !IsDevice(t.fds[fd].flags) || req.Other? then (t, driver)
    else if req.Exclusive? then Locked(t, fd)
    else (Unlocked(t, fd), 0)
  }

  /** A standard descriptor becomes a copy of a newly opened one, which is given back. */
  ghost function Redirected(t: Table, fd: nat, target: Target, flags: word, status: int): Table
    requires fd < |t.fds|
  {
    var (t', spare) := Opened(t, target, flags, status);
    if 0 <= spare < |t'.fds| && fd < |t'.fds| then Release(t'.(fds := t'.fds[fd := t'.fds[spare]]), spare) else t'
  }

  // ----- the invariant

  /** The standard descriptors are never free, and a free one is blank and below the mark. */
  ghost predicate Inv(t: Table) {
    && |t.fds| == MAX_FD && -1 <= t.maxFd < MAX_FD
    && (forall i :: 0 <= i < 3 ==> t.fds[i].dev != 0)
    && (forall i :: 3 <= i < MAX_FD && t.fds[i].dev != 0 ==> i <= t.maxFd)
    && (forall i :: 3 <= i < MAX_FD && t.fds[i].dev == 0 ==> t.fds[i] == FREE)
  }

  ghost predicate IsOpen(t: Table, fd: int) {
    0 <= fd < |t.fds| && t.fds[fd].dev != 0
  }

  /** Descriptor `fd` holds device `d` for itself. */
  ghost predicate Holds(t: Table, fd: int, d: dev) {
    IsOpen(t, fd) && t.fds[fd].dev == d && IsLocked(t.fds[fd].flags)
  }

  /** `open` hands out the lowest free descriptor. */
  lemma OpenIsLowest(t: Table, target: Target, flags: word, status: int)
    requires Inv(t) && Opened(t, target, flags, status).1 >= 0
    ensures var (t', fd) := Opened(t, target, flags, status);
      && !target.Missing? && 3 <= fd < MAX_FD && !IsOpen(t, fd) && IsOpen(t', fd) && t'.fds[fd].dev == target.d
      && !IsLocked(t'.fds[fd].flags) && (IsDevice(t'.fds[fd].flags) <==> target.Device?)
      && UserFlags(t'.fds[fd].flags) == UserFlags(flags)
      && (forall k :: 0 <= k < fd ==> IsOpen(t, k))
      && t'.fds == t.fds[fd := t'.fds[fd]]
  {
    FirstFreeIsLowest(t.fds, 0);
    FlagBits(flags);
    FlagBits(UserFlags(flags));
    DeviceBit(flags);
    DeviceBit(UserFlags(flags));
    UserBits(flags);
    UserBitsMarked(UserFlags(flags));
    hide IsLocked, IsDevice, UserFlags, Marked;
  }

  /** It fails for exactly these reasons, and a failure leaves every entry as it was. */
  lemma OpenFailsIff(t: Table, target: Target, flags: word, status: int)
    requires Inv(t)
    ensures var (t', fd) := Opened(t, target, flags, status);
      && (fd < 0 <==> target.Missing? || target.d == 0 || (forall k :: 0 <= k < MAX_FD ==> IsOpen(t, k))
                      || (target.Device? && exists h: nat :: Holds(t, h, target.d)) || status < 0)
      && (fd < 0 ==> t'.fds == t.fds)
  {
    FirstFreeIsLowest(t.fds, 0);
    FlagBits(flags);
    hide IsLocked, UserFlags, Marked;
    var fd := FirstFree(t.fds, 0);
    if !target.Missing? && target.d != 0 && fd >= 0 {
      assert fd >= 3 && t.fds[fd] == FREE && !IsOpen(t, fd);
      var t1 := WithFlags(Taken(t, fd, target.d), fd, UserFlags(flags));
      if target.Device? {
        var t2 := WithFlags(t1, fd, Marked(UserFlags(flags)));
        HeldIffHolder(t, t2, fd, target.d);
        assert t2.fds[fd := FREE] == t.fds;
      } else {
        assert t1.fds[fd := FREE] == t.fds;
      }
    }
  }

  lemma HeldIffHolder(t: Table, t2: Table, fd: nat, d: dev)
    requires Inv(t) && 3 <= fd < MAX_FD && t.fds[fd] == FREE && d != 0
    requires |t2.fds| == MAX_FD && t2.fds[fd].dev == d && t2.fds == t.fds[fd := t2.fds[fd]]
    requires t2.maxFd >= 3 && t2.maxFd >= t.maxFd
    ensures HeldElsewhere(t2, fd) <==> exists h: nat :: Holds(t, h, d)
  {
    hide IsLocked;
    if h: nat :| Holds(t, h, d) {
      assert t2.fds[h] == t.fds[h] && h <= t2.maxFd;
    }
    if HeldElsewhere(t2, fd) {
      var i :|
        0 <= i <= t2.maxFd && i < |t2.fds| && i != fd && t2.fds[i].dev == t2.fds[fd].dev && IsLocked(t2.fds[i].flags);
      assert Holds(t, i, d);
    }
  }

  // ----- locks

  /**
   * The scan stops short of the highest index ever used: a granted lock is exclusive exactly if no
   * other descriptor of the device sits at that index or, while the index is below them, among the
   * standard ones.
   */
  lemma LockIsExclusiveIff(t: Table, fd: nat)
    requires Inv(t) && IsOpen(t, fd) && Locked(t, fd).1 == 0
    ensures (forall i :: IsOpen(t, i) && t.fds[i].dev == t.fds[fd].dev ==> i == fd) <==>
            (forall i :: t.maxFd <= i && IsOpen(t, i) && t.fds[i].dev == t.fds[fd].dev ==> i == fd)
  {
    forall i | IsOpen(t, i) && t.fds[i].dev == t.fds[fd].dev && i != fd && i < t.maxFd ensures false {
      assert SharedBelow(t, fd);
    }
  }

  /** An unlocked device is opened at the first free descriptor. */
  lemma OpenFinds(t: Table, d: dev, fd: nat)
    requires Inv(t) && d != 0 && 3 <= fd < MAX_FD && !IsOpen(t, fd) && t.maxFd <= fd
    requires forall k :: 0 <= k < fd ==> IsOpen(t, k) && !Holds(t, k, d)
    ensures var t' := Opened(t, Device(d), 0, 0).0;
      && Inv(t') && t'.maxFd == fd && t'.fds == t.fds[fd := t'.fds[fd]]
      && t'.fds[fd].dev == d && !IsLocked(t'.fds[fd].flags) && IsDevice(t'.fds[fd].flags)
  {
    FirstFreeIsLowest(t.fds, 0);
    OpenOk(t, Device(d), 0, 0);
    OpenFailsIff(t, Device(d), 0, 0);
    OpenIsLowest(t, Device(d), 0, 0);
    hide IsLocked, UserFlags, Marked, HeldElsewhere;
    assert forall h: nat :: Holds(t, h, d) ==> h <= t.maxFd;
  }

  lemma LockGrantsIffUnshared(t: Table, fd: nat)
    requires Inv(t) && IsOpen(t, fd)
    ensures var (t', rc) := Locked(t, fd);
      && (rc == 0 <==> forall i :: 0 <= i < t.maxFd && i != fd ==> t.fds[i].dev != t.fds[fd].dev)
      && (rc == 0 ==> Holds(t', fd, t.fds[fd].dev)) && (rc != 0 ==> t' == t && rc == -EACCES)
  {
    FlagBits(t.fds[fd].flags);
    hide IsLocked, WithLock;
  }

  /** Unlocking undoes a lock exactly if the descriptor was not locked before. */
  lemma UnlockUndoesLockIff(t: Table, fd: nat)
    requires Inv(t) && IsOpen(t, fd) && Locked(t, fd).1 == 0
    ensures Unlocked(Locked(t, fd).0, fd) == t <==> !IsLocked(t.fds[fd].flags)
  {
    hide IsLocked, WithLock, WithoutLock, SharedBelow, Inv;
    var flags := t.fds[fd].flags;
    LockBits(flags);
    UpdateTwice(t.fds, fd, t.fds[fd].(flags := WithLock(flags)), t.fds[fd].(flags := WithoutLock(WithLock(flags))));
  }

  lemma UpdateTwice(s: seq<Entry>, i: nat, a: Entry, b: Entry)
    requires i < |s|
    ensures s[i := a][i := b] == s <==> b == s[i]
  {
    assert s[i := a][i := b][i] == b;
    if b == s[i] { assert s[i := a][i := b] == s; }
  }

  lemma LockBits(flags: word)
    ensures WithoutLock(WithLock(flags)) == flags <==> !IsLocked(flags)
  {
  }

  /** Closing a descriptor gives up its lock exactly if it is not one of the three standard ones. */
  lemma CloseUnlocksIff(t: Table, fd: nat, d: dev, status: int)
    requires Inv(t) && Holds(t, fd, d)
    ensures !Holds(Closed(t, fd, status).0, fd, d) <==> fd > 2
  {
    hide IsLocked;
  }

  /**
   * The request to give a lock up: the descriptor holds nothing any more and is otherwise as it
   * was, and if nobody else holds the device and a slot is free the device can be opened again.
   */
  lemma GivesUpLock(t: Table, fd: nat, driver: int, flags: word, status: int)
    requires Inv(t) && IsOpen(t, fd) && IsDevice(t.fds[fd].flags) && status >= 0
    ensures var (t', rc) := Requested(t, fd, NotExclusive, driver); var d := t.fds[fd].dev;
      && rc == 0 && Inv(t') && t'.fds == t.fds[fd := t'.fds[fd]] && t'.fds[fd].dev == d && !Holds(t', fd, d)
      && UserFlags(t'.fds[fd].flags) == UserFlags(t.fds[fd].flags) && IsDevice(t'.fds[fd].flags)
      && ((forall h: nat :: Holds(t, h, d) ==> h == fd) && (exists k :: 0 <= k < MAX_FD && !IsOpen(t, k)) ==>
            Opened(t', Device(d), flags, status).1 >= 0)
  {
    var (t', rc) := Requested(t, fd, NotExclusive, driver);
    FlagBits(t.fds[fd].flags);
    UnlockedFlags(t.fds[fd].flags);
    OpenFailsIff(t', Device(t.fds[fd].dev), flags, status);
    hide IsLocked, IsDevice, WithoutLock, UserFlags, Opened;
    if (forall h: nat :: Holds(t, h, t.fds[fd].dev) ==> h == fd) && (exists k :: 0 <= k < MAX_FD && !IsOpen(t, k)) {
      forall h: nat ensures !Holds(t', h, t.fds[fd].dev) {
        assert Holds(t', h, t.fds[fd].dev) ==> Holds(t, h, t.fds[fd].dev);
      }
      var k :| 0 <= k < MAX_FD && !IsOpen(t, k);
      assert !IsOpen(t', k);
    }
  }

  lemma UnlockedFlags(flags: word)
    ensures UserFlags(WithoutLock(flags)) == UserFlags(flags) && IsDevice(WithoutLock(flags)) == IsDevice(flags)
  {
  }

  /** The error number of a failed open: which of the reasons comes first. */
  lemma OpenReports(t: Table, target: Target, flags: word, status: int)
    requires Inv(t) && Opened(t, target, flags, status).1 < 0
    ensures Opened(t, target, flags, status).1 ==
      if target.Missing? || target.d == 0 then -ENODEV
      else if forall k :: 0 <= k < MAX_FD ==> IsOpen(t, k) then -EMFILE
      else if target.Device? && exists h: nat :: Holds(t, h, target.d) then -EACCES
      else status
  {
    FirstFreeIsLowest(t.fds, 0);
    FlagBits(flags);
    hide IsLocked, UserFlags, Marked;
    var fd := FirstFree(t.fds, 0);
    if !target.Missing? && target.d != 0 && fd >= 0 && target.Device? {
      assert fd >= 3 && t.fds[fd] == FREE && !IsOpen(t, fd);
      var t2 := WithFlags(WithFlags(Taken(t, fd, target.d), fd, UserFlags(flags)), fd, Marked(UserFlags(flags)));
      HeldIffHolder(t, t2, fd, target.d);
    } else if fd >= 0 {
      assert !IsOpen(t, fd);
    } else {
      assert forall k :: 0 <= k < MAX_FD ==> IsOpen(t, k);
    }
  }

  /** Every flag of the caller's but the two that the table uses is in the new entry. */
  lemma OpenKeepsFlags(t: Table, target: Target, flags: word, status: int, m: word)
    requires Inv(t) && Opened(t, target, flags, status).1 >= 0 && m & (EXCL | DEV) == 0
    ensures var (t', fd) := Opened(t, target, flags, status);
      0 <= fd < |t'.fds| && t'.fds[fd].flags & m == flags & m
  {
    OpenIsLowest(t, target, flags, status);
    var (t', fd) := Opened(t, target, flags, status);
    hide Opened;
    SameUserFlags(t'.fds[fd].flags, flags, m);
  }

  lemma SameUserFlags(a: word, b: word, m: word)
    requires UserFlags(a) == UserFlags(b) && m & (EXCL | DEV) == 0
    ensures a & m == b & m
  {
    KeptBits(a, m);
    KeptBits(b, m);
    hide UserFlags;
  }

  lemma KeptBits(a: word, m: word)
    requires m & (EXCL | DEV) == 0
    ensures UserFlags(a) & m == a & m
  {
  }

  /** What a close reports, and that it frees the descriptor even if the driver reports an error. */
  lemma CloseFrees(t: Table, fd: int, status: int)
    requires Inv(t) && (fd < 0 || IsOpen(t, fd))
    ensures var (t', rc) := Closed(t, fd, status);
      && rc == (if fd < 0 then -EBADFD else if status < 0 then status else 0)
      && (forall k :: 0 <= k < MAX_FD ==> (IsOpen(t', k) <==> IsOpen(t, k) && !(k == fd && k > 2)))
      && (forall k :: 0 <= k < MAX_FD && !(k == fd && k > 2) ==> t'.fds[k] == t.fds[k])
  {
  }

  // ----- runs

  datatype Action =
    | DoOpen(target: Target, flags: word, status: int)
    | DoIoctl(fd: nat, req: Request, driver: int)
    | DoClose(fd: nat, status: int)
    | DoRedirect(fd: nat, target: Target, flags: word, status: int)

  /** Only open descriptors are closed, and only standard ones are redirected. */
  ghost predicate Proper(t: Table, a: Action) {
    match a
    case DoOpen(_, _, _) => true
    case DoIoctl(fd, _, _) => fd < |t.fds|
    case DoClose(fd, _) => IsOpen(t, fd)
    case DoRedirect(fd, _, _, _) => fd <= 2 && fd < |t.fds|
  }

  ghost function Next(t: Table, a: Action): Table
    requires Proper(t, a)
  {
    match a
    case DoOpen(target, flags, status) => Opened(t, target, flags, status).0
    case DoIoctl(fd, req, driver) => Requested(t, fd, req, driver).0
    case DoClose(fd, status) => Closed(t, fd, status).0
    case DoRedirect(fd, target, flags, status) => Redirected(t, fd, target, flags, status)
  }

  lemma OpenOk(t: Table, target: Target, flags: word, status: int)
    requires Inv(t)
    ensures Inv(Opened(t, target, flags, status).0)
  {
    FirstFreeIsLowest(t.fds, 0);
    hide IsLocked, UserFlags, Marked, HeldElsewhere;
  }

  /** A free descriptor is not a device's, so no request about a lock reaches it. */
  lemma RequestedOk(t: Table, fd: nat, req: Request, driver: int)
    requires Inv(t) && fd < |t.fds|
    ensures Inv(Requested(t, fd, req, driver).0)
    ensures !IsOpen(t, fd) ==> Requested(t, fd, req, driver).0 == t
  {
    assert !IsDevice(0);
    hide IsLocked, IsDevice, WithLock, WithoutLock, SharedBelow;
  }

  lemma RedirectedOk(t: Table, fd: nat, target: Target, flags: word, status: int)
    requires Inv(t) && fd <= 2
    ensures Inv(Redirected(t, fd, target, flags, status))
  {
    OpenOk(t, target, flags, status);
    OpenFailsIff(t, target, flags, status);
    if Opened(t, target, flags, status).1 >= 0 { OpenIsLowest(t, target, flags, status); }
    hide Opened, IsLocked, IsDevice, UserFlags;
  }

  lemma NextOk(t: Table, a: Action)
    requires Inv(t) && Proper(t, a)
    ensures Inv(Next(t, a))
  {
    hide Opened, Requested, Redirected;
    match a
    case DoOpen(target, flags, status) => OpenOk(t, target, flags, status);
    case DoIoctl(fd, req, driver) => RequestedOk(t, fd, req, driver);
    case DoRedirect(fd, target, flags, status) => RedirectedOk(t, fd, target, flags, status);
    case DoClose(_, _) =>
  }

  /** Every action of the run is proper at its point. */
  ghost predicate AllProper(t: Table, actions: seq<Action>)
    decreases |actions|
  {
    actions != [] ==> Proper(t, actions[0]) && AllProper(Next(t, actions[0]), actions[1..])
  }

  ghost function Run(t: Table, actions: seq<Action>): Table
    requires AllProper(t, actions)
    decreases |actions|
  {
    if actions == [] then t else Run(Next(t, actions[0]), actions[1..])
  }

  lemma {:induction false} RunOk(t: Table, actions: seq<Action>)
    requires Inv(t) && AllProper(t, actions)
    ensures Inv(Run(t, actions))
    decreases |actions|
  {
    hide Inv, Next;
    if actions != [] {
      NextOk(t, actions[0]);
      RunOk(Next(t, actions[0]), actions[1..]);
    }
  }

  /** The table as it is at start-up: the standard descriptors refer to the null device. */
  ghost function Startup(nullDev: dev): Table {
    Table(seq(MAX_FD, i => if i < 3 then Entry(nullDev, 0) else FREE), -1)
  }

  lemma StartupOk(nullDev: dev)
    requires nullDev != 0
    ensures Inv(Startup(nullDev))
  {
  }

  lemma TwoActions(t: Table, a: Action, b: Action)
    requires Proper(t, a) && Proper(Next(t, a), b)
    ensures AllProper(t, [a, b]) && Run(t, [a, b]) == Next(Next(t, a), b)
  {
    hide Proper, Next;
    assert [a, b][1..] == [b] && [b][1..] == [];
    var t' := Next(t, a);
    assert AllProper(Next(t', b), []);
    assert AllProper(t', [b]) && Run(t', [b]) == Run(Next(t', b), []);
  }

  /** In every reachable table an allocated descriptor above the standard ones is below the mark. */
  lemma MarkIsHighEnough(nullDev: dev, actions: seq<Action>, fd: nat)
    requires nullDev != 0 && AllProper(Startup(nullDev), actions)
    ensures |Startup(nullDev).fds| == MAX_FD
    ensures var t := Run(Startup(nullDev), actions);
      && |t.fds| == MAX_FD
      && (3 <= fd < MAX_FD && t.fds[fd].dev != 0 ==> fd <= t.maxFd)
      && (fd < 3 ==> t.fds[fd].dev != 0)
      && (3 <= fd < MAX_FD && t.fds[fd].dev == 0 ==> t.fds[fd].flags == 0)
  {
    StartupOk(nullDev);
    RunOk(Startup(nullDev), actions);
    hide Run, AllProper, Startup;
  }

  /** What may give up the lock of descriptor `h`. */
  ghost predicate LetsGo(a: Action, h: nat) {
    !a.DoOpen? && a.fd == h && (a.DoIoctl? ==> a.req.NotExclusive?)
  }

  /** The descriptors that refer to `d`. */
  ghost predicate SameOrFewer(t: Table, t': Table, d: dev) {
    forall i :: IsOpen(t', i) && t'.fds[i].dev == d ==> IsOpen(t, i) && t.fds[i].dev == d
  }

  /** The action opens the device as a file system, which the lock does not guard. */
  ghost predicate Bypasses(a: Action, d: dev) {
    (a.DoOpen? || a.DoRedirect?) && a.target == FileSystem(d)
  }

  lemma HolderKeeps(t: Table, a: Action, h: nat, d: dev)
    requires Inv(t) && Proper(t, a) && Holds(t, h, d) && !LetsGo(a, h) && !Bypasses(a, d)
    ensures Holds(Next(t, a), h, d) && SameOrFewer(t, Next(t, a), d)
  {
    hide Opened, Requested, Redirected, IsLocked;
    match a
    case DoOpen(target, flags, status) => OpenWhileHeld(t, target, flags, status, h, d);
    case DoIoctl(fd, req, driver) => HolderKeepsIoctl(t, fd, req, driver, h, d);
    case DoClose(_, _) =>
    case DoRedirect(fd, target, flags, status) => HolderKeepsRedirect(t, fd, target, flags, status, h, d);
  }

  lemma HolderKeepsIoctl(t: Table, fd: nat, req: Request, driver: int, h: nat, d: dev)
    requires Inv(t) && fd < |t.fds| && Holds(t, h, d) && !(fd == h && req.NotExclusive?)
    ensures var t' := Requested(t, fd, req, driver).0; Holds(t', h, d) && SameOrFewer(t, t', d)
  {
    hide IsLocked, IsDevice, WithLock, WithoutLock, SharedBelow;
    FlagBits(t.fds[fd].flags);
  }

  lemma HolderKeepsRedirect(t: Table, fd: nat, target: Target, flags: word, status: int, h: nat, d: dev)
    requires Inv(t) && fd <= 2 && fd != h && Holds(t, h, d) && target != FileSystem(d)
    ensures var t' := Redirected(t, fd, target, flags, status); Holds(t', h, d) && SameOrFewer(t, t', d)
  {
    hide Opened, IsLocked, IsDevice, UserFlags;
    OpenWhileHeld(t, target, flags, status, h, d);
    if Opened(t, target, flags, status).1 >= 0 { OpenIsLowest(t, target, flags, status); }
  }

  lemma OpenWhileHeld(t: Table, target: Target, flags: word, status: int, h: nat, d: dev)
    requires Inv(t) && Holds(t, h, d)
    requires target.FileSystem? ==> target.d != d
    ensures var (t', fd) := Opened(t, target, flags, status);
      && Holds(t', h, d) && SameOrFewer(t, t', d)
      && (target == Device(d) ==> fd < 0)
  {
    OpenFailsIff(t, target, flags, status);
    var (t', fd) := Opened(t, target, flags, status);
    hide Opened, IsLocked;
    if fd >= 0 {
      assert t' == Opened(t, target, flags, status).0;
      OpenIsLowest(t, target, flags, status);
      assert t'.fds == t.fds[fd := t'.fds[fd]];
    }
  }

  /** No action of the run gives up the lock of `h`, and none opens its device as a file system. */
  ghost predicate LockKept(actions: seq<Action>, h: nat, d: dev) {
    forall i :: 0 <= i < |actions| ==> !LetsGo(actions[i], h) && !Bypasses(actions[i], d)
  }

  /**
   * From the moment a lock is held until its holder gives it up, no descriptor is added to the
   * device, whatever is opened, locked, unlocked or closed meanwhile; a sole opener stays alone.
   */
  lemma {:induction false} LockExcludes(t: Table, actions: seq<Action>, h: nat, d: dev)
    requires Inv(t) && AllProper(t, actions) && Holds(t, h, d) && LockKept(actions, h, d)
    ensures Holds(Run(t, actions), h, d) && SameOrFewer(t, Run(t, actions), d)
    decreases |actions|
  {
    hide Inv, Next, Holds, LetsGo, Bypasses, Proper, IsOpen;
    if actions != [] {
      assert !LetsGo(actions[0], h);
      HolderKeeps(t, actions[0], h, d);
      NextOk(t, actions[0]);
      assert forall i :: 0 <= i < |actions[1..]| ==> actions[1..][i] == actions[i + 1];
      LockExcludes(Next(t, actions[0]), actions[1..], h, d);
    }
  }

  lemma DeviceIsOpen(t: Table, fd: nat)
    requires Inv(t) && fd < MAX_FD
    ensures IsDevice(t.fds[fd].flags) ==> IsOpen(t, fd)
  {
    assert !IsDevice(0);
  }

  lemma OpenedInRange(t: Table, target: Target, flags: word, status: int)
    requires Inv(t)
    ensures Opened(t, target, flags, status).1 < MAX_FD
  {
    hide IsLocked, UserFlags, Marked, HeldElsewhere;
  }

  // ----- the standard descriptors

  /** The run does not redirect: it comes after start-up. */
  ghost predicate NoRedirect(actions: seq<Action>) {
    forall i :: 0 <= i < |actions| ==> !actions[i].DoRedirect?
  }

  /** A standard descriptor shares its device with another standard one. */
  ghost predicate SharedStandard(t: Table, fd: nat)
    requires |t.fds| == MAX_FD && fd <= 2
  {
    exists i :: 0 <= i <= 2 && i != fd && t.fds[i].dev == t.fds[fd].dev
  }

  /** Standard descriptor `fd` can be locked once nothing else refers to its device. */
  ghost predicate Lockable(t: Table, fd: nat)
    requires |t.fds| == MAX_FD && fd <= 2
  {
    IsDevice(t.fds[fd].flags) && !SharedStandard(t, fd)
  }

  /** The standard descriptors keep their devices, and one that is no device's its flags. */
  lemma StandardStays(t: Table, a: Action, fd: nat)
    requires Inv(t) && Proper(t, a) && !a.DoRedirect? && fd <= 2
    ensures Inv(Next(t, a)) && Next(t, a).maxFd >= t.maxFd
    ensures forall i :: 0 <= i <= 2 ==> Next(t, a).fds[i].dev == t.fds[i].dev
    ensures !IsDevice(t.fds[fd].flags) ==> Next(t, a).fds[fd].flags == t.fds[fd].flags
    ensures IsDevice(Next(t, a).fds[fd].flags) == IsDevice(t.fds[fd].flags)
  {
    NextOk(t, a);
    DeviceKept(t.fds[fd].flags);
    if a.DoOpen? {
      OpenChangesOne(t, a.target, a.flags, a.status);
      hide Opened, IsLocked, IsDevice;
    } else {
      hide IsLocked, IsDevice, WithLock, WithoutLock, SharedBelow;
    }
  }

  lemma DeviceKept(flags: word)
    ensures IsDevice(WithLock(flags)) == IsDevice(flags) == IsDevice(WithoutLock(flags))
  {
  }

  lemma OpenChangesOne(t: Table, target: Target, flags: word, status: int)
    requires Inv(t)
    ensures var t' := Opened(t, target, flags, status).0;
      |t'.fds| == MAX_FD && t'.maxFd >= t.maxFd && forall i :: 0 <= i <= 2 ==> t'.fds[i] == t.fds[i]
  {
    FirstFreeIsLowest(t.fds, 0);
    hide IsLocked, UserFlags, Marked, HeldElsewhere;
  }

  /** One step of a program cannot give a lock to a standard descriptor that is not lockable. */
  lemma StepGivesNoLock(t: Table, a: Action, fd: nat)
    requires Inv(t) && Proper(t, a) && !a.DoRedirect? && fd <= 2 && t.maxFd >= 3
    requires !Lockable(t, fd) && !IsLocked(t.fds[fd].flags)
    ensures Inv(Next(t, a)) && Next(t, a).maxFd >= 3
    ensures !Lockable(Next(t, a), fd) && !IsLocked(Next(t, a).fds[fd].flags)
  {
    StandardStays(t, a, fd);
    if SharedStandard(t, fd) {
      var i :| 0 <= i <= 2 && i != fd && t.fds[i].dev == t.fds[fd].dev;
      assert Next(t, a).fds[i].dev == Next(t, a).fds[fd].dev;
      assert SharedBelow(t, fd);
    }
    FlagBits(t.fds[fd].flags);
    if a.DoOpen? {
      OpenChangesOne(t, a.target, a.flags, a.status);
      hide Opened, IsLocked, IsDevice;
    } else {
      hide IsLocked, IsDevice, WithLock, WithoutLock, SharedBelow;
    }
  }

  lemma {:induction false} NeverLocked(t: Table, actions: seq<Action>, fd: nat)
    requires Inv(t) && AllProper(t, actions) && NoRedirect(actions) && fd <= 2 && t.maxFd >= 3
    requires !Lockable(t, fd) && !IsLocked(t.fds[fd].flags)
    ensures Inv(Run(t, actions)) && !IsLocked(Run(t, actions).fds[fd].flags)
    decreases |actions|
  {
    hide Inv, Next, Lockable, IsLocked, Proper;
    if actions != [] {
      StepGivesNoLock(t, actions[0], fd);
      assert forall i :: 0 <= i < |actions[1..]| ==> actions[1..][i] == actions[i + 1];
      NeverLocked(Next(t, actions[0]), actions[1..], fd);
    }
  }

  /** Close everything from descriptor `k` on, so that nothing above the standard three is left. */
  lemma {:induction false} CloseAll(t: Table, k: nat) returns (actions: seq<Action>)
    requires Inv(t) && 3 <= k <= MAX_FD && forall i :: 3 <= i < k ==> !IsOpen(t, i)
    ensures AllProper(t, actions) && NoRedirect(actions)
    ensures var e := Run(t, actions);
      && Inv(e) && e.maxFd == t.maxFd && (forall i :: 0 <= i <= 2 ==> e.fds[i] == t.fds[i])
      && (forall i :: 3 <= i < MAX_FD ==> !IsOpen(e, i))
    decreases MAX_FD - k
  {
    if k == MAX_FD {
      actions := [];
    } else if !IsOpen(t, k) {
      actions := CloseAll(t, k + 1);
    } else {
      var a := DoClose(k, 0);
      NextOk(t, a);
      assert Next(t, a) == t.(fds := t.fds[k := FREE]);
      forall i | 3 <= i <= k ensures !IsOpen(Next(t, a), i) {
        if i < k { assert !IsOpen(t, i); }
      }
      var rest := CloseAll(Next(t, a), k + 1);
      actions := [a] + rest;
      assert actions[1..] == rest;
    }
  }

  /**
   * Once start-up is over, a program can get a lock on a standard descriptor, by whatever it does,
   * if and only if the descriptor is a device's and neither of the other two is the same device's.
   */
  lemma StandardLockIff(t: Table, fd: nat)
    requires Inv(t) && fd <= 2 && t.maxFd >= 3 && !IsLocked(t.fds[fd].flags)
    ensures (exists actions :: Obtains(t, actions, fd)) <==> Lockable(t, fd)
  {
    hide Run, AllProper, Lockable, IsLocked;
    if Lockable(t, fd) {
      var actions := ObtainLock(t, fd);
    } else {
      forall actions ensures !Obtains(t, actions, fd) {
        if AllProper(t, actions) && NoRedirect(actions) { NeverLocked(t, actions, fd); }
      }
    }
  }

  /** The run ends with `fd` holding its device for itself. */
  ghost predicate Obtains(t: Table, actions: seq<Action>, fd: nat) {
    && AllProper(t, actions) && NoRedirect(actions)
    && fd < |Run(t, actions).fds| && IsLocked(Run(t, actions).fds[fd].flags)
  }

  lemma AloneBelow(t: Table, e: Table, fd: nat)
    requires Inv(t) && Inv(e) && fd <= 2 && !SharedStandard(t, fd)
    requires (forall i :: 0 <= i <= 2 ==> e.fds[i] == t.fds[i]) && (forall i :: 3 <= i < MAX_FD ==> !IsOpen(e, i))
    ensures !SharedBelow(e, fd)
  {
    forall i | 0 <= i < MAX_FD && i != fd ensures e.fds[i].dev != e.fds[fd].dev {
      if i > 2 { assert !IsOpen(e, i); } else { assert e.fds[i] == t.fds[i]; }
    }
  }

  /** Closing all others and asking is enough. */
  lemma ObtainLock(t: Table, fd: nat) returns (actions: seq<Action>)
    requires Inv(t) && fd <= 2 && Lockable(t, fd)
    ensures Obtains(t, actions, fd)
  {
    var closing := CloseAll(t, 3);
    var e := Run(t, closing);
    var ask := DoIoctl(fd, Exclusive, 0);
    AloneBelow(t, e, fd);
    FlagBits(e.fds[fd].flags);
    hide IsLocked, IsDevice, WithLock, SharedBelow, Inv;
    RunBoth(t, closing, [ask]);
    RunOne(e, ask);
    actions := closing + [ask];
  }

  lemma RunOne(t: Table, a: Action)
    requires Proper(t, a)
    ensures AllProper(t, [a]) && Run(t, [a]) == Next(t, a)
  {
    hide Proper, Next;
    assert [a][1..] == [];
  }

  lemma {:induction false} RunBoth(t: Table, first: seq<Action>, second: seq<Action>)
    requires AllProper(t, first) && AllProper(Run(t, first), second)
    ensures AllProper(t, first + second) && Run(t, first + second) == Run(Run(t, first), second)
    decreases |first|
  {
    hide Proper, Next;
    if first == [] {
      assert [] + second == second;
    } else {
      assert (first + second)[1..] == first[1..] + second;
      RunBoth(Next(t, first[0]), first[1..], second);
    }
  }

  /** During start-up: nothing but the standard descriptors is open, and no lock is held. */
  ghost predicate Starting(t: Table) {
    && Inv(t)
    && (forall i :: 0 <= i <= 2 ==> !IsLocked(t.fds[i].flags)) && (forall i :: 3 <= i < MAX_FD ==> !IsOpen(t, i))
  }

  /** Redirection to a device that can be opened. */
  lemma RedirectedTo(t: Table, fd: nat, d: dev, flags: word, status: int)
    requires Starting(t) && fd <= 2 && d != 0 && status >= 0
    ensures var t' := Redirected(t, fd, Device(d), flags, status);
      && Starting(t') && t'.maxFd == (if 3 > t.maxFd then 3 else t.maxFd) && t'.fds == t.fds[fd := t'.fds[fd]]
      && t'.fds[fd].dev == d && IsDevice(t'.fds[fd].flags)
  {
    hide IsLocked, IsDevice, UserFlags;
    RedirectedOk(t, fd, Device(d), flags, status);
    OpenFailsIff(t, Device(d), flags, status);
    assert !IsOpen(t, 3);
    assert forall h: nat :: !Holds(t, h, d);
    OpenIsLowest(t, Device(d), flags, status);
    OpenRaisesMark(t, Device(d), flags, status);
    var (o, spare) := Opened(t, Device(d), flags, status);
    hide Opened, Holds;
    assert Redirected(t, fd, Device(d), flags, status) == Release(o.(fds := o.fds[fd := o.fds[spare]]), spare);
    CopiedOver(t.fds, fd, spare, o.fds[spare]);
    forall i | 3 <= i < MAX_FD ensures t.fds[i].dev == 0 { assert !IsOpen(t, i); }
  }

  /** An entry added, copied and blanked again. */
  lemma CopiedOver(s: seq<Entry>, fd: nat, spare: nat, e: Entry)
    requires fd < spare < |s| && s[spare] == FREE
    ensures s[spare := e][fd := e][spare := FREE] == s[fd := e]
  {
  }

  lemma OpenRaisesMark(t: Table, target: Target, flags: word, status: int)
    requires Inv(t) && Opened(t, target, flags, status).1 >= 0
    ensures var (t', fd) := Opened(t, target, flags, status); t'.maxFd == if fd > t.maxFd then fd else t.maxFd
  {
    hide IsLocked, UserFlags, Marked, HeldElsewhere;
  }

  /** The devices, flags and driver answers of the three redirections. */
  datatype Console = Console(devs: (dev, dev, dev), flags: (word, word, word), status: (nat, nat, nat)) {
    ghost predicate Valid() { devs.0 != 0 && devs.1 != 0 && devs.2 != 0 }
  }

  /** The table when `main` starts: output, input and errors have been redirected, in this order. */
  ghost function AtMain(nullDev: dev, c: Console): Table
    requires nullDev != 0
  {
    StartupOk(nullDev);
    var t1 := Redirected(Startup(nullDev), 1, Device(c.devs.1), c.flags.1, c.status.1);
    RedirectedOk(Startup(nullDev), 1, Device(c.devs.1), c.flags.1, c.status.1);
    var t2 := Redirected(t1, 0, Device(c.devs.0), c.flags.0, c.status.0);
    RedirectedOk(t1, 0, Device(c.devs.0), c.flags.0, c.status.0);
    Redirected(t2, 2, Device(c.devs.2), c.flags.2, c.status.2)
  }

  lemma StartupIsStarting(nullDev: dev)
    requires nullDev != 0
    ensures Starting(Startup(nullDev)) && Startup(nullDev).maxFd == -1
  {
    StartupOk(nullDev);
    FlagBits(0);
    hide IsLocked;
  }

  /** All three redirections succeed if the devices exist and their drivers agree. */
  lemma AtMainIs(nullDev: dev, c: Console)
    requires nullDev != 0 && c.Valid()
    ensures var t := AtMain(nullDev, c);
      && Starting(t) && t.maxFd == 3 && |t.fds| == MAX_FD
      && t.fds[0].dev == c.devs.0 && t.fds[1].dev == c.devs.1 && t.fds[2].dev == c.devs.2
      && forall i :: 0 <= i <= 2 ==> IsDevice(t.fds[i].flags)
  {
    hide Redirected, Startup, IsLocked, IsDevice;
    StartupIsStarting(nullDev);
    var t0 := Startup(nullDev);
    RedirectedTo(t0, 1, c.devs.1, c.flags.1, c.status.1);
    var t1 := Redirected(t0, 1, Device(c.devs.1), c.flags.1, c.status.1);
    RedirectedTo(t1, 0, c.devs.0, c.flags.0, c.status.0);
    var t2 := Redirected(t1, 0, Device(c.devs.0), c.flags.0, c.status.0);
    RedirectedTo(t2, 2, c.devs.2, c.flags.2, c.status.2);
  }

  /**
   * Once `main` runs, two opens of a device other than the console's are enough for a lock that is
   * asked for, granted and not exclusive.
   */
  lemma LockCanBeShared(nullDev: dev, c: Console, d: dev)
    requires nullDev != 0 && c.Valid() && d != 0 && d != c.devs.0 && d != c.devs.1 && d != c.devs.2
    ensures var run := [DoOpen(Device(d), 0, 0), DoOpen(Device(d), 0, 0)];
      && AllProper(AtMain(nullDev, c), run)
      && var t := Run(AtMain(nullDev, c), run);
      && Inv(t) && IsOpen(t, 3) && IsOpen(t, 4) && t.fds[3].dev == t.fds[4].dev == d
      && Requested(t, 3, Exclusive, 0).1 == 0 && Holds(Requested(t, 3, Exclusive, 0).0, 3, d)
  {
    hide AtMain, Opened, IsLocked, IsDevice, WithLock, SharedBelow;
    AtMainIs(nullDev, c);
    var t0, open := AtMain(nullDev, c), DoOpen(Device(d), 0, 0);
    assert forall i :: 3 <= i < MAX_FD ==> !IsOpen(t0, i);
    var t1 := Opened(t0, Device(d), 0, 0).0;
    OpenFinds(t0, d, 3);
    var t := Opened(t1, Device(d), 0, 0).0;
    OpenFinds(t1, d, 4);
    TwoActions(t0, open, open);
    LockGrantsIffUnshared(t, 3);
  }

  /** With one device for all three, as in this build, no program ever locks a standard descriptor. */
  lemma OneConsoleIsNeverLocked(nullDev: dev, c: Console, actions: seq<Action>, fd: nat)
    requires nullDev != 0 && c.Valid() && c.devs.0 == c.devs.1 == c.devs.2
    requires AllProper(AtMain(nullDev, c), actions) && NoRedirect(actions) && fd <= 2
    ensures !Holds(Run(AtMain(nullDev, c), actions), fd, c.devs.0)
  {
    hide AtMain, Run, AllProper, IsLocked, IsDevice;
    AtMainIs(nullDev, c);
    var t := AtMain(nullDev, c);
    var other := if fd == 0 then 1 else 0;
    assert t.fds[other].dev == t.fds[fd].dev;
    assert SharedStandard(t, fd);
    NeverLocked(t, actions, fd);
  }

  /**
   * With a device of its own a standard descriptor can be locked, and closing it does not give the
   * lock up: the device can then no longer be opened.
   */
  lemma OwnConsoleStaysLocked(nullDev: dev, c: Console, fd: nat, closed: int, flags: word, status: int)
    requires nullDev != 0 && c.Valid() && fd <= 2
    requires |AtMain(nullDev, c).fds| == MAX_FD && !SharedStandard(AtMain(nullDev, c), fd)
    ensures var t, run := AtMain(nullDev, c), [DoIoctl(fd, Exclusive, 0), DoClose(fd, closed)];
      && AllProper(t, run) && Inv(Run(t, run)) && Holds(Run(t, run), fd, t.fds[fd].dev)
      && Opened(Run(t, run), Device(t.fds[fd].dev), flags, status).1 < 0
  {
    hide AtMain, IsLocked, IsDevice, WithLock, SharedBelow, Opened;
    AtMainIs(nullDev, c);
    var t := AtMain(nullDev, c);
    var ask, close, d := DoIoctl(fd, Exclusive, 0), DoClose(fd, closed), t.fds[fd].dev;
    AloneBelow(t, t, fd);
    FlagBits(t.fds[fd].flags);
    NextOk(t, ask);
    var t1 := Next(t, ask);
    assert Holds(t1, fd, d);
    CloseUnlocksIff(t1, fd, d, closed);
    NextOk(t1, close);
    TwoActions(t, ask, close);
    OpenWhileHeld(Next(t1, close), Device(d), flags, status, fd, d);
  }

  // ----- the functions as written

  class Files {
    const fds: array<Entry>
    var maxFd: int

    ghost predicate Valid()
      reads this, fds
    {
      Inv(View())
    }

    ghost function View(): Table
      reads this, fds
    {
      Table(fds[..], maxFd)
    }

    constructor (nullDev: dev)
      requires nullDev != 0
      ensures Valid() && fresh(fds) && View() == Startup(nullDev)
    {
      fds := new Entry[MAX_FD](i => if i < 3 then Entry(nullDev, 0) else FREE);
      maxFd := -1;
      new;
      assert View().fds == Startup(nullDev).fds;
    }

    method GetFd(d: dev) returns (rc: int)
      requires Valid() && d != 0
      modifies this, fds
      ensures var fd := FirstFree(old(fds[..]), 0);
        if fd < 0 then rc == -EMFILE && View() == old(View())
        else rc == fd && View() == Taken(old(View()), fd, d)
    {
      rc := -EMFILE;
      var i := 0;
      while i < MAX_FD
        invariant i <= MAX_FD && View() == old(View()) && rc == -EMFILE
        invariant FirstFree(fds[..], 0) == FirstFree(fds[..], i)
      {
        if fds[i].dev == 0 {
          fds[i] := fds[i].(dev := d);
          if i > maxFd { maxFd := i; }
          rc := i;
          return;
        }
        i := i + 1;
      }
    }

    method ReleaseFd(fd: int)
      requires fd < fds.Length
      modifies fds
      ensures View() == Release(old(View()), fd)
    {
      if fd > 2 {
        fds[fd] := fds[fd].(flags := 0);
        fds[fd] := fds[fd].(dev := 0);
      }
    }

    method FileLocked(fd: nat) returns (rc: int)
      requires fds.Length == MAX_FD && fd < MAX_FD && 0 <= maxFd < MAX_FD
      modifies fds
      ensures View() == WithFlags(old(View()), fd, Marked(old(fds[fd].flags)))
      ensures rc == if HeldElsewhere(View(), fd) then -EACCES else 0
    {
      hide Marked, IsLocked;
      fds[fd] := fds[fd].(flags := Marked(fds[fd].flags));
      ghost var now := View();
      var i := 0;
      while i <= maxFd
        invariant 0 <= i <= maxFd + 1 && View() == now
        invariant forall k :: 0 <= k < i && k != fd && fds[k].dev == fds[fd].dev ==> !IsLocked(fds[k].flags)
      {
        if fds[i].dev == fds[fd].dev && IsLocked(fds[i].flags) && i != fd { return -EACCES; }
        i := i + 1;
      }
      return 0;
    }

    method Open(target: Target, flags: word, status: int) returns (r: int, errno: int)
      requires Valid()
      modifies this, fds
      ensures Valid() && View() == Opened(old(View()), target, flags, status).0
      ensures var rc := Opened(old(View()), target, flags, status).1;
        if rc < 0 then r == -1 && errno == -rc else r == rc && errno == 0
    {
      OpenOk(View(), target, flags, status);
      FirstFreeIsLowest(fds[..], 0);
      hide Marked, IsLocked, UserFlags, HeldElsewhere;
      var index, rc := -1, -ENODEV;
      if !target.Missing? && target.d != 0 {
        index := GetFd(target.d);
        if index < 0 {
          rc := index;
        } else {
          fds[index] := fds[index].(flags := UserFlags(flags));
          rc := 0;
          if target.Device? { rc := FileLocked(index); }
          if rc >= 0 { rc := status; }
        }
      }
      if rc < 0 {
        ReleaseFd(index);
        return -1, -rc;
      }
      return index, 0;
    }

    method Lock(fd: nat) returns (rc: int)
      requires Valid() && IsOpen(View(), fd)
      modifies fds
      ensures Valid() && (View(), rc) == Locked(old(View()), fd)
    {
      hide WithLock;
      rc := 0;
      var i := 0;
      while i < maxFd
        invariant 0 <= i && (i <= maxFd || i == 0) && View() == old(View()) && rc == 0
        invariant forall k :: 0 <= k < i && k != fd ==> fds[k].dev != fds[fd].dev
      {
        if i != fd && fds[i].dev == fds[fd].dev {
          return -EACCES;
        }
        i := i + 1;
      }
      fds[fd] := fds[fd].(flags := WithLock(fds[fd].flags));
    }

    method Unlock(fd: nat) returns (rc: int)
      requires Valid() && IsOpen(View(), fd)
      modifies fds
      ensures Valid() && rc == 0 && View() == Unlocked(old(View()), fd)
    {
      hide WithoutLock;
      fds[fd] := fds[fd].(flags := WithoutLock(fds[fd].flags));
      rc := 0;
    }

    /** `driver` is the answer of the device's own routine, or of the missing one. */
    method Ioctl(file: int, req: Request, driver: int) returns (rc: int, errno: int)
      requires Valid() && file < MAX_FD
      modifies fds
      ensures Valid() && errno == if rc < 0 then -rc else 0
      ensures if file < 0 then rc == -EBADFD && View() == old(View())
              else (View(), rc) == Requested(old(View()), file, req, driver)
    {
      hide IsLocked, IsDevice, WithLock, WithoutLock, SharedBelow;
      if file >= 0 {
        RequestedOk(View(), file, req, driver);
        DeviceIsOpen(View(), file);
        if IsDevice(fds[file].flags) && req == Exclusive {
          rc := Lock(file);
        } else if IsDevice(fds[file].flags) && req == NotExclusive {
          rc := Unlock(file);
        } else {
          rc := driver;
        }
      } else {
        rc := -EBADFD;
      }
      errno := if rc < 0 then -rc else 0;
    }

    method OpenFd(fd: nat, target: Target, flags: word, status: int)
      requires Valid() && fd <= 2
      modifies this, fds
      ensures Valid() && View() == Redirected(old(View()), fd, target, flags, status)
    {
      hide Opened;
      RedirectedOk(View(), fd, target, flags, status);
      OpenedInRange(View(), target, flags, status);
      var spare, _ := Open(target, flags, status);
      ghost var grown := View();
      if spare >= 0 {
        fds[fd] := fds[fd].(dev := fds[spare].dev);
        fds[fd] := fds[fd].(flags := fds[spare].flags);
        assert View() == grown.(fds := grown.fds[fd := grown.fds[spare]]);
        ReleaseFd(spare);
      }
    }

    /** Before `main`: output, input and errors go to the console's devices. */
    method IoRedirect(ghost nullDev: dev, c: Console)
      requires Valid() && nullDev != 0 && View() == Startup(nullDev)
      modifies this, fds
      ensures Valid() && View() == AtMain(nullDev, c)
    {
      hide Redirected, Startup, Inv;
      OpenFd(1, Device(c.devs.1), c.flags.1, c.status.1);
      OpenFd(0, Device(c.devs.0), c.flags.0, c.status.0);
      OpenFd(2, Device(c.devs.2), c.flags.2, c.status.2);
    }

    method Close(fd: int, status: int) returns (r: int, errno: int)
      requires Valid() && (fd < 0 || IsOpen(View(), fd))
      modifies fds
      ensures Valid() && View() == Closed(old(View()), fd, status).0
      ensures var rc := Closed(old(View()), fd, status).1;
        if rc < 0 then r == -1 && errno == -rc else r == 0 && errno == 0
    {
      if fd >= 0 {
        ReleaseFd(fd);
        if status < 0 { return -1, -status; }
        return 0, 0;
      }
      return -1, EBADFD;
    }
  }
}
