/**
  The table of file descriptors as a value: open, close, ioctl, fcntl and redirection of the standard
  streams, and what exclusive locks are worth over every run of these calls. Which entry a name leads to
  and what the drivers answer are inputs of each call.
 */
module DescriptorTable {

  const MAX_FD: nat := 32

  const EXCL: bv32 := 0x8000_0000
  const ON_DEVICE: bv32 := 0x4000_0000
  const FLAGS_MASK: bv32 := 0xC000_0000
  const FCNTL_MASK: bv32 := 0x4008     // O_APPEND and O_NONBLOCK of the C library

  const EBADFD: int := 81
  const EACCES: int := 13
  const EINVAL: int := 22
  const EMFILE: int := 24
  const ENODEV: int := 19
  const ENOTTY: int := 25

  /** What a descriptor refers to. Devices and file systems are registered in two separate lists. */
  datatype Ref = Null | Device(id: nat) | FileSystem(id: nat)

  datatype Slot = Slot(dev: Ref, flags: bv32)

  /** `maxFd` is the largest index handed out so far. */
  datatype Table = Table(slots: seq<Slot>, maxFd: int)

  datatype Outcome = Outcome(table: Table, rc: int)

  // ---------------------------------------------------------------- flag words

  predicate IsExcl(flags: bv32) { flags & EXCL != 0 }

  predicate IsDevice(flags: bv32) { flags & ON_DEVICE != 0 }

  function Masked(flags: bv32): (r: bv32)
    ensures !IsExcl(r) && !IsDevice(r)
  {
    flags & !FLAGS_MASK
  }

  function MarkDevice(flags: bv32): (r: bv32)
    ensures IsDevice(r) && (IsExcl(r) <==> IsExcl(flags))
  {
    flags | ON_DEVICE
  }

  function MarkExcl(flags: bv32): (r: bv32)
    ensures IsExcl(r) && (IsDevice(r) <==> IsDevice(flags))
  {
    flags | EXCL
  }

  function ClearExcl(flags: bv32): (r: bv32)
    ensures !IsExcl(r) && (IsDevice(r) <==> IsDevice(flags))
  {
    flags & !EXCL
  }

  /** The status flags that a program may change leave the two driver flags alone. */
  function ChangeStatus(flags: bv32, wanted: bv32): (r: bv32)
    ensures (IsExcl(r) <==> IsExcl(flags)) && (IsDevice(r) <==> IsDevice(flags))
  {
    (flags & !FCNTL_MASK) | (wanted & FCNTL_MASK)
  }

  /** What a program is shown of its flags is all but the two driver flags, which come and go unseen. */
  lemma ShownFlags(flags: bv32)
    ensures Masked(flags) == flags & 0x3FFF_FFFF
    ensures Masked(MarkDevice(flags)) == Masked(flags) && Masked(MarkDevice(Masked(flags))) == Masked(flags)
    ensures Masked(MarkExcl(flags)) == Masked(flags) && Masked(ClearExcl(flags)) == Masked(flags)
    ensures Masked(Masked(flags)) == Masked(flags)
  {
    DeviceUnseen(flags);
    DeviceUnseen(Masked(flags));
    ExclUnseen(flags);
    ClearUnseen(flags);
    MaskedTwice(flags);
    hide *;
    MaskKeeps(flags);
  }

  lemma MaskKeeps(flags: bv32)
    ensures Masked(flags) == flags & 0x3FFF_FFFF
  {
  }

  lemma MaskedTwice(flags: bv32)
    ensures Masked(Masked(flags)) == Masked(flags)
  {
  }

  lemma DeviceUnseen(flags: bv32)
    ensures Masked(MarkDevice(flags)) == Masked(flags)
  {
  }

  lemma ExclUnseen(flags: bv32)
    ensures Masked(MarkExcl(flags)) == Masked(flags)
  {
  }

  lemma ClearUnseen(flags: bv32)
    ensures Masked(ClearExcl(flags)) == Masked(flags)
  {
  }

  /** The status flags become the wanted ones, set or cleared; all other flags are left alone. */
  lemma StatusChanges(flags: bv32, wanted: bv32)
    ensures Masked(ChangeStatus(flags, wanted)) & 0x4008 == wanted & 0x4008
    ensures Masked(ChangeStatus(flags, wanted)) & !0x4008 == Masked(flags) & !0x4008
  {
  }

  // ---------------------------------------------------------------- the calls

  const INITIAL := Table(seq(MAX_FD, i => Slot(if i < 3 then Device(0) else Null, 0)), -1)

  predicate Live(t: Table, fd: int) {
    0 <= fd < |t.slots| && t.slots[fd].dev != Null
  }

  /** The first free index, |slots| if there is none. */
  function LeastFree(slots: seq<Slot>): (k: nat)
    ensures k <= |slots| && (k < |slots| ==> slots[k].dev == Null)
    ensures forall i :: 0 <= i < k ==> slots[i].dev != Null
  {
    if slots == [] || slots[0].dev == Null then 0 else 1 + LeastFree(slots[1..])
  }

  function Put(t: Table, k: nat, s: Slot): Table
    requires k < |t.slots|
  {
    t.(slots := t.slots[k := s])
  }

  function Claim(t: Table, k: nat, s: Slot): Table
    requires k < |t.slots|
  {
    Put(t, k, s).(maxFd := if k > t.maxFd then k else t.maxFd)
  }

  /** alt_release_fd: the standard descriptors are never given back. */
  function Release(t: Table, fd: int): Table
    requires fd < |t.slots|
  {
    if fd > 2 then Put(t, fd, Slot(Null, 0)) else t
  }

  /** alt_file_locked: the scan goes up to and including `maxFd`. */
  ghost predicate SomeoneHolds(t: Table, fd: nat)
    requires fd < |t.slots|
  {
    exists i :: 0 <= i < |t.slots| && i <= t.maxFd && i != fd && t.slots[i].dev == t.slots[fd].dev
      && IsExcl(t.slots[i].flags)
  }

  /** alt_fd_lock: the scan stops before `maxFd`. */
  ghost predicate SomeoneShares(t: Table, fd: nat)
    requires fd < |t.slots|
  {
    exists i :: 0 <= i < |t.slots| && i < t.maxFd && i != fd && t.slots[i].dev == t.slots[fd].dev
  }

  /** alt_open, with a negative `rc` for what the caller finds in errno. */
  ghost function Opened(t: Table, found: Ref, flags: bv32, status: int): Outcome {
    var k := LeastFree(t.slots);
    if found == Null then Outcome(t, -ENODEV)
    else if k == |t.slots| then Outcome(t, -EMFILE)
    else
      var word := if found.Device? then MarkDevice(Masked(flags)) else Masked(flags);
      var claimed := Claim(t, k, Slot(found, word));
      if found.Device? && SomeoneHolds(claimed, k) then Outcome(Release(claimed, k), -EACCES)
      else if status < 0 then Outcome(Release(claimed, k), status)
      else Outcome(claimed, k)
  }

  ghost function Closed(t: Table, fd: int, status: int): Outcome
    requires fd < |t.slots|
  {
    if fd < 0 then Outcome(t, -EBADFD) else Outcome(Release(t, fd), if status < 0 then status else 0)
  }

  datatype Request = Exclusive | NotExclusive | Other

  ghost function Lock(t: Table, fd: nat): Outcome
    requires fd < |t.slots|
  {
    if SomeoneShares(t, fd) then Outcome(t, -EACCES)
    else Outcome(Put(t, fd, t.slots[fd].(flags := MarkExcl(t.slots[fd].flags))), 0)
  }

  function Unlock(t: Table, fd: nat): Table
    requires fd < |t.slots|
  {
    Put(t, fd, t.slots[fd].(flags := ClearExcl(t.slots[fd].flags)))
  }

  /** alt_ioctl: locks are dealt with here only on descriptors of devices; `status` is what the driver
      answers, -ENOTTY if it has no such function. */
  ghost function Controlled(t: Table, fd: int, req: Request, status: int): Outcome
    requires fd < |t.slots|
  {
    if fd < 0 then Outcome(t, -EBADFD)
    else if IsDevice(t.slots[fd].flags) && req.Exclusive? then Lock(t, fd)
    else if IsDevice(t.slots[fd].flags) && req.NotExclusive? then Outcome(Unlock(t, fd), 0)
    else Outcome(t, status)
  }

  datatype Command = GetFlags | SetFlags(wanted: bv32) | Unknown

  function StatusSet(t: Table, fd: int, cmd: Command): Table
    requires fd < |t.slots|
  {
    if fd >= 0 && cmd.SetFlags? then
      Put(t, fd, t.slots[fd].(flags := ChangeStatus(t.slots[fd].flags, cmd.wanted)))
    else t
  }

  /** Where a name leads and how the driver's open answers. */
  datatype Try = Try(found: Ref, status: int)

  /** alt_open_fd: a standard descriptor takes over a freshly opened one. */
  ghost function Redirected(t: Table, std: nat, to: Try, flags: bv32): (r: Table)
    requires std < 3 <= |t.slots|
    ensures |r.slots| == |t.slots|
  {
    var o := Opened(t, to.found, flags, to.status);
    if o.rc < 0 then o.table else Release(Put(o.table, std, o.table.slots[o.rc]), o.rc)
  }

  const O_RDONLY: bv32 := 0
  const O_WRONLY: bv32 := 1

  /** alt_io_redirect. */
  ghost function AllRedirected(t: Table, output: Try, input: Try, error: Try): Table
    requires 3 <= |t.slots|
  {
    Redirected(Redirected(Redirected(t, 1, output, O_WRONLY), 0, input, O_RDONLY), 2, error, O_WRONLY)
  }

  // ---------------------------------------------------------------- runs

  datatype Event =
    | Open(found: Ref, flags: bv32, status: int)
    | Close(fd: int, answer: int)
    | Ioctl(fd: int, req: Request, answer: int)
    | Fcntl(fd: int, cmd: Command)
    | Redirect(std: nat, to: Try, flags: bv32)

  /** A descriptor passed to close and ioctl must be open, if it is not negative. */
  ghost predicate Allowed(t: Table, e: Event) {
    match e
    case Open(_, _, _) => true
    case Close(fd, _) => fd < 0 || Live(t, fd)
    case Ioctl(fd, _, _) => fd < 0 || Live(t, fd)
    case Fcntl(fd, _) => fd < |t.slots|
    case Redirect(std, _, _) => std < 3 <= |t.slots|
  }

  ghost function After(t: Table, e: Event): Table
    requires Allowed(t, e)
  {
    match e
    case Open(found, flags, status) => Opened(t, found, flags, status).table
    case Close(fd, answer) => Closed(t, fd, answer).table
    case Ioctl(fd, req, answer) => Controlled(t, fd, req, answer).table
    case Fcntl(fd, cmd) => StatusSet(t, fd, cmd)
    case Redirect(std, to, flags) => Redirected(t, std, to, flags)
  }

  ghost predicate Run(t: Table, es: seq<Event>)
    decreases |es|, 0
  {
    es == [] || (Run(t, es[..|es| - 1]) && Allowed(End(t, es[..|es| - 1]), es[|es| - 1]))
  }

  ghost function End(t: Table, es: seq<Event>): Table
    requires Run(t, es)
    decreases |es|, 1
  {
    if es == [] then t else After(End(t, es[..|es| - 1]), es[|es| - 1])
  }

  // ---------------------------------------------------------------- what every call keeps

  ghost predicate SlotGood(s: Slot, i: nat, maxFd: int) {
    && (i < 3 ==> s.dev != Null)
    && (s.dev != Null && i >= 3 ==> i <= maxFd)
    && (IsDevice(s.flags) ==> s.dev.Device? && maxFd >= 3)
    && (IsExcl(s.flags) ==> IsDevice(s.flags))
  }

  /** The holder of a lock shares its device with at most one other descriptor, which does not hold a lock
      and has the larger index. */
  ghost predicate LockGood(slots: seq<Slot>, i: nat)
    requires i < |slots|
  {
    && (forall j :: 0 <= j < |slots| && j != i && slots[j].dev == slots[i].dev ==>
         i < j && !IsExcl(slots[j].flags))
    && (forall j, k :: 0 <= j < k < |slots| && j != i && k != i && slots[j].dev == slots[i].dev ==>
         slots[k].dev != slots[i].dev)
  }

  ghost predicate Good(t: Table) {
    && |t.slots| == MAX_FD && -1 <= t.maxFd < MAX_FD
    && (forall i :: 0 <= i < |t.slots| ==> SlotGood(t.slots[i], i, t.maxFd))
    && (forall i :: 0 <= i < |t.slots| && IsExcl(t.slots[i].flags) ==> LockGood(t.slots, i))
  }

  lemma InitiallyGood()
    ensures Good(INITIAL)
  {
  }

  lemma ReleaseKeeps(t: Table, fd: int)
    requires Good(t) && fd < |t.slots|
    ensures Good(Release(t, fd))
  {
    hide IsExcl, IsDevice;
    assert !IsExcl(0) && !IsDevice(0) by { NoFlags(); }
  }

  lemma NoFlags()
    ensures !IsExcl(0) && !IsDevice(0)
  {
  }

  /** Only the flags of one slot change, and it does not become a holder. */
  lemma FlagsKeep(t: Table, fd: nat, flags: bv32)
    requires Good(t) && fd < |t.slots|
    requires IsDevice(flags) <==> IsDevice(t.slots[fd].flags)
    requires IsExcl(flags) ==> IsExcl(t.slots[fd].flags)
    ensures Good(Put(t, fd, t.slots[fd].(flags := flags)))
  {
    hide IsExcl, IsDevice;
  }

  lemma LockKeeps(t: Table, fd: nat)
    requires Good(t) && Live(t, fd) && IsDevice(t.slots[fd].flags)
    ensures Good(Lock(t, fd).table)
  {
    hide IsExcl, IsDevice, MarkExcl;
  }

  /** A descriptor that is opened on a device finds no holder of that device anywhere in the table. */
  lemma ClaimKeeps(t: Table, k: nat, s: Slot)
    requires Good(t) && 3 <= k < |t.slots| && t.slots[k].dev == Null && s.dev != Null && !IsExcl(s.flags)
    requires IsDevice(s.flags) <==> s.dev.Device?
    ensures Good(Release(Claim(t, k, s), k))
    ensures !(s.dev.Device? && SomeoneHolds(Claim(t, k, s), k)) ==> Good(Claim(t, k, s))
  {
    hide IsExcl, IsDevice;
    assert !IsExcl(0) && !IsDevice(0) by { NoFlags(); }
  }

  lemma OpenKeeps(t: Table, found: Ref, flags: bv32, status: int)
    requires Good(t)
    ensures Good(Opened(t, found, flags, status).table)
  {
    hide Good, SomeoneHolds;
    var k := LeastFree(t.slots);
    FreeIsNotStandard(t, k);
    if found != Null && k < |t.slots| {
      ClaimKeeps(t, k, Slot(found, if found.Device? then MarkDevice(Masked(flags)) else Masked(flags)));
    }
  }

  lemma FreeIsNotStandard(t: Table, k: nat)
    requires Good(t)
    ensures |t.slots| == MAX_FD && (k < |t.slots| && t.slots[k].dev == Null ==> k >= 3)
  {
  }

  /** The outcome of an open in terms of the whole table, whatever the bounds of the scans: it succeeds
      just when the name leads somewhere, an index is free, no descriptor holds a lock on the device, and
      the driver agrees. */
  ghost predicate HeldByAnyone(t: Table, dev: Ref) {
    exists i :: 0 <= i < |t.slots| && t.slots[i].dev == dev && IsExcl(t.slots[i].flags)
  }

  lemma OpenSucceedsJustWhen(t: Table, found: Ref, flags: bv32, status: int)
    requires Good(t)
    ensures var o, k := Opened(t, found, flags, status), LeastFree(t.slots);
      && (o.rc >= 0 <==> found != Null && k < MAX_FD && !HeldByAnyone(t, found) && status >= 0)
      && (found == Null ==> o.rc == -ENODEV) && (found != Null && k == MAX_FD ==> o.rc == -EMFILE)
      && (found != Null && k < MAX_FD && HeldByAnyone(t, found) ==> o.rc == -EACCES)
      && (found != Null && k < MAX_FD && !HeldByAnyone(t, found) && status < 0 ==> o.rc == status)
  {
    var k := LeastFree(t.slots);
    FreeIsNotStandard(t, k);
    hide IsExcl, IsDevice;
    if found != Null && k < |t.slots| {
      HolderIsSeen(t, k, Slot(found, if found.Device? then MarkDevice(Masked(flags)) else Masked(flags)));
      hide Good, SomeoneHolds, HeldByAnyone;
    }
  }

  /** The scan of alt_file_locked misses no holder, and on a file system there is none to find. */
  lemma HolderIsSeen(t: Table, k: nat, s: Slot)
    requires Good(t) && 3 <= k < |t.slots| && t.slots[k].dev == Null && s.dev != Null
    ensures SomeoneHolds(Claim(t, k, s), k) <==> HeldByAnyone(t, s.dev)
    ensures HeldByAnyone(t, s.dev) ==> s.dev.Device?
  {
    hide IsExcl, IsDevice;
    var c := Claim(t, k, s);
    if HeldByAnyone(t, s.dev) {
      var i :| 0 <= i < |t.slots| && t.slots[i].dev == s.dev && IsExcl(t.slots[i].flags);
      assert SlotGood(t.slots[i], i, t.maxFd);
      assert c.slots[i] == t.slots[i] && c.slots[k] == s;
    }
    if SomeoneHolds(c, k) {
      var i :| 0 <= i < |c.slots| && i <= c.maxFd && i != k && c.slots[i].dev == c.slots[k].dev
        && IsExcl(c.slots[i].flags);
      assert c.slots[i] == t.slots[i];
    }
  }

  /** A successful open hands out the least free index, never one in use and never a standard one, with the flags
      asked for, and touches nothing else. */
  lemma OpenHandsOutLeastFree(t: Table, found: Ref, flags: bv32, status: int)
    requires Good(t) && Opened(t, found, flags, status).rc >= 0
    ensures var o := Opened(t, found, flags, status);
      && 3 <= o.rc < MAX_FD && !Live(t, o.rc) && (forall i :: 0 <= i < o.rc ==> Live(t, i))
      && o.table.slots == t.slots[o.rc := o.table.slots[o.rc]]
      && o.table.slots[o.rc].dev == found && !IsExcl(o.table.slots[o.rc].flags)
      && (IsDevice(o.table.slots[o.rc].flags) <==> found.Device?)
      && Masked(o.table.slots[o.rc].flags) == Masked(flags)
  {
    FreeIsNotStandard(t, LeastFree(t.slots));
    ShownFlags(flags);
    hide Good, SomeoneHolds, IsExcl, IsDevice, Masked, MarkDevice;
  }

  /** A failed open puts the contents of the table back, just when the slot it had taken, if any, had no
      flags; the flags of a free slot come only from fcntl on a closed descriptor. */
  lemma FailedOpenRestores(t: Table, found: Ref, flags: bv32, status: int)
    requires Good(t) && Opened(t, found, flags, status).rc < 0
    ensures var k := LeastFree(t.slots);
      (Opened(t, found, flags, status).table.slots == t.slots)
        <==> (found == Null || k == MAX_FD || t.slots[k].flags == 0)
  {
    var k := LeastFree(t.slots);
    FreeIsNotStandard(t, k);
    hide Good, SomeoneHolds, IsExcl, IsDevice;
    if found != Null && k < |t.slots| {
      var after := Opened(t, found, flags, status).table.slots;
      assert after == t.slots[k := Slot(Null, 0)];
      assert after[k] == Slot(Null, 0);
      assert t.slots[k].flags == 0 ==> t.slots[k] == Slot(Null, 0);
    }
  }

  /** A run that leaves such flags: a status flag set on a descriptor that is not open, and then an open that
      the driver refuses. */
  lemma FailedOpenChangesTable()
    ensures exists es :: Run(INITIAL, es) && var t := End(INITIAL, es);
      Opened(t, Device(1), 0, -5).rc == -5 && Opened(t, Device(1), 0, -5).table.slots != t.slots
  {
    var mark := Fcntl(3, SetFlags(0x4000));
    var t := After(INITIAL, mark);
    assert t.slots[3] == Slot(Null, 0x4000) by {
      assert ChangeStatus(0, 0x4000) == 0x4000;
    }
    InitiallyGood();
    EventKeeps(INITIAL, mark);
    NoFlags();
    hide IsExcl, IsDevice;
    forall i | 0 <= i < |t.slots| ensures !IsExcl(t.slots[i].flags) {
      if i != 3 {
        assert t.slots[i] == INITIAL.slots[i];
      }
    }
    OpenAt(t, 3, Device(1), -5);
    FailedOpenRestores(t, Device(1), 0, -5);
    assert [mark][..0] == [];
    assert Run(INITIAL, []) && End(INITIAL, []) == INITIAL;
    assert Run(INITIAL, [mark]) && End(INITIAL, [mark]) == t;
  }

  // ---------------------------------------------------------------- redirection

  lemma MoveKeeps(t: Table, std: nat, k: nat)
    requires Good(t) && std < 3 <= k < |t.slots| && t.slots[k].dev != Null
    requires forall i :: 0 <= i < |t.slots| && IsExcl(t.slots[i].flags) ==> t.slots[i].dev != t.slots[k].dev
    ensures Good(Release(Put(t, std, t.slots[k]), k))
  {
    hide IsExcl, IsDevice;
    assert !IsExcl(0) && !IsDevice(0) by { NoFlags(); }
  }

  lemma RedirectKeeps(t: Table, std: nat, to: Try, flags: bv32)
    requires Good(t) && std < 3
    ensures Good(Redirected(t, std, to, flags))
  {
    var o := Opened(t, to.found, flags, to.status);
    OpenKeeps(t, to.found, flags, to.status);
    hide IsExcl, IsDevice, Opened;
    if o.rc >= 0 {
      OpenHandsOutLeastFree(t, to.found, flags, to.status);
      OpenSucceedsJustWhen(t, to.found, flags, to.status);
      hide Good;
      forall i | 0 <= i < |o.table.slots| && IsExcl(o.table.slots[i].flags)
        ensures o.table.slots[i].dev != to.found
      {
        assert o.table.slots[i] == t.slots[i];
      }
      MoveKeeps(o.table, std, o.rc);
    }
  }

  // ---------------------------------------------------------------- every run

  lemma EventKeeps(t: Table, e: Event)
    requires Good(t) && Allowed(t, e)
    ensures Good(After(t, e))
  {
    hide Good, IsExcl, IsDevice;
    FreeIsNotStandard(t, MAX_FD);
    match e {
      case Open(found, flags, status) => OpenKeeps(t, found, flags, status);
      case Close(fd, _) => ReleaseKeeps(t, fd);
      case Ioctl(fd, req, _) =>
        if fd >= 0 && IsDevice(t.slots[fd].flags) {
          LockKeeps(t, fd);
          FlagsKeep(t, fd, ClearExcl(t.slots[fd].flags));
        }
      case Fcntl(fd, cmd) =>
        if fd >= 0 && cmd.SetFlags? {
          FlagsKeep(t, fd, ChangeStatus(t.slots[fd].flags, cmd.wanted));
        }
      case Redirect(std, to, flags) => RedirectKeeps(t, std, to, flags);
    }
  }

  /** In every run at most one descriptor of a device holds a lock, and at most one other descriptor, with
      a larger index, refers to the locked device. */
  lemma {:induction false} AlwaysGood(t: Table, es: seq<Event>)
    requires Good(t) && Run(t, es)
    ensures Good(End(t, es))
    decreases |es|
  {
    if es == [] {
    } else {
      hide Good, Allowed, After;
      AlwaysGood(t, es[..|es| - 1]);
      EventKeeps(End(t, es[..|es| - 1]), es[|es| - 1]);
    }
  }

  lemma LocksInEveryRun(es: seq<Event>, i: nat, j: nat, k: nat)
    requires Run(INITIAL, es)
    requires var n := |End(INITIAL, es).slots|; i < n && j < n && k < n && i != j && i != k
    ensures var s := End(INITIAL, es).slots;
      IsExcl(s[i].flags) && s[j].dev == s[i].dev && s[k].dev == s[i].dev ==>
        j == k && i < j && !IsExcl(s[j].flags)
  {
    InitiallyGood();
    AlwaysGood(INITIAL, es);
    hide IsExcl, IsDevice, End;
    var s := End(INITIAL, es).slots;
    assert IsExcl(s[i].flags) ==> LockGood(s, i);
    assert j != k ==> j < k || k < j;
  }

  // ---------------------------------------------------------------- what a call gives and takes

  /** Close frees the descriptor, whatever the driver answers, unless it is a standard one; nothing else changes,
      and the index can be handed out again. */
  lemma CloseFrees(t: Table, fd: int, answer: int)
    requires Allowed(t, Close(fd, answer))
    ensures var after := After(t, Close(fd, answer));
      && after.maxFd == t.maxFd && (fd <= 2 ==> after == t)
      && (fd > 2 ==> !Live(after, fd) && after.slots == t.slots[fd := Slot(Null, 0)] && LeastFree(after.slots) <= fd)
    ensures Closed(t, fd, answer).rc < 0 <==> fd < 0 || answer < 0
  {
    var after := After(t, Close(fd, answer));
    assert fd > 2 ==> after.slots[fd].dev == Null;
  }

  /** Closing what was just opened puts the contents of the table back, just when the slot it had taken had no flags
      left from fcntl on a closed descriptor. */
  lemma OpenThenClose(t: Table, found: Ref, flags: bv32, status: int, answer: int)
    requires Good(t) && Opened(t, found, flags, status).rc >= 0
    ensures var k := Opened(t, found, flags, status).rc;
      var es := [Open(found, flags, status), Close(k, answer)];
      k < |t.slots| && Run(t, es) && (End(t, es).slots == t.slots <==> t.slots[k].flags == 0)
  {
    var o := Opened(t, found, flags, status);
    var open, close := Open(found, flags, status), Close(o.rc, answer);
    FreeIsNotStandard(t, MAX_FD);
    OpenHandsOutLeastFree(t, found, flags, status);
    hide Opened, Good;
    var es := [open, close];
    assert es[..1] == [open] && [open][..0] == [];
    assert Run(t, []) && End(t, []) == t;
    assert Run(t, [open]) && End(t, [open]) == o.table;
    CloseFrees(o.table, o.rc, answer);
    assert Run(t, es) && End(t, es) == After(o.table, close);
    hide *;
    PutBack(t.slots, o.table.slots, o.rc);
  }

  lemma PutBack(slots: seq<Slot>, taken: seq<Slot>, k: nat)
    requires k < |slots| == |taken| && slots[k].dev == Null && taken == slots[k := taken[k]]
    ensures taken[k := Slot(Null, 0)] == slots <==> slots[k].flags == 0
  {
    assert taken[k := Slot(Null, 0)] == slots[k := Slot(Null, 0)];
    assert slots[k := Slot(Null, 0)][k] == Slot(Null, 0);
    assert slots[k].flags == 0 ==> slots[k] == Slot(Null, 0);
  }

  /** At most the driver flags of one descriptor have changed, and not the mark of a device. */
  ghost predicate SameButFlags(t: Table, after: Table, fd: nat) {
    && fd < |t.slots| == |after.slots| && after.maxFd == t.maxFd
    && after.slots == t.slots[fd := after.slots[fd]] && after.slots[fd].dev == t.slots[fd].dev
    && Masked(after.slots[fd].flags) == Masked(t.slots[fd].flags)
    && (IsDevice(after.slots[fd].flags) <==> IsDevice(t.slots[fd].flags))
  }

  lemma FlagsPut(t: Table, fd: nat, flags: bv32)
    requires fd < |t.slots| && Masked(flags) == Masked(t.slots[fd].flags)
    requires IsDevice(flags) <==> IsDevice(t.slots[fd].flags)
    ensures var after := Put(t, fd, t.slots[fd].(flags := flags));
      SameButFlags(t, after, fd) && after.slots[fd].flags == flags
  {
    hide IsDevice, Masked;
  }

  /** A lock of a device is granted, by setting one flag, or refused with no change. */
  lemma LockTaken(t: Table, fd: nat, answer: int)
    requires Live(t, fd) && IsDevice(t.slots[fd].flags)
    ensures var o, after := Controlled(t, fd, Exclusive, answer), After(t, Ioctl(fd, Exclusive, answer));
      && after == o.table && SameButFlags(t, after, fd)
      && ((o.rc == 0 && IsExcl(after.slots[fd].flags)) || (o.rc == -EACCES && after == t))
  {
    var flags := t.slots[fd].flags;
    ShownFlags(flags);
    FlagMarks(flags);
    hide IsExcl, IsDevice, SomeoneShares, Masked, MarkExcl, SameButFlags;
    FlagsPut(t, fd, MarkExcl(flags));
    FlagsPut(t, fd, flags);
    assert Put(t, fd, t.slots[fd]) == t;
  }

  /** And it is given back by clearing that flag. */
  lemma LockGivenBack(t: Table, fd: nat, answer: int)
    requires Live(t, fd) && IsDevice(t.slots[fd].flags)
    ensures var o, after := Controlled(t, fd, NotExclusive, answer), After(t, Ioctl(fd, NotExclusive, answer));
      after == o.table && SameButFlags(t, after, fd) && o.rc == 0 && !IsExcl(after.slots[fd].flags)
  {
    var flags := t.slots[fd].flags;
    ShownFlags(flags);
    FlagMarks(flags);
    hide IsExcl, IsDevice, Masked, ClearExcl, SameButFlags;
    FlagsPut(t, fd, ClearExcl(flags));
  }

  /** Any other request, and any on a file system, is answered by the driver and changes nothing here. */
  lemma PassedOn(t: Table, fd: nat, req: Request, answer: int)
    requires Live(t, fd) && (!IsDevice(t.slots[fd].flags) || req.Other?)
    ensures Controlled(t, fd, req, answer) == Outcome(t, answer) && After(t, Ioctl(fd, req, answer)) == t
  {
  }

  lemma FlagMarks(flags: bv32)
    ensures IsExcl(MarkExcl(flags)) && (IsDevice(MarkExcl(flags)) <==> IsDevice(flags))
    ensures !IsExcl(ClearExcl(flags)) && (IsDevice(ClearExcl(flags)) <==> IsDevice(flags))
  {
  }

  /** Once the holder of a lock has given it back or is closed, nobody holds one, and the device can be opened again
      as far as there is a free index and the driver agrees. */
  lemma DeviceIsFreeAgain(t: Table, fd: nat, closing: bool, answer: int, flags: bv32, status: int)
    requires Good(t) && Live(t, fd) && IsExcl(t.slots[fd].flags) && (closing ==> fd > 2)
    ensures var e := if closing then Close(fd, answer) else Ioctl(fd, NotExclusive, answer);
      var after := After(t, e);
      && Good(after) && !HeldByAnyone(after, t.slots[fd].dev)
      && (closing ==> LeastFree(after.slots) < MAX_FD)
      && (Opened(after, t.slots[fd].dev, flags, status).rc >= 0 <==> LeastFree(after.slots) < MAX_FD && status >= 0)
  {
    var e := if closing then Close(fd, answer) else Ioctl(fd, NotExclusive, answer);
    var dev, after := t.slots[fd].dev, After(t, e);
    EventKeeps(t, e);
    FreeIsNotStandard(t, MAX_FD);
    hide IsExcl, IsDevice, After;
    assert LockGood(t.slots, fd) && IsDevice(t.slots[fd].flags) by {
      assert SlotGood(t.slots[fd], fd, t.maxFd);
    }
    if closing {
      CloseFrees(t, fd, answer);
    } else {
      LockGivenBack(t, fd, answer);
    }
    hide Good;
    OnlyOneHolds(t, fd, after.slots[fd], after);
    OpenSucceedsJustWhen(after, dev, flags, status);
  }

  lemma OnlyOneHolds(t: Table, fd: nat, s: Slot, after: Table)
    requires fd < |t.slots| && LockGood(t.slots, fd) && after.slots == t.slots[fd := s]
    requires s.dev == t.slots[fd].dev ==> !IsExcl(s.flags)
    ensures !HeldByAnyone(after, t.slots[fd].dev)
  {
    hide IsExcl;
  }

  /** What F_SETFL sets and clears is what F_GETFL shows afterwards; nothing else changes. */
  lemma StatusReadsBack(t: Table, fd: nat, wanted: bv32)
    requires fd < |t.slots|
    ensures var after := After(t, Fcntl(fd, SetFlags(wanted)));
      && after.maxFd == t.maxFd && |after.slots| == |t.slots| && after.slots == t.slots[fd := after.slots[fd]]
      && after.slots[fd].dev == t.slots[fd].dev
      && Masked(after.slots[fd].flags) & 0x4008 == wanted & 0x4008
      && Masked(after.slots[fd].flags) & !0x4008 == Masked(t.slots[fd].flags) & !0x4008
  {
    StatusChanges(t.slots[fd].flags, wanted);
    hide ChangeStatus, Masked;
  }

  // ---------------------------------------------------------------- what redirection gives

  /** The open succeeds by what the whole table says. */
  ghost predicate CanOpen(t: Table, to: Try) {
    to.found != Null && LeastFree(t.slots) < MAX_FD && !HeldByAnyone(t, to.found) && to.status >= 0
  }

  ghost predicate RefersTo(t: Table, fd: nat, to: Try, flags: bv32) {
    fd < |t.slots| && t.slots[fd].dev == to.found && Masked(t.slots[fd].flags) == Masked(flags)
  }

  /** A redirected descriptor refers to the new device, with the flags asked for; the index used on the way is free
      again, all other descriptors are as before, and no locks come up. */
  lemma RedirectTakesOver(t: Table, std: nat, to: Try, flags: bv32)
    requires Good(t) && std < 3 && CanOpen(t, to)
    ensures var after, k := Redirected(t, std, to, flags), LeastFree(t.slots);
      && Good(after) && RefersTo(after, std, to, flags)
      && k < |t.slots| && after.slots == t.slots[std := after.slots[std]][k := Slot(Null, 0)]
      && LeastFree(after.slots) < MAX_FD
      && (forall dev :: HeldByAnyone(after, dev) ==> HeldByAnyone(t, dev))
  {
    var k, o := LeastFree(t.slots), Opened(t, to.found, flags, to.status);
    FreeIsNotStandard(t, k);
    OpenSucceedsJustWhen(t, to.found, flags, to.status);
    OpenHandsOutLeastFree(t, to.found, flags, to.status);
    RedirectKeeps(t, std, to, flags);
    OpensAtLeast(t, to.found, flags, to.status);
    NoFlags();
    hide Good, IsExcl, IsDevice, Opened, Masked;
    var after := Redirected(t, std, to, flags);
    assert after.slots[k].dev == Null;
    forall dev | HeldByAnyone(after, dev) ensures HeldByAnyone(t, dev) {
      var i :| 0 <= i < |after.slots| && after.slots[i].dev == dev && IsExcl(after.slots[i].flags);
      assert i != std && i != k && after.slots[i] == t.slots[i];
    }
  }

  lemma OpensAtLeast(t: Table, found: Ref, flags: bv32, status: int)
    ensures var o := Opened(t, found, flags, status); o.rc >= 0 ==> o.rc == LeastFree(t.slots)
  {
    hide SomeoneHolds;
  }

  lemma RedirectSparesOther(t: Table, std: nat, to: Try, flags: bv32, fd: nat, was: Try, wasFlags: bv32)
    requires Good(t) && std < 3 && CanOpen(t, to) && fd < 3 && fd != std && RefersTo(t, fd, was, wasFlags)
    ensures RefersTo(Redirected(t, std, to, flags), fd, was, wasFlags)
  {
    FreeIsNotStandard(t, LeastFree(t.slots));
    RedirectTakesOver(t, std, to, flags);
    hide Redirected, Good, Masked;
  }

  /** After a redirection of all three, with all three openable, standard output and error are for writing, standard
      input for reading, each on its own device. */
  lemma AllTakenOver(t: Table, output: Try, input: Try, error: Try)
    requires Good(t) && CanOpen(t, output) && CanOpen(t, input) && CanOpen(t, error)
    ensures |t.slots| == MAX_FD
    ensures var after := AllRedirected(t, output, input, error);
      Good(after) && RefersTo(after, 0, input, 0) && RefersTo(after, 1, output, 1) && RefersTo(after, 2, error, 1)
  {
    FreeIsNotStandard(t, MAX_FD);
    hide Good, Redirected, RefersTo;
    RedirectTakesOver(t, 1, output, O_WRONLY);
    var t1 := Redirected(t, 1, output, O_WRONLY);
    RedirectTakesOver(t1, 0, input, O_RDONLY);
    RedirectSparesOther(t1, 0, input, O_RDONLY, 1, output, O_WRONLY);
    var t2 := Redirected(t1, 0, input, O_RDONLY);
    RedirectTakesOver(t2, 2, error, O_WRONLY);
    RedirectSparesOther(t2, 2, error, O_WRONLY, 1, output, O_WRONLY);
    RedirectSparesOther(t2, 2, error, O_WRONLY, 0, input, O_RDONLY);
  }

  // ---------------------------------------------------------------- how long things last

  /** The event does not give the descriptor away. */
  ghost predicate Spares(e: Event, fd: nat) {
    && !(e.Close? && e.fd == fd && fd > 2)
    && !(e.Redirect? && e.std == fd)
  }

  ghost predicate SparesLock(e: Event, fd: nat) {
    Spares(e, fd) && !(e.Ioctl? && e.fd == fd && e.req.NotExclusive?)
  }

  lemma EventSpares(t: Table, e: Event, fd: nat)
    requires Good(t) && Allowed(t, e) && Live(t, fd) && Spares(e, fd)
    ensures Good(After(t, e)) && Live(After(t, e), fd) && After(t, e).slots[fd].dev == t.slots[fd].dev
    ensures SparesLock(e, fd) && IsExcl(t.slots[fd].flags) ==> IsExcl(After(t, e).slots[fd].flags)
  {
    hide Good, IsExcl, IsDevice, SomeoneHolds, SomeoneShares, After;
    EventKeeps(t, e);
    FreeIsNotStandard(t, LeastFree(t.slots));
    match e {
      case Open(found, flags, status) => OpenSpares(t, found, flags, status, fd);
      case Redirect(std, to, flags) => RedirectSpares(t, std, to, flags, fd);
      case _ => CallSpares(t, e, fd);
    }
    AfterIs(t, e);
  }

  lemma AfterIs(t: Table, e: Event)
    requires Allowed(t, e)
    ensures e.Open? ==> After(t, e) == Opened(t, e.found, e.flags, e.status).table
    ensures e.Redirect? ==> After(t, e) == Redirected(t, e.std, e.to, e.flags)
  {
  }

  lemma OpenSpares(t: Table, found: Ref, flags: bv32, status: int, fd: nat)
    requires Good(t) && Live(t, fd)
    ensures var after := Opened(t, found, flags, status).table;
      fd < |after.slots| == |t.slots| && after.slots[fd] == t.slots[fd]
  {
    FreeIsNotStandard(t, LeastFree(t.slots));
    hide Good, IsExcl, IsDevice, SomeoneHolds, Masked, MarkDevice;
  }

  lemma RedirectSpares(t: Table, std: nat, to: Try, flags: bv32, fd: nat)
    requires Good(t) && Live(t, fd) && std < 3 && std != fd
    ensures std < 3 <= |t.slots|
    ensures var after := Redirected(t, std, to, flags);
      fd < |after.slots| == |t.slots| && after.slots[fd] == t.slots[fd]
  {
    FreeIsNotStandard(t, LeastFree(t.slots));
    OpenSpares(t, to.found, flags, to.status, fd);
    hide Opened;
    if Opened(t, to.found, flags, to.status).rc >= 0 {
      OpenHandsOutLeastFree(t, to.found, flags, to.status);
    }
    hide Good, IsExcl, IsDevice;
  }

  lemma CallSpares(t: Table, e: Event, fd: nat)
    requires Allowed(t, e) && Live(t, fd) && Spares(e, fd) && !e.Open? && !e.Redirect?
    ensures Live(After(t, e), fd) && After(t, e).slots[fd].dev == t.slots[fd].dev
    ensures SparesLock(e, fd) && IsExcl(t.slots[fd].flags) ==> IsExcl(After(t, e).slots[fd].flags)
  {
    hide IsExcl, IsDevice, SomeoneShares;
  }

  /** A descriptor refers to the same device until it is closed, or redirected if it is a standard one. */
  lemma {:induction false} OpenUntilClosed(t: Table, es: seq<Event>, fd: nat)
    requires Good(t) && Run(t, es) && Live(t, fd) && forall i :: 0 <= i < |es| ==> Spares(es[i], fd)
    ensures Good(End(t, es)) && Live(End(t, es), fd) && End(t, es).slots[fd].dev == t.slots[fd].dev
    decreases |es|
  {
    if es == [] {
    } else {
      hide Good, Allowed, After;
      OpenUntilClosed(t, es[..|es| - 1], fd);
      EventSpares(End(t, es[..|es| - 1]), es[|es| - 1], fd);
    }
  }

  /** While a descriptor that holds a lock is neither unlocked nor given away, the lock stays, whatever
      fcntl does, and no open of the device succeeds. */
  lemma {:induction false} LockedUntilReleased(t: Table, es: seq<Event>, fd: nat)
    requires Good(t) && Run(t, es) && Live(t, fd) && IsExcl(t.slots[fd].flags)
    requires forall i :: 0 <= i < |es| ==> SparesLock(es[i], fd)
    ensures Live(End(t, es), fd) && End(t, es).slots[fd].dev == t.slots[fd].dev
    ensures Good(End(t, es)) && IsExcl(End(t, es).slots[fd].flags)
    decreases |es|
  {
    if es == [] {
    } else {
      hide Good, Allowed, After, IsExcl;
      LockedUntilReleased(t, es[..|es| - 1], fd);
      EventSpares(End(t, es[..|es| - 1]), es[|es| - 1], fd);
    }
  }

  lemma LockedDeviceCannotBeOpened(t: Table, es: seq<Event>, fd: nat, flags: bv32, status: int)
    requires Good(t) && Run(t, es) && Live(t, fd) && IsExcl(t.slots[fd].flags)
    requires forall i :: 0 <= i < |es| ==> SparesLock(es[i], fd)
    ensures var now := End(t, es);
      Opened(now, t.slots[fd].dev, flags, status).rc
        == if LeastFree(now.slots) < |now.slots| then -EACCES else -EMFILE
  {
    LockedUntilReleased(t, es, fd);
    var now := End(t, es);
    assert HeldByAnyone(now, t.slots[fd].dev) by {
      assert IsExcl(now.slots[fd].flags);
    }
    FreeIsNotStandard(now, MAX_FD);
    hide Good, IsExcl, HeldByAnyone, SomeoneHolds, End;
    OpenSucceedsJustWhen(now, t.slots[fd].dev, flags, status);
  }

  // ---------------------------------------------------------------- what a lock does not promise

  /** When a lock is granted, and when its holder is then the only user of the device: not if the
      descriptor with the largest index ever handed out refers to the device as well. */
  lemma WhenLockIsExclusive(t: Table, fd: nat)
    requires Good(t) && Live(t, fd) && IsDevice(t.slots[fd].flags)
    ensures Lock(t, fd).rc == 0
      <==> forall i :: 0 <= i < |t.slots| && i != fd && t.slots[i].dev == t.slots[fd].dev ==> i == t.maxFd
    ensures Lock(t, fd).rc == 0 ==> var after := Lock(t, fd).table;
      (forall i :: 0 <= i < |after.slots| && i != fd ==> after.slots[i].dev != after.slots[fd].dev)
        <==> t.maxFd == fd || t.slots[t.maxFd].dev != t.slots[fd].dev
  {
    hide IsExcl, IsDevice;
    if !SomeoneShares(t, fd) {
      forall i | 0 <= i < |t.slots| && i != fd && t.slots[i].dev == t.slots[fd].dev ensures i == t.maxFd {
        assert SlotGood(t.slots[i], i, t.maxFd);
      }
      var after := Lock(t, fd).table;
      assert SlotGood(t.slots[fd], fd, t.maxFd);
      assert forall i :: 0 <= i < |t.slots| ==> after.slots[i].dev == t.slots[i].dev;
    }
  }

  /** No other descriptor refers to the same device. */
  ghost predicate OnlyUser(t: Table, fd: nat) {
    fd < |t.slots| && forall i :: 0 <= i < |t.slots| && i != fd ==> t.slots[i].dev != t.slots[fd].dev
  }

  lemma EventKeepsOnlyUser(t: Table, e: Event, fd: nat)
    requires Good(t) && Allowed(t, e) && Live(t, fd) && SparesLock(e, fd)
    requires IsExcl(t.slots[fd].flags) && OnlyUser(t, fd)
    ensures OnlyUser(After(t, e), fd)
  {
    hide Good, IsExcl, IsDevice, SomeoneHolds, SomeoneShares, After, OnlyUser;
    EventSpares(t, e, fd);
    match e {
      case Open(found, flags, status) => OpenKeepsOnlyUser(t, found, flags, status, fd);
      case Redirect(std, to, flags) => RedirectKeepsOnlyUser(t, std, to, flags, fd);
      case _ => CallKeepsOnlyUser(t, e, fd);
    }
    AfterIs(t, e);
  }

  lemma OpenKeepsOnlyUser(t: Table, found: Ref, flags: bv32, status: int, fd: nat)
    requires Good(t) && Live(t, fd) && IsExcl(t.slots[fd].flags) && OnlyUser(t, fd)
    ensures OnlyUser(Opened(t, found, flags, status).table, fd)
    ensures Opened(t, found, flags, status).rc >= 0 ==> found != t.slots[fd].dev
  {
    FreeIsNotStandard(t, LeastFree(t.slots));
    OpenSucceedsJustWhen(t, found, flags, status);
    hide Good, IsExcl, IsDevice, SomeoneHolds, Masked, MarkDevice;
  }

  lemma RedirectKeepsOnlyUser(t: Table, std: nat, to: Try, flags: bv32, fd: nat)
    requires Good(t) && Live(t, fd) && std < 3 && std != fd
    requires IsExcl(t.slots[fd].flags) && OnlyUser(t, fd)
    ensures std < 3 <= |t.slots| && OnlyUser(Redirected(t, std, to, flags), fd)
  {
    FreeIsNotStandard(t, LeastFree(t.slots));
    OpenKeepsOnlyUser(t, to.found, flags, to.status, fd);
    OpenSpares(t, to.found, flags, to.status, fd);
    hide Opened;
    if Opened(t, to.found, flags, to.status).rc >= 0 {
      OpenHandsOutLeastFree(t, to.found, flags, to.status);
    }
    hide Good, IsExcl, IsDevice;
  }

  lemma CallKeepsOnlyUser(t: Table, e: Event, fd: nat)
    requires Allowed(t, e) && Live(t, fd) && Spares(e, fd) && !e.Open? && !e.Redirect? && OnlyUser(t, fd)
    ensures OnlyUser(After(t, e), fd)
  {
    hide IsExcl, IsDevice, SomeoneShares;
  }

  /** Who once is the only user of a device it has locked stays so in every run, until it gives the lock or the
      descriptor away. */
  lemma {:induction false} OnlyUserUntilReleased(t: Table, es: seq<Event>, fd: nat)
    requires Good(t) && Run(t, es) && Live(t, fd) && IsExcl(t.slots[fd].flags) && OnlyUser(t, fd)
    requires forall i :: 0 <= i < |es| ==> SparesLock(es[i], fd)
    ensures OnlyUser(End(t, es), fd)
    decreases |es|
  {
    hide Good, Allowed, After, IsExcl, OnlyUser;
    if es == [] {
      assert End(t, es) == t;
    } else {
      OnlyUserUntilReleased(t, es[..|es| - 1], fd);
      LockedUntilReleased(t, es[..|es| - 1], fd);
      EventKeepsOnlyUser(End(t, es[..|es| - 1]), es[|es| - 1], fd);
    }
  }

  /** So a lock that is granted while the descriptor with the largest index refers to another device, or is
      itself the holder, excludes everybody else for as long as it is held. */
  lemma LockExcludesOthers(t: Table, fd: nat, es: seq<Event>)
    requires Good(t) && Live(t, fd) && IsDevice(t.slots[fd].flags) && Lock(t, fd).rc == 0
    requires t.maxFd == fd || t.slots[t.maxFd].dev != t.slots[fd].dev
    requires Run(Lock(t, fd).table, es) && forall i :: 0 <= i < |es| ==> SparesLock(es[i], fd)
    ensures OnlyUser(End(Lock(t, fd).table, es), fd)
  {
    WhenLockIsExclusive(t, fd);
    LockKeeps(t, fd);
    var locked := Lock(t, fd).table;
    assert Live(locked, fd) && IsExcl(locked.slots[fd].flags) && OnlyUser(locked, fd);
    hide Good, Lock, IsExcl, IsDevice, OnlyUser;
    OnlyUserUntilReleased(locked, es, fd);
  }

  lemma OpenAt(t: Table, k: nat, dev: Ref, status: int)
    requires Good(t) && k < |t.slots| && t.slots[k].dev == Null && forall i :: 0 <= i < k ==> Live(t, i)
    requires dev.Device? && forall i :: 0 <= i < |t.slots| ==> !IsExcl(t.slots[i].flags)
    ensures LeastFree(t.slots) == k && Opened(t, dev, 0, status) ==
      if status < 0 then Outcome(Release(Claim(t, k, Slot(dev, MarkDevice(Masked(0)))), k), status)
      else Outcome(Claim(t, k, Slot(dev, MarkDevice(Masked(0)))), k)
  {
    var least := LeastFree(t.slots);
    assert least < k ==> Live(t, least);
    assert k == least;
    hide Good, IsExcl, IsDevice;
    assert !SomeoneHolds(Claim(t, k, Slot(dev, MarkDevice(Masked(0)))), k);
  }

  /** Two opens of one device, and the lock of the first is granted although the second stays open. */
  lemma LockWithTwoUsers()
    ensures exists es :: Run(INITIAL, es) && var t := End(INITIAL, es);
      |t.slots| == MAX_FD && t.slots[3].dev == t.slots[4].dev && IsExcl(t.slots[3].flags)
  {
    var open, lock := Open(Device(1), 0, 0), Ioctl(3, Exclusive, 0);
    InitiallyGood();
    NoFlags();
    hide IsExcl, IsDevice;
    OpenAt(INITIAL, 3, Device(1), 0);
    var t1 := After(INITIAL, open);
    OpenKeeps(INITIAL, Device(1), 0, 0);
    OpenAt(t1, 4, Device(1), 0);
    var t2 := After(t1, open);
    OpenKeeps(t1, Device(1), 0, 0);
    hide Good, Opened;
    WhenLockIsExclusive(t2, 3);
    var es := [open, open, lock];
    assert es[..2] == [open, open] && [open, open][..1] == [open] && [open][..0] == [];
    assert Run(INITIAL, []) && End(INITIAL, []) == INITIAL;
    assert Run(INITIAL, [open]) && End(INITIAL, [open]) == t1;
    assert Run(INITIAL, [open, open]) && End(INITIAL, [open, open]) == t2;
    assert Run(INITIAL, es);
  }
}
