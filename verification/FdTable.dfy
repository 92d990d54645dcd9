/**
  The HAL's descriptor calls on the global array and its high-water mark. Each public call is proved to be
  one event of the descriptor table, so what holds of all runs of the table holds here.
 */
module FdTable {
  import opened DescriptorTable

  class Descriptors {
    const list: array<Slot>
    var maxFd: int
    var errno: int

    ghost function View(): Table
      reads this`maxFd, list
    {
      Table(list[..], maxFd)
    }

    ghost predicate Valid()
      reads this`maxFd, list
    {
      list.Length == MAX_FD && Good(View())
    }

    /** The initial table: the standard descriptors on /dev/null, all others free. */
    constructor ()
      ensures Valid() && fresh(list) && View() == INITIAL && errno == 0
    {
      list := new Slot[MAX_FD](i => Slot(if i < 3 then Device(0) else Null, 0));
      maxFd, errno := -1, 0;
      new;
      assert list[..] == INITIAL.slots;
      InitiallyGood();
    }

    /** The assignments to the fields of one entry. */
    method SetFlags(fd: nat, flags: bv32)
      requires fd < list.Length
      modifies list
      ensures View() == Put(old(View()), fd, old(list[fd]).(flags := flags))
    {
      list[fd] := list[fd].(flags := flags);
    }

    method SetDev(fd: nat, dev: Ref)
      requires fd < list.Length
      modifies list
      ensures View() == Put(old(View()), fd, old(list[fd]).(dev := dev))
    {
      list[fd] := list[fd].(dev := dev);
    }

    lemma PutTwice(t: Table, fd: nat, s: Slot, s': Slot)
      requires fd < |t.slots|
      ensures Put(Put(t, fd, s), fd, s') == Put(t, fd, s') && Put(t, fd, s).slots[fd] == s
      ensures Put(Claim(t, fd, s), fd, s') == Claim(t, fd, s') && Claim(t, fd, s).slots[fd] == s
    {
    }

    /** alt_get_fd. */
    method GetFd(dev: Ref) returns (rc: int)
      requires list.Length == MAX_FD
      modifies this`maxFd, list
      ensures var t, k := old(View()), LeastFree(old(View()).slots);
        if k == MAX_FD then rc == -EMFILE && View() == t
        else rc == k && View() == Claim(t, k, t.slots[k].(dev := dev))
    {
      rc := -EMFILE;
      var i := 0;
      while i < MAX_FD
        invariant 0 <= i <= MAX_FD && rc == -EMFILE && View() == old(View())
        invariant forall j :: 0 <= j < i ==> list[j].dev != Null
      {
        if list[i].dev == Null {
          IsLeast(list[..], i);
          SetDev(i, dev);
          if i > maxFd {
            maxFd := i;
          }
          return i;
        }
        i := i + 1;
      }
      IsLeast(list[..], MAX_FD);
    }

    lemma IsLeast(slots: seq<Slot>, k: nat)
      requires k <= |slots| && (k < |slots| ==> slots[k].dev == Null)
      requires forall j :: 0 <= j < k ==> slots[j].dev != Null
      ensures k == LeastFree(slots)
    {
    }

    /** alt_release_fd. */
    method ReleaseFd(fd: int)
      requires fd < list.Length
      modifies list
      ensures View() == Release(old(View()), fd)
    {
      if fd > 2 {
        SetFlags(fd, 0);
        SetDev(fd, Null);
      }
    }

    /** alt_file_locked. */
    method FileLocked(fd: nat) returns (rc: int)
      requires fd < list.Length && 0 <= maxFd < list.Length
      modifies list
      ensures View() == Put(old(View()), fd, old(list[fd]).(flags := MarkDevice(old(list[fd].flags))))
      ensures rc == if SomeoneHolds(View(), fd) then -EACCES else 0
    {
      SetFlags(fd, MarkDevice(list[fd].flags));
      var i := 0;
      while i <= maxFd
        invariant 0 <= i <= maxFd + 1
        invariant forall j :: 0 <= j < i && j != fd && list[j].dev == list[fd].dev ==> !IsExcl(list[j].flags)
      {
        if list[i].dev == list[fd].dev && IsExcl(list[i].flags) && i != fd {
          return -EACCES;
        }
        i := i + 1;
      }
      return 0;
    }

    /** open: `found` is the entry the name leads to, `status` what its open function answers, 0 if it has
        none. */
    method Open(found: Ref, flags: bv32, status: int) returns (index: int)
      requires Valid()
      modifies this`maxFd, this`errno, list
      ensures Valid()
      ensures var o := Opened(old(View()), found, flags, status);
        View() == o.table && index == (if o.rc < 0 then -1 else o.rc)
        && errno == if o.rc < 0 then -o.rc else old(errno)
    {
      OpenKeeps(View(), found, flags, status);
      FreeIsNotStandard(View(), LeastFree(View().slots));
      hide Good, SomeoneHolds, IsExcl, IsDevice, Masked, MarkDevice, Put, Claim, Release;
      index := -1;
      var rc := -ENODEV;
      ghost var t := View();
      if found != Null {
        index := GetFd(found);
        if index < 0 {
          rc := index;
        } else {
          ghost var s := t.slots[index].(dev := found);
          PutTwice(t, index, s, Slot(found, Masked(flags)));
          SetFlags(index, Masked(flags));
          assert View() == Claim(t, index, Slot(found, Masked(flags)));
          if found.Device? {
            PutTwice(t, index, Slot(found, Masked(flags)), Slot(found, MarkDevice(Masked(flags))));
            rc := FileLocked(index);
            assert View() == Claim(t, index, Slot(found, MarkDevice(Masked(flags))));
          }
          if found.FileSystem? || rc >= 0 {
            rc := status;
          }
        }
      }
      if rc < 0 {
        ReleaseFd(index);
        errno := -rc;
        return -1;
      }
    }

    /** close: `answer` is what the driver's close function answers, 0 if it has none. */
    method Close(fd: int, answer: int) returns (ret: int)
      requires Valid() && (fd < 0 || Live(View(), fd))
      modifies this`errno, list
      ensures Valid()
      ensures var o := Closed(old(View()), fd, answer);
        View() == o.table && ret == (if o.rc < 0 then -1 else 0)
        && errno == if o.rc < 0 then -o.rc else old(errno)
    {
      ReleaseKeeps(View(), fd);
      hide Good;
      if fd >= 0 {
        ReleaseFd(fd);
        if answer < 0 {
          errno := -answer;
          return -1;
        }
        return 0;
      } else {
        errno := EBADFD;
        return -1;
      }
    }

    /** alt_fd_lock. */
    method FdLock(fd: nat) returns (rc: int)
      requires fd < list.Length && maxFd < list.Length
      modifies list
      ensures var o := Lock(old(View()), fd); View() == o.table && rc == o.rc
    {
      var i := 0;
      while i < maxFd
        invariant 0 <= i && (i <= maxFd || i == 0)
        invariant forall j :: 0 <= j < i && j != fd ==> list[j].dev != list[fd].dev
      {
        if i != fd && list[i].dev == list[fd].dev {
          return -EACCES;
        }
        i := i + 1;
      }
      SetFlags(fd, MarkExcl(list[fd].flags));
      return 0;
    }

    /** alt_fd_unlock. */
    method FdUnlock(fd: nat) returns (rc: int)
      requires fd < list.Length
      modifies list
      ensures View() == Unlock(old(View()), fd) && rc == 0
    {
      SetFlags(fd, ClearExcl(list[fd].flags));
      return 0;
    }

    /** ioctl: `answer` is what the driver's ioctl function answers, -ENOTTY if it has none. */
    method Ioctl(fd: int, req: Request, answer: int) returns (rc: int)
      requires Valid() && (fd < 0 || Live(View(), fd))
      modifies this`errno, list
      ensures Valid()
      ensures var o := Controlled(old(View()), fd, req, answer);
        View() == o.table && rc == o.rc && errno == if o.rc < 0 then -o.rc else old(errno)
    {
      EventKeeps(View(), DescriptorTable.Ioctl(fd, req, answer));
      hide Good, IsDevice, Lock, Unlock;
      if fd >= 0 {
        FreeIsNotStandard(View(), MAX_FD);
        if IsDevice(list[fd].flags) && req.Exclusive? {
          rc := FdLock(fd);
        } else if IsDevice(list[fd].flags) && req.NotExclusive? {
          rc := FdUnlock(fd);
        } else {
          rc := answer;
        }
      } else {
        rc := -EBADFD;
      }
      if rc < 0 {
        errno := -rc;
      }
    }

    /** fcntl: the two driver flags are neither shown nor changed. */
    method Fcntl(fd: int, cmd: Command) returns (ret: int)
      requires Valid() && fd < MAX_FD
      modifies this`errno, list
      ensures Valid() && View() == StatusSet(old(View()), fd, cmd)
      ensures ret == if fd < 0 || cmd.Unknown? then -1
        else if cmd.SetFlags? then 0 else Masked(old(list[fd].flags)) as int
      ensures errno == if fd < 0 then EBADFD else if cmd.Unknown? then EINVAL else old(errno)
    {
      EventKeeps(View(), DescriptorTable.Fcntl(fd, cmd));
      hide Good, IsDevice, IsExcl;
      if fd >= 0 {
        match cmd {
          case GetFlags => return Masked(list[fd].flags) as int;
          case SetFlags(wanted) =>
            SetFlags(fd, ChangeStatus(list[fd].flags, wanted));
            return 0;
          case Unknown =>
            errno := EINVAL;
            return -1;
        }
      }
      errno := EBADFD;
      return -1;
    }

    /** alt_open_fd. */
    method OpenFd(std: nat, to: Try, flags: bv32)
      requires Valid() && std < 3
      modifies this`maxFd, this`errno, list
      ensures Valid() && View() == Redirected(old(View()), std, to, flags)
    {
      RedirectKeeps(View(), std, to, flags);
      ghost var t := View();
      var index := Open(to.found, flags, to.status);
      if index >= 0 {
        OpenHandsOutLeastFree(t, to.found, flags, to.status);
        hide Good, Opened, IsExcl, IsDevice, Release;
        ghost var o := View();
        PutTwice(o, std, o.slots[std].(dev := o.slots[index].dev), o.slots[index]);
        SetDev(std, list[index].dev);
        SetFlags(std, list[index].flags);
        ReleaseFd(index);
      }
    }

    /** alt_io_redirect. */
    method IoRedirect(output: Try, input: Try, error: Try)
      requires Valid()
      modifies this`maxFd, this`errno, list
      ensures Valid() && View() == AllRedirected(old(View()), output, input, error)
    {
      hide Good, Redirected;
      OpenFd(1, output, O_WRONLY);
      OpenFd(0, input, O_RDONLY);
      OpenFd(2, error, O_WRONLY);
    }
  }
}
