/** The table of outstanding asynchronous operations: two slots for every file descriptor, grown by doubling. */
module AsyncTable {
  import opened Protocol

  datatype Direction = Reading | Writing

  datatype Operation = Operation(procPtr: int, clientData: int, fd: nat, len: int, offset: int, buf: int)

  /** A slot keeps its last operation when it is let go. */
  datatype AioInfo = AioInfo(operation: Operation, inUse: bool)

  const EMPTY := AioInfo(Operation(0, 0, 0, 0, 0, 0), false)

  function SlotOf(fd: nat, d: Direction): nat {
    if d.Reading? then fd * 2 else fd * 2 + 1
  }

  /** No two operations share a slot, and each slot belongs to an operation. */
  lemma SlotsAreExclusive(fd: nat, d: Direction, fd': nat, d': Direction, slot: nat)
    ensures SlotOf(fd, d) == SlotOf(fd', d') <==> fd == fd' && d == d'
    ensures SlotOf(slot / 2, if slot % 2 == 0 then Reading else Writing) == slot
  {
  }

  class Table {
    var slots: array<AioInfo>
    var size: nat
    var maxFd: int
    var asyncIoInUse: bool
    var readFds: set<nat>
    var writeFds: set<nat>

    /** The operation outstanding on a descriptor, in one direction. */
    ghost function Pending(fd: nat, d: Direction): Option<Operation>
      reads this, slots
    {
      var i := SlotOf(fd, d);
      if i < slots.Length && slots[i].inUse then Some(slots[i].operation) else None
    }

    ghost predicate Valid()
      reads this, slots
    {
      && slots.Length == size && size >= 16 && size % 2 == 0
      && (forall i :: 0 <= i < size && slots[i].inUse ==> slots[i].operation.fd == i / 2)
      && (forall fd: nat :: fd in readFds <==> Pending(fd, Reading).Some?)
      && (forall fd: nat :: fd in writeFds <==> Pending(fd, Writing).Some?)
      && (forall fd: nat, d :: Pending(fd, d).Some? ==> fd <= maxFd && asyncIoInUse)
    }

    constructor ()
      ensures Valid() && fresh(slots) && size == 16 && forall fd: nat, d :: Pending(fd, d).None?
    {
      slots := new AioInfo[16](_ => EMPTY);
      size, maxFd, asyncIoInUse, readFds, writeFds := 16, -1, false, {}, {};
    }

    /** Doubles the table: the old slots keep what they hold, the new ones are empty. */
    method GrowAsyncTable()
      requires Valid()
      modifies `slots, `size
      ensures Valid() && fresh(slots) && size == 2 * old(size)
      ensures slots[..old(size)] == old(slots[..])
      ensures forall i :: old(size) <= i < size ==> slots[i] == EMPTY
      ensures forall fd: nat, d :: Pending(fd, d) == old(Pending(fd, d))
    {
      ghost var before := slots[..];
      var bigger := new AioInfo[2 * size](_ => EMPTY);
      forall i | 0 <= i < size {
        bigger[i] := slots[i];
      }
      slots, size := bigger, 2 * size;
      assert slots[..|before|] == before;
    }

    /** Grows the table until it has the slot, and so, being of even size, its neighbour too. */
    method Reach(fd: nat, d: Direction)
      requires Valid()
      modifies `slots, `size
      ensures Valid() && (slots == old(slots) || fresh(slots)) && SlotOf(fd, Reading) < SlotOf(fd, Writing) < size
      ensures forall f: nat, e :: Pending(f, e) == old(Pending(f, e))
    {
      while SlotOf(fd, d) >= size
        invariant Valid() && (slots == old(slots) || fresh(slots))
        invariant forall f: nat, e :: Pending(f, e) == old(Pending(f, e))
        decreases SlotOf(fd, d) - size
      {
        GrowAsyncTable();
      }
    }

    /** Puts an operation in its slot, which is free. */
    method Register(d: Direction, op: Operation)
      requires Valid() && Pending(op.fd, d).None?
      modifies this, slots
      ensures Valid() && (slots == old(slots) || fresh(slots)) && SlotOf(op.fd, Writing) < size
      ensures forall f: nat, e :: Pending(f, e) == if f == op.fd && e == d then Some(op) else old(Pending(f, e))
      ensures maxFd == Max(old(maxFd), op.fd)
    {
      Reach(op.fd, d);
      Fill(d, op);
    }

    method Fill(d: Direction, op: Operation)
      requires Valid() && Pending(op.fd, d).None? && SlotOf(op.fd, d) < size
      modifies `asyncIoInUse, `maxFd, `readFds, `writeFds, slots
      ensures Valid()
      ensures forall f: nat, e :: Pending(f, e) == if f == op.fd && e == d then Some(op) else old(Pending(f, e))
      ensures maxFd == Max(old(maxFd), op.fd)
    {
      asyncIoInUse := true;
      if op.fd > maxFd {
        maxFd := op.fd;
      }
      slots[SlotOf(op.fd, d)] := AioInfo(op, true);
      if d == Reading {
        readFds := readFds + {op.fd};
      } else {
        writeFds := writeFds + {op.fd};
      }
      forall f: nat, e ensures Pending(f, e) == if f == op.fd && e == d then Some(op) else old(Pending(f, e)) {
        SlotsAreExclusive(f, e, op.fd, d, 0);
      }
    }

    method AsyncRead(fd: nat, offset: int, buf: int, len: int, procPtr: int, clientData: int) returns (rc: int)
      requires Valid() && Pending(fd, Reading).None?
      modifies this, slots
      ensures Valid() && (slots == old(slots) || fresh(slots)) && rc == 0
      ensures forall f: nat, e :: Pending(f, e) ==
                if f == fd && e == Reading then Some(Operation(procPtr, clientData, fd, len, offset, buf)) else old(Pending(f, e))
      ensures maxFd == Max(old(maxFd), fd)
    {
      Register(Reading, Operation(procPtr, clientData, fd, len, offset, buf));
      return 0;
    }

    method AsyncWrite(fd: nat, offset: int, buf: int, len: int, procPtr: int, clientData: int) returns (rc: int)
      requires Valid() && Pending(fd, Writing).None?
      modifies this, slots
      ensures Valid() && (slots == old(slots) || fresh(slots)) && rc == 0
      ensures forall f: nat, e :: Pending(f, e) ==
                if f == fd && e == Writing then Some(Operation(procPtr, clientData, fd, len, offset, buf)) else old(Pending(f, e))
      ensures maxFd == Max(old(maxFd), fd)
    {
      Register(Writing, Operation(procPtr, clientData, fd, len, offset, buf));
      return 0;
    }

    /** Lets go of a slot that the table has. */
    method Release(fd: nat, d: Direction)
      requires Valid() && SlotOf(fd, d) < size
      modifies `readFds, `writeFds, slots
      ensures Valid()
      ensures forall f: nat, e :: Pending(f, e) == if f == fd && e == d then None else old(Pending(f, e))
    {
      var index := SlotOf(fd, d);
      if d == Reading {
        readFds := readFds - {fd};
      } else {
        writeFds := writeFds - {fd};
      }
      if slots[index].inUse {
        slots[index] := slots[index].(inUse := false);
      }
      forall f: nat, e ensures Pending(f, e) == if f == fd && e == d then None else old(Pending(f, e)) {
        SlotsAreExclusive(f, e, fd, d, 0);
      }
    }

    /**
     Closes a descriptor; nothing is outstanding on it afterwards. It is out of bounds when the table is in use and does
     not have its slots, which is not looked at.
     */
    method Close(fd: int) returns (inBounds: bool)
      requires Valid()
      modifies this, slots
      ensures Valid() && slots == old(slots)
      ensures inBounds <==> old(asyncIoInUse) && fd != -1 ==> 0 <= fd * 2 < fd * 2 + 1 < size
      ensures forall f: nat, e :: Pending(f, e) == if inBounds && f == fd then None else old(Pending(f, e))
      ensures maxFd == if inBounds && old(asyncIoInUse) && fd >= 0 && fd == old(maxFd) then fd - 1 else old(maxFd)
      ensures asyncIoInUse == old(asyncIoInUse)
    {
      if fd == -1 {
        return true;
      }
      if asyncIoInUse {
        if fd < 0 || fd * 2 + 1 >= size {
          return false;
        }
        Release(fd, Reading);
        Release(fd, Writing);
        if maxFd == fd {
          maxFd := maxFd - 1;
        }
      }
      return true;
    }

    /** Cancels the read outstanding on a descriptor; it is out of bounds when the table does not have the slot for it. */
    method CloseRead(fd: int) returns (inBounds: bool)
      requires Valid()
      modifies `readFds, `writeFds, slots
      ensures Valid() && (inBounds <==> 0 <= fd * 2 < size)
      ensures forall f: nat, e :: Pending(f, e) == if inBounds && f == fd && e == Reading then None else old(Pending(f, e))
    {
      if fd < 0 || fd * 2 >= size {
        return false;
      }
      if slots[fd * 2].inUse {
        Release(fd, Reading);
      }
      return true;
    }
  }
}
