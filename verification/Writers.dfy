/** The output side of a stream: bytes are gathered into records, padded to a multiple of 8, and written. */
module Writers {
  import opened Protocol
  import opened Environment

  /** What a writer has made of the bytes given to it so far. */
  datatype Output = Output(
    typ: Byte, id: Id, room: nat,
    data: seq<Record>,      // content records written
    pending: seq<Byte>,     // bytes gathered for the next one
    ending: seq<Record>,    // the records that closed the stream
    closed: bool)
  {
    function Accepted(): seq<Byte> {
      Payload(data, typ) + pending
    }

    predicate IsData(r: Record) {
      && r.typ == typ && r.id == id && 0 < |r.content| <= room
      && |r.padding| == AlignInt8(|r.content|) - |r.content|
    }

    predicate AllData(rs: seq<Record>) {
      forall i :: 0 <= i < |rs| ==> IsData(rs[i])
    }

    /** The pending bytes as a record, if there are any. */
    function Encapsulated(): (rs: seq<Record>) {
      if pending == [] then [] else [Record(typ, id, pending, Zeros(AlignInt8(|pending|) - |pending|))]
    }

    /** The records that close the stream, after data that was written; last tells that no other writer is open. */
    function Ending(written: seq<Record>, last: bool, appStatus: int): seq<Record> {
      (if typ == STDERR && written == [] then [] else [Record(typ, id, [], [])])
      + (if last then [EndRequest(id, appStatus, REQUEST_COMPLETE)] else [])
    }
  }

  /** Output w comes from v by accepting str and writing the records d. */
  ghost predicate Put(v: Output, str: seq<Byte>, w: Output, d: seq<Record>) {
    && !v.closed && w == v.(data := v.data + d, pending := w.pending) && v.AllData(d)
    && w.Accepted() == v.Accepted() + str && |w.pending| <= w.room
  }

  /** Each of these records has all the content that the buffer had room for. */
  predicate AllFull(d: seq<Record>, room: nat) {
    forall i :: 0 <= i < |d| ==> |d[i].content| == room
  }

  /** Output w comes from v by writing out what is pending. */
  ghost predicate Flushed(v: Output, w: Output, d: seq<Record>) {
    !v.closed && d == v.Encapsulated() && w == v.(data := v.data + d, pending := [])
  }

  /** Output w comes from v by closing the stream. */
  ghost predicate Closed(v: Output, w: Output, d: seq<Record>, last: bool, appStatus: int) {
    && !v.closed
    && var all := v.data + v.Encapsulated();
       w == v.(data := all, pending := [], closed := true, ending := v.Ending(all, last, appStatus))
       && d == v.Encapsulated() + w.ending
  }

  lemma EncapsulatedFits(v: Output)
    requires |v.pending| <= v.room <= 65528
    ensures AllFit(v.Encapsulated()) && v.AllData(v.Encapsulated())
    ensures v.pending != [] ==>
      EncodeAll(v.Encapsulated()) == EncodeHeader(v.typ, v.id, |v.pending|, AlignInt8(|v.pending|) - |v.pending|)
                                     + v.pending + Zeros(AlignInt8(|v.pending|) - |v.pending|)
    ensures v.pending == [] ==> EncodeAll(v.Encapsulated()) == []
    ensures Payload(v.Encapsulated(), v.typ) == v.pending
  {
    if v.pending != [] {
      var r := v.Encapsulated()[0];
      EncodeOne(r);
      var none: seq<Record> := v.Encapsulated()[1..];
      assert none == [];
      Units(v.pending);
    }
  }

  /** The closing records, spelt out. */
  lemma EndingFits(v: Output, written: seq<Record>, last: bool, appStatus: int)
    ensures var rs := v.Ending(written, last, appStatus);
      && AllFit(rs)
      && EncodeAll(rs) == (if v.typ == STDERR && written == [] then [] else EncodeHeader(v.typ, v.id, 0, 0))
                          + (if last then EncodeHeader(END_REQUEST, v.id, 8, 0) + EndRequestBody(appStatus, REQUEST_COMPLETE) else [])
  {
    var eof, end := Record(v.typ, v.id, [], []), EndRequest(v.id, appStatus, REQUEST_COMPLETE);
    EncodeOne(eof);
    EncodeOne(end);
    EncodeAllConcat([eof], [end]);
    Units([eof]);
    Units([end]);
    Units(EncodeRecord(eof));
  }

  lemma SomethingWritten(v: Output)
    ensures v.data + v.Encapsulated() == [] <==> v.data == [] && v.pending == []
  {
  }

  lemma PutNothing(v: Output)
    ensures !v.closed && |v.pending| <= v.room ==> Put(v, [], v, [])
  {
    Units(v.data);
    Units(v.Accepted());
  }

  lemma PutMore(v: Output, s: seq<Byte>, w: Output, d: seq<Record>, t: seq<Byte>, u: Output)
    requires Put(v, s, w, d) && |w.pending| + |t| <= w.room && u == w.(pending := w.pending + t)
    ensures Put(v, s + t, u, d)
  {
    Associate(Payload(w.data, v.typ), w.pending, t);
    Associate(v.Accepted(), s, t);
  }

  lemma PutThenFlush(v: Output, s: seq<Byte>, w: Output, d: seq<Record>, u: Output, e: seq<Record>)
    requires Put(v, s, w, d) && Flushed(w, u, e) && v.room <= 65528
    ensures Put(v, s, u, d + e)
  {
    EncapsulatedFits(w);
    Associate(v.data, d, e);
    PayloadConcat(w.data, e, v.typ);
    Units(Payload(u.data, v.typ));
    assert v.AllData(d + e);
  }

  lemma FullThenFlush(w: Output, u: Output, d: seq<Record>, e: seq<Record>)
    requires Flushed(w, u, e) && |w.pending| == w.room && AllFull(d, w.room)
    ensures AllFull(d + e, w.room)
  {
  }

  class Writer {
    const conn: Connection
    const req: Shared
    const buff: array<Byte>
    const typ: Byte
    ghost const id: Id

    var wrNext: nat
    var stop: nat
    var isClosed: bool
    var wasFCloseCalled: bool
    var errno: int
    var isAnythingWritten: bool
    var rawWrite: bool

    ghost var data: seq<Record>
    ghost var ending: seq<Record>

    /** Holds in every state, also while the closing records are being written. */
    ghost predicate Bounded()
      reads this, conn, req
    {
      && AllFit(conn.records) && (conn.hard ==> !conn.ok) && (conn.ok ==> conn.sound) && (conn.sound ==> errno == 0)
      && 24 <= buff.Length <= 0x1_0000 && buff.Length % 8 == 0
      && wrNext <= stop <= buff.Length
      && req.requestId == id
    }

    ghost predicate Valid()
      reads this, buff, conn, req
      ensures Valid() ==> Bounded()
    {
      && Bounded() && conn.Valid()
      && (if wasFCloseCalled then isClosed && stop == wrNext else !rawWrite && stop == buff.Length && wrNext >= HEADER_LEN)
      && (conn.sound ==>
            && isClosed == wasFCloseCalled
            && V().AllData(data)
            && (!wasFCloseCalled ==> ending == [] && isAnythingWritten == (data != [])))
    }

    ghost function V(): Output
      requires Bounded()
      reads this, buff, conn, req
    {
      Output(typ, id, buff.Length - HEADER_LEN, data,
             if wasFCloseCalled || wrNext < HEADER_LEN then [] else buff[HEADER_LEN..wrNext], ending, wasFCloseCalled)
    }

    constructor (req: Shared, conn: Connection, bufflen: nat, streamType: Byte)
      requires conn.Valid()
      ensures this.req == req && this.conn == conn && fresh(buff)
      ensures var size := AlignInt8(Min(Max(bufflen, 32), 65536)); buff.Length == size || buff.Length == size - 8
      ensures Valid() && V() == Output(streamType, req.requestId, buff.Length - HEADER_LEN, [], [], [], false)
    {
      this.req, this.conn, typ, id := req, conn, streamType, req.requestId;
      var misaligned: bool := *;
      buff := new Byte[AlignInt8(Min(Max(bufflen, 32), MAX_LENGTH + 1)) - if misaligned then 8 else 0];
      wrNext := HEADER_LEN;
      stop := AlignInt8(Min(Max(bufflen, 32), MAX_LENGTH + 1)) - if misaligned then 8 else 0;
      isClosed, wasFCloseCalled, errno, isAnythingWritten, rawWrite := false, false, 0, false, false;
      data, ending := [], [];
    }

    method SetError(code: int)
      modifies `errno, `isClosed
      ensures isClosed && errno == if old(errno) == 0 then code else old(errno)
    {
      if errno == 0 {
        errno := code;
      }
      isClosed := true;
    }

    /** Puts bytes that fit into the buffer. */
    method Copy(bytes: seq<Byte>)
      requires wrNext + |bytes| <= buff.Length
      modifies `wrNext, buff
      ensures wrNext == old(wrNext) + |bytes|
      ensures buff[..wrNext] == old(buff[..wrNext]) + bytes
    {
      forall i | 0 <= i < |bytes| {
        buff[wrNext + i] := bytes[i];
      }
      wrNext := wrNext + |bytes|;
      assert buff[old(wrNext)..wrNext] == bytes;
      assert buff[..wrNext] == buff[..old(wrNext)] + buff[old(wrNext)..wrNext];
    }

    /** Puts n padding bytes behind those that are pending. */
    method Pad(n: nat)
      requires HEADER_LEN <= wrNext && wrNext + n <= buff.Length
      modifies `wrNext, buff
      ensures wrNext == old(wrNext) + n && buff[HEADER_LEN..wrNext] == old(buff[HEADER_LEN..wrNext]) + Zeros(n)
    {
      ghost var all := buff[..wrNext];
      Copy(Zeros(n));
      Cut(all, Zeros(n), HEADER_LEN);
      assert buff[HEADER_LEN..wrNext] == buff[..wrNext][HEADER_LEN..];
      assert all[HEADER_LEN..] == old(buff[HEADER_LEN..wrNext]);
    }

    /** Fills the header slot. */
    method SetHeader(header: seq<Byte>)
      requires |header| == HEADER_LEN <= wrNext <= buff.Length
      modifies buff
      ensures buff[..HEADER_LEN] == header && buff[HEADER_LEN..wrNext] == old(buff[HEADER_LEN..wrNext])
    {
      forall i | 0 <= i < HEADER_LEN {
        buff[i] := header[i];
      }
    }

    /** Makes a padded record of the pending bytes, in place, or gives the header slot up. */
    method Encapsulate()
      requires Bounded() && !rawWrite && stop == buff.Length && wrNext >= HEADER_LEN && !wasFCloseCalled
      modifies `wrNext, buff
      ensures Bounded() && wrNext % 8 == 0
      ensures if old(V()).pending == [] then wrNext == 0 else wrNext >= 16 && old(wrNext) <= wrNext < old(wrNext) + 8
      ensures AllFit(old(V()).Encapsulated()) && buff[..wrNext] == EncodeAll(old(V()).Encapsulated())
    {
      hide EncodeHeader, EncodeAll, Output.IsData, Zeros;
      ghost var v := V();
      EncapsulatedFits(v);
      var cLen := wrNext - HEADER_LEN;
      if cLen > 0 {
        var eLen := AlignInt8(cLen);
        ghost var pending := buff[HEADER_LEN..wrNext];
        Pad(eLen - cLen);
        var header := EncodeHeader(typ, req.requestId, cLen, eLen - cLen);
        SetHeader(header);
        assert buff[..wrNext] == buff[..HEADER_LEN] + buff[HEADER_LEN..wrNext];
        Associate(header, pending, Zeros(eLen - cLen));
      } else {
        wrNext := 0;
      }
    }

    /** Writes what the buffer holds, as it is. */
    method WriteOut() returns (done: bool)
      requires Bounded()
      modifies `isAnythingWritten, `wrNext, `errno, `isClosed, conn
      ensures Bounded() && conn.records == old(conn.records) && conn.OnlyWritten()
      ensures isAnythingWritten == (old(isAnythingWritten) || old(wrNext) != 0)
      ensures done ==> wrNext == 0 && conn.wire == old(conn.wire) + old(buff[..wrNext])
                       && conn.sound == old(conn.sound)
                       && isClosed == old(isClosed) && errno == old(errno)
      ensures !done ==> isClosed && wrNext == old(wrNext) != 0 && !conn.ok && !conn.sound && conn.hard
                        && errno == (if old(errno) == 0 then errno else old(errno))
    {
      if wrNext != 0 {
        isAnythingWritten := true;
        var status := conn.WriteItAll(buff[..wrNext]);
        if status < 0 {
          SetError(conn.errno);
          return false;
        }
        wrNext := 0;
      }
      return true;
    }

    /** The bytes that close the stream. */
    ghost function Tail(eof: bool, last: bool): seq<Byte>
      reads this, req
    {
      (if eof then EncodeHeader(typ, req.requestId, 0, 0) else [])
      + (if last then EncodeHeader(END_REQUEST, req.requestId, 8, 0) + EndRequestBody(req.appStatus, REQUEST_COMPLETE) else [])
    }

    /** Once the header slot has been given up, the buffer holds bytes to be written as they are. */
    ghost predicate Raw()
      reads this, conn, req
    {
      Bounded() && rawWrite && !wasFCloseCalled && stop == buff.Length
    }

    /** All that has been or is going to be written as it is. */
    ghost function Out(): seq<Byte>
      requires wrNext <= buff.Length
      reads this, conn, buff
    {
      conn.wire + buff[..wrNext]
    }

    /** Nothing of a writer's record keeping has changed. */
    twostate predicate Kept()
      reads this, conn, req
    {
      conn.records == old(conn.records) && conn.OnlyWritten() && data == old(data) && ending == old(ending)
    }

    method EmptyRaw()
      requires Raw()
      modifies `isAnythingWritten, `wrNext, `errno, `isClosed, conn
      ensures Raw() && Kept()
      ensures conn.sound ==> Out() == old(Out()) && isClosed == old(isClosed)
      ensures isClosed || wrNext == 0
    {
      var done := WriteOut();
      if done {
        assert buff[..0] == [];
        Units(conn.wire);
      }
    }

    /** Writes bytes as they are; the buffer may be emptied on the way, even in the middle of a record. */
    method PutRaw(str: seq<Byte>) returns (r: int)
      requires Raw()
      modifies this, buff, conn
      ensures Raw() && Kept()
      ensures conn.sound && !old(isClosed) ==> Out() == old(Out()) + str && !isClosed
    {
      var moved := 0;
      assert Out() == old(Out()) + str[..0];
      while true
        invariant moved <= |str| && Raw() && Kept()
        invariant conn.sound && !old(isClosed) ==> Out() == old(Out()) + str[..moved] && !isClosed
        decreases |str| - moved, if wrNext != stop then 0 else if isClosed then 1 else 2
      {
        if wrNext != stop || moved == |str| {
          var m := Min(|str| - moved, stop - wrNext);
          ghost var wire, held := conn.wire, buff[..wrNext];
          Copy(str[moved..moved + m]);
          Associate(wire, held, str[moved..moved + m]);
          Associate(old(Out()), str[..moved], str[moved..moved + m]);
          assert str[..moved + m] == str[..moved] + str[moved..moved + m];
          moved := moved + m;
          if moved == |str| {
            assert str[..moved] == str;
            return moved;
          }
        }
        if isClosed {
          return -1;
        }
        EmptyRaw();
      }
    }

    /** Adds the records that close the stream, and the request with the last stream. */
    method WriteCloseRecords()
      requires Bounded() && !rawWrite && stop == buff.Length && !wasFCloseCalled
      modifies this, buff, conn, req`nWriters
      ensures Raw() && Kept() && req.nWriters == old(req.nWriters) - 1
      ensures conn.sound && !old(isClosed) ==>
        && !isClosed
        && Out() == old(Out()) + old(Tail(!(typ == STDERR && wrNext == 0 && !isAnythingWritten), req.nWriters == 1))
    {
      rawWrite := true;
      ghost var out := Out();
      ghost var eof, last: seq<Byte> := [], [];
      if !(typ == STDERR && wrNext == 0 && !isAnythingWritten) {
        var header := EncodeHeader(typ, req.requestId, 0, 0);
        var r := PutRaw(header);
        eof := header;
      } else {
        Units(out);
      }
      if req.nWriters == 1 {
        var record := EncodeHeader(END_REQUEST, req.requestId, 8, 0) + EndRequestBody(req.appStatus, REQUEST_COMPLETE);
        var r := PutRaw(record);
        last := record;
        Associate(out, eof, record);
      } else {
        Units(eof);
      }
      req.nWriters := req.nWriters - 1;
    }

    /** Writes the pending bytes as a record and makes room for the next. */
    method EmptyBuffProc()
      requires Valid() && !wasFCloseCalled
      modifies this, buff, conn
      ensures Valid() && !wasFCloseCalled && conn.OnlyWritten()
      ensures old(conn.records) <= conn.records
      ensures conn.sound ==> Flushed(old(V()), V(), conn.records[|old(conn.records)|..])
      ensures isClosed || wrNext == HEADER_LEN
    {
      hide EncodeAll, Output.Encapsulated;
      ghost var v, before := V(), conn.records;
      ghost var rs := v.Encapsulated();
      EncapsulatedFits(v);
      SomethingWritten(v);
      Encapsulate();
      var done := WriteOut();
      if !done {
        return;
      }
      wrNext := HEADER_LEN;
      data := data + rs;
      conn.Note(rs);
      assert conn.records[|before|..] == rs;
      assert buff[HEADER_LEN..wrNext] == [];
    }

    /** Makes a record of the pending bytes and puts the records that close the stream after it. */
    method EncapsulateAndClose(ghost v: Output, ghost closing: seq<Record>)
      requires Valid() && !wasFCloseCalled && v == V()
      requires closing == v.Ending(v.data + v.Encapsulated(), req.nWriters == 1, req.appStatus)
      modifies this, buff, conn, req`nWriters
      ensures Raw() && Kept() && req.nWriters == old(req.nWriters) - 1
      ensures AllFit(v.Encapsulated()) && AllFit(closing)
      ensures conn.sound ==> !isClosed && Out() == old(conn.wire) + (EncodeAll(v.Encapsulated()) + EncodeAll(closing))
    {
      hide Output.Ending, Output.Encapsulated, Tail, EncodeAll, AllFit, Output.IsData;
      ghost var rs, last := v.Encapsulated(), req.nWriters == 1;
      EncapsulatedFits(v);
      EndingFits(v, v.data + rs, last, req.appStatus);
      SomethingWritten(v);
      Encapsulate();
      ghost var eof := !(typ == STDERR && wrNext == 0 && !isAnythingWritten);
      TailIs(eof, last);
      assert conn.sound ==> Tail(eof, last) == EncodeAll(closing);
      Associate(conn.wire, EncodeAll(rs), EncodeAll(closing));
      WriteCloseRecords();
    }

    /** Writes the pending bytes and then the records that close the stream. */
    method EmptyAndClose()
      requires Valid() && !wasFCloseCalled
      modifies this, buff, conn, req`nWriters
      ensures Raw() && conn.Valid() && conn.OnlyWritten()
      ensures old(conn.records) <= conn.records && req.nWriters == old(req.nWriters) - 1
      ensures conn.sound ==> wrNext == 0 && !isClosed
      ensures conn.sound ==> var v := old(V());
        && data == v.data + v.Encapsulated() && ending == v.Ending(data, old(req.nWriters) == 1, req.appStatus)
        && conn.records[|old(conn.records)|..] == v.Encapsulated() + ending
    {
      hide Output.Ending, Output.Encapsulated, Tail, EncodeAll, AllFit, Output.IsData;
      ghost var v, before := V(), conn.records;
      ghost var rs := v.Encapsulated();
      ghost var closing := v.Ending(v.data + rs, req.nWriters == 1, req.appStatus);
      EncapsulateAndClose(v, closing);
      var done := WriteOut();
      data, ending := v.data + rs, closing;
      EncodeAllConcat(rs, closing);
      conn.Note(rs + closing);
      assert conn.records[|before|..] == rs + closing;
    }

    lemma TailIs(eof: bool, last: bool)
      ensures Tail(eof, last) ==
        (if eof then EncodeHeader(typ, req.requestId, 0, 0) else [])
        + (if last then EncodeHeader(END_REQUEST, req.requestId, 8, 0) + EndRequestBody(req.appStatus, REQUEST_COMPLETE) else [])
    {
    }

    /** Bytes for the stream; -1 is returned when they could not all be taken. */
    method PutStr(str: seq<Byte>) returns (r: int)
      requires Valid()
      modifies this, buff, conn
      ensures Valid() && wasFCloseCalled == old(wasFCloseCalled) && conn.OnlyWritten()
      ensures old(conn.records) <= conn.records && (r == |str| || (r == -1 && isClosed))
      ensures wasFCloseCalled ==> r == (if str == [] then 0 else -1) && V() == old(V()) && conn.records == old(conn.records)
      ensures conn.sound && !wasFCloseCalled ==>
        r == |str| && Put(old(V()), str, V(), conn.records[|old(conn.records)|..])
      ensures conn.sound && !wasFCloseCalled ==>
        AllFull(conn.records[|old(conn.records)|..], V().room) && (conn.records != old(conn.records) ==> V().pending != [])
    {
      hide Put, Connection.Valid, Output.IsData;
      ghost var v := V();
      var moved := 0;
      PutNothing(v);
      assert str[..0] == [] && conn.records[|conn.records|..] == [];
      while true
        invariant moved <= |str| && Valid() && wasFCloseCalled == old(wasFCloseCalled)
        invariant conn.OnlyWritten() && old(conn.records) <= conn.records
        invariant wasFCloseCalled ==> moved == 0 && V() == v && conn.records == old(conn.records)
        invariant conn.sound && !wasFCloseCalled ==> Put(v, str[..moved], V(), conn.records[|old(conn.records)|..])
        invariant conn.sound && !wasFCloseCalled ==> AllFull(conn.records[|old(conn.records)|..], V().room)
        invariant !wasFCloseCalled && wrNext == HEADER_LEN && conn.records != old(conn.records) ==> moved < |str|
        decreases |str| - moved, if wrNext != stop then 0 else if isClosed then 1 else 2
      {
        if wrNext != stop || moved == |str| {
          var m := Min(|str| - moved, stop - wrNext);
          Append(str[moved..moved + m], v, str[..moved], conn.records[|old(conn.records)|..]);
          assert str[..moved + m] == str[..moved] + str[moved..moved + m];
          moved := moved + m;
          if moved == |str| {
            assert str[..moved] == str;
            return moved;
          }
        }
        if isClosed {
          return -1;
        }
        Drain(v, str[..moved], old(conn.records));
      }
    }

    /** Empties the buffer, s having been put since v, when the connection held the records before. */
    method Drain(ghost v: Output, ghost s: seq<Byte>, ghost before: seq<Record>)
      requires Valid() && !wasFCloseCalled && before <= conn.records && wrNext == stop
      requires conn.sound ==> Put(v, s, V(), conn.records[|before|..])
      modifies this, buff, conn
      ensures Valid() && !wasFCloseCalled && conn.OnlyWritten() && old(conn.records) <= conn.records
      ensures conn.sound ==> Put(v, s, V(), conn.records[|before|..])
      ensures conn.sound && AllFull(old(conn.records)[|before|..], V().room) ==> AllFull(conn.records[|before|..], V().room)
      ensures isClosed || wrNext == HEADER_LEN
    {
      hide Flushed, AllFull, Connection.Valid, Output.IsData;
      ghost var w, d := V(), conn.records;
      EmptyBuffProc();
      if conn.sound {
        PutThenFlush(v, s, w, d[|before|..], V(), conn.records[|d|..]);
        if AllFull(d[|before|..], w.room) {
          FullThenFlush(w, V(), d[|before|..], conn.records[|d|..]);
        }
        assert conn.records[|before|..] == d[|before|..] + conn.records[|d|..];
      }
    }

    /** Adds bytes that fit to the pending ones, s having been put since v. */
    method Append(bytes: seq<Byte>, ghost v: Output, ghost s: seq<Byte>, ghost d: seq<Record>)
      requires Valid() && wrNext + |bytes| <= stop
      requires conn.sound && !wasFCloseCalled ==> Put(v, s, V(), d)
      modifies `wrNext, buff
      ensures Valid() && wrNext == old(wrNext) + |bytes|
      ensures wasFCloseCalled ==> V() == old(V())
      ensures conn.sound && !wasFCloseCalled ==> Put(v, s + bytes, V(), d)
    {
      hide Put, Connection.Valid;
      ghost var w := V();
      Copy(bytes);
      if !wasFCloseCalled {
        assert V().pending == w.pending + bytes by {
          assert buff[HEADER_LEN..wrNext] == buff[..wrNext][HEADER_LEN..];
          assert w.pending == old(buff[..wrNext])[HEADER_LEN..];
        }
        if conn.sound {
          PutMore(v, s, w, d, bytes, V());
        }
      }
    }

    method PutChar(c: int) returns (r: int)
      requires Valid()
      modifies this, buff, conn
      ensures Valid() && wasFCloseCalled == old(wasFCloseCalled) && conn.OnlyWritten()
      ensures old(conn.records) <= conn.records && (r == c % 256 || (r == -1 && isClosed))
      ensures wasFCloseCalled ==> r == -1 && V() == old(V()) && conn.records == old(conn.records)
      ensures conn.sound && !wasFCloseCalled ==>
        r == c % 256 && Put(old(V()), [c % 256], V(), conn.records[|old(conn.records)|..])
      ensures conn.sound && !wasFCloseCalled ==>
        AllFull(conn.records[|old(conn.records)|..], V().room) && V().pending != []
    {
      hide Put, Flushed, Connection.Valid;
      ghost var v, before := V(), conn.records;
      PutNothing(v);
      if wrNext == stop {
        if isClosed {
          return -1;
        }
        assert conn.records[|before|..] == [];
        Drain(v, [], before);
        if wrNext == stop {
          return -1;
        }
      } else {
        assert conn.records[|before|..] == [];
      }
      Append([c % 256], v, [], conn.records[|before|..]);
      Units([c % 256]);
      return c % 256;
    }

    method FFlush() returns (r: int)
      requires Valid()
      modifies this, buff, conn
      ensures Valid() && wasFCloseCalled == old(wasFCloseCalled) && conn.OnlyWritten()
      ensures old(conn.records) <= conn.records && r == (if isClosed && !old(isClosed) then -1 else 0)
      ensures wasFCloseCalled ==> r == 0 && V() == old(V()) && conn.records == old(conn.records)
      ensures conn.sound && !wasFCloseCalled ==> r == 0 && Flushed(old(V()), V(), conn.records[|old(conn.records)|..])
    {
      if isClosed {
        return 0;
      }
      EmptyBuffProc();
      return if isClosed then -1 else 0;
    }

    /** Closes the stream, the first time that it is called, and tells whether an error is on record. */
    method FClose() returns (r: int)
      requires Valid()
      modifies this, buff, conn, req`nWriters
      ensures Valid() && wasFCloseCalled && conn.OnlyWritten()
      ensures old(conn.records) <= conn.records && (r == 0 || r == -1) && (r == 0 <==> errno == 0)
      ensures old(wasFCloseCalled) ==>
        errno == old(errno) && V() == old(V()) && conn.records == old(conn.records) && conn.wire == old(conn.wire) && req.nWriters == old(req.nWriters)
      ensures !old(wasFCloseCalled) ==> req.nWriters == old(req.nWriters) - 1
      ensures conn.sound && !old(wasFCloseCalled) ==>
        Closed(old(V()), V(), conn.records[|old(conn.records)|..], old(req.nWriters) == 1, req.appStatus)
    {
      if !wasFCloseCalled {
        EmptyAndClose();
        wasFCloseCalled := true;
        isClosed := true;
        stop := wrNext;
      }
      return if errno == 0 then 0 else -1;
    }
  }

  /** A writer is not disturbed by what is done on its connection through another one. */
  twostate lemma StillValid(w: Writer)
    requires old(w.Valid()) && unchanged(w, w.buff)
    requires w.conn.Valid() && w.req.requestId == old(w.req.requestId) && (w.conn.sound ==> old(w.conn.sound))
    ensures w.Valid() && w.V() == old(w.V())
  {
  }

  /** How many of the two are open. */
  ghost function OpenOnes(a: Writer, b: Writer): int
    reads a, b
  {
    (if a.wasFCloseCalled then 0 else 1) + (if b.wasFCloseCalled then 0 else 1)
  }

  /** The wire after both streams of a request have been closed, open of which were still open. */
  ghost predicate Completed(before: seq<Record>, after: seq<Record>, open: int, id: Id, appStatus: int) {
    && before <= after
    && (open == 0 ==> after == before)
    && (open > 0 ==> |after| > |before| && after[|after| - 1] == EndRequest(id, appStatus, REQUEST_COMPLETE))
  }

  /** Closes the streams of a request, the error stream first. */
  method CloseBoth(errors: Writer, output: Writer) returns (code: int)
    requires errors.Valid() && output.Valid() && errors != output && errors.buff != output.buff
    requires errors.conn == output.conn && errors.req == output.req
    requires errors.req.nWriters == OpenOnes(errors, output)
    modifies errors, errors.buff, output, output.buff, errors.conn, errors.req`nWriters
    ensures errors.Valid() && output.Valid() && errors.req.nWriters == OpenOnes(errors, output) == 0
    ensures code == 0 <==> errors.errno == 0 && output.errno == 0
    ensures errors.conn.OnlyWritten()
    ensures old(OpenOnes(errors, output)) == 0 ==> errors.conn.wire == old(errors.conn.wire)
    ensures errors.conn.sound ==> Completed(old(errors.conn.records), errors.conn.records, old(errors.req.nWriters),
                                         errors.req.requestId, errors.req.appStatus)
  {
    hide Connection.Valid, Writer.Valid, Writer.Bounded, Closed;
    var conn := errors.conn;
    ghost var before := conn.records;
    ConnectionOf(errors);
    ghost var ev := errors.V();
    var e := errors.FClose();
    ConnectionOf(errors);
    StillValid(output);
    label Between:
    ghost var between, ew, v := conn.records, errors.V(), output.V();
    var o := output.FClose();
    ConnectionOf(output);
    StillValid@Between(errors);
    code := if e != 0 then e else o;
    if conn.sound {
      if !old(output.wasFCloseCalled) {
        ClosedLast(v, output.V(), conn.records[|between|..], errors.req.appStatus);
      } else if !old(errors.wasFCloseCalled) {
        ClosedLast(ev, ew, between[|before|..], errors.req.appStatus);
      }
    }
  }

  lemma ConnectionOf(w: Writer)
    requires w.Valid()
    ensures w.conn.Valid() && w.Bounded() && w.req.requestId == w.id
  {
  }

  lemma ClosedLast(v: Output, w: Output, d: seq<Record>, appStatus: int)
    requires Closed(v, w, d, true, appStatus)
    ensures d != [] && d[|d| - 1] == EndRequest(v.id, appStatus, REQUEST_COMPLETE)
  {
    var end := [EndRequest(v.id, appStatus, REQUEST_COMPLETE)];
    assert w.ending[|w.ending| - 1] == end[0];
  }
}
