/** The input side of a stream: bytes come from the connection in pieces of any size, are deframed, and delivered. */
module Readers {
  import opened Protocol
  import opened NameValue
  import opened GetValues
  import opened Deframer
  import opened Progress
  import opened Environment
  import opened Parameters
  import opened Lines

  /** Where n pushbacks take the cursor, each by one unless it is at the mark. */
  function PushedTo(cursor: nat, mark: nat, n: nat): int {
    if n == 0 then cursor else
    var c := PushedTo(cursor, mark, n - 1);
    if c == mark then c else c - 1
  }

  lemma {:induction false} PushedStaysBehind(cursor: nat, mark: nat, n: nat)
    ensures mark <= cursor ==> mark <= PushedTo(cursor, mark, n) <= cursor
    ensures mark > cursor ==> PushedTo(cursor, mark, n) == cursor - n
  {
    if n > 0 {
      PushedStaysBehind(cursor, mark, n - 1);
    }
  }

  /**
   Any number of pushbacks stays inside the buffer exactly when the mark is not beyond the cursor. With the mark left over
   from an earlier fill it may be: then the pushback after as many as there are bytes before the cursor is out of it.
   */
  lemma PushbacksInBounds(cursor: nat, mark: nat)
    ensures (forall n: nat :: PushedTo(cursor, mark, n) >= 0) <==> mark <= cursor
    ensures mark > cursor ==> PushedTo(cursor, mark, cursor + 1) == -1
  {
    forall n: nat ensures mark <= cursor ==> PushedTo(cursor, mark, n) >= 0 {
      PushedStaysBehind(cursor, mark, n);
    }
    PushedStaysBehind(cursor, mark, cursor + 1);
  }

  class Reader {
    const conn: Connection
    const req: Shared
    const buff: array<Byte>

    var rdNext: nat      // next byte for the client
    var stop: nat        // end of the bytes the client may take
    var stopUnget: nat   // no byte may be pushed back before this one
    var buffStop: nat    // end of the bytes that have been read from the connection
    var isClosed: bool
    var errno: int       // first error recorded, 0 if none
    var typ: int
    var eorStop: bool    // stop at the end of this record
    var skip: bool       // do not deliver content
    var contentLen: nat  // content of this record not yet delivered or skipped
    var paddingLen: nat

    /** Holds in every state, also after an error. */
    ghost predicate Bounded()
      reads this, conn
    {
      && conn.Valid()
      && 24 <= buff.Length <= 0x1_0000
      && rdNext <= buffStop <= buff.Length && stop <= buff.Length && stopUnget <= buff.Length
      && contentLen <= MAX_LENGTH && paddingLen < 256
    }

    ghost predicate Valid()
      reads this, conn
    {
      Bounded() && (!isClosed ==> rdNext <= stop <= buffStop)
    }

    ghost function X(): Ctx
      reads this, req
    {
      Ctx(typ, req.requestId, req.isBeginProcessed, errno != 0)
    }

    /** The position with nothing yet handed to the client beyond the cursor. */
    ghost function U(): View
      requires Bounded()
      reads this, buff, conn, req
    {
      View(!isClosed, [], buff[rdNext..buffStop] + conn.input, contentLen, paddingLen, skip, eorStop, X(), errno,
           conn.records, conn.ok, conn.sound, conn.hard)
    }

    /** The position as the client sees it. */
    ghost function V(): View
      requires Valid()
      reads this, buff, conn, req
    {
      if isClosed then U() else U().(avail := buff[rdNext..stop], ahead := buff[stop..buffStop] + conn.input)
    }

    lemma Joined()
      requires Valid() && !isClosed
      ensures U().ahead == V().avail + V().ahead
    {
      assert buff[rdNext..buffStop] == buff[rdNext..stop] + buff[stop..buffStop];
      Associate(buff[rdNext..stop], buff[stop..buffStop], conn.input);
    }

    /** What has been read from the connection and not been used is all that keeps the connection from what is ahead. */
    lemma Buffered()
      requires Bounded()
      ensures buffStop - rdNext <= |U().ahead| && U().ahead[buffStop - rdNext..] == conn.input
      ensures U().ahead == conn.input <==> rdNext == buffStop
    {
      var held := buff[rdNext..buffStop];
      assert (held + conn.input)[|held|..] == conn.input;
      if held == [] {
        Units(conn.input);
      }
      assert |held + conn.input| == |held| + |conn.input|;
    }

    /** The request fields as a new request sets them. */
    ghost predicate Began(o: Outcome)
      reads req
    {
      o.Begun? && req.requestId == o.id && req.role == o.role && req.keepConnection == o.keep && req.isBeginProcessed
    }

    /** How many bytes of the input are still to be taken. */
    ghost function Left(): nat
      requires Bounded()
      reads this, buff, conn
    {
      buffStop - rdNext + |conn.input|
    }

    /** What no reading call changes or takes back. */
    ghost predicate Onward(u: View)
      reads this, buff, conn, req
    {
      && Bounded() && typ == u.x.typ && eorStop == u.eor
      && u.records <= conn.records && Answering(u.records, conn.records)
      && (conn.ok ==> u.ok) && (conn.sound ==> u.sound) && (u.hard ==> conn.hard)
      && Left() <= |u.avail| + |u.ahead|
    }

    /** How a fill that started at m ends. */
    ghost predicate Filled(m: View)
      reads this, buff, conn, req
    {
      && Bounded() && (isClosed ==> req.isBeginProcessed == m.x.begun)
      && if isClosed || req.isBeginProcessed == m.x.begun then Valid() && Went(m, [], V()) && (isClosed || rdNext < stop)
         else Handled(BeginRecord, m.Rest(), m, U()) && Began(m.Rest().outcome)
    }

    constructor (req: Shared, conn: Connection, bufflen: nat, streamType: int)
      requires conn.Valid()
      ensures this.req == req && this.conn == conn && fresh(buff)
      ensures var size := AlignInt8(Min(Max(bufflen, 32), 65536)); buff.Length == size || buff.Length == size - 8
      ensures Valid() && rdNext == stop == stopUnget && typ == streamType
      ensures U() == View(true, [], conn.input, 0, 0, false, false, X(), 0, conn.records, conn.ok, conn.sound, conn.hard)
    {
      this.req, this.conn := req, conn;
      var misaligned: bool := *;
      buff := new Byte[AlignInt8(Min(Max(bufflen, 32), MAX_LENGTH + 1)) - if misaligned then 8 else 0];
      rdNext, stop, stopUnget, buffStop := 0, 0, 0, 0;
      isClosed, errno, typ := false, 0, streamType;
      eorStop, skip, contentLen, paddingLen := false, false, 0, 0;
      new;
      assert buff[0..0] + conn.input == conn.input;
    }

    method SetError(code: int)
      modifies `errno, `isClosed
      ensures isClosed && errno == if old(errno) == 0 then code else old(errno)
    {
      if errno == 0 {
        errno := code;
      }
      isClosed := true;
    }

    /** Reads from the connection into the emptied buffer. */
    method Refill() returns (more: bool)
      requires Bounded() && rdNext == buffStop && !isClosed
      modifies `rdNext, `buffStop, `errno, `isClosed, buff, conn
      ensures Bounded()
      ensures more ==> rdNext < buffStop && !isClosed && U() == old(U())
      ensures !more ==> isClosed && var u := old(U());
                errno == (if u.errno == 0 then errno else u.errno) &&
                U() == u.(open := false, ok := false, hard := u.hard || u.ahead != [], errno := errno, x := X())
    {
      hide Connection.Valid, Answering;
      ghost var input := conn.input;
      assert buff[rdNext..buffStop] + input == input;
      var count := conn.Read(buff);
      if count <= 0 {
        assert buff[rdNext..buffStop] + input == input;
        SetError(if count == 0 then PROTOCOL_ERROR else conn.errno);
        return false;
      }
      rdNext := 0;
      buffStop := count;
      assert buff[rdNext..buffStop] + conn.input == input by {
        assert buff[0..count] == buff[..count];
        TakeAndDrop(input, count);
      }
      return true;
    }

    /** Moves the cursor over k buffered bytes. */
    method Advance(k: nat)
      requires Bounded() && rdNext + k <= buffStop
      modifies `rdNext
      ensures Bounded() && rdNext == old(rdNext) + k
      ensures k <= |old(U()).ahead| && U() == old(U()).(ahead := old(U()).ahead[k..])
    {
      rdNext := rdNext + k;
    }

    /** Hands the client all the content of the current record that is buffered. */
    method Deliver(ghost m: View)
      requires Bounded() && !isClosed && contentLen > 0 && rdNext < buffStop && !skip
      requires Going(m, Pending([], U()), U())
      modifies `stop, `contentLen
      ensures Valid() && rdNext < stop && Went(m, [], V())
    {
      hide Going, Pending, Went, Read, Connection.Valid, Answering;
      var count := Min(contentLen, buffStop - rdNext);
      ghost var u := U();
      stop := rdNext + count;
      contentLen := contentLen - count;
      SubSliceThen(buff[..], rdNext, buffStop, conn.input, count);
      assert V().avail == u.ahead[..count] && V().ahead == u.ahead[count..];
      FillDelivers(m, u, count, V());
    }

    /** Passes over content that is not for the client. */
    method SkipContent(ghost m: View)
      requires Bounded() && !isClosed && contentLen > 0 && rdNext < buffStop && skip
      requires Going(m, Pending([], U()), U())
      modifies `rdNext, `contentLen, `skip
      ensures Bounded() && |U().ahead| < |old(U()).ahead|
      ensures Going(m, if contentLen > 0 then Pending([], U()) else Padding(U().ahead, paddingLen, skip, eorStop, X()), U())
    {
      hide Going, Pending, Read, Padding, Connection.Valid, Answering;
      var count := Min(contentLen, buffStop - rdNext);
      ghost var u := U();
      Advance(count);
      contentLen := contentLen - count;
      if contentLen == 0 {
        skip := false;
      }
      ghost var w := u.(ahead := u.ahead[count..], c := u.c - count, skip := count < u.c);
      assert U() == w;
      FillSkips(m, u, count, w);
    }

    /** Drops padding of the current record, whose content is all taken. */
    method DropPadding(ghost m: View)
      requires Bounded() && !isClosed && contentLen == 0 && paddingLen > 0
      requires Going(m, Padding(U().ahead, paddingLen, skip, eorStop, X()), U())
      modifies `rdNext, `paddingLen
      ensures Bounded() && |U().ahead| + old(paddingLen) == |old(U()).ahead| + paddingLen
      ensures paddingLen < old(paddingLen) || (old(rdNext) == buffStop && paddingLen == old(paddingLen))
      ensures Going(m, if paddingLen > 0 then Pending([], U()) else Boundary([] + U().ahead, skip, eorStop, X()), U())
    {
      hide Going, Pending, Read, Padding, Boundary, Connection.Valid, Answering;
      var count := Min(paddingLen, buffStop - rdNext);
      ghost var u := U();
      Advance(count);
      paddingLen := paddingLen - count;
      ghost var w := u.(ahead := u.ahead[count..], p := u.p - count);
      assert U() == w;
      FillPads(m, u, count, w);
    }

    /** Takes more bytes of a header of which some have been read. */
    method TakeHeader(have: seq<Byte>, ghost m: View) returns (hdr: seq<Byte>)
      requires Bounded() && |have| < HEADER_LEN && !isClosed && !eorStop && contentLen == 0 && paddingLen == 0
      requires Going(m, Boundary(have + U().ahead, skip, false, X()), U())
      modifies `rdNext
      ensures Bounded() && |have| <= |hdr| <= HEADER_LEN && |U().ahead| + |hdr| == |old(U()).ahead| + |have|
      ensures |hdr| == |have| ==> old(rdNext) == buffStop
      ensures Going(m, if |hdr| < HEADER_LEN then Pending(hdr, U())
                       else Dispatch(DecodeHeader(hdr), U().ahead, skip, X()), U())
    {
      hide Going, Pending, Boundary, Dispatch, DecodeHeader, Connection.Valid, Answering;
      var count := Min(HEADER_LEN - |have|, buffStop - rdNext);
      ghost var u := U();
      hdr := have + buff[rdNext..rdNext + count];
      SubSliceThen(buff[..], rdNext, buffStop, conn.input, count);
      Advance(count);
      FillHeader(m, have, u, count, U());
    }

    /** Just after a header, with reading confined to the record it starts. */
    ghost predicate AtRecord()
      reads this, conn
    {
      Valid() && !isClosed && eorStop && rdNext == stop
    }

    method ProcessHeader(header: Header) returns (status: Status)
      requires AtRecord() && contentLen == 0 && paddingLen == 0
      modifies this, buff, conn, req
      ensures Onward(old(U())) && |U().ahead| <= |old(U()).ahead|
      ensures old(req.isBeginProcessed) || !(status.BeginRecord? || status.Error?) ==> unchanged(req)
      ensures (status.BeginRecord? || req.isBeginProcessed == old(req.isBeginProcessed)) && req.appStatus == old(req.appStatus)
      ensures var d := Dispatch(header, old(U()).ahead, old(skip), old(X()));
        Handled(status, d, old(U()), U()) && (status.BeginRecord? ==> Began(d.outcome) && !old(req.isBeginProcessed))
      decreases 0, 13
    {
      hide Read, Begin, Management, Handled, Connection.Valid, Answering;
      AnsweringNothing(conn.records);
      ghost var m := U();
      if header.version != VERSION_1 {
        HeaderOfStream(header, m, Error(UNSUPPORTED_VERSION), U());
        return Error(UNSUPPORTED_VERSION);
      }
      contentLen := header.contentLen;
      paddingLen := header.paddingLen;
      if header.typ == BEGIN_REQUEST {
        status := ProcessBeginRecord(header);
        return;
      }
      if header.id == NULL_REQUEST_ID {
        status := ProcessManagementRecord(header);
        return;
      }
      status := StreamRecord;
      if header.id != req.requestId {
        status := Skip;
      } else if header.typ != typ {
        status := Error(PROTOCOL_ERROR);
      }
      HeaderOfStream(header, m, status, U());
    }

    method ProcessBeginRecord(header: Header) returns (status: Status)
      requires AtRecord() && contentLen == header.contentLen && paddingLen == header.paddingLen
      modifies this, buff, conn, req
      ensures Onward(old(U())) && |U().ahead| <= |old(U()).ahead|
      ensures old(req.isBeginProcessed) || !(status.BeginRecord? || status.Error?) ==> unchanged(req)
      ensures (status.BeginRecord? || req.isBeginProcessed == old(req.isBeginProcessed)) && req.appStatus == old(req.appStatus)
      ensures var d := Begin(header, old(U()).ahead, old(skip), old(X()));
        Handled(status, d, old(U()).(c := 0, p := 0), U()) && (status.BeginRecord? ==> Began(d.outcome) && !old(req.isBeginProcessed))
      decreases 0, 10
    {
      hide Read, Connection.Valid, Answering;
      AnsweringNothing(conn.records);
      FollowsRefl(Begin(header, U().ahead, skip, X()), conn.records, conn.ok);
      if header.id == NULL_REQUEST_ID || contentLen != 8 {
        return Error(PROTOCOL_ERROR);
      }
      if req.isBeginProcessed {
        status := RejectBegin(header);
        return;
      }
      status := AcceptBegin(header);
    }

    /** Reads the body of the record that begins a request. */
    method AcceptBegin(header: Header) returns (status: Status)
      requires AtRecord() && !req.isBeginProcessed && header.id != NULL_REQUEST_ID && header.contentLen == 8
      requires contentLen == header.contentLen && paddingLen == header.paddingLen
      modifies this, buff, conn, req
      ensures Onward(old(U())) && |U().ahead| <= |old(U()).ahead| && (status.BeginRecord? || status.Error?)
      ensures (status.BeginRecord? || req.isBeginProcessed == old(req.isBeginProcessed)) && req.appStatus == old(req.appStatus)
      ensures var d := Begin(header, old(U()).ahead, old(skip), old(X()));
        Handled(status, d, old(U()).(c := 0, p := 0), U()) && (status.BeginRecord? ==> Began(d.outcome))
      decreases 0, 9
    {
      hide Read, BodyRead, Handled, Begin, Connection.Valid, Answering;
      ghost var m0 := U().(c := 0, p := 0);
      var body := ReadBody(header, m0);
      ghost var v := V();
      if |body| == 8 {
        Joined();
        EnterRequest(body);
        BodyWhole(header, m0, body, v, U());
        return BeginRecord;
      }
      BodyShort(header, m0, body, v);
      return Error(PROTOCOL_ERROR);
    }

    method ReadBody(header: Header, ghost m0: View) returns (body: seq<Byte>)
      requires AtRecord() && !req.isBeginProcessed && header.id != NULL_REQUEST_ID && header.contentLen == 8
      requires contentLen == header.contentLen && paddingLen == header.paddingLen && m0 == U().(c := 0, p := 0)
      modifies this, buff, conn, req
      ensures Onward(m0) && Valid() && isClosed == (|body| < 8) && |body| <= 8 && BodyRead(header, m0, body, V())
      ensures !req.isBeginProcessed && req.appStatus == old(req.appStatus) && req.requestId == header.id
      decreases 0, 8
    {
      hide Read, Went, Connection.Valid, Answering;
      AnsweringNothing(conn.records);
      req.requestId := header.id;
      ghost var m := V();
      assert m == m0.(c := 8, p := header.paddingLen as int, x := m0.x.(id := header.id));
      WentNowhere(m);
      body := GetStr(8, m, []);
      Units(body);
    }

    method EnterRequest(body: seq<Byte>)
      requires Valid() && !isClosed && |body| == 8
      modifies req`keepConnection, req`role, req`isBeginProcessed
      ensures var v := old(V()); U() == v.(avail := [], ahead := v.avail + v.ahead, x := v.x.(begun := true))
      ensures req.keepConnection == (body[2] % 2 == 1) && req.role == Word(body[0], body[1]) && req.isBeginProcessed
    {
      Joined();
      req.keepConnection := body[2] % 2 == 1;
      req.role := Word(body[0], body[1]);
      req.isBeginProcessed := true;
    }

    /** The answer to a request that would share the connection. */
    method RejectBegin(header: Header) returns (status: Status)
      requires AtRecord() && req.isBeginProcessed && header.id != NULL_REQUEST_ID && header.contentLen == 8
      requires contentLen == header.contentLen && paddingLen == header.paddingLen
      modifies this, conn
      ensures Onward(old(U())) && |U().ahead| <= |old(U()).ahead| && !status.BeginRecord?
      ensures Handled(status, Begin(header, old(U()).ahead, old(skip), old(X())), old(U()).(c := 0, p := 0), U())
      decreases 0, 3
    {
      hide Read, Answering;
      var record := EndRequest(header.id, 0, CANT_MPX_CONN);
      EncodeOne(record);
      ghost var r := Read(U().ahead, 8, header.paddingLen, true, false, X());
      FollowsReply(CantMultiplex(header.id), record, r, conn.records, conn.ok);
      AnsweringOne(conn.records, record, CantMultiplex(header.id));
      var rc := conn.WriteRecords(EncodeHeader(END_REQUEST, header.id, 8, 0) + EndRequestBody(0, CANT_MPX_CONN), [record]);
      if rc < 0 {
        SetError(conn.errno);
        return Error(-1);
      }
      return Skip;
    }

    method ProcessManagementRecord(header: Header) returns (status: Status)
      requires AtRecord() && contentLen == header.contentLen && paddingLen == header.paddingLen
      modifies this, buff, conn, req
      ensures Onward(old(U())) && |U().ahead| <= |old(U()).ahead| && unchanged(req) && !status.BeginRecord?
      ensures Handled(status, Management(header, old(U()).ahead, old(skip), old(X())), old(U()).(c := 0, p := 0), U())
      decreases 0, 12
    {
      hide Handled, Answering;
      if header.typ == GET_VALUES {
        status := AnswerQuery(header);
      } else {
        status := ReportUnknown(header);
      }
    }

    method AnswerQuery(header: Header) returns (status: Status)
      requires AtRecord() && contentLen == header.contentLen && paddingLen == header.paddingLen
      requires header.typ == GET_VALUES
      modifies this, buff, conn, req
      ensures Onward(old(U())) && |U().ahead| <= |old(U()).ahead| && unchanged(req) && !status.BeginRecord?
      ensures Handled(status, Management(header, old(U()).ahead, old(skip), old(X())), old(U()).(c := 0, p := 0), U())
      decreases 0, 11
    {
      hide Read, QueryRead, Handled, Management, Parse, Answerable, Connection.Valid, Answering;
      ghost var m0 := U().(c := 0, p := 0);
      var params := new Params(3);
      var rc, got := ReadQuery(params, header, m0);
      status := Error(PROTOCOL_ERROR);
      if rc != -2 {
        ghost var between := conn.records;
        status := Conclude(params, header, m0, got, rc);
        AnsweringMore(m0.records, between, conn.records);
      }
    }

    /** Answers a query that has been read to its end, if there was no fault. */
    method Conclude(params: Params, header: Header, ghost m0: View, ghost got: seq<Byte>, ghost rc: int) returns (status: Status)
      requires Bounded() && params.Valid() && params.Contents() == Parse(got).entries && QueryRead(header, m0, got, U(), rc)
      modifies `errno, `isClosed, conn
      ensures Onward(old(U())) && |U().ahead| <= |old(U()).ahead| && (status.MgmtRecord? || status.Error?)
      ensures Handled(status, Management(header, m0.ahead, m0.skip, m0.x), m0, U())
    {
      hide Read, QueryRead, Handled, Management, Parse, Answerable, Connection.Valid, Answering;
      AnsweringNothing(conn.records);
      QueryWhole(header, m0, got, U(), rc);
      if errno != 0 || contentLen != 0 {
        QueryFails(header, m0, got, U(), rc);
        return Error(PROTOCOL_ERROR);
      }
      status := Respond(params, header, m0, got);
    }

    /** Reads the pairs of a query to the end of its record. */
    method ReadQuery(params: Params, header: Header, ghost m0: View) returns (rc: int, ghost got: seq<Byte>)
      requires AtRecord() && contentLen == header.contentLen && paddingLen == header.paddingLen && header.typ == GET_VALUES
      requires m0 == U().(c := 0, p := 0) && params.Valid() && params.Contents() == []
      modifies this, buff, conn, req, params, params.vec
      ensures Onward(old(U())) && |U().ahead| <= |old(U()).ahead| && unchanged(req)
      ensures params.Valid() && params.Contents() == Parse(got).entries
      ensures if rc == -2 then Handled(Error(PROTOCOL_ERROR), Management(header, m0.ahead, m0.skip, m0.x), m0, U())
              else QueryRead(header, m0, got, U(), rc)
      decreases 0, 10
    {
      hide Read, Went, ReadOut, Handled, Management, Parse, Params.Valid, Params.Contents, Connection.Valid, Answering;
      ghost var m := V();
      assert m == m0.(c := header.contentLen as int, p := header.paddingLen as int);
      rc, got := ReadParams(params);
      Units(Parse(got).entries);
      if rc == -2 {
        QueryOverlong(header, m0, got, V(), U());
      }
    }

    /** Answers a query that has been read without fault. */
    method Respond(params: Params, header: Header, ghost m0: View, ghost got: seq<Byte>) returns (status: Status)
      requires Bounded() && params.Valid() && params.Contents() == Parse(got).entries
      requires QueryRead(header, m0, got, U(), 0) && errno == 0 && contentLen == 0
      modifies `errno, `isClosed, conn
      ensures Onward(old(U())) && |U().ahead| <= |old(U()).ahead| && (status.MgmtRecord? || status.Error?)
      ensures Handled(status, Management(header, m0.ahead, m0.skip, m0.x), m0, U())
    {
      hide Read, QueryRead, Handled, Management, Parse, Answerable, Connection.Valid, Answering;
      AnsweringNothing(conn.records);
      var response, len := BuildAnswer(params);
      if len == -1 {
        // The source would write past its response buffer here, or look through a null pointer.
        QueryFails(header, m0, got, U(), 0);
        return Error(PROTOCOL_ERROR);
      }
      status := SendAnswer(response, len, header, m0, got);
    }

    /** Puts the header before an answer and writes it, with whatever follows it in the buffer as padding. */
    method SendAnswer(response: array<Byte>, len: nat, header: Header, ghost m0: View, ghost got: seq<Byte>)
      returns (status: Status)
      requires Bounded() && len < RESPONSE_ROOM && response.Length == HEADER_LEN + RESPONSE_ROOM
      requires Answerable(Parse(got).entries).Some?
      requires response[HEADER_LEN..HEADER_LEN + len] == AnswerContent(Answerable(Parse(got).entries).value)
      requires QueryRead(header, m0, got, U(), 0) && errno == 0 && contentLen == 0
      modifies `errno, `isClosed, conn
      ensures Onward(old(U())) && |U().ahead| <= |old(U()).ahead| && (status.MgmtRecord? || status.Error?)
      ensures Handled(status, Management(header, m0.ahead, m0.skip, m0.x), m0, U())
    {
      hide Read, QueryRead, Handled, Management, Parse, Answerable, EncodeAll, AllFit, EncodeHeader, AnswerContent, Known, Connection.Valid, Answering;
      var padded := AlignInt8(len);
      var content, padding := response[HEADER_LEN..HEADER_LEN + len], response[HEADER_LEN + len..HEADER_LEN + padded];
      var record := Record(GET_VALUES_RESULT, NULL_REQUEST_ID, content, padding);
      AnswerRecordFits(content, padding);
      ghost var v := U();
      AnsweringOne(conn.records, record, Values(Answerable(Parse(got).entries).value));
      var rc := conn.WriteRecords(EncodeHeader(GET_VALUES_RESULT, NULL_REQUEST_ID, len, padded - len) + content + padding, [record]);
      if rc < 0 {
        SetError(conn.errno);
        QueryFacts(header, m0, got, v);
        WriteFailed(Management(header, m0.ahead, m0.skip, m0.x), m0, U());
        return Error(-1);
      }
      QueryAnswered(header, m0, got, v, record, U());
      return MgmtRecord;
    }

    method ReportUnknown(header: Header) returns (status: Status)
      requires AtRecord() && contentLen == header.contentLen && paddingLen == header.paddingLen
      requires header.typ != GET_VALUES
      modifies `errno, `isClosed, conn
      ensures Onward(old(U())) && |U().ahead| <= |old(U()).ahead| && !status.BeginRecord?
      ensures Handled(status, Management(header, old(U()).ahead, old(skip), old(X())), old(U()).(c := 0, p := 0), U())
    {
      hide Read, Answering;
      var record := Record(UNKNOWN_TYPE, NULL_REQUEST_ID, [header.typ] + Zeros(7), []);
      EncodeOne(record);
      ghost var r := Read(U().ahead, header.contentLen, header.paddingLen, skip, false, X());
      FollowsReply(Unknown(header.typ), record, r, conn.records, conn.ok);
      AnsweringOne(conn.records, record, Unknown(header.typ));
      var rc := conn.WriteRecords(EncodeHeader(UNKNOWN_TYPE, NULL_REQUEST_ID, 8, 0) + record.content, [record]);
      if rc < 0 {
        SetError(conn.errno);
        return Error(-1);
      }
      return MgmtRecord;
    }

    /** Acts on a header that has been read, and tells whether that ends the fill. */
    method Interpret(header: Header, ghost m: View) returns (done: bool)
      requires Onward(m) && !isClosed && !eorStop && contentLen == 0 && paddingLen == 0
      requires !U().Starved(m) && Going(m, Dispatch(header, U().ahead, skip, X()), U())
      modifies this, buff, conn, req
      ensures Onward(m) && |U().ahead| <= |old(U()).ahead| && !eorStop
      ensures (old(req.isBeginProcessed) || !done ==> unchanged(req)) && req.appStatus == old(req.appStatus)
      ensures if done then Filled(m) else !isClosed && Going(m, Pending([], U()), U())
      decreases 1, 0, 0
    {
      hide Read, Dispatch, Handled, Going, Went, Pending, Connection.Valid, Answering;
      ghost var v := U();
      GoingFacts(m, Dispatch(header, v.ahead, skip, X()), v);
      eorStop := true;
      stop := rdNext;
      var status := ProcessHeader(header);
      ghost var u := U();
      AnsweringMore(m.records, v.records, u.records);
      Resume(status);
      FillActs(m, header, v, status, u, U());
      done := status.BeginRecord? || isClosed;
    }

    method Resume(status: Status)
      requires Bounded()
      modifies `eorStop, `isClosed, `skip, `stop, `errno
      ensures Bounded() && !eorStop && U() == Resumed(status, old(U()), errno, X())
      ensures errno == if status.Error? && old(errno) == 0 then status.code else old(errno)
    {
      eorStop := false;
      isClosed := false;
      match status {
        case StreamRecord =>
          if contentLen == 0 {
            stop := rdNext;
            isClosed := true;
          }
        case Skip =>
          skip := true;
        case BeginRecord =>
        case MgmtRecord =>
        case Error(code) =>
          SetError(code);
      }
    }

    /** Content of the current record, with at least one byte buffered and no header begun. */
    method PassContent(ghost m: View) returns (round: Round)
      requires Onward(m) && !isClosed && rdNext < buffStop && Going(m, Pending([], U()), U())
      modifies `rdNext, `stop, `contentLen, `skip
      ensures Onward(m) && |U().ahead| <= |old(U()).ahead| && !isClosed
      ensures round.Return? ==> Filled(m)
      ensures round.Again? ==> |U().ahead| < |old(U()).ahead| && Going(m, Pending([], U()), U())
      ensures round.Past? ==>
        && contentLen == 0 && (rdNext < buffStop || |U().ahead| < |old(U()).ahead|)
        && Going(m, Padding(U().ahead, paddingLen, skip, eorStop, X()), U())
    {
      hide Read, Padding, Going, Pending, Went, Connection.Valid, Answering;
      GoingFacts(m, Pending([], U()), U());
      if contentLen == 0 {
        AtPadding(U());
        return Past;
      }
      if !skip {
        Deliver(m);
        return Return;
      }
      SkipContent(m);
      return if contentLen > 0 then Again else Past;
    }

    /** Padding of the current record, and then its end when no more than the record is wanted. */
    method PassPadding(ghost m: View) returns (round: Round)
      requires Onward(m) && !isClosed && contentLen == 0
      requires Going(m, Padding(U().ahead, paddingLen, skip, eorStop, X()), U())
      modifies `rdNext, `stop, `paddingLen, `isClosed
      ensures Onward(m) && |U().ahead| <= |old(U()).ahead|
      ensures round.Return? ==> Filled(m)
      ensures !round.Return? ==> !isClosed && (rdNext < buffStop || |U().ahead| < |old(U()).ahead| || old(rdNext == buffStop))
      ensures round.Again? ==> old(rdNext == buffStop) || |U().ahead| < |old(U()).ahead|
      ensures round.Again? ==> Going(m, Pending([], U()), U())
      ensures round.Past? ==> !eorStop && paddingLen == 0 && Going(m, Boundary([] + U().ahead, skip, false, X()), U())
    {
      hide Read, Padding, Boundary, Going, Pending, Filled, Connection.Valid, Answering;
      GoingFacts(m, Padding(U().ahead, paddingLen, skip, eorStop, X()), U());
      if paddingLen > 0 {
        DropPadding(m);
        if paddingLen > 0 {
          return Again;
        }
      } else {
        AtBoundary(U());
      }
      if eorStop {
        EndRecord(m);
        return Return;
      }
      return Past;
    }

    /** The end of the only record that is wanted. */
    method EndRecord(ghost m: View)
      requires Onward(m) && !isClosed && eorStop && contentLen == 0 && paddingLen == 0
      requires Going(m, Boundary([] + U().ahead, skip, true, X()), U())
      modifies `stop, `isClosed
      ensures Onward(m) && Filled(m) && U().ahead == old(U()).ahead
    {
      hide Read, Boundary, Going, Went, Connection.Valid, Answering;
      ghost var v := U();
      GoingFacts(m, Boundary([] + v.ahead, skip, true, X()), v);
      stop := rdNext;
      isClosed := true;
      FillAtRecordEnd(m, v, U());
    }

    /** Content and padding of the current record, with at least one byte buffered and no header begun. */
    method FinishRecord(ghost m: View) returns (round: Round)
      requires Onward(m) && !isClosed && rdNext < buffStop && Going(m, Pending([], U()), U())
      modifies `rdNext, `stop, `contentLen, `skip, `paddingLen, `isClosed
      ensures Onward(m) && |U().ahead| <= |old(U()).ahead|
      ensures round.Return? ==> Filled(m)
      ensures !round.Return? ==> !isClosed && (rdNext < buffStop || |U().ahead| < |old(U()).ahead|)
      ensures round.Again? ==> |U().ahead| < |old(U()).ahead| && Going(m, Pending([], U()), U())
      ensures round.Past? ==> !eorStop && contentLen == 0 && paddingLen == 0
                              && Going(m, Boundary([] + U().ahead, skip, false, X()), U())
    {
      hide Read, Padding, Boundary, Going, Pending, Filled, Connection.Valid, Answering;
      round := PassContent(m);
      if round == Past {
        round := PassPadding(m);
      }
    }

    /** Reads on in a header, and acts on it when it is complete. */
    method ReadHeader(have: seq<Byte>, ghost m: View) returns (hdr: seq<Byte>, done: bool)
      requires Onward(m) && |have| < HEADER_LEN && !isClosed && !eorStop && contentLen == 0 && paddingLen == 0
      requires !U().Starved(m) && Going(m, Boundary(have + U().ahead, skip, false, X()), U())
      modifies this, buff, conn, req
      ensures Onward(m) && |U().ahead| <= |old(U()).ahead| && !eorStop
      ensures (old(req.isBeginProcessed) || !done ==> unchanged(req)) && req.appStatus == old(req.appStatus)
      ensures done ==> Filled(m)
      ensures !done ==>
        && !isClosed && Going(m, Pending(hdr, U()), U())
        && |hdr| < HEADER_LEN && (hdr != [] ==> contentLen == 0 && paddingLen == 0)
        && (old(rdNext < buffStop) ==> |U().ahead| < |old(U()).ahead|)
      decreases 1, 0, 1
    {
      hide Read, Boundary, Dispatch, Filled, Going, Pending, DecodeHeader, Connection.Valid, Answering;
      hdr := TakeHeader(have, m);
      if |hdr| < HEADER_LEN {
        return hdr, false;
      }
      done := Interpret(DecodeHeader(hdr), m);
      hdr := [];
    }

    /** Sees to it that at least one byte is buffered, or else that the stream is closed. */
    method Replenish(hdr: seq<Byte>, ghost m: View) returns (more: bool)
      requires Onward(m) && !isClosed && |hdr| < HEADER_LEN && (hdr != [] ==> !eorStop)
      requires Going(m, Pending(hdr, U()), U())
      modifies `rdNext, `buffStop, `errno, `isClosed, buff, conn
      ensures Onward(m)
      ensures more ==> rdNext < buffStop && !isClosed && U() == old(U()) && !U().Starved(m)
      ensures !more ==> Filled(m)
    {
      hide Going, Pending, Went, Connection.Valid, Answering;
      more := true;
      ghost var v := U();
      GoingFacts(m, Pending(hdr, v), v);
      if rdNext == buffStop {
        more := Refill();
      }
      if more {
        NotStarved(m, Pending(hdr, U()), U());
      } else {
        FillStops(m, hdr, v, U());
      }
    }

    /** Reads until there are bytes for the client, or the stream or record ends, or a request begins, or an error. */
    method FillBuffProc()
      requires Valid() && !isClosed && rdNext == stop
      modifies this, buff, conn, req
      ensures Onward(old(V())) && Filled(old(V()))
      ensures (eorStop || old(req.isBeginProcessed) ==> unchanged(req)) && req.appStatus == old(req.appStatus)
      decreases if eorStop then 0 else 1, 1
    {
      hide Read, Padding, Boundary, Filled, Going, Pending, DecodeHeader, Connection.Valid, Answering;
      AnsweringNothing(conn.records);
      ghost var m := V();
      assert m == U();
      FillStarts(m);
      var hdr: seq<Byte> := [];
      while true
        invariant Onward(m) && !isClosed && unchanged(req)
        invariant |hdr| < HEADER_LEN && (hdr != [] ==> contentLen == 0 && paddingLen == 0 && !eorStop)
        invariant Going(m, Pending(hdr, U()), U())
        decreases |U().ahead|
      {
        var more := Replenish(hdr, m);
        if !more {
          return;
        }
        if hdr == [] {
          var round := FinishRecord(m);
          if round == Return {
            return;
          } else if round == Again {
            continue;
          }
        } else {
          InHeader(hdr, U());
        }
        var done;
        hdr, done := ReadHeader(hdr, m);
        if done {
          return;
        }
      }
    }

    /** The client takes k bytes that are there, got having been delivered since m. */
    method Take(k: nat, ghost m: View, ghost got: seq<Byte>) returns (bytes: seq<Byte>)
      requires Onward(m) && Valid() && !isClosed && rdNext + k <= stop && Went(m, got, V())
      modifies `rdNext
      ensures Onward(m) && Valid() && rdNext == old(rdNext) + k && |bytes| == k && Left() + k == old(Left())
      ensures Went(m, got + bytes, V())
    {
      hide Went, Read, Connection.Valid, Answering;
      bytes := buff[rdNext..rdNext + k];
      ghost var v, v0 := V(), rdNext;
      rdNext := rdNext + k;
      SubSlice(buff[..], v0, stop, k);
      assert bytes == v.avail[..k] && V().avail == v.avail[k..];
      TakeStep(v, k);
      WentTrans(m, got, v, bytes, V());
    }

    /** A fill for a client to whom got has been delivered since m. */
    method Fetch(ghost m: View, ghost got: seq<Byte>)
      requires Onward(m) && Valid() && !isClosed && rdNext == stop && (m.eor || m.x.begun) && Went(m, got, V())
      modifies this, buff, conn, req
      ensures Onward(m) && Valid() && unchanged(req) && Went(m, got, V()) && Left() <= old(Left())
      ensures !isClosed ==> stopUnget == rdNext < stop
      decreases if m.eor then 0 else 1, 3
    {
      hide Went, Read, Connection.Valid, Answering;
      FillOn(m, got);
      if !isClosed {
        stopUnget := rdNext;
      }
    }

    method FillOn(ghost m: View, ghost got: seq<Byte>)
      requires Onward(m) && Valid() && !isClosed && rdNext == stop && (m.eor || m.x.begun) && Went(m, got, V())
      modifies this, buff, conn, req
      ensures Onward(m) && Valid() && unchanged(req) && Went(m, got, V()) && Left() <= old(Left())
      ensures !isClosed ==> rdNext < stop
      decreases if m.eor then 0 else 1, 2
    {
      hide Went, Read, Handled, Connection.Valid, Answering;
      ghost var v := V();
      WentFacts(m, got, v);
      FillBuffProc();
      AnsweringMore(m.records, v.records, conn.records);
      WentTrans(m, got, v, [], V());
      assert got + [] == got;
    }

    /** The mark is at or before the cursor once a byte has been taken since the last fill; it need not be before. */
    ghost predicate Marked()
      reads this
    {
      rdNext != stop ==> stopUnget <= rdNext
    }

    /** Any earlier position m will do to compare with, got being what was delivered since then. */
    ghost predicate Since(m: View, got: seq<Byte>)
      reads this, buff, conn, req
    {
      Onward(m) && Valid() && (m.eor || m.x.begun) && Went(m, got, V())
    }

    method GetChar(ghost m: View, ghost got: seq<Byte>) returns (c: int)
      requires Bounded() && Since(m, got)
      modifies this, buff, conn, req
      ensures Bounded() && unchanged(req) && -1 <= c < 256
      ensures Since(m, if c == -1 then got else got + [c]) && (c == -1 <==> isClosed) && (old(isClosed) ==> c == -1)
      ensures Left() <= old(Left()) && (c != -1 ==> Left() < old(Left()))
      ensures c != -1 && old(Marked()) ==> stopUnget < rdNext
      decreases if m.eor then 0 else 1, 4
    {
      hide Went, Read, Connection.Valid, Answering;
      if isClosed {
        return -1;
      }
      if rdNext == stop {
        Fetch(m, got);
        if isClosed {
          return -1;
        }
      }
      var b := Take(1, m, got);
      assert b == [b[0]];
      return b[0];
    }

    /** Up to n bytes; fewer only when the stream has ended. */
    method GetStr(n: int, ghost m: View, ghost got: seq<Byte>) returns (str: seq<Byte>)
      requires Bounded() && Since(m, got)
      modifies this, buff, conn, req
      ensures Bounded() && unchanged(req) && |str| <= Max(n, 0) && Left() <= old(Left())
      ensures Since(m, got + str) && (old(isClosed) ==> str == [] && isClosed)
      ensures !old(isClosed) ==> (|str| < n <==> isClosed)
      ensures !isClosed && old(Marked()) ==> Marked() && (str != [] ==> stopUnget < rdNext)
      decreases if m.eor then 0 else 1, 4
    {
      hide Went, Read, Connection.Valid, Answering;
      str := [];
      Units(got);
      if isClosed || n <= 0 {
        return;
      }
      if n <= stop - rdNext {
        str := Take(n, m, got);
        return;
      }
      while true
        invariant Since(m, got + str) && !isClosed && unchanged(req) && |str| < n && Left() <= old(Left())
        invariant old(Marked()) ==> Marked() && (str != [] ==> stopUnget <= rdNext)
        decreases n - |str|, if rdNext == stop then 1 else 0
      {
        if rdNext != stop {
          var some := Take(Min(n - |str|, stop - rdNext), m, got + str);
          Associate(got, str, some);
          str := str + some;
          if |str| == n {
            return;
          }
        }
        Fetch(m, got + str);
        if isClosed {
          return;
        }
      }
    }

    /** The rest of a length whose first byte has been read, or -1 at the end of the stream. */
    method ReadLength(first: Byte, ghost m: View, ghost got: seq<Byte>) returns (len: int, ghost more: seq<Byte>)
      requires Bounded() && Since(m, got) && !isClosed
      modifies this, buff, conn, req
      ensures Bounded() && unchanged(req) && Since(m, got + more) && Left() <= old(Left())
      ensures len >= 0 ==> !isClosed && ParseLength([first] + more) == Got(len, [])
      ensures len < 0 ==> len == -1 && isClosed && ParseLength([first] + more).Short?
      decreases if m.eor then 0 else 1, 5
    {
      hide Since, Answering;
      Units(got);
      if first < 128 {
        return first, [];
      }
      var lenBuff := GetStr(3, m, got);
      more := lenBuff;
      if |lenBuff| != 3 {
        return -1, more;
      }
      assert ([first] + more)[..4] == [first] + more;
      len := (first as int - 128) * 0x100_0000 + lenBuff[0] as int * 0x1_0000 + lenBuff[1] as int * 256 + lenBuff[2] as int;
    }

    /** Both lengths of a pair, the first byte of which has been read; valueLen is -1 if the stream ended. */
    method ReadLengths(first: Byte, ghost m: View, ghost got: seq<Byte>)
      returns (nameLen: int, valueLen: int, ghost a: seq<Byte>, ghost b: seq<Byte>)
      requires Bounded() && Since(m, got) && !isClosed
      modifies this, buff, conn, req
      ensures Bounded() && unchanged(req) && Since(m, got + (a + b)) && Left() <= old(Left())
      ensures valueLen >= 0 ==>
                !isClosed && ParseLength([first] + a) == Got(nameLen, []) && ParseLength(b) == Got(valueLen, [])
      ensures valueLen < 0 ==> isClosed && ParsePair([first] + a + b).Short?
      decreases if m.eor then 0 else 1, 6
    {
      hide Since, ParsePair, ParseLength, Answering;
      nameLen, a := ReadLength(first, m, got);
      b := [];
      Units(a);
      if nameLen < 0 {
        PairShort([first] + a, b);
        return nameLen, -1, a, b;
      }
      var second := GetChar(m, got + a);
      if second == -1 {
        assert ParseLength(b).Short? by {
          NoLength();
        }
        PairShort([first] + a, b);
        return nameLen, -1, a, b;
      }
      ghost var more;
      valueLen, more := ReadLength(second, m, got + a + [second]);
      b := [second] + more;
      Regroup(got, a, [second], more, []);
      assert got + a + [second] + more == got + (a + b);
      if valueLen < 0 {
        PairShort([first] + a, b);
      }
    }

    /**
     One name-value pair as an environment string, its first byte having been read; none if the stream ended, or if
     its lengths have a sum that the source's int cannot hold, with which the source would still go on.
     */
    method ReadPair(first: Byte, ghost m: View, ghost got: seq<Byte>)
      returns (nameValue: Option<seq<Byte>>, ghost more: seq<Byte>)
      requires Bounded() && Since(m, got) && !isClosed
      modifies this, buff, conn, req
      ensures Bounded() && unchanged(req) && Since(m, got + more) && Left() <= old(Left())
      ensures nameValue.Some? ==> !isClosed && ParsePair([first] + more) == Got(nameValue.value, [])
      ensures nameValue.None? ==> if isClosed then ParsePair([first] + more).Short? else ParsePair([first] + more).Overlong?
      decreases if m.eor then 0 else 1, 7
    {
      hide Since, ParsePair, ParseLength, Answering;
      var nameLen, valueLen, a, b := ReadLengths(first, m, got);
      Associate([first], a, b);
      more := a + b;
      if valueLen < 0 {
        return None, more;
      }
      if nameLen + valueLen > MAX_PAIR {
        Units(b);
        BodyFromLengths([first] + a, b, [], nameLen, valueLen);
        return None, more;
      }
      var name := GetStr(nameLen, m, got + more);
      var value := [];
      if |name| == nameLen {
        value := GetStr(valueLen, m, got + more + name);
      }
      more := a + (b + (name + value));
      assert got + more == got + (a + b) + name + value;
      Units(got + (a + b) + name);
      Associate([first], a, b + (name + value));
      PairFromPieces([first] + a, b, name, value, nameLen, valueLen);
      nameValue := if |name| == nameLen && |value| == valueLen then Some(name + [EQUALS] + value) else None;
    }

    /** The error of a pair that the end of the stream has cut short. */
    method CutShort(ghost m: View, ghost got: seq<Byte>)
      requires Bounded() && Since(m, got) && isClosed
      modifies `errno, `isClosed
      ensures Onward(m) && isClosed && ReadOut(m, got, V(), -1) && Left() == old(Left())
    {
      hide Went, Read, ReadOut, Connection.Valid, Answering;
      ghost var u := V();
      SetError(PARAMS_ERROR);
      assert X() == u.x.(poisoned := true);
      ReadOutShort(m, got, u, V());
    }

    lemma CameToEnd(m: View, got: seq<Byte>)
      requires Bounded() && Since(m, got) && isClosed
      ensures Onward(m) && ReadOut(m, got, V(), 0)
    {
      ReadOutWhole(m, got, V());
    }

    /** Reads one more pair into params; rc is 1 when there was one, 0 at the end, -1 when it was cut short, -2 when too long. */
    method ReadParam(params: Params, ghost m: View, ghost got: seq<Byte>) returns (rc: int, ghost more: seq<Byte>)
      requires Bounded() && Since(m, got) && !isClosed && params.Valid()
      modifies this, buff, conn, req, params, params.vec
      ensures Bounded() && unchanged(req) && Left() <= old(Left())
      ensures Parse(more).whole == (rc >= 0) && Parse(more).defined == (rc != -2)
      ensures params.Valid() && (params.vec == old(params.vec) || fresh(params.vec))
      ensures params.Contents() == old(params.Contents()) + Parse(more).entries
      ensures rc == 1 ==> !isClosed && Since(m, got + more) && Left() < old(Left())
      ensures rc == 0 ==> isClosed && Onward(m) && ReadOut(m, got + more, V(), 0)
      ensures rc == -1 ==> isClosed && Onward(m) && ReadOut(m, got + more, V(), -1)
      ensures rc == -2 ==> !isClosed && Since(m, got + more)
      ensures -2 <= rc <= 1
      decreases if m.eor then 0 else 1, 8
    {
      hide Since, Onward, ReadOut, Parse, ParsePair, Connection.Valid, Params.Valid, Params.Contents, Answering;
      var first := GetChar(m, got);
      if first == -1 {
        CameToEnd(m, got);
        ParseNothing();
        Units(got);
        Units(params.Contents());
        return 0, [];
      }
      var nameValue, tail := ReadPair(first, m, got + [first]);
      Associate(got, [first], tail);
      more := [first] + tail;
      if nameValue.None? && !isClosed {
        ParseOverlong(more);
        Units(params.Contents());
        return -2, more;
      }
      if nameValue.None? {
        ParseStop(more);
        CutShort(m, got + more);
        Units(params.Contents());
        return -1, more;
      }
      ParseOne(more, nameValue.value);
      params.PutParam(nameValue.value);
      return 1, more;
    }

    /**
     Reads name-value pairs to the end of the stream into params; the pairs are those of the bytes got. At a pair that
     is too long to be stored the C code's behaviour is not defined; here the reading stops there, and rc is -2.
     */
    method ReadParams(params: Params) returns (rc: int, ghost got: seq<Byte>)
      requires Valid() && !isClosed && (eorStop || req.isBeginProcessed) && params.Valid()
      modifies this, buff, conn, req, params, params.vec
      ensures Onward(old(V())) && Valid() && unchanged(req) && Left() <= old(Left())
      ensures params.Valid() && (params.vec == old(params.vec) || fresh(params.vec))
      ensures params.Contents() == old(params.Contents()) + Parse(got).entries
      ensures rc == if !Parse(got).defined then -2 else if Parse(got).whole then 0 else -1
      ensures isClosed <==> rc != -2
      ensures if rc == -2 then Went(old(V()), got, V()) else ReadOut(old(V()), got, V(), rc)
      decreases if eorStop then 0 else 1, 9
    {
      hide Went, Read, ReadOut, Parse, ParsePair, Connection.Valid, Params.Valid, Params.Contents, Answering;
      AnsweringNothing(conn.records);
      ghost var m := V();
      WentNowhere(m);
      got := [];
      ParseNothing();
      Units(params.Contents());
      rc := 1;
      while rc == 1
        invariant -2 <= rc <= 1 && Onward(m) && Valid() && unchanged(req) && Left() <= old(Left())
        invariant rc == 1 || rc == -2 ==> !isClosed && Since(m, got)
        invariant rc == 0 || rc == -1 ==> isClosed && ReadOut(m, got, V(), rc)
        invariant params.Valid() && (params.vec == old(params.vec) || fresh(params.vec))
        invariant Parse(got).whole == (rc >= 0) && Parse(got).defined == (rc != -2)
        invariant params.Contents() == old(params.Contents()) + Parse(got).entries
        decreases rc, Left()
      {
        ghost var more, before := [], got;
        rc, more := ReadParam(params, m, got);
        ParseThenMore(before, more);
        Associate(old(params.Contents()), Parse(before).entries, Parse(more).entries);
        got := before + more;
      }
    }

    /**
     Pushes a byte back. There is room for one once a byte has been read since the last fill. The place before the
     cursor is used even when the mark is left over from an earlier fill; there is no result when it is out of the buffer.
     */
    method UnGetChar(c: int) returns (r: Option<int>)
      requires Valid()
      modifies `rdNext, buff
      ensures Valid() && (r.None? <==> c != -1 && !isClosed && PushedTo(old(rdNext), stopUnget, 1) < 0)
      ensures r.None? ==> rdNext == old(rdNext) && V() == old(V())
      ensures r.Some? ==>
        && rdNext == (if isClosed || c == -1 then old(rdNext) else PushedTo(old(rdNext), stopUnget, 1))
        && if c == -1 || isClosed || old(rdNext) == stopUnget then r.value == -1 && V() == old(V())
           else r.value == c && V() == old(V()).(avail := [c % 256] + old(V()).avail)
    {
      hide Connection.Valid, Answering;
      if c == -1 || isClosed || rdNext == stopUnget {
        return Some(-1);
      }
      if rdNext == 0 {
        return None;
      }
      rdNext := rdNext - 1;
      buff[rdNext] := c % 256;
      assert buff[rdNext + 1..stop] == old(buff[rdNext..stop]);
      assert buff[rdNext..stop] == [buff[rdNext]] + buff[rdNext + 1..stop];
      return Some(c);
    }

    /** Up to n - 1 bytes, stopping after a newline; none if the stream ends first. */
    method GetLine(n: int, ghost m: View, ghost got: seq<Byte>) returns (line: Option<seq<Byte>>)
      requires Bounded() && Since(m, got)
      modifies this, buff, conn, req
      ensures Bounded() && unchanged(req)
      ensures line.None? ==> n >= 2 && isClosed && Since(m, got) && Left() <= old(Left())
      ensures line.Some? ==>
        && Since(m, got + line.value) && |line.value| <= Max(n - 1, 0) && Unbroken(line.value)
        && (n >= 2 ==> line.value != [] && !old(isClosed) && Left() < old(Left()))
        && (|line.value| < n - 1 && !Complete(line.value) ==> isClosed)
    {
      hide Since, Answering;
      var p: seq<Byte> := [];
      Units(got);
      while |p| < n - 1
        invariant Bounded() && unchanged(req) && Since(m, got + p) && |p| <= Max(n - 1, 0)
        invariant Unbroken(p) && !Complete(p)
        invariant Left() <= old(Left()) && (p != [] ==> Left() < old(Left()) && !old(isClosed)) && (old(isClosed) ==> isClosed)
      {
        var c := GetChar(m, got + p);
        if c == -1 {
          if p == [] {
            return None;
          }
          break;
        }
        Associate(got, p, [c]);
        p := p + [c];
        if c == NEWLINE {
          break;
        }
      }
      return Some(p);
    }

    /** A line is the first line of the content that was still ahead, unless it is a short one and a call has failed. */
    lemma LineRead(n: int, m: View, got: seq<Byte>, line: seq<Byte>)
      requires Bounded() && n >= 2 && Since(m, got + line) && |line| <= n - 1 && Unbroken(line)
      requires |line| < n - 1 && !Complete(line) ==> isClosed && conn.ok
      ensures got <= m.Rest().content && line == FirstLine(m.Rest().content[|got|..], n - 1)
    {
      hide Went, Follows, Read, Unbroken, FirstLine, Connection.Valid, Answering;
      var content := m.Rest().content;
      ReadSoFar(m, got + line, V());
      Following(got, line, content);
      OnlyFirstLine(content[|got|..], n - 1, line);
    }

    /** Starts reading another kind of record at the cursor, whatever was left of the last one. */
    method SetReaderType(streamType: int)
      requires Bounded()
      modifies `typ, `eorStop, `skip, `contentLen, `paddingLen, `stop, `isClosed
      ensures Valid() && !isClosed && rdNext == stop && typ == streamType
      ensures var u := old(U());
        V() == u.(open := true, avail := [], c := 0, p := 0, skip := false, eor := false, x := u.x.(typ := streamType))
    {
      hide Connection.Valid, Answering;
      typ, eorStop, skip, contentLen, paddingLen := streamType, false, false, 0, 0;
      stop := rdNext;
      isClosed := false;
      assert buff[rdNext..stop] == [];
    }

    /** Goes on to the second input of a filter, once the first has been read to its end. */
    method StartFilterData() returns (rc: int)
      requires Bounded()
      modifies `typ, `eorStop, `skip, `contentLen, `paddingLen, `stop, `isClosed, `errno
      ensures Bounded() && (rc == 0 || rc == -1)
      ensures rc == 0 <==> req.role == FILTER && old(isClosed) && old(typ) == STDIN as int
      ensures rc == 0 ==> Valid() && !isClosed && rdNext == stop && typ == 8 && errno == old(errno)
      ensures rc == 0 ==> var u := old(U());
        V() == u.(open := true, avail := [], c := 0, p := 0, skip := false, eor := false, x := u.x.(typ := DATA as int))
      ensures rc == -1 ==> isClosed && errno == if old(errno) == 0 then -5 else old(errno)
    {
      hide Connection.Valid, Answering;
      if req.role != FILTER || !isClosed || typ != STDIN {
        SetError(CALL_SEQ_ERROR);
        return -1;
      }
      SetReaderType(DATA);
      return 0;
    }
  }

  /** Reads line after line until there is none any more. */
  method ReadLines(input: Reader, n: int) returns (lines: seq<seq<Byte>>)
    requires input.Valid() && !input.isClosed && input.req.isBeginProcessed && n >= 2
    modifies input, input.buff, input.conn, input.req
    ensures input.Bounded() && input.Valid() && input.isClosed && unchanged(input.req)
    ensures InLines(lines, n - 1) && Went(old(input.V()), Join(lines), input.V())
    ensures Join(lines) <= old(input.V()).Rest().content
    ensures input.conn.ok ==> lines == AllLines(old(input.V()).Rest().content, n - 1)
  {
    hide Went, Answering, Read, Unbroken, Complete, AllLines, InLines, Join, Connection.Valid;
    ghost var m := input.V();
    lines := [];
    AnsweringNothing(m.records);
    WentNowhere(m);
    NoLines(n - 1);
    while true
      invariant input.Bounded() && input.Since(m, Join(lines)) && unchanged(input.req)
      invariant InLines(lines, n - 1) && (input.isClosed || Stopped(lines, n - 1))
      decreases input.Left()
    {
      var line := input.GetLine(n, m, Join(lines));
      if line.None? {
        break;
      }
      OneMore(lines, line.value, n - 1);
      lines := lines + [line.value];
    }
    ReadSoFar(m, Join(lines), input.V());
    if input.conn.ok {
      OnlyLines(m.Rest().content, n - 1, lines);
    }
  }
}
