/** What a writer has written, a reader of the same stream reads back. */
module RoundTrip {
  import opened Protocol
  import opened Deframer
  import opened RecordStreams
  import opened Progress
  import opened Environment
  import opened Writers

  /** A closed stream's records, the last perhaps completing the request. */
  ghost predicate Finished(v: Output, last: bool, appStatus: int) {
    v.closed && v.pending == [] && v.AllData(v.data) && v.room <= 65528 && v.ending == v.Ending(v.data, last, appStatus)
  }

  lemma ClosingFinishes(v: Output, w: Output, d: seq<Record>, last: bool, appStatus: int)
    requires Closed(v, w, d, last, appStatus) && v.AllData(v.data) && |v.pending| <= v.room <= 65528
    ensures Finished(w, last, appStatus) && w.Accepted() == v.Accepted() && v.data + d == w.data + w.ending
  {
    EncapsulatedFits(v);
    PayloadConcat(v.data, v.Encapsulated(), v.typ);
    Units(Payload(w.data, v.typ));
    Associate(v.data, v.Encapsulated(), w.ending);
  }

  /** A writer that is closed without a failed call has finished its stream, with all the bytes it was given. */
  method Finish(w: Writer)
    requires w.Valid() && !w.wasFCloseCalled
    modifies w, w.buff, w.conn, w.req`nWriters
    ensures w.Valid() && w.wasFCloseCalled
    ensures w.conn.sound ==>
      && Finished(w.V(), old(w.req.nWriters) == 1, w.req.appStatus) && w.V().Accepted() == old(w.V().Accepted())
      && old(w.conn.records) <= w.conn.records
      && old(w.V().data) + w.conn.records[|old(w.conn.records)|..] == w.V().data + w.V().ending
  {
    hide Finished, Output.Ending, Output.Encapsulated, Connection.Valid;
    ghost var v, before := w.V(), w.conn.records;
    var r := w.FClose();
    if w.conn.sound {
      ClosingFinishes(v, w.V(), w.conn.records[|before|..], old(w.req.nWriters) == 1, w.req.appStatus);
    }
  }

  function ReaderOf(v: Output): Ctx {
    Ctx(v.typ as int, v.id, true, false)
  }

  lemma {:induction false} DataIsOwn(v: Output, rs: seq<Record>)
    requires v.AllData(rs) && v.room <= 65528 && v.id != NULL_REQUEST_ID && v.typ != BEGIN_REQUEST
    ensures Passable(rs, ReaderOf(v))
    ensures Delivered(rs, false, ReaderOf(v)) == Payload(rs, v.typ) && Replies(rs, false, ReaderOf(v)) == []
  {
    var x := ReaderOf(v);
    forall i | 0 <= i < |rs| ensures rs[i].Fits() && KindOf(rs[i], x).Own? {
      assert v.IsData(rs[i]);
    }
    if rs != [] {
      DataIsOwn(v, rs[1..]);
      assert !SkipAfter(rs[0], false, x);
    }
  }

  /** The bytes of the end record and of whatever comes after it. */
  lemma EndingSplit(v: Output, last: bool, appStatus: int, tail: seq<Byte>)
    requires Finished(v, last, appStatus) && (v.typ != STDERR || v.data != [])
    ensures AllFit(v.ending)
    ensures var rest := (if last then EncodeRecord(EndRequest(v.id, appStatus, REQUEST_COMPLETE)) else []) + tail;
      EncodeAll(v.ending) + tail == EncodeRecord(Record(v.typ, v.id, [], [])) + rest
  {
    var eof, end := Record(v.typ, v.id, [], []), EndRequest(v.id, appStatus, REQUEST_COMPLETE);
    EndingFits(v, v.data, last, appStatus);
    EncodeOne(eof);
    EncodeOne(end);
    EncodeAllConcat([eof], [end]);
    Units([eof]);
    Units(tail);
    Associate(EncodeRecord(eof), EncodeRecord(end), tail);
  }

  /** All that was put, then the end of the stream, and the bytes after its end record left alone. */
  lemma ReadBack(v: Output, last: bool, appStatus: int, tail: seq<Byte>)
    requires Finished(v, last, appStatus) && v.id != NULL_REQUEST_ID && v.typ != BEGIN_REQUEST
    requires v.typ != STDERR || v.data != []
    ensures AllFit(v.data + v.ending)
    ensures var rest := (if last then EncodeRecord(EndRequest(v.id, appStatus, REQUEST_COMPLETE)) else []) + tail;
      Read(EncodeAll(v.data + v.ending) + tail, 0, 0, false, false, ReaderOf(v))
        == Reading(v.Accepted(), [], EndOfStream(rest))
  {
    hide Read, Passable, Delivered, Replies, EncodeRecord;
    var eof := Record(v.typ, v.id, [], []);
    var rest := (if last then EncodeRecord(EndRequest(v.id, appStatus, REQUEST_COMPLETE)) else []) + tail;
    DataIsOwn(v, v.data);
    DataFits(v, v.data);
    EndingSplit(v, last, appStatus, tail);
    EncodeAllConcat(v.data, v.ending);
    Associate(EncodeAll(v.data), EncodeAll(v.ending), tail);
    StreamRead(v.data, eof, rest, ReaderOf(v));
    Units(rest);
    Units(v.Accepted());
  }

  lemma DataFits(v: Output, rs: seq<Record>)
    requires v.AllData(rs) && v.room <= 65528
    ensures AllFit(rs)
  {
    forall i | 0 <= i < |rs| ensures rs[i].Fits() {
      assert v.IsData(rs[i]);
    }
  }

  /** The one exception: an error stream on which nothing was put leaves no trace, so its reader finds no end. */
  lemma SilentError(v: Output, appStatus: int)
    requires Finished(v, false, appStatus)
    ensures v.data + v.ending == [] <==> v.typ == STDERR && v.Accepted() == []
  {
    if v.data != [] {
      assert v.IsData(v.data[0]);
    }
  }

  /**
   End to end: a reader whose input is what a closed writer wrote has, at any moment and however the bytes were
   split into reads, been given a prefix of the bytes put; when it has closed without a failed call, it has been
   given all of them, and stands right behind the end record.
   */
  lemma EndToEnd(v: Output, last: bool, appStatus: int, tail: seq<Byte>, m: View, got: seq<Byte>, w: View)
    requires Finished(v, last, appStatus) && v.id != NULL_REQUEST_ID && v.typ != BEGIN_REQUEST
    requires v.typ != STDERR || v.data != []
    requires AllFit(v.data + v.ending) && m.ahead == EncodeAll(v.data + v.ending) + tail
    requires m.open && m.avail == [] && m.c == 0 && m.p == 0 && !m.skip && !m.eor && m.x == ReaderOf(v) && m.errno == 0
    requires Went(m, got, w)
    ensures got <= v.Accepted()
    ensures w.ok && !w.open ==>
      && got == v.Accepted() && w.errno == 0 && w.records == m.records
      && w.ahead == (if last then EncodeRecord(EndRequest(v.id, appStatus, REQUEST_COMPLETE)) else []) + tail
  {
    hide Read, EncodeRecord, Finished;
    ReadBack(v, last, appStatus, tail);
    assert m.Rest() == Read(m.ahead, 0, 0, false, false, m.x);
    Units(got);
    assert w.open ==> got <= m.Rest().content;
  }

  /**
   A reader whose input is a sequence of records ending its stream, split into reads in any way: what it has been
   given is at any moment a prefix of what the records deliver; when it has closed without a failed call it is all
   of that, every reply that is due has been sent, in order, and the reader stands right behind the end record.
   */
  lemma Reception(rs: seq<Record>, e: Record, tail: seq<Byte>, m: View, got: seq<Byte>, w: View)
    requires Passable(rs, m.x) && m.x.begun
    requires e.Fits() && e.typ == m.x.typ && e.typ != BEGIN_REQUEST && e.id == m.x.id != NULL_REQUEST_ID && e.content == []
    requires m.ahead == EncodeAll(rs) + (EncodeRecord(e) + tail)
    requires m.open && m.avail == [] && m.c == 0 && m.p == 0 && !m.skip && !m.eor
    requires Went(m, got, w)
    ensures got <= Delivered(rs, false, m.x)
    ensures w.ok && !w.open ==>
      && got == Delivered(rs, false, m.x) && w.errno == m.errno && w.ahead == e.padding + tail
      && m.records <= w.records && AllAnswered(w.records[|m.records|..], Replies(rs, false, m.x))
  {
    hide Read, EncodeRecord, Passable, Delivered, Replies, AllAnswered;
    StreamRead(rs, e, tail, m.x);
    assert m.Rest() == Read(m.ahead, 0, 0, false, false, m.x);
    Units(got);
    assert w.open ==> got <= m.Rest().content;
    if w.ok && !w.open {
      var n := |w.records| - |m.records|;
      assert m.Rest().replies[n..] == [];
      assert m.Rest().replies[..n] == m.Rest().replies;
    }
  }

  /** With no empty foreign record and no content in unheard ones, that is the stream's own content. */
  lemma ReceptionOfOwn(rs: seq<Record>, e: Record, tail: seq<Byte>, m: View, got: seq<Byte>, w: View)
    requires Passable(rs, m.x) && m.x.begun
    requires forall i :: 0 <= i < |rs| ==> (KindOf(rs[i], m.x).Foreign? ==> rs[i].content != [])
                                           && (KindOf(rs[i], m.x).Unheard? ==> rs[i].content == [])
    requires e.Fits() && e.typ == m.x.typ && e.typ != BEGIN_REQUEST && e.id == m.x.id != NULL_REQUEST_ID && e.content == []
    requires m.ahead == EncodeAll(rs) + (EncodeRecord(e) + tail)
    requires m.open && m.avail == [] && m.c == 0 && m.p == 0 && !m.skip && !m.eor
    requires Went(m, got, w)
    ensures got <= OwnContent(rs, m.x)
    ensures w.ok && !w.open ==>
      && got == OwnContent(rs, m.x)
      && m.records <= w.records && AllAnswered(w.records[|m.records|..], ExpectedReplies(rs, m.x))
  {
    hide Went, EncodeRecord, EncodeAll, AllAnswered;
    Reception(rs, e, tail, m, got, w);
    Transparent(rs, m.x);
  }
}
