/** How a connection opens a request, and how requests follow each other on one connection, as functions of its bytes. */
module Openings {
  import opened Protocol
  import opened NameValue
  import opened GetValues
  import opened Deframer
  import opened RecordStreams
  import opened Parameters

  /** A request as the application gets it, and the bytes of the connection that come after its parameters. */
  datatype Opened = Opened(id: Id, role: int, keep: bool, entries: seq<seq<Byte>>, rest: Outcome)

  /** What a connection opens: a request, or none; or its bytes are such that the C code has no defined behaviour. */
  datatype Start = Opens(request: Opened) | Refuses | Unclear

  function BeginReading(bytes: seq<Byte>, id0: Id): Reading {
    Read(bytes, 0, 0, false, false, Ctx(0, id0, false, false))
  }

  /** The reading of one stream of a request that has begun, from the boundary between two records. */
  function StreamReading(bytes: seq<Byte>, id: Id, typ: Byte): Reading {
    Read(bytes, 0, 0, false, false, Ctx(typ as int, id, true, false))
  }

  /**
   The request that a connection opens, id0 being left over from the request before. The parameters need only
   end between two pairs: the way in which their stream ends is not looked at.
   */
  function Opening(bytes: seq<Byte>, id0: Id): Start {
    var b := BeginReading(bytes, id0);
    if b.content == [] && b.outcome.Undefined? then Unclear
    else if b.content != [] || !b.outcome.Begun? || !(RESPONDER <= b.outcome.role <= FILTER) then Refuses
    else
      var p := StreamReading(b.outcome.rest, b.outcome.id, PARAMS);
      if p.outcome.Undefined? || !Parse(p.content).defined then Unclear
      else if Parse(p.content).whole
      then Opens(Opened(b.outcome.id, b.outcome.role, b.outcome.keep, Parse(p.content).entries, p.outcome))
      else Refuses
  }

  const ROLE_NAME := Ascii("FCGI_ROLE")

  function RoleValue(role: int): seq<Byte> {
    if role == RESPONDER then Ascii("RESPONDER") else if role == AUTHORIZER then Ascii("AUTHORIZER") else Ascii("FILTER")
  }

  /** The entry that comes before the parameters that were sent. */
  function RoleEntry(role: int): seq<Byte> {
    if role == RESPONDER then Ascii("FCGI_ROLE=RESPONDER")
    else if role == AUTHORIZER then Ascii("FCGI_ROLE=AUTHORIZER")
    else Ascii("FCGI_ROLE=FILTER")
  }

  lemma AsciiConcat(s: string, t: string)
    ensures Ascii(s + t) == Ascii(s) + Ascii(t)
  {
  }

  lemma RoleEntrySpelt(role: int)
    ensures RoleEntry(role) == ROLE_NAME + [EQUALS] + RoleValue(role) && EQUALS !in ROLE_NAME
  {
    assert Ascii("=") == [EQUALS];
    AsciiConcat("FCGI_ROLE", "=");
    AsciiConcat("FCGI_ROLE=", "RESPONDER");
    AsciiConcat("FCGI_ROLE=", "AUTHORIZER");
    AsciiConcat("FCGI_ROLE=", "FILTER");
    assert "FCGI_ROLE" + "=" == "FCGI_ROLE=";
    assert "FCGI_ROLE=" + "RESPONDER" == "FCGI_ROLE=RESPONDER";
    assert "FCGI_ROLE=" + "AUTHORIZER" == "FCGI_ROLE=AUTHORIZER";
    assert "FCGI_ROLE=" + "FILTER" == "FCGI_ROLE=FILTER";
    assert forall i :: 0 <= i < |"FCGI_ROLE"| ==> "FCGI_ROLE"[i] as int % 256 != EQUALS;
  }

  lemma RoleWins(role: int, later: seq<seq<Byte>>)
    ensures Lookup(ROLE_NAME, [RoleEntry(role)] + later) == Some(RoleValue(role))
  {
    hide Ascii;
    RoleEntrySpelt(role);
    var entry := RoleEntry(role);
    assert entry[..|ROLE_NAME|] == ROLE_NAME && entry[|ROLE_NAME|] == EQUALS && entry[|ROLE_NAME| + 1..] == RoleValue(role);
    FirstEntryWins(entry, later, ROLE_NAME);
  }

  /** The application finds each parameter as it was sent, but FCGI_ROLE always as the request's own role. */
  lemma Environment(name: seq<Byte>, role: int, ps: seq<Pair>)
    requires EQUALS !in name
    ensures Lookup(name, [RoleEntry(role)] + Entries(ps))
         == if name == ROLE_NAME then Some(RoleValue(role)) else FirstValue(name, RecutAll(ps))
  {
    hide Ascii, Lookup, FirstValue, Names;
    RoleEntrySpelt(role);
    if name == ROLE_NAME {
      RoleWins(role, Entries(ps));
      return;
    }
    var p := Pair(ROLE_NAME, RoleValue(role), false, false);
    LookupIsFirstMatch(name, [p] + ps);
    assert Entries([p] + ps) == [RoleEntry(role)] + Entries(ps) by {
      EntriesCons(p, ps);
    }
    assert RecutAll([p] + ps)[0] == p;
    assert RecutAll([p] + ps) == [p] + RecutAll(ps);
    FirstOf(name, p, RecutAll(ps));
  }

  lemma FirstOf(name: seq<Byte>, p: Pair, ps: seq<Pair>)
    ensures FirstValue(name, [p] + ps) == if p.name == name then Some(p.value) else FirstValue(name, ps)
  {
    assert ([p] + ps)[1..] == ps;
  }

  // ---- Requests as they are sent ----

  /** A stream as a server sends it: records of any harmless kind, and the padding of the empty record that ends it. */
  datatype Stream = Stream(records: seq<Record>, padding: seq<Byte>)

  /** A request as a server sends it; only that of a filter has the second input. */
  datatype Sent = Sent(begin: Record, params: Stream, input: Stream, data: Stream) {
    function Reader(typ: Byte): Ctx {
      Ctx(typ as int, begin.id, true, false)
    }

    predicate Carries(s: Stream, typ: Byte) {
      Passable(s.records, Reader(typ)) && |s.padding| < 256
    }

    predicate Begins() {
      && begin.Fits() && begin.typ == BEGIN_REQUEST && begin.id != NULL_REQUEST_ID && |begin.content| == 8
      && RESPONDER <= Role() <= FILTER
      && Carries(params, PARAMS) && Carries(input, STDIN) && (Role() == FILTER ==> Carries(data, DATA))
    }

    /** Everything is as it should be, up to the padding of records whose padding the source forgets. */
    predicate Formed() {
      Begins() && Parse(Content(params, PARAMS)).whole
    }

    /** No padding where the source turns from one kind of record to another. */
    predicate Unpadded()
      requires |begin.content| == 8
    {
      begin.padding == [] && params.padding == [] && (Role() == FILTER ==> input.padding == [])
    }

    function Role(): int
      requires |begin.content| == 8
    {
      Word(begin.content[0], begin.content[1])
    }

    function Keep(): bool
      requires |begin.content| == 8
    {
      begin.content[2] % 2 == 1
    }

    /** What the application is given of a stream. */
    function Content(s: Stream, typ: Byte): seq<Byte> {
      Delivered(s.records, false, Reader(typ))
    }

    function EncodeStream(s: Stream, typ: Byte): (bytes: seq<Byte>)
      requires Carries(s, typ)
    {
      EncodeAll(s.records) + EncodeRecord(Record(typ, begin.id, [], s.padding))
    }

    function EncodeData(): seq<Byte>
      requires Formed()
    {
      if Role() == FILTER then EncodeStream(data, DATA) else []
    }

    function EncodeInput(): seq<Byte>
      requires Formed()
    {
      EncodeStream(input, STDIN) + EncodeData()
    }

    function Encode(): seq<Byte>
      requires Formed()
    {
      EncodeRecord(begin) + (EncodeStream(params, PARAMS) + EncodeInput())
    }

    /** The padding after the very last record. */
    function LastPadding(): seq<Byte>
      requires |begin.content| == 8
    {
      if Role() == FILTER then data.padding else input.padding
    }

    /** The request as it is opened, with these bytes coming after its parameters. */
    function AsOpened(rest: Outcome): Opened
      requires |begin.content| == 8
    {
      Opened(begin.id, Role(), Keep(), Parse(Content(params, PARAMS)).entries, rest)
    }
  }

  lemma StreamIsRead(q: Sent, s: Stream, typ: Byte, tail: seq<Byte>)
    requires q.Carries(s, typ) && q.begin.id != NULL_REQUEST_ID && typ != BEGIN_REQUEST
    ensures StreamReading(q.EncodeStream(s, typ) + tail, q.begin.id, typ)
         == Reading(q.Content(s, typ), Replies(s.records, false, q.Reader(typ)), EndOfStream(s.padding + tail))
  {
    hide Read, Delivered, Replies, EncodeRecord, EncodeAll;
    var e := Record(typ, q.begin.id, [], s.padding);
    Associate(EncodeAll(s.records), EncodeRecord(e), tail);
    StreamRead(s.records, e, tail, q.Reader(typ));
  }

  /** What comes in for one request: the opening, then its input to the end, then the second input of a filter. */
  lemma RequestRead(q: Sent, tail: seq<Byte>, id0: Id)
    requires q.Formed()
    ensures q.begin.padding == [] ==>
      Opening(q.Encode() + tail, id0) == Opens(q.AsOpened(EndOfStream(q.params.padding + (q.EncodeInput() + tail))))
    ensures StreamReading(q.EncodeInput() + tail, q.begin.id, STDIN)
         == Reading(q.Content(q.input, STDIN), Replies(q.input.records, false, q.Reader(STDIN)),
                    EndOfStream(q.input.padding + (q.EncodeData() + tail)))
    ensures q.Role() == FILTER ==>
      StreamReading(q.EncodeData() + tail, q.begin.id, DATA)
        == Reading(q.Content(q.data, DATA), Replies(q.data.records, false, q.Reader(DATA)), EndOfStream(q.data.padding + tail))
  {
    hide Read, StreamReading, Parse, EncodeRecord, Sent.EncodeStream, Sent.Content, Sent.Carries;
    var input, data := q.EncodeInput(), q.EncodeData();
    Associate(q.EncodeStream(q.input, STDIN), data, tail);
    StreamIsRead(q, q.input, STDIN, data + tail);
    if q.Role() == FILTER {
      StreamIsRead(q, q.data, DATA, tail);
    }
    if q.begin.padding == [] {
      var params := q.EncodeStream(q.params, PARAMS);
      Associate(EncodeRecord(q.begin), params + input, tail);
      Associate(params, input, tail);
      BeginRead(q.begin, params + input + tail, Ctx(0, id0, false, false));
      Units(params + input + tail);
      StreamIsRead(q, q.params, PARAMS, input + tail);
    }
  }

  /**
   The parameters that were sent, in any lengths and cut into records in any way, are those that are found, exactly
   as long as none of them is too long to be stored.
   */
  lemma ParametersArrive(q: Sent, ps: seq<Pair>, tail: seq<Byte>, id0: Id)
    requires q.Begins() && q.begin.padding == [] && AllSendable(ps) && q.Content(q.params, PARAMS) == EncodePairs(ps)
    ensures var start := Opening(EncodeRecord(q.begin) + (q.EncodeStream(q.params, PARAMS) + tail), id0);
      if AllStorable(ps)
      then start == Opens(q.AsOpened(EndOfStream(q.params.padding + tail))) && start.request.entries == Entries(ps)
      else start == Unclear
  {
    hide Read, StreamReading, Parse, EncodeRecord, EncodePairs, Entries, AllStorable, Sent.EncodeStream, Sent.Content, Sent.Carries;
    var bytes := q.EncodeStream(q.params, PARAMS) + tail;
    BeginRead(q.begin, bytes, Ctx(0, id0, false, false));
    Units(bytes);
    StreamIsRead(q, q.params, PARAMS, tail);
    ParseEncoded(ps);
  }

  // ---- Padding that is taken for a header ----

  predicate Plain(padding: seq<Byte>) {
    padding == [] || padding[0] != VERSION_1
  }

  lemma PaddingIsRead(padding: seq<Byte>, tail: seq<Byte>, x: Ctx)
    requires padding != [] && Plain(padding) && |padding| + |tail| >= HEADER_LEN
    ensures Read(padding + tail, 0, 0, false, false, x) == Done(Failed(UNSUPPORTED_VERSION))
  {
    var s := padding + tail;
    BoundaryIsRead(s, false, x);
    assert s[..HEADER_LEN][0] != VERSION_1;
  }

  /**
   Padding after the record that begins a request is taken for the next header. Unless it happens to start with the
   version number, the request is accepted all the same, but with none of its parameters.
   */
  lemma PaddedBegin(begin: Record, tail: seq<Byte>, id0: Id)
    requires begin.Fits() && begin.typ == BEGIN_REQUEST && begin.id != NULL_REQUEST_ID && |begin.content| == 8
    requires begin.padding != [] && Plain(begin.padding) && |begin.padding| + |tail| >= HEADER_LEN
    ensures var role := Word(begin.content[0], begin.content[1]);
      Opening(EncodeRecord(begin) + tail, id0)
        == if RESPONDER <= role <= FILTER
           then Opens(Opened(begin.id, role, begin.content[2] % 2 == 1, [], Failed(UNSUPPORTED_VERSION)))
           else Refuses
  {
    hide Read, EncodeRecord;
    BeginRead(begin, tail, Ctx(0, id0, false, false));
    PaddingIsRead(begin.padding, tail, Ctx(PARAMS as int, begin.id, true, false));
    ParseNothing();
  }

  /** A request arrives: its parameters come to their end, and then each of its inputs to its own. */
  ghost predicate Arrives(q: Sent, tail: seq<Byte>, id0: Id)
    requires q.Formed()
  {
    match Opening(q.Encode() + tail, id0)
    case Opens(o) =>
      && o == q.AsOpened(o.rest) && o.rest.EndOfStream?
      && var input := StreamReading(o.rest.rest, o.id, STDIN);
         && input.content == q.Content(q.input, STDIN) && input.outcome.EndOfStream?
         && (o.role == FILTER ==>
               var data := StreamReading(input.outcome.rest, o.id, DATA);
               data.content == q.Content(q.data, DATA) && data.outcome.EndOfStream?)
    case _ => false
  }

  /**
   With padding that does not start with the version number, a request arrives exactly when neither the record that
   begins it, nor the one that ends its parameters, nor, for a filter, the one that ends its first input is padded.
   */
  lemma ArrivesExactly(q: Sent, tail: seq<Byte>, id0: Id)
    requires q.Formed() && Plain(q.begin.padding) && Plain(q.params.padding) && Plain(q.input.padding)
    ensures Arrives(q, tail, id0) <==> q.Unpadded()
  {
    hide Read, Parse, Opening, StreamReading, EncodeRecord, Sent.EncodeStream, Sent.Content, Sent.Carries;
    var input, data := q.EncodeInput() + tail, q.EncodeData() + tail;
    Lengths(q, tail);
    RequestRead(q, tail, id0);
    if q.begin.padding != [] {
      var params := q.EncodeStream(q.params, PARAMS) + q.EncodeInput();
      Associate(EncodeRecord(q.begin), params, tail);
      PaddedBegin(q.begin, params + tail, id0);
    } else if q.params.padding != [] {
      PaddedStream(q.params.padding, input, q.begin.id, STDIN);
    } else {
      Units(input);
      if q.Role() == FILTER && q.input.padding != [] {
        PaddedStream(q.input.padding, data, q.begin.id, DATA);
      }
      Units(data);
    }
  }

  lemma PaddedStream(padding: seq<Byte>, tail: seq<Byte>, id: Id, typ: Byte)
    requires padding != [] && Plain(padding) && |padding| + |tail| >= HEADER_LEN
    ensures StreamReading(padding + tail, id, typ) == Done(Failed(UNSUPPORTED_VERSION))
  {
    PaddingIsRead(padding, tail, Ctx(typ as int, id, true, false));
  }

  lemma Lengths(q: Sent, tail: seq<Byte>)
    requires q.Formed()
    ensures |q.EncodeInput()| >= HEADER_LEN && |q.EncodeStream(q.params, PARAMS)| >= HEADER_LEN
    ensures q.Role() == FILTER ==> |q.EncodeData()| >= HEADER_LEN
  {
  }

  // ---- One request after another on a connection ----

  predicate AllFormed(qs: seq<Sent>) {
    forall i :: 0 <= i < |qs| ==> qs[i].Formed() && qs[i].Unpadded()
  }

  function EncodeRequests(qs: seq<Sent>): seq<Byte>
    requires AllFormed(qs)
  {
    if qs == [] then [] else qs[0].Encode() + EncodeRequests(qs[1..])
  }

  /** Where the bytes of a connection stand when a request has been opened and all its inputs read to their ends. */
  function Behind(bytes: seq<Byte>, id0: Id): Option<seq<Byte>> {
    match Opening(bytes, id0)
    case Opens(o) =>
      if !o.rest.EndOfStream? then None else
      var input := StreamReading(o.rest.rest, o.id, STDIN);
      if !input.outcome.EndOfStream? then None
      else if o.role != FILTER then Some(input.outcome.rest)
      else
        var data := StreamReading(input.outcome.rest, o.id, DATA);
        if data.outcome.EndOfStream? then Some(data.outcome.rest) else None
    case _ => None
  }

  /**
   Where they stand after as many requests as there are losses, when losses[i] bytes that were already buffered behind
   request i have been lost with the reader that held them.
   */
  function After(bytes: seq<Byte>, losses: seq<nat>, id0: Id): Option<seq<Byte>>
    decreases |losses|
  {
    if losses == [] then Some(bytes) else
    match Behind(bytes, id0)
    case Some(rest) =>
      if losses[0] <= |rest| then After(rest[losses[0]..], losses[1..], Opening(bytes, id0).request.id) else None
    case None => None
  }

  lemma BehindRequest(q: Sent, tail: seq<Byte>, id0: Id)
    requires q.Formed() && q.Unpadded()
    ensures |q.begin.content| == 8 && Behind(q.Encode() + tail, id0) == Some(q.LastPadding() + tail)
    ensures Opening(q.Encode() + tail, id0) == Opens(q.AsOpened(EndOfStream(q.EncodeInput() + tail)))
  {
    hide Opening, StreamReading, Parse, EncodeRecord, Sent.EncodeStream, Sent.Content, Sent.Carries;
    RequestRead(q, tail, id0);
    Units(q.EncodeInput() + tail);
    Units(q.EncodeData() + tail);
    Units(tail);
  }

  /** What comes next is intact exactly when just the padding of the last record was lost. */
  lemma IntactExactly(q: Sent, tail: seq<Byte>, lost: nat, id0: Id)
    requires q.Formed() && q.Unpadded() && lost <= |q.LastPadding() + tail|
    ensures var next := After(q.Encode() + tail, [lost], id0);
      next.Some? && (next.value == tail <==> lost == |q.LastPadding()|)
  {
    BehindRequest(q, tail, id0);
    var rest := q.LastPadding() + tail;
    var none: seq<nat> := [lost][1..];
    assert none == [];
    assert rest[|q.LastPadding()|..] == tail;
    assert |rest[lost..]| == |rest| - lost;
  }

  /** Two requests that come in together: when the first is finished, nothing is left of the second. */
  lemma TwoTogether(q: Sent, next: Sent, id0: Id)
    requires q.Formed() && q.Unpadded() && q.LastPadding() == [] && next.Formed()
    ensures After(q.Encode() + next.Encode(), [|next.Encode()|], id0) == Some([])
    ensures Opening([], q.begin.id) == Refuses
  {
    BehindRequest(q, next.Encode(), id0);
    Units(next.Encode());
    var none: seq<nat> := [|next.Encode()|][1..];
    assert none == [] && next.Encode()[|next.Encode()|..] == [];
  }

  /** The id that is left over after n of these requests. */
  function LeftOver(qs: seq<Sent>, n: nat, id0: Id): Id
    requires n <= |qs|
  {
    if n == 0 then id0 else qs[n - 1].begin.id
  }

  /** Nothing but the padding behind each request has been lost. */
  predicate OnlyPadding(qs: seq<Sent>, losses: seq<nat>)
    requires AllFormed(qs)
  {
    |losses| <= |qs| && forall i :: 0 <= i < |losses| ==> losses[i] == |qs[i].LastPadding()|
  }

  /**
   On a kept connection, as long as nothing but padding is lost between two requests, each starts where the one before
   ended, so each gets its own parameters and inputs.
   */
  lemma {:induction false} KeptApart(qs: seq<Sent>, tail: seq<Byte>, losses: seq<nat>, id0: Id)
    requires AllFormed(qs) && OnlyPadding(qs, losses)
    ensures var n := |losses|;
      && After(EncodeRequests(qs) + tail, losses, id0) == Some(EncodeRequests(qs[n..]) + tail)
      && (n < |qs| ==>
            Opening(EncodeRequests(qs[n..]) + tail, LeftOver(qs, n, id0))
              == Opens(qs[n].AsOpened(EndOfStream(qs[n].EncodeInput() + (EncodeRequests(qs[n + 1..]) + tail)))))
    decreases |losses|
  {
    hide Opening, Behind, Sent.Formed, Sent.Unpadded, Sent.Encode, Sent.EncodeInput, Sent.LastPadding, Sent.AsOpened;
    var n := |losses|;
    if n < |qs| {
      var q, more := qs[n], EncodeRequests(qs[n + 1..]);
      assert qs[n..][0] == q && qs[n..][1..] == qs[n + 1..];
      Associate(q.Encode(), more, tail);
      BehindRequest(q, more + tail, LeftOver(qs, n, id0));
    }
    if n > 0 {
      var q, more := qs[0], EncodeRequests(qs[1..]);
      Associate(q.Encode(), more, tail);
      BehindRequest(q, more + tail, id0);
      assert (q.LastPadding() + (more + tail))[losses[0]..] == more + tail;
      KeptApart(qs[1..], tail, losses[1..], q.begin.id);
      assert qs[1..][n - 1..] == qs[n..];
      OpenedId(q, EndOfStream(q.EncodeInput() + (more + tail)));
    } else {
      assert qs[0..] == qs;
    }
  }

  lemma OpenedId(q: Sent, rest: Outcome)
    requires |q.begin.content| == 8
    ensures q.AsOpened(rest).id == q.begin.id
  {
  }
}
