# FastCGI record layer: a verified model

This project models the record layer of the FastCGI application library in `libfcgi/fcgiapp.c`, with the
asynchronous I/O table of `libfcgi/os_unix.c` and the C++ stream buffer of `libfcgi/fcgio.cpp`, and proves what
that layer is for: the bytes an application puts on a stream arrive, whole and in order, at whoever reads the
stream, whatever way the operating system cuts reads and writes, and each request is opened, served and closed as
the FastCGI 1.0 specification says.

`dafny verify dfyconfig.toml` checks everything.

## How it is built

* **The environment** (`Environment.dfy`). A connection holds the bytes still to be read and the bytes written. A
  read returns any 1 to n bytes of what is left, or -1; a write takes any nonempty part, or returns -1. At the end
  of the input a read always returns -1. Either failure leaves an arbitrary `errno` behind, possibly 0. Ghost flags
  say that no call has failed (`ok`), that no write has (`sound`), and that one has failed other than by reaching the
  end of the input (`hard`). `records` is the list of whole records that the written bytes spell; while `sound` holds
  the wire is exactly their encoding. What is claimed of output needs `sound` only: the writers do not notice that a
  read has failed.
* **Meaning** (`Protocol.dfy`, `NameValue.dfy`, `GetValues.dfy`, `Deframer.dfy`, `Openings.dfy`). `Deframer.Read`
  says, for a whole byte sequence and a position inside a record, which bytes a reader of one stream is given,
  which replies it sends, and how the stream ends. It knows nothing of buffers or reads.
* **Code** (`Readers.dfy`, `Writers.dfy`, `Parameters.dfy`, `Requests.dfy`, `Formats.dfy`, `AsyncTable.dfy`,
  `StreamBuffers.dfy`).
  Classes with the source's fields, buffers as arrays with indices for the source's pointers, and the source's
  loops. `FillBuffProc` is entered again by the handling of a header inside it, as in the source; its stages are
  methods of their own. The three uses of `EmptyBuffProc` are told apart by its flags: `EmptyBuffProc` (open
  stream), `EmptyRaw` (`rawWrite`) and `EmptyAndClose` (`doClose`).
* **Refinement** (`Progress.dfy`). A `View` is a reader's position. `Went(m, got, v)` says that between views `m`
  and `v` exactly the bytes `got` of the reading at `m` were delivered, and what remains or how it ended. Every
  method that reads keeps it, for every way the input is split.
* **Bytes** (`Wire.dfy`, `FormatBytes.dfy`). What the functions that give the meaning say of actual bytes, in numbers
  only: which byte of a number is the high one, every type, role, code and name, and every character of a format. Each
  of those functions is pinned here by statements that do not use it or the constants it uses.
* **Theorems** (`RecordStreams.dfy`, `RoundTrip.dfy`, `Sessions.dfy`, `Lines.dfy`, and parts of the others).
  `Runs.dfy` and `KeepAlive.dfy` state the main ones for the objects themselves: any calls on a request that has been
  accepted, and one request after another on a kept connection.

Where the C code has no defined behaviour nothing is claimed, and it is said exactly where that is. A reading is
`Undefined` when the 64-byte response buffer is overrun, a name without `=` is looked through a null pointer, or the
lengths of a pair have a sum that a C int cannot hold; a connection that opens with such bytes is `Unclear`. Printing is
not `defined` when a conversion overruns its buffer, or a star's width is the least int. A pushback in front of the
buffer has no result, and closing a descriptor that the asynchronous table has no slots for is not `inBounds`.
`GetValues.QueryAnswer`,
`NameValue.ParseInverts`, `NameValue.ParseIsComplete`, `Formats.InBoundsExactly` and `Formats.RoomExactly` give the
conditions.

## What turned out otherwise than the comments in the code suggest

The code is modelled as it is. These are proved as exact conditions, not assumed away.

* Bytes of the next request that are already buffered when a request is finished are lost with its reader. The next
  request on a kept connection is offered whole exactly when nothing but padding was buffered behind the last
  (`KeepAlive.AcceptNext`, `Openings.IntactExactly`); two requests that come in together lose the second
  (`Openings.TwoTogether`).
* An empty record for another request leaves the `skip` flag set, so that the next record with content is dropped
  (`RecordStreams.LosslessExactly`).
* The content of a management record of unknown type is delivered to the application
  (`RecordStreams.UnheardIntrudes`).
* A GET_VALUES record is answered exactly when at least one byte comes after its content, be it padding
  (`RecordStreams.QueryAnsweredExactly`); a query without padding at the end of the bytes is not
  (`RecordStreams.QueryAlone`).
* Padding after the record that begins a request, after the one that ends its parameters, or, for a filter, after the one
  that ends its first input is read as the next header: the parameters or an input are then missing
  (`Openings.PaddedBegin`, `Openings.ArrivesExactly`).
* The parameters are accepted whenever their bytes end between two pairs, even if the stream ended in a protocol
  error (`Openings.Opening`, and with it `Requests.Request.Accept`).
* Two lengths of 0x7fffffff in the parameters, eight bytes in all, overflow the size that is allocated
  (`NameValue.EightBytes`).
* A parameter whose name holds `=` is found under another name (`Parameters.EqualsInNameAliases`).
* An error stream on which nothing was put sends no end record (`RoundTrip.SilentError`).
* The exit status of a request is still set when the next one begins (`KeepAlive.AcceptAndFinish`).
* A character of value zero is written by `%c` but not put, and neither is what comes behind it in its field
  (`Formats.ZeroIsCut`, `Formats.CutExactly`).
* With a mark left over from an earlier fill, repeated pushbacks leave the buffer (`Readers.PushbacksInBounds`).
* When a buffered stream buffer has taken the end of file, it goes on returning bytes
  (`StreamBuffers.InputBuffer.Uflow`).
* Widths of three digits and more may overrun the buffer that a conversion is printed to (`Formats.WideOverruns`), and a
  star's width of the least int passes for one in range (`Formats.LeastWidth`).

## Model

| member | source | states |
|---|---|---|
| Protocol.HeaderRoundTrip | libfcgi/fcgiapp.c:1201-1219 | reading the eight header bytes gives back the version, type, id and both lengths they were made from (which byte is which: `Wire.RecordMeans`, `Wire.Respond`) |
| Protocol.EndRequestBodyInjective | libfcgi/fcgiapp.c:1230-1242 | the END_REQUEST body tells every 32-bit exit status and every protocol status apart (which byte is which: `Wire.StatusMeans`) |
| NameValue.ParseInverts | libfcgi/fcgiapp.c:1138-1190 | reading pairs inverts their encoding, with lengths of one or four bytes in any mix; bytes that stop inside a pair give exactly the pairs before it and are reported as cut short; and this is so exactly as long as no pair whose lengths have both come has a name and value that overflow the size allocated for them |
| NameValue.ParseIsComplete | libfcgi/fcgiapp.c:1138-1190 | conversely, every byte string is the encoding of the storable pairs read from it and a rest that starts no whole pair, empty exactly when nothing is reported, and defined exactly when that rest does not start with lengths that overflow |
| NameValue.EightBytes | libfcgi/fcgiapp.c:1173 | eight bytes of 255 are lengths whose sum overflows |
| NameValue.UndefinedThenMore | libfcgi/fcgiapp.c:1138-1190 | once that has happened no later byte makes up for it |
| NameValue.ParseThenMore | libfcgi/fcgiapp.c:1138-1190 | pairs may be read one after another, however the bytes come in |
| Parameters.Params.PutParam | libfcgi/fcgiapp.c:1076-1088 | the entry is appended, the vector stays terminated below its capacity, and the capacity doubles exactly when it is reached |
| Parameters.GetParam | libfcgi/fcgiapp.c:1103-1118 | scanning to the terminator returns the value of the first entry of that name |
| Parameters.LookupIsFirstMatch | libfcgi/fcgiapp.c:1103-1118 | for a name without '=' this is first-match lookup on the pairs, each cut at its first '=' |
| Parameters.LookupOfPlainNames | libfcgi/fcgiapp.c:1103-1118 | so it is lookup on the pairs as sent when no name holds '=' |
| Parameters.EqualsInNameAliases | libfcgi/fcgiapp.c:1103-1118 | a pair is found under its own name, and no other, exactly when that name has no '=' |
| Parameters.NamesIsCutName | libfcgi/fcgiapp.c:1103-1118 | looking a plain name up agrees with cutting the entry at its first '=', as the answer to a query does |
| Environment.Connection.Read | libfcgi/os_unix.c:457-468 | between 1 and n bytes of the input, in order, or -1; never 0 |
| Environment.Connection.WriteItAll | libfcgi/fcgiapp.c:1362-1374 | all bytes are written, through any number of short writes, or a failure is reported and a prefix is on the wire |
| Readers.Reader.FillBuffProc | libfcgi/fcgiapp.c:1624-1742 | for any split into reads, a fill takes nothing and loses nothing: it ends with bytes for the client and the same reading ahead, or closed exactly as the reading says (end, error code, bytes left), or with the request begun; replies sent match those due; it ends on every finite input |
| Readers.Reader.ProcessHeader | libfcgi/fcgiapp.c:1588-1613 | each result leaves ahead just the rest of the reading that its header starts, with the type, id and length checks in the source's order |
| Readers.Reader.ProcessBeginRecord | libfcgi/fcgiapp.c:1527-1564 | a first request is recorded with its id, role and keep flag from the eight body bytes; a second is answered CANT_MPX_CONN and skipped; anything else is a protocol error |
| Readers.Reader.ProcessManagementRecord | libfcgi/fcgiapp.c:1454-1507 | a query is answered from its own pairs, whatever padding bytes follow; any other type is answered UNKNOWN_TYPE; a bad query or a failed call is an error |
| Readers.Reader.GetChar | libfcgi/fcgiapp.c:108-126 | the next byte of the reading, or -1 exactly when the stream has closed; one byte of pushback is then possible |
| Readers.Reader.GetStr | libfcgi/fcgiapp.c:143-181 | the next n bytes of the reading, across any number of fills, and fewer exactly when the stream has closed |
| Readers.Reader.GetLine | libfcgi/fcgiapp.c:200-221 | a nonempty piece with no newline before its last byte, shorter than asked only at a newline or the end, or none at the end |
| Readers.Reader.LineRead | libfcgi/fcgiapp.c:200-221 | the piece is the first line of the content still ahead, unless it falls short of one because a call has failed |
| Readers.ReadLines | libfcgi/fcgiapp.c:200-221 | calls for at least one byte each, until there is none any more, end with the stream closed; the pieces make up what was delivered, and as long as no call fails they are exactly the lines of the content |
| Lines.OnlyLines | libfcgi/fcgiapp.c:181-221 | pieces of at least one and at most k bytes, with no newline before their last byte and all but the last full or ended by a newline, make up the content exactly when they are its lines |
| Lines.OnlyFirstLine | libfcgi/fcgiapp.c:200-221 | a prefix that is unbroken and stops for one of the three permitted reasons is the first line, no other |
| Lines.PiecesMakeContent | libfcgi/fcgiapp.c:200-221 | the pieces of successive calls, of any sizes, join to a prefix of the content, and to all of it after as many calls as it has bytes |
| Readers.Reader.UnGetChar | libfcgi/fcgiapp.c:237-246 | the byte is put in front of the bytes ahead and nothing else changes, or -1 and nothing changes; or it would be put in front of the buffer, exactly when the cursor is there and the mark is not |
| Readers.PushbacksInBounds | libfcgi/fcgiapp.c:237-246 | any number of pushbacks stays in the buffer exactly when the mark is not beyond the cursor, as it is from the first byte taken until the type of the stream is changed; otherwise the one after as many as there are bytes before the cursor is out of it |
| Progress.PushBack | libfcgi/fcgiapp.c:237-246 | after a pushback the reading ahead is that byte and then the old reading |
| Readers.Reader.ReadParams | libfcgi/fcgiapp.c:1138-1190 | the entries appended are the pairs of exactly the bytes the stream delivered, 0 is returned if these are whole pairs and -1 with an error on record if not; reading stops at lengths that overflow |
| Readers.Reader.SetReaderType | libfcgi/fcgiapp.c:1845-1857 | reading starts afresh at the cursor for the other type, and no unread byte is lost |
| Readers.Reader.StartFilterData | libfcgi/fcgiapp.c:2275-2287 | allowed exactly for a filter whose standard input has closed; otherwise the first error stays on record or becomes the call-sequence error |
| Progress.WentTrans | libfcgi/fcgiapp.c:1624-1742 | what successive reading calls deliver adds up, also inside a record and also after a failed call |
| Progress.FillActs | libfcgi/fcgiapp.c:1699-1741 | however a header is dealt with, resuming after it continues, ends or fails the reading that was ahead |
| Progress.QueryAnswered | libfcgi/fcgiapp.c:1459-1501 | after an answered query the reading goes on behind the record, even when the query's end was met by a failed call that left no error code |
| RecordStreams.RecordsRead | libfcgi/fcgiapp.c:1588-1742 | any sequence of harmless records in front of further bytes, a query at the very end having padding: what is delivered, what is answered, and the skip flag left behind |
| RecordStreams.QueryAnsweredExactly | libfcgi/fcgiapp.c:1631-1680 | a query is answered, with the one reply that is due, exactly when a byte comes after its content, or its content is passed over; otherwise nothing is delivered or sent |
| RecordStreams.QueryAlone | libfcgi/fcgiapp.c:1631-1680 | a query for one known name, without padding and with nothing after it, gets no answer |
| RecordStreams.StreamRead | libfcgi/fcgiapp.c:1588-1742 | a whole stream of records gives its delivery and replies and ends right behind the header of the empty record |
| RecordStreams.Transparent | libfcgi/fcgiapp.c:1527-1613 | records of other requests with content, rejected requests, queries and empty unknown management records change no delivered byte; one reply per record that calls for it, in order |
| RecordStreams.LosslessExactly | libfcgi/fcgiapp.c:1656-1661 | with empty foreign records allowed, the stream's own content arrives exactly when none of its records follows an empty foreign record with only empty ones between |
| RecordStreams.UnheardIntrudes | libfcgi/fcgiapp.c:1493-1506 | the delivery is the stream's own content exactly when every management record of unknown type is empty |
| RecordStreams.BeginRead | libfcgi/fcgiapp.c:1527-1564 | the record that begins a request gives its id, role and keep flag, and the bytes after its body, padding included, come next |
| GetValues.BuildAnswer | libfcgi/fcgiapp.c:1454-1492 | the items of the known names are printed in order into the fixed buffer, or the overrun or missing '=' is found |
| GetValues.QueryAnswer | libfcgi/fcgiapp.c:1454-1507 | a query of pairs with plain names is answerable exactly when no pair is too long to be stored and the printed items and the zero after them fit, as they do when no name is asked twice; the answer reads back as the known names in query order each with its value (`Wire.AnswerMeans`), and is at most 64 bytes |
| GetValues.AskedTooOften | libfcgi/fcgiapp.c:1458 | asked four times for the longest name the source overruns its buffer |
| Writers.Writer.PutStr | libfcgi/fcgiapp.c:310-341 | the bytes written in records and the bytes pending are those accepted before and then the new ones; the records are padded to 8 and filled as far as the buffer goes, and bytes stay pending behind the last, so what still fits is not written; on a closed stream nothing changes and -1 is returned |
| Writers.Writer.PutChar | libfcgi/fcgiapp.c:282-293 | the same for one byte, which is returned |
| Writers.Writer.FFlush | libfcgi/fcgiapp.c:887-893 | what is pending is written as one record, or nothing if nothing is |
| Writers.Writer.FClose | libfcgi/fcgiapp.c:912-929 | the first call writes the pending bytes, the end record and, as the last writer, END_REQUEST with the current status; a second call writes nothing; 0 is returned exactly when no error is on record |
| Writers.Writer.EmptyBuffProc | libfcgi/fcgiapp.c:1386-1430 | the pending bytes become one record of the stream, and the header slot is reserved again |
| Writers.Writer.EmptyAndClose | libfcgi/fcgiapp.c:1386-1430 | pending bytes, end record and END_REQUEST go out whole and in this order even when the buffer has to be emptied between or inside them |
| Writers.Writer.WriteCloseRecords | libfcgi/fcgiapp.c:1326-1358 | the end record unless an error stream is unused, END_REQUEST if this is the last writer, and one writer fewer |
| Writers.CloseBoth | libfcgi/fcgiapp.c:2012-2016 | after closing both streams the last record is the request's END_REQUEST, unless both were closed, when nothing is written; 0 is returned exactly when neither stream has an error on record |
| Sessions.CallAdds | libfcgi/fcgiapp.c:1326-1430 | what one call adds to the wire: aligned records of its own stream in order, and a completion record only when the last writer closes |
| Sessions.CloseProtocol | libfcgi/fcgiapp.c:912-929 | over every run of calls on both streams, status changes and replies: the bytes put on each stream while it was open are on the wire in order, and the rest of them pending, none once it is closed; its end record is there once it is closed (on an error stream only if anything was put), no completion record before both are closed, then exactly one, carrying the status of that moment, with nothing but replies after it |
| Sessions.StepKeeps | libfcgi/fcgiapp.c:912-929 | every step keeps that order |
| Runs.CallWriter | libfcgi/fcgiapp.c:282-341 | any one call on a writer puts just its bytes on that stream, if it is open, as the run theorem supposes, and leaves the other stream alone |
| Runs.Perform | libfcgi/fcgiapp.c:887-929 | any call on a request that is being served, be it to put, flush, close, set the exit status or read the input, is one step of a run as long as no write fails, a read that fails notwithstanding; the bytes of the call are put, and just as many as asked for are received, or all there are |
| Runs.PerformAll | libfcgi/fcgiapp.c:887-929 | so from the moment a request is accepted, whatever such calls are made in whatever order: the bytes given to each stream before it was closed, in order, are on the wire or pending, in records that follow the close protocol, and the input received is what the connection has for it, up to the number of bytes asked for |
| RoundTrip.ReadBack | libfcgi/fcgiapp.c:1386-1430 | the records of a closed writer, read as one byte sequence, give back exactly the bytes put, then the end |
| RoundTrip.EndToEnd | libfcgi/fcgiapp.c:1386-1742 | a reader fed that wire in any chunking has at any moment been given a prefix of the bytes put, and all of them when it closes without a failed call |
| RoundTrip.SilentError | libfcgi/fcgiapp.c:1337-1343 | a closed writer has left no record at all exactly when it is an error stream on which nothing was put |
| RoundTrip.Finish | libfcgi/fcgiapp.c:912-929 | closing a writer object without a failed call leaves just such a closed stream, with all the bytes it was given |
| RoundTrip.Reception | libfcgi/fcgiapp.c:1624-1742 | a reader fed any sequence of harmless records and the end record, in any chunking, delivers a prefix of what they deliver, and on a clean close all of it, with every reply sent and the cursor behind the end record |
| RoundTrip.ReceptionOfOwn | libfcgi/fcgiapp.c:1527-1742 | under the conditions of transparency that is the stream's own content, with one reply per record that calls for it |
| Openings.RequestRead | libfcgi/fcgiapp.c:2178-2255 | a request as a server sends it, its end records padded or not, is opened with its id, role, keep flag and parameters if the beginning record is not padded; each of its inputs, two for a filter, is read to its own end |
| Openings.ParametersArrive | libfcgi/fcgiapp.c:1138-1190 | the parameters found are the pairs sent, cut into records in any way, exactly as long as each of them can be stored |
| Openings.Environment | libfcgi/fcgiapp.c:2208-2226 | each parameter is found as sent, but FCGI_ROLE always as the role of the request |
| Openings.KeptApart | libfcgi/fcgiapp.c:2002-2255 | on one connection, as long as nothing but padding is lost between two requests, each starts where the one before ended, so it gets its own id, role, parameters and inputs |
| Openings.IntactExactly | libfcgi/fcgiapp.c:2023-2037 | what comes behind a request is intact for the next exactly when just the padding of its last record was lost |
| Openings.TwoTogether | libfcgi/fcgiapp.c:1705-1720 | of two requests that come in together, nothing is left of the second when the first is finished |
| KeepAlive.InputEnds | libfcgi/fcgiapp.c:1624-1742 | a request whose input has been read to its end, in any chunking and without a failed call: just its input was delivered and the reader stands behind it |
| KeepAlive.DataEnds | libfcgi/fcgiapp.c:2275-2287 | the same for the second input of a filter |
| KeepAlive.AcceptNext | libfcgi/fcgiapp.c:2002-2255 | with the next request sent on a connection that is kept, Accept is offered it without the bytes that the last reader holds, whole exactly when it holds just the padding that comes before it, and then accepts just that request; when all of it is held, the connection is given up |
| KeepAlive.ServeAll | libfcgi/fcgiapp.c:2002-2255 | any number of requests sent one after another on a connection, accepted, read to the end and finished in turn: each gets its own id, role, parameters and inputs, up to the first whose reader, read to its end and then let go, held more or less than the padding behind its request, as long as no call fails |
| KeepAlive.AcceptAndFinish | libfcgi/fcgiapp.c:2178-2255 | a request that never sets its exit status ends with that of the one before |
| Openings.PaddedBegin | libfcgi/fcgiapp.c:1845-1857 | padding after the beginning record that does not start with the version number costs the request all its parameters |
| Openings.ArrivesExactly | libfcgi/fcgiapp.c:1845-1857 | with such padding allowed everywhere, parameters and inputs arrive exactly when neither the beginning record, nor the end of the parameters, nor for a filter the end of its first input is padded |
| Requests.Request.Accept | libfcgi/fcgiapp.c:2178-2255 | the first connection that opens a request, the kept one before those that arrive; trying goes on until one does, or none can be accepted any more; none is passed over whose bytes, with the id left by the try before, open a request, unless a call on it has failed; the connections tried before are closed, in order, and so is the last one unless it is kept; it is kept as asked if no error is on record; on success a reader, two writers and the parameters are set up for exactly that request, on failure nothing is left; the exit status stays as it was |
| Requests.Request.TryConnection | libfcgi/fcgiapp.c:2193-2238 | unless a call fails or the C code has no defined behaviour, a connection yields a request exactly when its bytes open one, and then that one |
| Requests.Request.Finish | libfcgi/fcgiapp.c:2002-2021 | both streams are closed, everything is let go, and the connection is kept exactly when that was asked for and neither the input nor a stream has an error on record; with no request left a second call writes nothing |
| Requests.Request.Free | libfcgi/fcgiapp.c:2023-2037 | everything is let go, and an open connection is closed once |
| Wire.RecordMeans | libfcgi/fcgiapp.c:1527-1613 | a whole record with any eight bytes for its header: its id is 256 times the third byte and the fourth, its content 256 times the fifth and the sixth, its padding the seventh; version 1, types 1, 9 and the stream's, and the errors -2 and -3 by number; a beginning record gives its role, high byte first, and the low bit of the third byte of its body |
| Wire.QueryMeans | libfcgi/fcgiapp.c:1454-1507 | the same for a record of type 9 and id 0: answered, out of defined behaviour, waiting for more, or failed with -3 or -4 |
| Wire.ThreeBytesRead | libfcgi/fcgiapp.c:1588-1742 | `01 05 00 01 00 03 05 00`, three bytes, five of padding and `01 05 00 01 00 00 00 00` deliver those three bytes to request 1 and end |
| Wire.ThreeBytesDropped | libfcgi/fcgiapp.c:1720-1742 | behind `01 05 00 02 00 00 00 00` they are dropped |
| Wire.ReadThree | libfcgi/fcgiapp.c:1624-1742 | a request just accepted that reads its input to the end gets just these bytes, in any chunking without a failed call |
| Wire.OpeningMeans | libfcgi/fcgiapp.c:2193-2238 | the bytes of a beginning record open a request of roles 1 to 3 with the reading of its records of type 4, if no pair is cut short, and no other |
| Wire.RejectionBytes | libfcgi/fcgiapp.c:1536-1551 | a second request is answered with the sixteen bytes of an END_REQUEST under its own id, protocol status 1 |
| Wire.UnknownBytes | libfcgi/fcgiapp.c:1494-1500 | a management record of unknown type is answered with its type as the first byte of the body |
| Wire.AnswerBytes | libfcgi/fcgiapp.c:1487-1492 | an answer is a record of type 10 and id 0, of content and padding that make up a multiple of eight, with at most 55 bytes of content |
| Wire.AnswerMeans | libfcgi/fcgiapp.c:1469-1486 | for every query that is answered, FCGI_MAX_CONNS, FCGI_MAX_REQS and FCGI_MPXS_CONNS are found in the answer exactly when they are asked for, with the values 1, 1 and 0 |
| Wire.AllThree | libfcgi/fcgiapp.c:1469-1486 | the content of the answer to all three, byte by byte |
| Wire.PairMeans | libfcgi/fcgiapp.c:1147-1186 | lengths of one byte below 128, or of four, the first from 128 on and the high byte first, then name and value: the entry is the name, an equals sign and the value, unless they are more than 2147483645 bytes |
| Wire.LongValue | libfcgi/fcgiapp.c:1162-1168 | a value of 300 bytes has the length `80 00 01 2C` |
| Wire.RoleBytes | libfcgi/fcgiapp.c:2208-2226 | under FCGI_ROLE stand RESPONDER, AUTHORIZER and FILTER for roles 1, 2 and 3, whatever else is sent |
| Wire.CutMeans | libfcgi/fcgiapp.c:1471 | the name of an entry stops at its first equals sign, which a zero before it hides |
| Wire.NewlineEnds | libfcgi/fcgiapp.c:200-221 | a line ends with the byte 10 |
| Wire.StatusMeans | libfcgi/fcgiapp.c:1230-1242 | for every exit status the first four bytes of the body are its two's complement, high byte first, and the others zero; 1 and -1 are spelt out |
| Wire.CloseLast | libfcgi/fcgiapp.c:1346-1357 | after the last stream has been closed without a failed write the wire ends with `01 03`, the id, `00 08 00 00` and the body that says the exit status |
| Wire.ExitWith | libfcgi/fcgiapp.c:2303-2306 | so it does when the status has been set and the request is finished |
| Wire.Respond | libfcgi/fcgiapp.c:310-341 | all that goes out for a request that puts some bytes on its output and closes both streams: one record of type 6 padded with zeros to eight, its empty end record, and the END_REQUEST |
| Formats.SpecScanned | libfcgi/fcgiapp.c:493-577 | scanning a conversion specification inverts writing it, for every mix of flags, widths, precisions, stars and modifiers, whatever follows |
| Formats.FormatUnderstood | libfcgi/fcgiapp.c:438-845 | a format is understood as the literal bytes and conversions it was written from |
| Formats.ArgumentsTaken | libfcgi/fcgiapp.c:493-830 | a right format takes one argument for each star and one for each conversion but a percent sign, each in its turn, and its output depends on no other |
| Formats.FastConvert | libfcgi/fcgiapp.c:457-483 | a conversion that stands alone is performed, or fails, just as the full scan would have it, and it is left to the second try only when it does not stand alone, is unknown, or is f |
| Formats.SlowConvert | libfcgi/fcgiapp.c:490-577 | after an undecided first try the full scan performs the conversion with its stars filled in, in fewer than 25 characters, and in a buffer as large as the source makes it, and takes what was written up to its first zero; or fails when the specification, its modifier or a star's value is wrong; or is out of bounds when what is written outgrows the buffer, or the width is the least int |
| Formats.CutExactly | libfcgi/fcgiapp.c:668-834 | what is put of a conversion is all that sprintf wrote exactly when there is no zero in it, and otherwise what comes before the first |
| Formats.ZeroIsCut | libfcgi/fcgiapp.c:716-732 | a character of value zero is not put, nor counted, but the blanks in front of it are |
| Formats.InBoundsExactly | libfcgi/fcgiapp.c:582-655 | as sprintf prints no more than the source allows for and then pads to the width, a conversion stays in its buffer exactly when its width, on either side, is below the size of that |
| Formats.RoomExactly | libfcgi/fcgiapp.c:636-655 | with no buffer left from before, exactly when the width is below 100, or below what the source allows for anyway |
| Formats.NarrowFormat | libfcgi/fcgiapp.c:411-852 | so a format whose widths, written or starred, are all within -99 and 99 never leaves its buffers, when sprintf prints no more of each argument than the source allows for |
| Formats.WideOverruns | libfcgi/fcgiapp.c:636 | an integer in 150 columns, written or starred, on either side, overruns its buffer |
| Formats.LeastWidth | libfcgi/fcgiapp.c:509 | a starred width of the least int is not kept out, and the rebuilt specification may then have 26 characters |
| Formats.VFPrintF | libfcgi/fcgiapp.c:411-852 | a count that is not negative is the number of bytes put, which are those the format means; on -1 the bytes before the wrong conversion have been put, or the stream was closed or a call failed; nothing is said when a conversion would leave its buffer |
| FormatBytes.AlonePrints | libfcgi/fcgiapp.c:733-824 | `%s` puts its argument, `%%` a percent sign without taking an argument, and `%n`, `%hn` and `%ln` nothing, but store the count so far |
| FormatBytes.FormPrints | libfcgi/fcgiapp.c:491-834 | d, i, u, o, x and X with no modifier, h or l, f, e, E, g and G with none or L, and c, p and s, with up to five flags of `-0+ #`, and widths and precisions of up to six digits or stars, put what sprintf writes for the specification with the stars' numbers spelt out, a negative precision as 0, up to the first zero; they take an argument for each star and one more; only 100 bytes or more may be too long |
| FormatBytes.FormRefused | libfcgi/fcgiapp.c:505-830 | any other modifier ends the printing as a failure, as do a percent sign or `%n` with anything else and a star beyond 999999 |
| FormatBytes.UnknownRefused | libfcgi/fcgiapp.c:825-833 | so do any other character and the end of the format |
| FormatBytes.LongRefused | libfcgi/fcgiapp.c:499-530 | so do six flags and seven digits |
| FormatBytes.BytesPrint | libfcgi/fcgiapp.c:438-447 | bytes other than the percent sign are put as they are |
| FormatBytes.Greet | libfcgi/fcgiapp.c:411-852 | printing `hello %s` puts these six bytes and the argument and returns how many that is, or -1 when the stream has been closed or a write fails |
| FormatBytes.RoomMeans | libfcgi/fcgiapp.c:577-655 | how large a buffer is made for each conversion |
| FormatBytes.IntSpelt | libfcgi/fcgiapp.c:516 | a star's number is spelt as its decimal digits without a zero in front, after a minus if it is negative |
| AsyncTable.SlotsAreExclusive | libfcgi/os_unix.c:85-86 | two operations share a slot only if descriptor and direction agree, and every slot belongs to one |
| AsyncTable.Table.GrowAsyncTable | libfcgi/os_unix.c:598-611 | the table doubles, keeps every slot, and its new half is empty |
| AsyncTable.Table.AsyncRead | libfcgi/os_unix.c:637-662 | the operation becomes the one outstanding on its descriptor for reading, and no other changes |
| AsyncTable.Table.AsyncWrite | libfcgi/os_unix.c:687-711 | the same for writing |
| AsyncTable.Table.Close | libfcgi/os_unix.c:729-753 | nothing is outstanding on the descriptor any more, and no other operation changes; the largest descriptor in use goes down by one if it was this; out of bounds exactly when the table is in use and has no slots for the descriptor |
| AsyncTable.Table.CloseRead | libfcgi/os_unix.c:801-809 | the read outstanding on the descriptor is gone, and no other operation changes; out of bounds exactly when the table has no slot for it |
| StreamBuffers.OutputBuffer.Overflow | libfcgi/fcgio.cpp:63-82 | what was buffered and then the byte have reached the stream, in this order |
| StreamBuffers.OutputBuffer.Sync | libfcgi/fcgio.cpp:85-90 | every byte written through the buffer, of any size, has been put on the stream and sent |
| StreamBuffers.OutputBuffer.Xsputn | libfcgi/fcgio.cpp:164-170 | the bytes are added to those written, with a buffer or without |
| StreamBuffers.InputBuffer.Uflow | libfcgi/fcgio.cpp:93-98 | up to the first end of file the bytes taken are those the stream delivers, with a buffer of any size or none; with one, the end of file itself is taken, and every later call returns a byte that the stream did not deliver |
| StreamBuffers.InputBuffer.Underflow | libfcgi/fcgio.cpp:101-119 | the next byte stays in the get area; without a buffer it is taken |

## Left out

- Formats.VFPrintF: does not model the text that sprintf produces, which is a function of the rebuilt specification and
  one argument, nor the case of a null pointer for a string; a count stored by `%n` is not cut to a short.
- Formats.NarrowFormat: that sprintf prints no more than the source allows for is a hypothesis, asked of the conversions
  and arguments that the format comes to. `%Lf` of a value beyond the range of double need not meet it: the exponent is
  then taken of the value cast to double, so the allowance may be too small and the conversion `Undefined`.
- Openings.KeptApart: speaks of the bytes of a connection, with any losses between its requests; what the objects lose is
  in KeepAlive.AcceptNext and KeepAlive.ServeAll.
- FCGX_FPrintF: a wrapper around FCGX_VFPrintF.
- FCGX_Accept, FCGX_Init, FCGX_Finish, FCGX_InitRequest and FCGX_IsCGI: wrappers around one static request; the
  library is taken as initialised, so the return code for a missing initialisation does not occur.
- Memory: allocation always succeeds, and freed storage is not tracked beyond the references being dropped.
- FCGX_FClose on an input stream, FCGX_HasSeenEOF, FCGX_GetError and FCGX_ClearError: single assignments or reads.
- The write cursor of an input stream and the read cursor of an output stream: the source keeps them equal to `stop`
  and does not look at them, and the two kinds of stream are two classes here.
- Sockets, the accept loop, shutdown, draining on close, signals, timeouts and locks: system calls. A connection that
  arrives is the sequence of bytes it will offer; a read that times out is a read that fails.
- OS_Select and the completion callbacks of the asynchronous table, and the sets of posted descriptors.
- StreamBuffers.InputBuffer.InAvail: the bytes available are taken to be the difference of the get pointers, also when
  that is negative, as common libraries compute it; the standard lets it be 0 then.
- Buffered block reads of the stream buffer: std::streambuf, not this library; the block write is taken as
  repeated single-byte writes, which is what that class documents.
- StreamBuffers.OutputBuffer and StreamBuffers.InputBuffer: one object of the source used in one direction each.
- perl/FCGI.c and libfcgi/fcgi_stdio.c: wrappers around the functions modelled here.
