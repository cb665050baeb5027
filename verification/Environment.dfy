/**
 The world outside a stream: the connection to the web server, with reads and writes that may be short
 or fail at any time, and the part of a request that its three streams share.
 */
module Environment {
  import opened Protocol

  class Connection {
    var input: seq<Byte>    // bytes the peer has sent or will send, not yet read
    var wire: seq<Byte>     // bytes written so far
    var errno: int          // what the last failing call left behind, possibly 0

    ghost var records: seq<Record>  // the records that the writes were meant to send
    ghost var ok: bool              // no read or write has returned -1
    ghost var sound: bool           // no write has
    ghost var hard: bool            // one has, other than a read at the end of the input

    ghost predicate Valid()
      reads this
    {
      AllFit(records) && (sound ==> wire == EncodeAll(records)) && (ok ==> sound) && (hard ==> !ok)
    }

    /** What writing may do to a connection: unless it fails, it leaves the record of failed calls alone. */
    twostate predicate OnlyWritten()
      reads this
    {
      && input == old(input) && (ok ==> old(ok)) && (old(hard) ==> hard)
      && (sound ==> old(sound) && ok == old(ok) && hard == old(hard))
    }

    constructor (bytes: seq<Byte>)
      ensures Valid() && input == bytes && wire == [] && records == [] && ok && sound && !hard
    {
      input, wire, errno := bytes, [], 0;
      records, ok, sound, hard := [], true, true, false;
    }

    /** Reads between 1 and buf.Length bytes, or returns -1; at the end of the input always -1. */
    method Read(buf: array<Byte>) returns (count: int)
      requires Valid() && buf.Length > 0
      modifies this, buf
      ensures Valid() && wire == old(wire) && records == old(records) && sound == old(sound)
      ensures count == -1 || 1 <= count <= buf.Length
      ensures count > 0 ==>
                && count <= |old(input)| && buf[..count] == old(input)[..count]
                && input == old(input)[count..]
                && ok == old(ok) && hard == old(hard)
      ensures count == -1 ==>
                && input == old(input) && !ok && hard == (old(hard) || input != [])
                && buf[..] == old(buf[..])
    {
      var fails: bool := *;
      if fails || input == [] {
        var code: int := *;
        errno := code;
        ok, hard := false, hard || input != [];
        return -1;
      }
      count :| 1 <= count <= buf.Length && count <= |input|;
      forall i | 0 <= i < count {
        buf[i] := input[i];
      }
      input := input[count..];
    }

    /** Writes a nonempty prefix of nonempty bytes, or returns -1. */
    method Write(bytes: seq<Byte>) returns (count: int)
      requires bytes != []
      modifies this
      ensures count == -1 || 1 <= count <= |bytes|
      ensures wire == old(wire) + bytes[..if count == -1 then 0 else count]
      ensures input == old(input) && records == old(records)
      ensures ok == old(ok) && sound == old(sound) && hard == old(hard)
    {
      var fails: bool := *;
      if fails {
        var code: int := *;
        errno := code;
        return -1;
      }
      count :| 1 <= count <= |bytes|;
      wire := wire + bytes[..count];
    }

    /** Writes all of bytes, or returns -1. */
    method WriteItAll(bytes: seq<Byte>) returns (status: int)
      modifies this
      ensures input == old(input) && records == old(records)
      ensures status == 0 || status == -1
      ensures status == 0 ==> wire == old(wire) + bytes && ok == old(ok) && sound == old(sound) && hard == old(hard)
      ensures status == -1 ==> old(wire) <= wire <= old(wire) + bytes && !ok && !sound && hard
    {
      var sent := 0;
      while sent < |bytes|
        invariant sent <= |bytes| && wire == old(wire) + bytes[..sent]
        invariant input == old(input) && records == old(records)
        invariant ok == old(ok) && sound == old(sound) && hard == old(hard)
      {
        var wrote := Write(bytes[sent..]);
        if wrote < 0 {
          assert bytes[..sent] <= bytes;
          ok, sound, hard := false, false, true;
          return -1;
        }
        assert bytes[..sent] + bytes[sent..][..wrote] == bytes[..sent + wrote];
        sent := sent + wrote;
      }
      assert bytes[..sent] == bytes;
      return 0;
    }

    /** Writes bytes that spell the records rs. */
    method WriteRecords(bytes: seq<Byte>, ghost rs: seq<Record>) returns (status: int)
      requires Valid() && AllFit(rs) && (sound ==> bytes == EncodeAll(rs))
      modifies this
      ensures Valid() && input == old(input) && records == old(records) + rs
      ensures status == 0 || status == -1
      ensures status == 0 ==> wire == old(wire) + bytes && ok == old(ok) && sound == old(sound) && hard == old(hard)
      ensures status == -1 ==> !ok && !sound && hard
    {
      status := WriteItAll(bytes);
      EncodeAllConcat(records, rs);
      records := records + rs;
    }

    /** Notes that what has been written since the records on file spells rs. */
    ghost method Note(rs: seq<Record>)
      requires AllFit(records) && AllFit(rs) && (hard ==> !ok) && (ok ==> sound)
      requires sound ==> wire == EncodeAll(records) + EncodeAll(rs)
      modifies `records
      ensures Valid() && records == old(records) + rs
    {
      EncodeAllConcat(records, rs);
      records := records + rs;
    }
  }

  /** The request fields that its streams share. */
  class Shared {
    var requestId: Id
    var role: int
    var isBeginProcessed: bool
    var keepConnection: bool
    var appStatus: int
    var nWriters: int

    constructor ()
      ensures requestId == 0 && role == 0 && !isBeginProcessed && !keepConnection && appStatus == 0 && nWriters == 0
    {
      requestId, role, isBeginProcessed, keepConnection, appStatus, nWriters := 0, 0, false, false, 0, 0;
    }
  }
}
