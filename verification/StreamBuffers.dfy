/**
 A C++ stream buffer over a FastCGI stream, used in one direction. With a buffer of any size, or none, it
 passes on the same bytes.
 */
module StreamBuffers {
  import opened Protocol
  import opened Deframer
  import opened Progress
  import opened Environment
  import opened Readers
  import opened Writers

  const EOF := -1

  class OutputBuffer {
    const fcgx: Writer
    const buf: array<Byte>   // of length 0 when there is no buffer
    var pptr: nat

    ghost predicate Valid()
      reads this, buf, fcgx, fcgx.buff, fcgx.conn, fcgx.req
    {
      fcgx.Valid() && buf != fcgx.buff && pptr <= buf.Length
    }

    /** All bytes written through the buffer or around it. */
    ghost function Written(): seq<Byte>
      requires Valid()
      reads this, buf, fcgx, fcgx.buff, fcgx.conn, fcgx.req
    {
      fcgx.V().Accepted() + buf[..pptr]
    }

    constructor (fcgx: Writer, buf: array<Byte>)
      requires fcgx.Valid() && buf != fcgx.buff
      ensures Valid() && this.fcgx == fcgx && this.buf == buf && Written() == fcgx.V().Accepted()
    {
      this.fcgx, this.buf, pptr := fcgx, buf, 0;
      new;
      Units(fcgx.V().Accepted());
    }

    ghost predicate Working()
      reads fcgx, fcgx.conn
    {
      fcgx.conn.sound && !fcgx.wasFCloseCalled
    }

    /** Passes on what is buffered, and then c unless it is EOF. */
    method Overflow(c: int) returns (r: int)
      requires Valid() && -1 <= c < 256
      modifies this, fcgx, fcgx.buff, fcgx.conn
      ensures Valid() && (r == 0 || r == EOF)
      ensures Working() ==> old(Working())
      ensures old(fcgx.wasFCloseCalled && ((buf.Length > 0 && pptr > 0) || c != EOF)) ==> r == EOF
      ensures Working() ==> r == 0 && pptr == 0 && Written() == old(Written()) + if c == EOF then [] else [c]
    {
      hide Writer.Valid, Put;
      ghost var before := fcgx.V().Accepted();
      ghost var held := buf[..pptr];
      Units(before + held);
      if buf.Length > 0 && pptr > 0 {
        ghost var v, n := fcgx.V(), |fcgx.conn.records|;
        var rc := fcgx.PutStr(buf[..pptr]);
        if Working() {
          Took(v, held, fcgx.V(), fcgx.conn.records[n..]);
        }
        if rc != pptr {
          return EOF;
        }
        pptr := 0;
      }
      Units(fcgx.V().Accepted());
      if c != EOF {
        ghost var v, n := fcgx.V(), |fcgx.conn.records|;
        var rc := fcgx.PutChar(c);
        if Working() {
          Took(v, [c], fcgx.V(), fcgx.conn.records[n..]);
        }
        if rc != c {
          return EOF;
        }
        Units(fcgx.V().Accepted());
      }
      return 0;
    }

    lemma Took(v: Output, str: seq<Byte>, w: Output, d: seq<Record>)
      requires Put(v, str, w, d)
      ensures w.Accepted() == v.Accepted() + str
    {
    }

    method Sync() returns (r: int)
      requires Valid()
      modifies this, fcgx, fcgx.buff, fcgx.conn
      ensures Valid() && (r == 0 || r == EOF)
      ensures Working() ==> old(Working())
      ensures Working() ==>
        r == 0 && fcgx.V().Accepted() == Payload(fcgx.V().data, fcgx.typ) == old(Written())
    {
      hide Writer.Valid, Flushed;
      ghost var all := Written();
      var rc := Overflow(EOF);
      if rc != 0 {
        return EOF;
      }
      Units(all);
      Units(fcgx.V().Accepted());
      ghost var v, n := fcgx.V(), |fcgx.conn.records|;
      RoomOf(fcgx);
      rc := fcgx.FFlush();
      if Working() {
        Flushing(v, fcgx.V(), fcgx.conn.records[n..]);
      }
      return if rc != 0 then EOF else 0;
    }

    lemma RoomOf(w: Writer)
      requires w.Valid()
      ensures w.V().room <= 65528 && |w.V().pending| <= w.V().room
    {
    }

    lemma Flushing(v: Output, w: Output, d: seq<Record>)
      requires Flushed(v, w, d) && |v.pending| <= v.room <= 65528
      ensures w.Accepted() == v.Accepted() == Payload(w.data, v.typ)
    {
      EncapsulatedFits(v);
      PayloadConcat(v.data, d, v.typ);
      Units(Payload(w.data, v.typ));
    }

    /** One byte: into the buffer when there is room, or else on with what is there. */
    method Sputc(c: Byte) returns (r: int)
      requires Valid()
      modifies this, buf, fcgx, fcgx.buff, fcgx.conn
      ensures Valid() && (r == c || r == EOF)
      ensures Working() ==> old(Working()) && r == c && Written() == old(Written()) + [c]
    {
      hide Writer.Valid;
      if pptr < buf.Length {
        ghost var before, held := fcgx.V().Accepted(), buf[..pptr];
        buf[pptr] := c;
        pptr := pptr + 1;
        assert buf[..pptr] == held + [c];
        Associate(before, held, [c]);
        Untouched(fcgx);
        return c;
      }
      var rc := Overflow(c);
      return if rc == EOF then EOF else c;
    }

    twostate lemma Untouched(w: Writer)
      requires old(w.Valid()) && unchanged(w, w.buff, w.conn, w.req)
      ensures w.Valid() && w.V() == old(w.V())
    {
    }

    /** Several bytes; without a buffer they go straight to the stream. */
    method Xsputn(s: seq<Byte>) returns (n: int)
      requires Valid()
      modifies this, buf, fcgx, fcgx.buff, fcgx.conn
      ensures Valid() && -1 <= n <= |s| && (old(fcgx.wasFCloseCalled) && buf.Length == 0 && s != [] ==> n == -1)
      ensures Working() ==> old(Working()) && n == |s| && Written() == old(Written()) + s
    {
      hide Writer.Valid, Put;
      if buf.Length == 0 {
        ghost var v, k := fcgx.V(), |fcgx.conn.records|;
        n := fcgx.PutStr(s);
        if Working() {
          Took(v, s, fcgx.V(), fcgx.conn.records[k..]);
        }
        Units(v.Accepted());
        Units(fcgx.V().Accepted());
        return;
      }
      n := 0;
      Units(Written());
      while n < |s|
        invariant 0 <= n <= |s| && Valid() && (Working() ==> old(Working()) && Written() == old(Written()) + s[..n])
      {
        ghost var before := Written();
        var r := Sputc(s[n]);
        if r == EOF {
          return;
        }
        assert s[..n + 1] == s[..n] + [s[n]];
        Associate(old(Written()), s[..n], [s[n]]);
        n := n + 1;
      }
      assert s[..n] == s;
    }
  }

  class InputBuffer {
    const fcgx: Reader
    const buf: array<Byte>   // of length 0 when there is no buffer
    var gptr: nat
    var egptr: nat

    /** Of the bytes that the stream has delivered since m, used have been taken from here, and the others are buffered. */
    ghost predicate Serving(m: View, used: seq<Byte>)
      reads this, buf, fcgx, fcgx.buff, fcgx.conn, fcgx.req
    {
      && buf != fcgx.buff && gptr <= egptr <= buf.Length && fcgx.Bounded()
      && fcgx.Since(m, used + buf[gptr..egptr])
    }

    constructor (fcgx: Reader, buf: array<Byte>, ghost m: View, ghost used: seq<Byte>)
      requires buf != fcgx.buff && fcgx.Bounded() && fcgx.Since(m, used)
      ensures this.fcgx == fcgx && this.buf == buf && Serving(m, used)
    {
      this.fcgx, this.buf, gptr, egptr := fcgx, buf, 0, 0;
      new;
      Units(used);
    }

    /** How many bytes the get area has, as the difference of its pointers. */
    function InAvail(): int
      reads this
    {
      egptr - gptr
    }

    /** The end of file has been taken from the get area as if it were a byte. */
    ghost predicate Spent()
      reads this, fcgx
    {
      buf.Length > 0 && gptr > egptr && fcgx.isClosed
    }

    /** Refills the empty get area from the stream. */
    method Refill(ghost m: View, ghost used: seq<Byte>) returns (more: bool)
      requires Serving(m, used) && gptr == egptr && buf.Length > 0
      modifies this, buf, fcgx, fcgx.buff, fcgx.conn, fcgx.req
      ensures Serving(m, used) && (if more then gptr < egptr else gptr == egptr && fcgx.isClosed)
    {
      hide Reader.Since, Reader.Bounded;
      Units(used);
      assert buf[gptr..egptr] == [];
      var bytes := fcgx.GetStr(buf.Length, m, used);
      if |bytes| == 0 {
        assert buf[gptr..egptr] == [];
        return false;
      }
      Load(bytes, m, used + bytes);
      return true;
    }

    method Load(bytes: seq<Byte>, ghost m: View, ghost got: seq<Byte>)
      requires buf != fcgx.buff && |bytes| <= buf.Length && fcgx.Bounded() && fcgx.Since(m, got)
      modifies this, buf
      ensures gptr == 0 && egptr == |bytes| && buf[gptr..egptr] == bytes && fcgx.Bounded() && fcgx.Since(m, got)
    {
      hide Reader.Since, Reader.Bounded;
      forall i | 0 <= i < |bytes| {
        buf[i] := bytes[i];
      }
      gptr, egptr := 0, |bytes|;
    }

    /**
     The next byte, which stays in the get area; without a buffer it is taken at once. Beyond the end of the get area
     whatever is there is returned.
     */
    method Underflow(ghost m: View, ghost used: seq<Byte>) returns (c: int)
      requires Serving(m, used) || Spent()
      modifies this, buf, fcgx, fcgx.buff, fcgx.conn, fcgx.req
      ensures -1 <= c < 256
      ensures old(Serving(m, used)) && c == EOF ==> Serving(m, used) && gptr == egptr && fcgx.isClosed
      ensures old(Serving(m, used)) && c != EOF && buf.Length > 0 ==> Serving(m, used) && gptr < egptr && buf[gptr] == c
      ensures old(Serving(m, used)) && c != EOF && buf.Length == 0 ==> Serving(m, used + [c])
      ensures old(Spent()) ==> c != EOF && unchanged(this, buf, fcgx, fcgx.conn)
    {
      hide Reader.Since, Reader.Bounded;
      Units(used);
      if buf.Length > 0 {
        if InAvail() == 0 {
          var more := Refill(m, used);
          if !more {
            return EOF;
          }
        }
        if gptr < buf.Length {
          return buf[gptr];
        }
        var beyond: int :| 0 <= beyond < 256;
        return beyond;
      }
      assert buf[gptr..egptr] == [];
      c := fcgx.GetChar(m, used);
      assert buf[gptr..egptr] == [];
      Units(used + [c % 256]);
    }

    /**
     Takes the next byte, up to the first EOF, just as GetChar would. With a buffer that EOF is taken as well, and from
     then on every call returns a byte, though the stream has delivered none.
     */
    method Uflow(ghost m: View, ghost used: seq<Byte>) returns (c: int)
      requires Serving(m, used) || Spent()
      modifies this, buf, fcgx, fcgx.buff, fcgx.conn, fcgx.req
      ensures -1 <= c < 256
      ensures old(Serving(m, used)) && c != EOF ==> Serving(m, used + [c])
      ensures old(Serving(m, used)) && c == EOF ==>
        fcgx.isClosed && fcgx.Bounded() && fcgx.Since(m, used) && (buf.Length > 0 ==> Spent())
      ensures old(Spent()) ==> c != EOF && Spent() && unchanged(fcgx, fcgx.conn)
    {
      hide Reader.Since, Reader.Bounded;
      c := Underflow(m, used);
      Units(used);
      if buf.Length > 0 {
        if gptr < egptr {
          assert buf[gptr..egptr] == [buf[gptr]] + buf[gptr + 1..egptr];
          Associate(used, [buf[gptr]], buf[gptr + 1..egptr]);
        } else if gptr == egptr {
          assert buf[gptr..egptr] == [];
        }
        gptr := gptr + 1;
      } else if c == EOF {
        assert buf[gptr..egptr] == [];
      }
    }
  }
}
