/** Bytes, headers and records of the FastCGI 1.0 wire format (sections 3.3 and 5 to 8). */
module Protocol {

  type Byte = x: int | 0 <= x < 256
  type Id = x: int | 0 <= x < 0x1_0000

  datatype Option<+T> = None | Some(value: T)

  const VERSION_1: Byte := 1
  const HEADER_LEN := 8
  const MAX_LENGTH := 0xffff

  const BEGIN_REQUEST: Byte := 1
  const END_REQUEST: Byte := 3
  const PARAMS: Byte := 4
  const STDIN: Byte := 5
  const STDOUT: Byte := 6
  const STDERR: Byte := 7
  const DATA: Byte := 8
  const GET_VALUES: Byte := 9
  const GET_VALUES_RESULT: Byte := 10
  const UNKNOWN_TYPE: Byte := 11

  const NULL_REQUEST_ID: Id := 0

  const RESPONDER := 1
  const AUTHORIZER := 2
  const FILTER := 3

  const REQUEST_COMPLETE: Byte := 0
  const CANT_MPX_CONN: Byte := 1

  // Error codes a stream records; an operating-system error is recorded as its errno.
  const UNSUPPORTED_VERSION := -2
  const PROTOCOL_ERROR := -3
  const PARAMS_ERROR := -4
  const CALL_SEQ_ERROR := -5

  function Min(a: int, b: int): (m: int)
    ensures m <= a && m <= b && (m == a || m == b)
  {
    if a <= b then a else b
  }

  function Max(a: int, b: int): (m: int)
    ensures a <= m && b <= m && (m == a || m == b)
  {
    if a <= b then b else a
  }

  /** The least multiple of 8 not below n. */
  function AlignInt8(n: nat): (r: nat)
    ensures r % 8 == 0 && n <= r < n + 8
  {
    (n + 7) / 8 * 8
  }

  function Zeros(n: nat): (z: seq<Byte>)
    ensures |z| == n
  {
    seq(n, _ => 0)
  }

  datatype Header = Header(version: Byte, typ: Byte, id: Id, contentLen: Id, paddingLen: Byte)

  function EncodeHeader(typ: Byte, id: Id, contentLen: Id, paddingLen: Byte): (s: seq<Byte>)
    ensures |s| == HEADER_LEN
  {
    [VERSION_1, typ, id / 256, id % 256, contentLen / 256, contentLen % 256, paddingLen, 0]
  }

  function Word(high: Byte, low: Byte): Id {
    high as int * 256 + low as int
  }

  function DecodeHeader(s: seq<Byte>): Header
    requires |s| == HEADER_LEN
  {
    Header(s[0], s[1], Word(s[2], s[3]), Word(s[4], s[5]), s[6])
  }

  lemma HeaderRoundTrip(typ: Byte, id: Id, contentLen: Id, paddingLen: Byte)
    ensures DecodeHeader(EncodeHeader(typ, id, contentLen, paddingLen))
         == Header(VERSION_1, typ, id, contentLen, paddingLen)
  {
    assert id / 256 * 256 + id % 256 == id;
    assert contentLen / 256 * 256 + contentLen % 256 == contentLen;
  }

  /** A whole version-1 record; the padding bytes carry no information. */
  datatype Record = Record(typ: Byte, id: Id, content: seq<Byte>, padding: seq<Byte>) {
    predicate Fits() {
      |content| <= MAX_LENGTH && |padding| < 256
    }
  }

  function EncodeRecord(r: Record): seq<Byte>
    requires r.Fits()
  {
    EncodeHeader(r.typ, r.id, |r.content|, |r.padding|) + r.content + r.padding
  }

  predicate AllFit(rs: seq<Record>) {
    forall i :: 0 <= i < |rs| ==> rs[i].Fits()
  }

  function EncodeAll(rs: seq<Record>): seq<Byte>
    requires AllFit(rs)
  {
    if rs == [] then [] else EncodeRecord(rs[0]) + EncodeAll(rs[1..])
  }

  lemma {:induction false} EncodeAllConcat(a: seq<Record>, b: seq<Record>)
    requires AllFit(a) && AllFit(b)
    ensures AllFit(a + b) && EncodeAll(a + b) == EncodeAll(a) + EncodeAll(b)
  {
    if a == [] {
      assert a + b == b;
    } else {
      hide EncodeRecord;
      EncodeAllConcat(a[1..], b);
      assert (a + b)[0] == a[0] && (a + b)[1..] == a[1..] + b;
      Associate(EncodeRecord(a[0]), EncodeAll(a[1..]), EncodeAll(b));
    }
  }

  lemma EncodeOne(r: Record)
    requires r.Fits()
    ensures AllFit([r]) && EncodeAll([r]) == EncodeRecord(r)
  {
    assert [r][1..] == [];
    assert EncodeAll([r][1..]) == [];
  }

  /** What an END_REQUEST record says: four status bytes (two's complement), protocol status, reserved. */
  function EndRequestBody(appStatus: int, protocolStatus: Byte): (s: seq<Byte>)
    ensures |s| == 8
  {
    var u := appStatus % 0x1_0000_0000;
    [u / 0x100_0000, u / 0x1_0000 % 256, u / 256 % 256, u % 256, protocolStatus, 0, 0, 0]
  }

  lemma EndRequestBodyInjective(a: int, p: Byte, b: int, q: Byte)
    requires -0x8000_0000 <= a < 0x8000_0000 && -0x8000_0000 <= b < 0x8000_0000
    ensures EndRequestBody(a, p) == EndRequestBody(b, q) <==> a == b && p == q
  {
    if EndRequestBody(a, p) == EndRequestBody(b, q) {
      StatusBytes(a % 0x1_0000_0000);
      StatusBytes(b % 0x1_0000_0000);
      var s, t := EndRequestBody(a, p), EndRequestBody(b, q);
      assert s[0] == t[0] && s[1] == t[1] && s[2] == t[2] && s[3] == t[3] && s[4] == t[4];
    }
  }

  lemma StatusBytes(u: int)
    requires 0 <= u < 0x1_0000_0000
    ensures u == u / 0x100_0000 * 0x100_0000 + u / 0x1_0000 % 256 * 0x1_0000 + u / 256 % 256 * 256 + u % 256
  {
    assert u / 0x1_0000 / 256 == u / 0x100_0000;
    assert u / 256 / 256 == u / 0x1_0000;
  }

  function EndRequest(id: Id, appStatus: int, protocolStatus: Byte): Record {
    Record(END_REQUEST, id, EndRequestBody(appStatus, protocolStatus), [])
  }

  function Share(r: Record, typ: Byte): seq<Byte> {
    if r.typ == typ then r.content else []
  }

  /** The payload of one stream: the contents of the records of one type, in order. */
  function Payload(rs: seq<Record>, typ: Byte): seq<Byte> {
    if rs == [] then [] else Share(rs[0], typ) + Payload(rs[1..], typ)
  }

  lemma {:induction false} PayloadConcat(a: seq<Record>, b: seq<Record>, typ: Byte)
    ensures Payload(a + b, typ) == Payload(a, typ) + Payload(b, typ)
  {
    if a == [] {
      assert a + b == b;
    } else {
      PayloadConcat(a[1..], b, typ);
      assert (a + b)[1..] == a[1..] + b;
      Associate(Share(a[0], typ), Payload(a[1..], typ), Payload(b, typ));
    }
  }

  lemma Associate<T>(a: seq<T>, b: seq<T>, c: seq<T>)
    ensures (a + b) + c == a + (b + c)
  {
  }

  lemma Units<T>(s: seq<T>)
    ensures [] + s == s && s + [] == s
  {
  }

  lemma TakeAndDrop<T>(s: seq<T>, k: nat)
    requires k <= |s|
    ensures s[..k] + s[k..] == s
  {
  }

  lemma SubSlice<T>(s: seq<T>, a: nat, b: nat, k: nat)
    requires a + k <= b <= |s|
    ensures s[a..b][..k] == s[a..a + k] && s[a..b][k..] == s[a + k..b]
  {
  }

  lemma SubSliceThen<T>(s: seq<T>, a: nat, b: nat, more: seq<T>, k: nat)
    requires a + k <= b <= |s|
    ensures (s[a..b] + more)[..k] == s[a..a + k] && (s[a..b] + more)[k..] == s[a + k..b] + more
  {
  }

  lemma Cut<T>(a: seq<T>, b: seq<T>, k: nat)
    requires k <= |a| + |b|
    ensures (a + b)[..k] == if k <= |a| then a[..k] else a + b[..k - |a|]
    ensures (a + b)[k..] == if k <= |a| then a[k..] + b else b[k - |a|..]
  {
  }
}
