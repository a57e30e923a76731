/** Bytes on a TCP connection, and the two socket primitives the transport
    helpers are built on, recv(2) and send(2), modelled as scripted peers:
    the sequence of results that successive calls on one connection return. */
module Wire {

  newtype byte = x: int | 0 <= x < 256

  const NUL: byte := 0
  const LF: byte := 10
  const CR: byte := 13
  const SPACE: byte := 32

  /** The protocol delimiter, "\r\n". */
  const CRLF: seq<byte> := [CR, LF]

  /** BUFF_SIZE of the server (1 << 14): the size of its request buffer and
      of the framer's carry-over buffer. */
  const BuffSize: nat := 16384

  datatype Option<T> = None | Some(value: T)

  /** A printable ASCII character: every protocol keyword and response text
      is made of them. */
  type Printable = c: char | ' ' <= c <= '~' witness ' '

  predicate NulFree(s: seq<byte>) {
    forall k | 0 <= k < |s| :: s[k] != NUL
  }

  function Ascii(s: seq<Printable>): (b: seq<byte>)
    ensures |b| == |s|
    ensures forall i | 0 <= i < |s| :: b[i] as int == s[i] as int
    ensures NulFree(b)
  {
    seq(|s|, i requires 0 <= i < |s| => s[i] as int as byte)
  }

  /** The contents of a C string: bytes up to, and without, the first NUL. */
  type CString = s: seq<byte> | NulFree(s)

  // ---------------------------------------------------------------------
  // recv(2)

  /** A nonempty run of bytes handed over by one successful recv(2). */
  type Chunk = s: seq<byte> | |s| > 0 witness [0]

  /** What one recv(2) on the connection yields: some bytes, or a failure
      (-1). Once a script is exhausted the peer has closed the connection
      and every further recv(2) returns 0. */
  datatype Event = Data(bytes: Chunk) | Fault

  /** How the byte stream of a script ends. */
  datatype StreamEnd = EndOfStream | ReadFault

  /** The bytes a script delivers before it ends or fails. */
  function Delivered(script: seq<Event>): seq<byte>
  {
    if script == [] || script[0].Fault? then [] else script[0].bytes + Delivered(script[1..])
  }

  function EndOf(script: seq<Event>): StreamEnd
  {
    if script == [] then EndOfStream
    else if script[0].Fault? then ReadFault
    else EndOf(script[1..])
  }

  /** What is left of a script once its delivered bytes and the event that
      ends them (the failure, or the close) have been consumed. */
  function Remainder(script: seq<Event>): seq<Event>
  {
    if script == [] then []
    else if script[0].Fault? then script[1..]
    else Remainder(script[1..])
  }

  datatype Received = Got(bytes: Chunk) | Closed | Failed

  datatype RecvStep = RecvStep(result: Received, rest: seq<Event>)

  /** recv(sock, p, n, 0) for n > 0: the next event, cut down to at most n
      bytes; bytes it does not take stay queued for the next call. */
  function Recv(script: seq<Event>, n: nat): (s: RecvStep)
    requires n > 0
    ensures s.result.Got? ==> |s.result.bytes| <= n
  {
    if script == [] then RecvStep(Closed, [])
    else match script[0]
      case Fault => RecvStep(Failed, script[1..])
      case Data(b) =>
        if |b| <= n then RecvStep(Got(b), script[1..])
        else RecvStep(Got(b[..n]), [Data(b[n..])] + script[1..])
  }

  /** A receive hands over a prefix of the stream and leaves the rest of it,
      and how it ends, queued; it returns 0 exactly when the peer has closed
      and -1 exactly when the next event is a failure, and then nothing was
      left to deliver. */
  lemma RecvTakesPrefix(script: seq<Event>, n: nat)
    requires n > 0
    ensures var s := Recv(script, n);
            s.result.Got? ==>
              s.result.bytes + Delivered(s.rest) == Delivered(script)
              && EndOf(s.rest) == EndOf(script) && Remainder(s.rest) == Remainder(script)
    ensures var s := Recv(script, n);
            && (s.result.Closed? <==> script == [])
            && (s.result.Failed? <==> script != [] && script[0].Fault?)
    ensures var s := Recv(script, n);
            !s.result.Got? ==>
              Delivered(script) == [] && s.rest == Remainder(script)
              && EndOf(script) == (if s.result.Closed? then EndOfStream else ReadFault)
  {
    if script != [] && script[0].Data? && |script[0].bytes| > n {
      var b := script[0].bytes;
      var rest := [Data(b[n..])] + script[1..];
      assert rest[0] == Data(b[n..]) && rest[1..] == script[1..];
      assert Delivered(rest) == b[n..] + Delivered(script[1..]);
      assert Delivered(script) == b + Delivered(script[1..]);
      assert b[..n] + b[n..] == b;
    }
  }

  // ---------------------------------------------------------------------
  // send(2)

  /** What one send(2) on the connection does: the kernel takes some of the
      bytes offered (at most all of them), or the call fails (-1). Once a
      script is exhausted the kernel takes every byte offered. */
  datatype SendEvent = Accepted(count: nat) | SendFault

  datatype SendStep = SendStep(took: int, rest: seq<SendEvent>)

  /** send(sock, p, n, 0): the number of bytes taken, or -1. */
  function Send(script: seq<SendEvent>, n: nat): (s: SendStep)
    ensures s.took == -1 || 0 <= s.took <= n
    ensures s.took == -1 <==> script != [] && script[0].SendFault?
    ensures script == [] ==> s.took == n && s.rest == []
    ensures script != [] ==> s.rest == script[1..]
  {
    if script == [] then SendStep(n, [])
    else match script[0]
      case SendFault => SendStep(-1, script[1..])
      case Accepted(c) => SendStep(if c < n then c else n, script[1..])
  }

  // ---------------------------------------------------------------------
  // Byte copies into arrays (memcpy, memmove between distinct buffers, and
  // the kernel's write of received bytes)

  method Store(dst: array<byte>, at: nat, bytes: seq<byte>)
    requires at + |bytes| <= dst.Length
    modifies dst
    ensures dst[..] == old(dst[..at]) + bytes + old(dst[at + |bytes|..])
  {
    forall i | at <= i < at + |bytes| {
      dst[i] := bytes[i - at];
    }
  }

  method CopyBytes(src: array<byte>, from: nat, dst: array<byte>, at: nat, n: nat)
    requires src != dst
    requires from + n <= src.Length && at + n <= dst.Length
    modifies dst
    ensures dst[..] == old(dst[..at]) + src[from..from + n] + old(dst[at + n..])
  {
    Store(dst, at, src[from..from + n]);
  }
}
