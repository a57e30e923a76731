/** recv_until_delimiter of tcp_utils.c: reassembles the byte stream of one
    connection into messages terminated by "\r\n", keeping the bytes that
    follow a delimiter as carry-over for the next call. */
module Framing {
  import opened Wire

  // ---------------------------------------------------------------------
  // The delimiter search (strstr(buffer, "\r\n") on a NUL-terminated buffer)

  predicate DelimiterAt(w: seq<byte>, j: int) {
    0 <= j && j + 1 < |w| && w[j] == CR && w[j + 1] == LF
  }

  /** No delimiter starts before position k. */
  predicate NoDelimiterBefore(w: seq<byte>, k: int) {
    forall j | 0 <= j < k :: !DelimiterAt(w, j)
  }

  /** strstr(buffer, "\r\n") where the buffer holds `w` followed by a NUL:
      the position of the first delimiter that lies before the first NUL
      byte. A NUL byte ends the C string, so a delimiter behind it is not
      seen. */
  function FindDelimiter(w: seq<byte>): (r: Option<nat>)
    ensures r.Some? ==> DelimiterAt(w, r.value)
  {
    Scan(w, 0)
  }

  function Scan(w: seq<byte>, k: nat): (r: Option<nat>)
    decreases |w| - k
    ensures r.Some? ==> DelimiterAt(w, r.value) && k <= r.value
  {
    if k + 1 >= |w| then None
    else if w[k] == NUL then None
    else if w[k] == CR && w[k + 1] == LF then Some(k)
    else Scan(w, k + 1)
  }

  lemma {:induction false} ScanFinds(w: seq<byte>, k: nat)
    requires k <= |w| && NulFree(w[..k]) && NoDelimiterBefore(w, k)
    ensures var r := Scan(w, k);
            r.Some? ==> NulFree(w[..r.value]) && NoDelimiterBefore(w, r.value)
    ensures Scan(w, k).None? ==> forall j | DelimiterAt(w, j) :: !NulFree(w[..j])
    decreases |w| - k
  {
    if k + 1 >= |w| {
    } else if w[k] == NUL {
      assert forall j | k < j <= |w| :: w[..j][k] == NUL;
    } else if w[k] == CR && w[k + 1] == LF {
    } else {
      assert w[..k + 1] == w[..k] + [w[k]];
      ScanFinds(w, k + 1);
    }
  }

  /** The search finds the first delimiter, and only behind NUL-free bytes;
      when it finds none, every delimiter in the buffer lies behind a NUL. */
  lemma FindDelimiterFirst(w: seq<byte>)
    ensures var r := FindDelimiter(w);
            r.Some? ==> NulFree(w[..r.value]) && NoDelimiterBefore(w, r.value)
    ensures FindDelimiter(w).None? ==> forall j | DelimiterAt(w, j) :: !NulFree(w[..j])
  {
    ScanFinds(w, 0);
  }

  /** The search result is determined by its characterisation. */
  lemma FindDelimiterIs(w: seq<byte>, i: nat)
    requires DelimiterAt(w, i) && NulFree(w[..i]) && NoDelimiterBefore(w, i)
    ensures FindDelimiter(w) == Some(i)
  {
    FindDelimiterFirst(w);
  }

  /** The search gives the same answer on a longer buffer once the shorter
      one holds the delimiter it finds, and no answer on a shorter one when
      the longer one has none. */
  lemma FindDelimiterExtends(a: seq<byte>, b: seq<byte>)
    requires a <= b
    ensures FindDelimiter(a).Some? ==> FindDelimiter(b) == FindDelimiter(a)
    ensures FindDelimiter(b).Some? && FindDelimiter(b).value + 2 <= |a| ==> FindDelimiter(a) == FindDelimiter(b)
    ensures FindDelimiter(b).None? ==> FindDelimiter(a).None?
  {
    FindDelimiterFirst(a);
    FindDelimiterFirst(b);
    if FindDelimiter(a).Some? {
      var i := FindDelimiter(a).value;
      assert a[..i] == b[..i];
      assert NoDelimiterBefore(b, i) by {
        forall j | 0 <= j < i ensures !DelimiterAt(b, j) {
          assert !DelimiterAt(a, j);
        }
      }
      FindDelimiterIs(b, i);
    }
    if FindDelimiter(b).Some? && FindDelimiter(b).value + 2 <= |a| {
      var i := FindDelimiter(b).value;
      assert a[..i] == b[..i];
      assert NoDelimiterBefore(a, i) by {
        forall j | 0 <= j < i ensures !DelimiterAt(a, j) {
          assert !DelimiterAt(b, j);
        }
      }
      FindDelimiterIs(a, i);
    }
  }

  // ---------------------------------------------------------------------
  // One call of recv_until_delimiter, as a function of the working buffer
  // (the carry-over on entry) and the receive script

  /** The outcome of one call, and the value recv_until_delimiter returns for
      it: the message length, -1 on overflow, 0 on close, -1 on failure. */
  datatype Framed = Message(msg: seq<byte>) | Overflow | PeerClosed | RecvError

  function ReturnValue(f: Framed): int {
    match f
    case Message(m) => |m|
    case Overflow => -1
    case PeerClosed => 0
    case RecvError => -1
  }

  /** The outcome, the carry-over left for the next call, and the events the
      call did not consume. */
  datatype Framing = Framing(outcome: Framed, carry: seq<byte>, rest: seq<Event>)

  /** The loop of recv_until_delimiter from working buffer `work`: search
      first; without a delimiter, give up once the buffer holds maxLen - 1
      bytes; otherwise receive at most maxLen - |work| - 1 more bytes. */
  function Frame(work: seq<byte>, script: seq<Event>, maxLen: nat): Framing
    requires maxLen >= 1
    decreases maxLen - |work|
  {
    match FindDelimiter(work)
    case Some(i) => Framing(Message(work[..i]), work[i + 2..], script)
    case None =>
      if |work| >= maxLen - 1 then Framing(Overflow, [], script)
      else
        var s := Recv(script, maxLen - |work| - 1);
        match s.result
        case Closed => Framing(PeerClosed, [], s.rest)
        case Failed => Framing(RecvError, [], s.rest)
        case Got(b) => Frame(work + b, s.rest, maxLen)
  }

  /** No byte is lost or duplicated: message, delimiter and carry-over give
      back the working buffer and everything the call received, and the
      events it did not consume still end the stream the same way. Every
      other outcome resets the carry-over; a close or a failure consumes the
      whole script up to the event that ends it. */
  lemma {:induction false} FrameConserves(work: seq<byte>, script: seq<Event>, maxLen: nat)
    requires maxLen >= 1
    ensures var f := Frame(work, script, maxLen);
            f.outcome.Message? ==>
              work + Delivered(script) == f.outcome.msg + CRLF + f.carry + Delivered(f.rest)
              && EndOf(f.rest) == EndOf(script) && Remainder(f.rest) == Remainder(script)
    ensures var f := Frame(work, script, maxLen);
            !f.outcome.Message? ==> f.carry == []
    ensures var f := Frame(work, script, maxLen);
            f.outcome.PeerClosed? || f.outcome.RecvError? ==>
              f.rest == Remainder(script)
              && EndOf(script) == (if f.outcome.PeerClosed? then EndOfStream else ReadFault)
    decreases maxLen - |work|
  {
    match FindDelimiter(work)
    case Some(i) =>
      assert work == work[..i] + CRLF + work[i + 2..];
    case None =>
      if |work| < maxLen - 1 {
        var s := Recv(script, maxLen - |work| - 1);
        RecvTakesPrefix(script, maxLen - |work| - 1);
        if s.result.Got? {
          FrameConserves(work + s.result.bytes, s.rest, maxLen);
        }
      }
  }

  /** The loop's step: without a delimiter and with room left, a call
      continues as a call on the buffer extended by the received chunk. */
  lemma FrameReceives(work: seq<byte>, script: seq<Event>, maxLen: nat)
    requires maxLen >= 1 && FindDelimiter(work).None? && |work| < maxLen - 1
    ensures var s := Recv(script, maxLen - |work| - 1);
            && (s.result.Got? ==> Frame(work, script, maxLen) == Frame(work + s.result.bytes, s.rest, maxLen))
            && (s.result.Closed? ==> Frame(work, script, maxLen) == Framing(PeerClosed, [], s.rest))
            && (s.result.Failed? ==> Frame(work, script, maxLen) == Framing(RecvError, [], s.rest))
  {
  }

  /** The loop's exits before any receive: a delimiter in the buffer, or a
      full buffer without one. */
  lemma FrameStops(work: seq<byte>, script: seq<Event>, maxLen: nat)
    requires maxLen >= 1
    ensures FindDelimiter(work).Some? ==>
              var i := FindDelimiter(work).value;
              Frame(work, script, maxLen) == Framing(Message(work[..i]), work[i + 2..], script)
    ensures FindDelimiter(work).None? && |work| >= maxLen - 1 ==>
              Frame(work, script, maxLen) == Framing(Overflow, [], script)
  {
  }

  /** A returned message is the text before the first delimiter of the
      buffer: it holds no NUL byte and no delimiter. While the carry-over
      fits the buffer, message, delimiter and new carry-over never exceed
      max_len - 1 bytes. */
  lemma {:induction false} FrameMessageIsLine(work: seq<byte>, script: seq<Event>, maxLen: nat)
    requires maxLen >= 1
    requires Frame(work, script, maxLen).outcome.Message?
    ensures var f := Frame(work, script, maxLen);
            NulFree(f.outcome.msg) && FindDelimiter(f.outcome.msg + CRLF) == Some(|f.outcome.msg|)
    ensures var f := Frame(work, script, maxLen);
            |work| < maxLen ==> |f.outcome.msg| + 2 + |f.carry| < maxLen
    decreases maxLen - |work|
  {
    match FindDelimiter(work)
    case Some(i) =>
      assert work == work[..i] + CRLF + work[i + 2..];
      FindDelimiterFirst(work);
      FindDelimiterExtends(work[..i] + CRLF, work);
    case None =>
      var s := Recv(script, maxLen - |work| - 1);
      FrameMessageIsLine(work + s.result.bytes, s.rest, maxLen);
  }

  /** An overflow discards exactly the max_len - 1 bytes it buffered; what
      the peer sent beyond them stays queued. */
  lemma {:induction false} FrameOverflowDiscards(work: seq<byte>, script: seq<Event>, maxLen: nat)
    requires maxLen >= 1 && |work| < maxLen
    requires Frame(work, script, maxLen).outcome.Overflow?
    ensures var f := Frame(work, script, maxLen);
            |work + Delivered(script)| == maxLen - 1 + |Delivered(f.rest)|
            && (work + Delivered(script))[maxLen - 1..] == Delivered(f.rest)
            && EndOf(f.rest) == EndOf(script) && Remainder(f.rest) == Remainder(script)
    decreases maxLen - |work|
  {
    var f := Frame(work, script, maxLen);
    assert FindDelimiter(work).None?;
    if |work| < maxLen - 1 {
      var s := Recv(script, maxLen - |work| - 1);
      assert s.result.Got? && |s.result.bytes| <= maxLen - |work| - 1;
      var w := work + s.result.bytes;
      assert f == Frame(w, s.rest, maxLen);
      FrameOverflowDiscards(w, s.rest, maxLen);
      assert work + Delivered(script) == w + Delivered(s.rest) by {
        RecvTakesPrefix(script, maxLen - |work| - 1);
      }
    } else {
      assert f.rest == script;
      assert (work + Delivered(script))[maxLen - 1..] == Delivered(script);
    }
  }

  // ---------------------------------------------------------------------
  // Chunk-boundary independence

  /** What one call returns, stated over the received byte stream alone:
      the carry-over is searched first; otherwise the first maxLen - 1 bytes
      of carry-over plus stream are searched; failing that the call
      overflows if that many bytes exist, and else reports how the stream
      ended. */
  function FrameOfStream(work: seq<byte>, stream: seq<byte>, end: StreamEnd, maxLen: nat): Framed
    requires maxLen >= 1
  {
    match FindDelimiter(work)
    case Some(i) => Message(work[..i])
    case None =>
      if |work| >= maxLen - 1 then Overflow
      else
        var all := work + stream;
        var seen := if |all| < maxLen - 1 then all else all[..maxLen - 1];
        match FindDelimiter(seen)
        case Some(i) => Message(seen[..i])
        case None =>
          if |all| >= maxLen - 1 then Overflow
          else if end == EndOfStream then PeerClosed
          else RecvError
  }

  /** The outcome of a call depends on the bytes received and on how the
      stream ends, never on how recv(2) splits the bytes into chunks. */
  lemma {:induction false} FrameIgnoresChunking(work: seq<byte>, script: seq<Event>, maxLen: nat)
    requires maxLen >= 1
    ensures Frame(work, script, maxLen).outcome
            == FrameOfStream(work, Delivered(script), EndOf(script), maxLen)
    decreases maxLen - |work|
  {
    if FindDelimiter(work).None? && |work| < maxLen - 1 {
      var s := Recv(script, maxLen - |work| - 1);
      RecvTakesPrefix(script, maxLen - |work| - 1);
      if s.result.Got? {
        var b := s.result.bytes;
        var w := work + b;
        FrameIgnoresChunking(w, s.rest, maxLen);
        var all := work + Delivered(script);
        assert all == w + Delivered(s.rest);
        var seen := if |all| < maxLen - 1 then all else all[..maxLen - 1];
        assert w <= seen;
        FindDelimiterExtends(work, w);
        FindDelimiterExtends(w, seen);
        assert Frame(work, script, maxLen) == Frame(w, s.rest, maxLen);
        var whole := FrameOfStream(work, Delivered(script), EndOf(script), maxLen);
        var part := FrameOfStream(w, Delivered(s.rest), EndOf(s.rest), maxLen);
        if FindDelimiter(w).Some? {
          var i := FindDelimiter(w).value;
          assert seen[..i] == w[..i];
          assert part == Message(w[..i]);
          assert whole == Message(seen[..i]);
        } else if |w| >= maxLen - 1 {
          assert seen == w;
          assert part == Overflow;
          assert whole == Overflow;
        } else {
          assert part == whole;
        }
      } else {
        assert Delivered(script) == [] && work + Delivered(script) == work;
      }
    }
  }

  /** Two scripts that deliver the same bytes and end the same way make a
      call return the same outcome. */
  lemma SameStreamSameOutcome(work: seq<byte>, a: seq<Event>, b: seq<Event>, maxLen: nat)
    requires maxLen >= 1
    requires Delivered(a) == Delivered(b) && EndOf(a) == EndOf(b)
    ensures Frame(work, a, maxLen).outcome == Frame(work, b, maxLen).outcome
  {
    FrameIgnoresChunking(work, a, maxLen);
    FrameIgnoresChunking(work, b, maxLen);
  }

  /** The carry-over matters only as the head of the stream: a call from
      carry-over `work` returns what a call from an empty buffer returns on
      the stream that starts with `work`. */
  lemma CarryIsStream(work: seq<byte>, stream: seq<byte>, end: StreamEnd, maxLen: nat)
    requires maxLen >= 1 && |work| < maxLen
    ensures FrameOfStream(work, stream, end, maxLen) == FrameOfStream([], work + stream, end, maxLen)
  {
    var all := work + stream;
    var seen := if |all| < maxLen - 1 then all else all[..maxLen - 1];
    assert [] + all == all;
    assert FindDelimiter([]).None?;
    assert work <= seen;
    FindDelimiterExtends(work, seen);
    if FindDelimiter(work).None? && |work| >= maxLen - 1 {
      assert seen == work;
    }
  }

  /** Whole-stream determinism of one call: two connections whose carry-over
      plus queued bytes are the same stream, ending the same way, get the
      same outcome, however the bytes were split between carry-over and
      chunks. */
  lemma StreamDeterminesOutcome(w1: seq<byte>, s1: seq<Event>, w2: seq<byte>, s2: seq<Event>, maxLen: nat)
    requires maxLen >= 1 && |w1| < maxLen && |w2| < maxLen
    requires w1 + Delivered(s1) == w2 + Delivered(s2) && EndOf(s1) == EndOf(s2)
    ensures Frame(w1, s1, maxLen).outcome == Frame(w2, s2, maxLen).outcome
  {
    FrameIgnoresChunking(w1, s1, maxLen);
    FrameIgnoresChunking(w2, s2, maxLen);
    CarryIsStream(w1, Delivered(s1), EndOf(s1), maxLen);
    CarryIsStream(w2, Delivered(s2), EndOf(s2), maxLen);
  }

  /** The input still pending on a connection: carry-over, then the queued
      bytes, how they end, and the events after their end. */
  predicate SameInput(w1: seq<byte>, s1: seq<Event>, w2: seq<byte>, s2: seq<Event>) {
    && w1 + Delivered(s1) == w2 + Delivered(s2)
    && EndOf(s1) == EndOf(s2)
    && Remainder(s1) == Remainder(s2)
  }

  /** After a message, the pending input is what followed its delimiter,
      and the carry-over still fits the buffer. */
  lemma MessageLeavesTail(work: seq<byte>, script: seq<Event>, maxLen: nat)
    requires maxLen >= 1 && |work| < maxLen
    requires Frame(work, script, maxLen).outcome.Message?
    ensures var f := Frame(work, script, maxLen);
            var all := work + Delivered(script);
            && |f.carry| < maxLen && |f.outcome.msg| + 2 <= |all|
            && f.carry + Delivered(f.rest) == all[|f.outcome.msg| + 2..]
            && EndOf(f.rest) == EndOf(script) && Remainder(f.rest) == Remainder(script)
  {
    var f := Frame(work, script, maxLen);
    FrameConserves(work, script, maxLen);
    FrameMessageIsLine(work, script, maxLen);
    var all := work + Delivered(script);
    assert all == f.outcome.msg + CRLF + (f.carry + Delivered(f.rest));
  }

  /** Two connections with the same pending input get the same outcome and
      are left with the same pending input again, with the carry-over still
      fitting the buffer. */
  lemma StreamDeterminesNext(w1: seq<byte>, s1: seq<Event>, w2: seq<byte>, s2: seq<Event>, maxLen: nat)
    requires maxLen >= 1 && |w1| < maxLen && |w2| < maxLen
    requires SameInput(w1, s1, w2, s2)
    ensures Frame(w1, s1, maxLen).outcome == Frame(w2, s2, maxLen).outcome
    ensures var f1, f2 := Frame(w1, s1, maxLen), Frame(w2, s2, maxLen);
            |f1.carry| < maxLen && |f2.carry| < maxLen
            && SameInput(f1.carry, f1.rest, f2.carry, f2.rest)
  {
    var f1, f2 := Frame(w1, s1, maxLen), Frame(w2, s2, maxLen);
    StreamDeterminesOutcome(w1, s1, w2, s2, maxLen);
    if f1.outcome.Message? {
      MessageLeavesTail(w1, s1, maxLen);
      MessageLeavesTail(w2, s2, maxLen);
    } else if f1.outcome.Overflow? {
      FrameOverflowDiscards(w1, s1, maxLen);
      FrameOverflowDiscards(w2, s2, maxLen);
      assert f1.carry == [] && f2.carry == [] by {
        FrameConserves(w1, s1, maxLen);
        FrameConserves(w2, s2, maxLen);
      }
    } else {
      FrameConserves(w1, s1, maxLen);
      FrameConserves(w2, s2, maxLen);
    }
  }

  /** The outcomes of n consecutive calls on one connection, each starting
      from the carry-over and the events the previous call left. */
  function Calls(work: seq<byte>, script: seq<Event>, maxLen: nat, n: nat): (r: seq<Framed>)
    requires maxLen >= 1
    ensures |r| == n
    decreases n
  {
    if n == 0 then []
    else
      var f := Frame(work, script, maxLen);
      [f.outcome] + Calls(f.carry, f.rest, maxLen, n - 1)
  }

  /** Chunk-boundary independence over the whole sequence of messages: the
      outcomes of any number of consecutive calls depend only on the
      pending input, never on how recv(2) chunks it or on where one call's
      carry-over ends and the queued bytes begin. */
  lemma {:induction false} StreamDeterminesCalls(w1: seq<byte>, s1: seq<Event>, w2: seq<byte>, s2: seq<Event>,
                                                 maxLen: nat, n: nat)
    requires maxLen >= 1 && |w1| < maxLen && |w2| < maxLen
    requires SameInput(w1, s1, w2, s2)
    ensures Calls(w1, s1, maxLen, n) == Calls(w2, s2, maxLen, n)
    decreases n
  {
    if n > 0 {
      var f1, f2 := Frame(w1, s1, maxLen), Frame(w2, s2, maxLen);
      StreamDeterminesNext(w1, s1, w2, s2, maxLen);
      StreamDeterminesCalls(f1.carry, f1.rest, f2.carry, f2.rest, maxLen, n - 1);
    }
  }

  /** Overflow bound: when the first maxLen - 1 bytes of carry-over and
      stream hold no visible delimiter, the call overflows and never returns
      a message. */
  lemma OverflowWithoutDelimiter(work: seq<byte>, script: seq<Event>, maxLen: nat)
    requires maxLen >= 1 && |work| < maxLen
    requires |work + Delivered(script)| >= maxLen - 1
    requires FindDelimiter((work + Delivered(script))[..maxLen - 1]).None?
    ensures Frame(work, script, maxLen).outcome == Overflow
    ensures Frame(work, script, maxLen).carry == []
  {
    FrameIgnoresChunking(work, script, maxLen);
    FindDelimiterExtends(work, (work + Delivered(script))[..maxLen - 1]);
    FrameConserves(work, script, maxLen);
    assert Frame(work, script, maxLen).outcome == Overflow;
  }

  /** A line in the stream is returned whole: when carry-over plus stream
      start with a NUL-free, delimiter-free message, its delimiter and a
      tail, and the message fits the buffer, the call returns that message
      and keeps the tail (partly as carry-over, partly still queued). */
  lemma {:induction false} NextLine(work: seq<byte>, script: seq<Event>, maxLen: nat,
                                    msg: seq<byte>, tail: seq<byte>)
    requires maxLen >= 1 && |work| < maxLen
    requires work + Delivered(script) == msg + CRLF + tail
    requires NulFree(msg) && NoDelimiterBefore(msg + CRLF, |msg|)
    requires |msg| + 2 < maxLen
    ensures Frame(work, script, maxLen).outcome == Message(msg)
    ensures Frame(work, script, maxLen).carry + Delivered(Frame(work, script, maxLen).rest) == tail
    decreases maxLen - |work|
  {
    var all := work + Delivered(script);
    assert FindDelimiter(all) == Some(|msg|) by {
      var line := msg + CRLF;
      assert line[..|msg|] == msg;
      FindDelimiterIs(line, |msg|);
      assert line <= all;
      FindDelimiterExtends(line, all);
    }
    if FindDelimiter(work).Some? {
      assert FindDelimiter(work) == Some(|msg|) by {
        FindDelimiterExtends(work, all);
      }
      LineInBuffer(work, script, maxLen, msg, tail);
    } else {
      // without a delimiter the buffer is shorter than msg + CRLF, so the
      // stream still has bytes to deliver
      assert |work| < |msg| + 2 by {
        FindDelimiterExtends(work, all);
      }
      var n := maxLen - |work| - 1;
      var s := Recv(script, n);
      assert s.result.Got? && s.result.bytes + Delivered(s.rest) == Delivered(script) by {
        RecvTakesPrefix(script, n);
      }
      var w := work + s.result.bytes;
      assert Frame(work, script, maxLen) == Frame(w, s.rest, maxLen) by {
        FrameReceives(work, script, maxLen);
      }
      assert w + Delivered(s.rest) == all;
      NextLine(w, s.rest, maxLen, msg, tail);
    }
  }

  /** The case of NextLine where the buffer already holds the delimiter. */
  lemma LineInBuffer(work: seq<byte>, script: seq<Event>, maxLen: nat, msg: seq<byte>, tail: seq<byte>)
    requires maxLen >= 1
    requires work + Delivered(script) == msg + CRLF + tail
    requires FindDelimiter(work) == Some(|msg|)
    ensures Frame(work, script, maxLen).outcome == Message(msg)
    ensures Frame(work, script, maxLen).carry + Delivered(Frame(work, script, maxLen).rest) == tail
  {
    FrameStops(work, script, maxLen);
    var all := work + Delivered(script);
    assert work[..|msg|] == all[..|msg|] == msg;
    assert all[|msg| + 2..] == tail;
    assert all[|msg| + 2..] == work[|msg| + 2..] + Delivered(script);
  }

  // ---------------------------------------------------------------------
  // The framer of one connection

  /** The carry-over of recv_until_delimiter: the bytes that followed the
      last delimiter returned. In tcp_utils.c it lives in static storage
      shared by every caller; here each connection owns one Framer. */
  class Framer {
    const leftover: array<byte>
    var leftoverLen: nat

    ghost predicate Valid()
      reads this
    {
      leftover.Length == BuffSize && leftoverLen <= BuffSize
    }

    ghost function Carry(): seq<byte>
      reads this, leftover
      requires Valid()
    {
      leftover[..leftoverLen]
    }

    constructor ()
      ensures Valid() && fresh(leftover) && Carry() == []
    {
      leftover := new byte[BuffSize](_ => 0);
      leftoverLen := 0;
    }

    /** The exit on a delimiter at msgLen among the totalLen bytes of
        buffer: the bytes after the delimiter become the carry-over (memmove
        into leftover, or an empty carry-over when there are none) and the
        message is NUL-terminated in place. */
    method TakeMessage(buffer: array<byte>, totalLen: nat, msgLen: nat, ghost work: seq<byte>)
      requires Valid() && buffer != leftover
      requires msgLen + 2 <= totalLen <= buffer.Length && totalLen <= BuffSize
      requires buffer[..totalLen] == work
      modifies this, leftover, buffer
      ensures Valid()
      ensures Carry() == work[msgLen + 2..] && leftoverLen == totalLen - msgLen - 2
      ensures buffer[..msgLen] == work[..msgLen] && buffer[msgLen] == NUL
    {
      var afterDelimiter := totalLen - msgLen - 2;
      if afterDelimiter > 0 {
        CopyBytes(buffer, msgLen + 2, leftover, 0, afterDelimiter);
        leftoverLen := afterDelimiter;
      } else {
        leftoverLen := 0;
      }
      assert work[msgLen + 2..] == buffer[msgLen + 2..totalLen];
      buffer[msgLen] := NUL;
      assert buffer[..msgLen] == old(buffer[..msgLen]);
    }

    /** recv_until_delimiter(sock, buffer, max_len): fills buffer with the
        carry-over and then with received bytes until it holds a delimiter;
        returns the length of the message before it and leaves the message
        NUL-terminated in buffer, with what follows the delimiter kept as
        carry-over. Returns -1 once max_len - 1 bytes hold no delimiter or
        when a receive fails, and 0 when the peer closes; each of these
        discards the carry-over. */
    method RecvUntilDelimiter(buffer: array<byte>, maxLen: nat, script: seq<Event>)
      returns (r: int, rest: seq<Event>)
      requires Valid() && buffer != leftover
      requires 1 <= maxLen <= buffer.Length && maxLen <= BuffSize
      requires leftoverLen < maxLen
      modifies this, leftover, buffer
      ensures Valid()
      ensures var f := Frame(old(Carry()), script, maxLen);
              r == ReturnValue(f.outcome) && Carry() == f.carry && rest == f.rest
      ensures var f := Frame(old(Carry()), script, maxLen);
              f.outcome.Message? ==> r < maxLen && buffer[..r] == f.outcome.msg && buffer[r] == NUL
      // the carry-over always fits the next call's buffer
      ensures leftoverLen < maxLen
    {
      ghost var work0 := Carry();
      var totalLen := leftoverLen;
      if leftoverLen > 0 {
        CopyBytes(leftover, 0, buffer, 0, leftoverLen);
      }
      var stop;
      stop, totalLen, rest := ReceiveUntilStop(buffer, totalLen, maxLen, script, work0);
      match stop
      case Delimiter(msgLen) =>
        TakeMessage(buffer, totalLen, msgLen, buffer[..totalLen]);
        r := msgLen;
      case BufferFull =>
        leftoverLen := 0;
        r := -1;
      case RecvFailed =>
        leftoverLen := 0;
        r := -1;
      case PeerGone =>
        leftoverLen := 0;
        r := 0;
    }
  }

  /** Why the loop of recv_until_delimiter stops. */
  datatype Stop = Delimiter(msgLen: nat) | BufferFull | RecvFailed | PeerGone

  /** The loop of recv_until_delimiter up to the point where it returns:
      searches the buffer, and receives more bytes behind the len0 bytes
      already held while there is room and no delimiter. What it stops on
      is what the call returns. */
  method ReceiveUntilStop(buffer: array<byte>, len0: nat, maxLen: nat, script: seq<Event>,
                          ghost work0: seq<byte>)
    returns (stop: Stop, totalLen: nat, rest: seq<Event>)
    requires 1 <= maxLen <= buffer.Length && len0 < maxLen && buffer[..len0] == work0
    modifies buffer
    ensures totalLen < maxLen
    ensures var f := Frame(work0, script, maxLen);
            match stop
            case Delimiter(msgLen) =>
              msgLen + 2 <= totalLen && rest == f.rest
              && f == Framing(Message(buffer[..msgLen]), buffer[msgLen + 2..totalLen], rest)
            case BufferFull => f == Framing(Overflow, [], rest)
            case RecvFailed => f == Framing(RecvError, [], rest)
            case PeerGone => f == Framing(PeerClosed, [], rest)
  {
    ghost var f0 := Frame(work0, script, maxLen);
    ghost var work := work0;
    totalLen, rest := len0, script;
    while true
      invariant totalLen == |work| < maxLen && buffer[..totalLen] == work
      invariant Frame(work, rest, maxLen) == f0
      decreases maxLen - totalLen
    {
      var delimiterPos := FindDelimiter(buffer[..totalLen]);
      if delimiterPos.Some? {
        var msgLen := delimiterPos.value;
        assert f0 == Framing(Message(work[..msgLen]), work[msgLen + 2..], rest) by {
          FrameStops(work, rest, maxLen);
        }
        assert buffer[..msgLen] == work[..msgLen];
        assert buffer[msgLen + 2..totalLen] == work[msgLen + 2..];
        return Delimiter(msgLen), totalLen, rest;
      }
      if totalLen >= maxLen - 1 {
        assert f0 == Framing(Overflow, [], rest) by {
          FrameStops(work, rest, maxLen);
        }
        return BufferFull, totalLen, rest;
      }
      var bytesRecv := Recv(rest, maxLen - totalLen - 1);
      if bytesRecv.result.Failed? {
        assert f0 == Framing(RecvError, [], bytesRecv.rest) by {
          FrameReceives(work, rest, maxLen);
        }
        return RecvFailed, totalLen, bytesRecv.rest;
      }
      if bytesRecv.result.Closed? {
        assert f0 == Framing(PeerClosed, [], bytesRecv.rest) by {
          FrameReceives(work, rest, maxLen);
        }
        return PeerGone, totalLen, bytesRecv.rest;
      }
      var got := bytesRecv.result.bytes;
      assert Frame(work + got, bytesRecv.rest, maxLen) == f0 by {
        FrameReceives(work, rest, maxLen);
      }
      AppendReceived(buffer, totalLen, got, work);
      totalLen := totalLen + |got|;
      work := work + got;
      rest := bytesRecv.rest;
    }
  }

  /** recv(sock, buffer + len, ...) followed by buffer[len + |got|] = '\0':
      the received bytes land after the len bytes already held, and the
      buffer stays NUL-terminated. */
  method AppendReceived(buffer: array<byte>, len: nat, got: seq<byte>, ghost work: seq<byte>)
    requires len + |got| < buffer.Length && buffer[..len] == work
    modifies buffer
    ensures buffer[..len + |got|] == work + got
    ensures buffer[len + |got|] == NUL
  {
    Store(buffer, len, got);
    assert buffer[..len + |got|] == work + got;
    buffer[len + |got|] := NUL;
    assert buffer[..len + |got|] == old(buffer[..len]) + got;
  }
}
