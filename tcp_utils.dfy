/** The reliable transport helpers of tcp_utils.c: send_all and recv_all loop
    over send(2) and recv(2) until the whole length is transferred, the peer
    closes, or a call fails. */
module TcpUtils {
  import opened Wire

  /** The fate of `left` outstanding bytes offered to a send script: how many
      the kernel took, whether all of them went out, and the unused events. */
  datatype Transfer = Transfer(sent: nat, ok: bool, rest: seq<SendEvent>)

  function Transmit(left: nat, script: seq<SendEvent>): (t: Transfer)
    decreases |script|, left
    ensures t.ok ==> t.sent == left
    ensures !t.ok ==> t.sent < left
  {
    if left == 0 then Transfer(0, true, script)
    else
      var s := Send(script, left);
      if s.took == -1 then Transfer(0, false, s.rest)
      else
        var t := Transmit(left - s.took, s.rest);
        Transfer(s.took + t.sent, t.ok, t.rest)
  }

  /** A peer that never fails a send(2) takes every byte, however few bytes
      each call accepts. */
  lemma {:induction false} TransmitWithoutFault(left: nat, script: seq<SendEvent>)
    requires forall k | 0 <= k < |script| :: script[k].Accepted?
    ensures Transmit(left, script).ok && Transmit(left, script).sent == left
    decreases |script|, left
  {
    if left > 0 {
      var s := Send(script, left);
      TransmitWithoutFault(left - s.took, s.rest);
    }
  }

  /** send_all(sock, data, len): offers data[total..len] to send(2) until
      every byte is taken; returns len, or -1 as soon as one send fails.
      `wire` is what reached the connection, `rest` the unused events. */
  method SendAll(data: array<byte>, len: nat, script: seq<SendEvent>)
    returns (r: int, wire: seq<byte>, rest: seq<SendEvent>)
    requires len <= data.Length
    ensures r == len || r == -1
    ensures r == len ==> wire == data[..len]
    ensures r == -1 ==> |wire| < len && wire == data[..|wire|]
    ensures var t := Transmit(len, script);
            (r == len <==> t.ok) && |wire| == t.sent && rest == t.rest
  {
    var totalSent: nat := 0;
    var bytesLeft: nat := len;
    wire, rest := [], script;
    while totalSent < len
      invariant totalSent + bytesLeft == len
      invariant wire == data[..totalSent]
      invariant var t := Transmit(bytesLeft, rest);
                Transmit(len, script) == Transfer(totalSent + t.sent, t.ok, t.rest)
      decreases |rest|, bytesLeft
    {
      var n := Send(rest, bytesLeft);
      if n.took == -1 {
        r, rest := -1, n.rest;
        return;
      }
      wire := wire + data[totalSent..totalSent + n.took];
      totalSent := totalSent + n.took;
      bytesLeft := bytesLeft - n.took;
      rest := n.rest;
    }
    r := totalSent;
  }

  /** recv_all(sock, data, len): receives into data[total..len] until len
      bytes have arrived; returns len, 0 if the peer closes first, -1 if a
      receive fails first. Bytes that did arrive are kept in data. */
  method RecvAll(data: array<byte>, len: nat, script: seq<Event>)
    returns (r: int, rest: seq<Event>)
    requires len <= data.Length
    modifies data
    ensures var d := Delivered(script);
            len <= |d| ==> (r == len && data[..len] == d[..len]
                            && Delivered(rest) == d[len..] && EndOf(rest) == EndOf(script)
                            && Remainder(rest) == Remainder(script)
                            && data[len..] == old(data[len..]))
    ensures var d := Delivered(script);
            |d| < len ==> (r == (if EndOf(script) == EndOfStream then 0 else -1)
                           && data[..|d|] == d && rest == Remainder(script)
                           && data[|d|..] == old(data[|d|..]))
  {
    ghost var d := Delivered(script);
    var totalRecv: nat := 0;
    var bytesLeft: nat := len;
    rest := script;
    while totalRecv < len
      invariant totalRecv + bytesLeft == len
      invariant totalRecv <= |d| && data[..totalRecv] == d[..totalRecv]
      invariant Delivered(rest) == d[totalRecv..]
      invariant EndOf(rest) == EndOf(script) && Remainder(rest) == Remainder(script)
      invariant data[totalRecv..] == old(data[totalRecv..])
    {
      var n := Recv(rest, bytesLeft);
      RecvTakesPrefix(rest, bytesLeft);
      if n.result.Failed? {
        r, rest := -1, n.rest;
        return;
      }
      if n.result.Closed? {
        r, rest := 0, n.rest;
        return;
      }
      var got := n.result.bytes;
      Store(data, totalRecv, got);
      assert d[totalRecv..][..|got|] == got;
      totalRecv := totalRecv + |got|;
      bytesLeft := bytesLeft - |got|;
      rest := n.rest;
    }
    r := totalRecv;
  }
}
