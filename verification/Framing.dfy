/** One request and one response over a byte stream that delivers in chunks of
    any size. */
module Framing {
  import opened Prelude
  import opened Buffers
  import opened Ttlv
  import opened TtlvCodec
  import opened Elements
  import opened Protocol
  import opened Messages

  const IO_FAILURE := -13
  const LENGTH_BYTES: nat := 8

  /** The transport as an oracle: `script` holds the outcome of each coming
      call, a positive bound on the bytes moved or a failure; a call past its
      end fails too. */
  class NetClient {
    var inbound: seq<byte>
    var outbound: seq<byte>
    var script: seq<int>
    var connected: bool

    method Next() returns (n: int)
      modifies this`script
      ensures n == if old(script) == [] then 0 else old(script)[0]
      ensures script == if old(script) == [] then [] else old(script)[1..]
    {
      if script == [] {
        return 0;
      }
      n, script := script[0], script[1..];
    }

    method Send(data: seq<byte>) returns (n: int)
      modifies this`script, this`outbound
      ensures n <= |data| && outbound == old(outbound) + data[..if n > 0 then n else 0]
      ensures data != [] ==> (n > 0 <==> old(script) != [] && old(script)[0] > 0)
      ensures old(script) != [] && old(script)[0] <= |data| ==> n == old(script)[0]
      ensures script == if old(script) == [] then [] else old(script)[1..]
    {
      n := Next();
      if n > |data| {
        n := |data|;
      }
      if n > 0 {
        outbound := outbound + data[..n];
      }
    }

    /** Fills the buffer from position `from` on. */
    method Recv(buf: array<byte>, from: nat) returns (n: int)
      requires from <= buf.Length
      modifies this`script, this`inbound, buf
      ensures from + n <= buf.Length && n <= |old(inbound)|
      ensures var m := if n > 0 then n else 0;
              buf[..from + m] == old(buf[..from]) + old(inbound)[..m] && inbound == old(inbound)[m..]
      ensures buf.Length > from && old(inbound) != [] ==> (n > 0 <==> old(script) != [] && old(script)[0] > 0)
      ensures script == if old(script) == [] then [] else old(script)[1..]
    {
      n := Next();
      if n > buf.Length - from {
        n := buf.Length - from;
      }
      if n > |inbound| {
        n := |inbound|;
      }
      if n > 0 {
        forall i | 0 <= i < n {
          buf[from + i] := inbound[i];
        }
        assert buf[..from + n] == old(buf[..from]) + inbound[..n];
        inbound := inbound[n..];
      }
    }

    method Close()
      modifies this`connected
      ensures !connected
    {
      connected := false;
    }
  }

  /** No call fails, and there are at least `n` to come. */
  ghost predicate Reliable(script: seq<int>, n: int) {
    |script| >= n && forall i :: 0 <= i < |script| ==> script[i] > 0
  }

  /** The first call moves as much as the length, cast to an int, asks for. */
  ghost predicate Suffices(script: seq<int>, request: seq<byte>) {
    script != [] && 0 < Cast32(|request|) <= script[0] <= |request|
  }

  /** One whole message: a TTLV header and as many bytes as it declares. */
  ghost predicate Framed(m: seq<byte>) {
    |m| >= LENGTH_BYTES && |m| == LENGTH_BYTES + ReadBe32(m, 4)
  }

  /** The length that the header in front of a stream declares, as an unsigned number. */
  function DeclaredLength(stream: seq<byte>): nat
    requires |stream| >= 8
  {
    16777216 * stream[4] as int + 65536 * stream[5] as int + 256 * stream[6] as int + stream[7] as int
  }

  /** A message of this length is received: it is within the limit asked for, and
      within 16 MiB. Lengths that are negative as an int are beyond both. */
  predicate Receivable(length: nat, maxMessageSize: nat) {
    length <= maxMessageSize && length <= 16777216
  }

  /** The stream begins with the message `m`, which is within the limits. */
  ghost predicate StartsWith(stream: seq<byte>, m: seq<byte>, maxMessageSize: nat) {
    && 8 <= |m| == 8 + DeclaredLength(m) && m <= stream && Receivable(|m| - 8, maxMessageSize)
  }

  /** What one reader of messages does on a transport that does not fail: it takes the
      message in front if that is receivable, and refuses it otherwise. */
  ghost predicate TakesFirst(stream: seq<byte>, maxMessageSize: nat, r: Result<seq<byte>>) {
    |stream| >= 8 ==>
      var n := DeclaredLength(stream);
      if Receivable(n, maxMessageSize) then 8 + n <= |stream| ==> r == Ok(stream[..8 + n])
      else r == Err(-14)
  }

  lemma LengthRead(stream: seq<byte>)
    requires |stream| >= 8
    ensures ReadBe32(stream[..8], 4) == DeclaredLength(stream)
  {
  }

  lemma FirstMessage(stream: seq<byte>, r: Result<seq<byte>>, maxMessageSize: nat)
    requires |stream| >= 8
    requires r.Ok? ==> 8 + DeclaredLength(stream) <= |stream| && r.value == stream[..8 + DeclaredLength(stream)]
    requires r.Ok? ==> Receivable(DeclaredLength(stream), maxMessageSize)
    ensures r.Ok? ==> StartsWith(stream, r.value, maxMessageSize)
  {
  }

  lemma MoreRead(head: seq<byte>, stream: seq<byte>, n: nat, received: nat)
    requires n + received <= |stream|
    ensures head + stream[..n] + stream[n..][..received] == head + stream[..n + received]
    ensures stream[n..][received..] == stream[n + received..]
  {
  }

  class IOUtils {
    const net: NetClient

    constructor (net: NetClient)
      ensures this.net == net
    {
      this.net := net;
    }

    /** Success means that the length, cast to an int, has gone out: all of a request
        below 2^31 bytes, at least the cast length of a longer one. */
    method Send(request: seq<byte>) returns (r: Result<()>, ghost sent: nat)
      modifies net`script, net`outbound
      ensures sent <= |request| && net.outbound == old(net.outbound) + request[..sent]
      ensures r.Ok? ==> 0 < Cast32(|request|) <= sent
      ensures |request| < 0x8000_0000 && r.Ok? ==> sent == |request| > 0
      ensures r.Err? ==> r.code == IO_FAILURE
      ensures old(Suffices(net.script, request)) ==> r.Ok? && sent == old(net.script[0])
      ensures 0 < |request| < 0x8000_0000 && old(Reliable(net.script, |request|)) ==>
                r.Ok? && Reliable(net.script, |old(net.script)| - |request|)
    {
      sent := 0;
      assert net.outbound == net.outbound + request[..0];
      var dlen := Cast32(|request|);
      if dlen <= 0 {
        return Err(IO_FAILURE), sent;
      }
      var totalSent := 0;
      while totalSent < dlen
        invariant 0 <= totalSent <= |request| && sent == totalSent
        invariant net.outbound == old(net.outbound) + request[..totalSent]
        invariant old(Reliable(net.script, |request|)) ==> Reliable(net.script, |old(net.script)| - totalSent)
        invariant totalSent == 0 ==> net.script == old(net.script)
        invariant old(Suffices(net.script, request)) ==> totalSent == 0 || totalSent == old(net.script[0])
        decreases dlen - totalSent
      {
        var n := net.Send(request[totalSent..]);
        assert request[..totalSent] + request[totalSent..][..if n > 0 then n else 0] ==
               request[..totalSent + if n > 0 then n else 0];
        if n <= 0 {
          return Err(IO_FAILURE), sent;
        }
        totalSent, sent := totalSent + n, sent + n;
      }
      return Ok(()), sent;
    }

    /** Fills `buf` from position `from`, in as many reads as it takes: to its end,
        below 2^31 bytes, and at least as far as the cast length beyond. */
    method ReadExact(buf: array<byte>, from: nat) returns (r: Result<()>, ghost got: nat)
      requires from <= buf.Length
      modifies net`script, net`inbound, buf
      ensures from + got <= buf.Length && got <= |old(net.inbound)| && net.inbound == old(net.inbound)[got..]
      ensures buf[..from + got] == old(buf[..from]) + old(net.inbound)[..got]
      ensures r.Ok? ==> Cast32(buf.Length - from) <= got
      ensures r.Ok? && buf.Length - from < 0x8000_0000 ==> from + got == buf.Length
      ensures r.Err? ==> r.code == IO_FAILURE
      ensures |old(net.inbound)| >= buf.Length - from && old(Reliable(net.script, buf.Length - from)) ==>
                r.Ok? && Reliable(net.script, |old(net.script)| - got)
    {
      var totalRead := 0;
      var n := Cast32(buf.Length - from);
      ghost var head, stream := buf[..from], net.inbound;
      got := 0;
      while totalRead < n
        invariant got == totalRead && from + totalRead <= buf.Length && totalRead <= |stream|
        invariant net.inbound == stream[totalRead..]
        invariant buf[..from + totalRead] == head + stream[..totalRead]
        invariant old(Reliable(net.script, buf.Length - from)) ==> Reliable(net.script, |old(net.script)| - totalRead)
      {
        ghost var before := totalRead;
        var received := net.Recv(buf, from + totalRead);
        if received <= 0 {
          return Err(IO_FAILURE), got;
        }
        MoreRead(head, stream, before, received);
        totalRead, got := totalRead + received, got + received;
      }
      return Ok(()), got;
    }

    /** Reads one framed message, or fails. */
    method ReceiveMessage(maxMessageSize: nat) returns (r: Result<seq<byte>>)
      modifies net`script, net`inbound
      ensures r.Ok? ==> && StartsWith(old(net.inbound), r.value, maxMessageSize)
                        && old(net.inbound) == r.value + net.inbound
      ensures r.Err? ==> r.code == -13 || r.code == -14
      ensures r.Err? && r.code == -14 ==>
                |old(net.inbound)| >= 8 && !Receivable(DeclaredLength(old(net.inbound)), maxMessageSize)
      ensures old(Reliable(net.script, |net.inbound|)) ==> TakesFirst(old(net.inbound), maxMessageSize, r)
    {
      ghost var stream := net.inbound;
      var lengthBuf := new byte[LENGTH_BYTES];
      var head;
      ghost var got;
      head, got := ReadExact(lengthBuf, 0);
      if head.Err? {
        assert |stream| < LENGTH_BYTES || !old(Reliable(net.script, |net.inbound|));
        return Err(head.code);
      }
      assert lengthBuf[..] == lengthBuf[..8] == stream[..8];
      LengthRead(stream);
      var length := Signed32(ReadBe32(lengthBuf[..], 4));
      var effectiveLimit := if maxMessageSize < MESSAGE_HARD_LIMIT then maxMessageSize else MESSAGE_HARD_LIMIT;
      if length < 0 || length > effectiveLimit {
        return Err(EXCEED_MAX_MESSAGE_SIZE);
      }
      r := ReadBody(lengthBuf, length);
      if r.Ok? {
        assert stream[..8] + stream[8..][..length] == stream[..8 + length];
        FirstMessage(stream, r, maxMessageSize);
      }
    }

    /** The header already read, followed by `length` more bytes. */
    method ReadBody(lengthBuf: array<byte>, length: nat) returns (r: Result<seq<byte>>)
      requires lengthBuf.Length == LENGTH_BYTES && length < 0x7FFF_FFF8
      modifies net`script, net`inbound
      ensures r.Ok? ==> && length <= |old(net.inbound)| && net.inbound == old(net.inbound)[length..]
                        && r.value == lengthBuf[..] + old(net.inbound)[..length]
      ensures r.Err? ==> r.code == IO_FAILURE
      ensures length <= |old(net.inbound)| && old(Reliable(net.script, length)) ==> r.Ok?
    {
      var response := new byte[LENGTH_BYTES + length];
      forall i | 0 <= i < LENGTH_BYTES {
        response[i] := lengthBuf[i];
      }
      assert response[..8] == lengthBuf[..];
      var body;
      ghost var got;
      body, got := ReadExact(response, LENGTH_BYTES);
      if body.Err? {
        return Err(body.code);
      }
      assert response[..] == response[..LENGTH_BYTES + got];
      return Ok(response[..]);
    }

    /** Sends the request and reads the answer. On success exactly the request
        went out and exactly one message came in, so the stream stands at the
        next message; on any failure the connection is closed. Over a transport
        that does not fail, the exchange succeeds. */
    method DoExchange(request: seq<byte>, maxMessageSize: nat) returns (r: Result<seq<byte>>)
      modifies net
      ensures exists k :: 0 <= k <= |request| && net.outbound == old(net.outbound) + request[..k]
      ensures r.Ok? ==> && StartsWith(old(net.inbound), r.value, maxMessageSize)
                        && old(net.inbound) == r.value + net.inbound && net.connected == old(net.connected)
      ensures r.Ok? && |request| < 0x8000_0000 ==> net.outbound == old(net.outbound) + request
      ensures r.Err? ==> !net.connected && (r.code == -13 || r.code == -14)
      ensures 0 < |request| < 0x8000_0000 && old(Reliable(net.script, |request| + |net.inbound|)) ==>
                TakesFirst(old(net.inbound), maxMessageSize, r)
    {
      var out, sent := Send(request);
      assert |request| < 0x8000_0000 && out.Ok? ==> request[..sent] == request;
      if out.Err? {
        net.Close();
        return Err(out.code);
      }
      r := ReceiveMessage(maxMessageSize);
      if r.Err? {
        net.Close();
      }
    }
  }

  /** The cast matters: a request longer than its length as an int, one of 2^32 + 5
      bytes say, is reported as sent once a call has moved that many bytes. */
  method PartSent(io: IOUtils, request: seq<byte>, n: nat) returns (r: Result<()>)
    requires 0 < n < 0x8000_0000 && n < |request| && |request| % 0x1_0000_0000 == n && io.net.script == [n]
    modifies io.net
    ensures r.Ok? && io.net.outbound == old(io.net.outbound) + request[..n]
  {
    ghost var sent;
    r, sent := io.Send(request);
  }

  /** A framed message that decodes at all decodes to the last byte, so the
      check for trailing bytes never rejects what DoExchange returned. */
  lemma FramedLeavesNothing(m: seq<byte>)
    requires Framed(m) && Decode(m, 0).Some?
    ensures |Encode(Decode(m, 0).value)| == |m|
  {
    var e := Decode(m, 0).value;
    HeaderOf(m, 0, e);
    assert m[0..] == m;
  }

  /** Every encoding that fits the length field is framed. */
  lemma EncodingIsFramed(e: Element)
    requires Encodable(e) && |Payload(e.value)| % 8 == 0
    ensures Framed(Encode(e))
  {
    assert Encode(e)[0..] == Encode(e);
    HeaderOf(Encode(e), 0, e);
  }

  /** The response size that a message accepts: its own, as a size_t, or 1 MiB. */
  function AcceptedSize(message: RequestMessage): nat
    reads message
  {
    var own := message.header.maxResponseSize;
    if own.None? then 1048576 else if own.value < 0 then own.value + 18446744073709551616 else own.value
  }

  /** A request that RequestMessage serializes is far below 2^31 bytes, so it goes
      out whole and one message comes back, or the connection is closed, if it was
      used at all. A transport that does not fail brings the message in front. */
  method ExchangeMessage(io: IOUtils, message: RequestMessage, now: int64) returns (r: Result<seq<byte>>)
    modifies io.net
    ensures r.Ok? ==>
              && io.net.outbound == old(io.net.outbound) + Encode(RequestElement(message.Sent(now)))
              && StartsWith(old(io.net.inbound), r.value, AcceptedSize(message))
              && old(io.net.inbound) == r.value + io.net.inbound
    ensures r.Err? ==> !io.net.connected || io.net.outbound == old(io.net.outbound)
    ensures var e := RequestElement(message.Sent(now));
            && message.items != [] && VersionValid(e, message.header.version) && |Encode(e)| <= 67108864
            && old(Reliable(io.net.script, |Encode(e)| + |io.net.inbound|)) ==>
              TakesFirst(old(io.net.inbound), AcceptedSize(message), r)
  {
    var bytes :- message.Serialize(now);
    r := io.DoExchange(bytes, message.MaxResponseSize());
  }
}
