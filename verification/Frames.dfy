/**
 Length-prefixed frames on the Plasma socket: the Go reader and writer, the Python client's
 reader and writer, and a transport that delivers bytes in chunks of its own choosing.
 */
module Frames {
  import opened Collections

  type byte = x: int | 0 <= x < 256

  const MAX_FRAME: int := 0x40_0000
  const TWO_32: int := 0x1_0000_0000

  // The wire format ----------------------------------------------------------------------------

  /** Big-endian, as `binary.BigEndian` and `struct.pack(">I", ...)` write it. */
  function Header(n: int): (h: seq<byte>)
    requires 0 <= n < TWO_32
    ensures |h| == 4
  {
    [n / 0x100_0000, (n / 0x1_0000) % 0x100, (n / 0x100) % 0x100, n % 0x100]
  }

  function HeaderValue(h: seq<byte>): (n: int)
    requires |h| == 4
    ensures 0 <= n < TWO_32
  {
    var a: int, b: int, c: int := h[0], h[1], h[2];
    a * 0x100_0000 + b * 0x1_0000 + c * 0x100 + h[3]
  }

  lemma HeaderRoundTrip(n: int)
    requires 0 <= n < TWO_32
    ensures HeaderValue(Header(n)) == n
  {
    var a, b := n / 0x100, n / 0x1_0000;
    assert b == a / 0x100 && n / 0x100_0000 == b / 0x100;
  }

  /** Most significant byte first. */
  lemma BigEndian(a: byte, b: byte, c: byte, d: byte)
    ensures Header(((a * 0x100 + b) * 0x100 + c) * 0x100 + d) == [a, b, c, d]
    ensures HeaderValue([a, b, c, d]) == ((a * 0x100 + b) * 0x100 + c) * 0x100 + d
  {
    var x := (a * 0x100 + b) * 0x100 + c;
    assert (x * 0x100 + d) / 0x100 == x && (x * 0x100 + d) % 0x100 == d;
    assert x / 0x100 == a * 0x100 + b && x % 0x100 == c;
  }

  /** The bytes of one frame. The length field is a `uint32`, so a longer payload wraps it. */
  function Encode(payload: seq<byte>): seq<byte> {
    Header(|payload| % TWO_32) + payload
  }

  /** On the wire: four bytes that hold the payload's length modulo 2^32, most significant first, then the payload as it is. */
  lemma FrameLayout(payload: seq<byte>, a: byte, b: byte, c: byte, d: byte)
    requires |payload| % TWO_32 == ((a * 0x100 + b) * 0x100 + c) * 0x100 + d
    ensures Encode(payload) == [a, b, c, d] + payload
  {
    BigEndian(a, b, c, d);
  }

  datatype Received = Frame(body: seq<byte>) | Eof | ShortRead | TooLarge(length: int)

  /** What a reader gets from a byte stream that then ends, and what it leaves unread. */
  function Decode(data: seq<byte>): (Received, seq<byte>) {
    if |data| < 4 then (if data == [] then Eof else ShortRead, [])
    else
      var ln := HeaderValue(data[..4]);
      if ln > MAX_FRAME then (TooLarge(ln), data[4..])
      else if |data| - 4 < ln then (if |data| == 4 then Eof else ShortRead, [])
      else (Frame(data[4..4 + ln]), data[4 + ln..])
  }

  // Transport --------------------------------------------------------------------------------------

  class Transport {
    /** Bytes on their way to the reader. */
    var data: seq<byte>

    constructor ()
      ensures data == []
    {
      data := [];
    }

    /** Some of the available bytes, at least one unless the stream has ended. */
    method Recv(n: int) returns (chunk: seq<byte>)
      requires n > 0
      modifies this
      ensures |chunk| <= n && chunk + data == old(data)
      ensures chunk == [] <==> old(data) == []
    {
      if data == [] {
        return [];
      }
      var k :| 0 < k <= n && k <= |data|;
      chunk, data := data[..k], data[k..];
    }

    method Send(bytes: seq<byte>)
      modifies this
      ensures data == old(data) + bytes
    {
      data := data + bytes;
    }
  }

  function Min(a: int, b: int): int {
    if a < b then a else b
  }

  // Go end -------------------------------------------------------------------------------------------

  /** One read lands in the buffer behind the bytes already there. */
  method Store(buf: array<byte>, n: nat, chunk: seq<byte>)
    requires n + |chunk| <= buf.Length
    modifies buf
    ensures buf[..n + |chunk|] == old(buf[..n]) + chunk
  {
    forall i | 0 <= i < |chunk| {
      buf[n + i] := chunk[i];
    }
    assert forall i :: 0 <= i < n ==> buf[i] == old(buf[i]);
  }

  /** A chunk taken off the front of what remains extends what has been taken. */
  lemma TakeChunk(all: seq<byte>, n: nat, chunk: seq<byte>, rest: seq<byte>)
    requires n <= |all| && chunk + rest == all[n..]
    ensures n + |chunk| <= |all|
    ensures all[..n + |chunk|] == all[..n] + chunk && all[n + |chunk|..] == rest
  {
    assert |chunk| + |rest| == |all| - n;
    assert all == all[..n] + (chunk + rest);
    Reassociate(all[..n], chunk, rest);
  }

  /** `io.ReadFull`: fills the buffer from as many reads as it takes. */
  method ReadFull(r: Transport, buf: array<byte>) returns (n: nat)
    modifies r, buf
    ensures n == Min(buf.Length, |old(r.data)|)
    ensures buf[..n] == old(r.data)[..n] && r.data == old(r.data)[n..]
  {
    n := 0;
    ghost var all := r.data;
    while n < buf.Length
      invariant 0 <= n <= buf.Length && n <= |all|
      invariant buf[..n] == all[..n] && r.data == all[n..]
    {
      var chunk := r.Recv(buf.Length - n);
      TakeChunk(all, n, chunk, r.data);
      if |chunk| == 0 {
        return;
      }
      Store(buf, n, chunk);
      n := n + |chunk|;
    }
  }

  method ReadFrameBytes(r: Transport) returns (res: Received)
    modifies r
    ensures (res, r.data) == Decode(old(r.data))
  {
    ghost var all := r.data;
    var hdr := new byte[4];
    var n := ReadFull(r, hdr);
    if n < 4 {
      return if n == 0 then Eof else ShortRead;
    }
    assert hdr[..4] == hdr[..];
    var ln := HeaderValue(hdr[..]);
    if ln > MAX_FRAME {
      return TooLarge(ln);
    }
    if ln == 0 {
      return Frame([]);
    }
    var body := new byte[ln];
    n := ReadFull(r, body);
    if n < ln {
      return if n == 0 then Eof else ShortRead;
    }
    assert body[..n] == body[..];
    assert all[4..][..ln] == all[4..4 + ln] && all[4..][ln..] == all[4 + ln..];
    return Frame(body[..]);
  }

  /** `WriteJSONFrame` once the value is marshalled: two writes, no size check. */
  method WriteFrame(w: Transport, b: seq<byte>)
    modifies w
    ensures w.data == old(w.data) + Encode(b)
  {
    w.Send(Header(|b| % TWO_32));
    w.Send(b);
  }

  // Python end ------------------------------------------------------------------------------------------

  /** `_recv_exact`: collects chunks until `n` bytes are there. */
  method RecvExact(sock: Transport, n: int) returns (r: Option<seq<byte>>)
    requires n >= 0
    modifies sock
    ensures r.Some? <==> n <= |old(sock.data)|
    ensures r.Some? ==> r.value == old(sock.data)[..n] && sock.data == old(sock.data)[n..]
    ensures r.None? ==> sock.data == []
  {
    var parts: seq<byte> := [];
    var got := 0;
    while got < n
      invariant 0 <= got <= n && got == |parts|
      invariant parts + sock.data == old(sock.data)
    {
      var chunk := sock.Recv(n - got);
      if |chunk| == 0 {
        return None;
      }
      parts := parts + chunk;
      got := got + |chunk|;
    }
    return Some(parts);
  }

  /** `_recv_frame_json` up to the JSON decoding: the end of the stream is always an error. */
  method RecvFrame(sock: Transport) returns (res: Received)
    modifies sock
    ensures var (want, rest) := Decode(old(sock.data));
            res == (if want.Eof? then ShortRead else want) && sock.data == rest
  {
    var hdr := RecvExact(sock, 4);
    if hdr.None? {
      return ShortRead;
    }
    var ln := HeaderValue(hdr.value);
    if ln > MAX_FRAME {
      return TooLarge(ln);
    }
    if ln == 0 {
      return Frame([]);
    }
    var body := RecvExact(sock, ln);
    if body.None? {
      return ShortRead;
    }
    return Frame(body.value);
  }

  /** `_send_frame`: refuses what the reader would refuse. */
  method SendFrame(sock: Transport, raw: seq<byte>) returns (ok: bool)
    modifies sock
    ensures ok <==> |raw| <= 4 * 1024 * 1024
    ensures sock.data == old(sock.data) + if ok then Encode(raw) else []
  {
    if |raw| > MAX_FRAME {
      return false;
    }
    assert |raw| % TWO_32 == |raw|;
    sock.Send(Header(|raw|) + raw);
    return true;
  }

  // Round trip --------------------------------------------------------------------------------------------

  /** A frame comes back as sent, with the rest of the stream untouched, exactly when it is not over 4 MiB. */
  lemma FrameRoundTrip(b: seq<byte>, rest: seq<byte>)
    ensures |b| <= 4 * 1024 * 1024 ==> Decode(Encode(b) + rest) == (Frame(b), rest)
    ensures |b| > 4 * 1024 * 1024 ==> Decode(Encode(b) + rest).0 != Frame(b)
  {
    var ln := |b| % TWO_32;
    var data := Encode(b) + rest;
    assert data[..4] == Header(ln);
    HeaderRoundTrip(ln);
    if |b| <= MAX_FRAME {
      assert ln == |b|;
      assert data[4..4 + ln] == b && data[4 + ln..] == rest;
    }
  }

  /** A stream that ends inside a frame never yields one: nothing or a bare header reads as its end, anything else as cut off. */
  lemma TruncatedFrame(b: seq<byte>, n: nat)
    requires 0 < |b| <= MAX_FRAME && n < |Encode(b)|
    ensures Decode(Encode(b)[..n]) == (if n == 0 || n == 4 then Eof else ShortRead, [])
  {
    if n >= 4 {
      CutFrame(b, n);
    }
  }

  lemma CutFrame(b: seq<byte>, n: nat)
    requires 0 < |b| <= MAX_FRAME && 4 <= n < 4 + |b|
    ensures |Encode(b)[..n]| == n && HeaderValue(Encode(b)[..n][..4]) == |b|
  {
    assert Encode(b)[..n][..4] == Header(|b|);
    HeaderRoundTrip(|b|);
  }

  /** A frame over 4 MiB is refused with its length, and its payload is left unread. */
  lemma OversizeFrame(b: seq<byte>, rest: seq<byte>)
    requires 4 * 1024 * 1024 < |b| < TWO_32
    ensures Decode(Encode(b) + rest) == (TooLarge(|b|), b + rest)
  {
    var data := Encode(b) + rest;
    assert data[..4] == Header(|b|);
    HeaderRoundTrip(|b|);
    assert data[4..] == b + rest;
  }

  /** The frames of a list of payloads, one after the other. */
  function EncodeAll(payloads: seq<seq<byte>>, k: nat): seq<byte>
    requires k <= |payloads|
    decreases |payloads| - k
  {
    if k == |payloads| then [] else Encode(payloads[k]) + EncodeAll(payloads, k + 1)
  }

  /** The results of reading `n` frames, and the bytes that remain. */
  function DecodeMany(data: seq<byte>, n: nat): (r: (seq<Received>, seq<byte>))
    ensures |r.0| == n
    decreases n
  {
    if n == 0 then ([], data)
    else
      var (x, rest) := Decode(data);
      var (xs, last) := DecodeMany(rest, n - 1);
      ([x] + xs, last)
  }

  function AsFrames(payloads: seq<seq<byte>>, k: nat): (r: seq<Received>)
    requires k <= |payloads|
    ensures |r| == |payloads| - k
    decreases |payloads| - k
  {
    if k == |payloads| then [] else [Frame(payloads[k])] + AsFrames(payloads, k + 1)
  }

  ghost predicate AllFit(payloads: seq<seq<byte>>, k: nat) {
    forall j :: k <= j < |payloads| ==> |payloads[j]| <= MAX_FRAME
  }

  lemma EncodeAllStep(payloads: seq<seq<byte>>, k: nat, rest: seq<byte>)
    requires k < |payloads|
    ensures EncodeAll(payloads, k) + rest == Encode(payloads[k]) + (EncodeAll(payloads, k + 1) + rest)
  {
  }

  lemma {:induction false} TailDelivered(payloads: seq<seq<byte>>, k: nat, rest: seq<byte>)
    requires k <= |payloads| && AllFit(payloads, k)
    ensures DecodeMany(EncodeAll(payloads, k) + rest, |payloads| - k) == (AsFrames(payloads, k), rest)
    decreases |payloads| - k
  {
    if k < |payloads| {
      EncodeAllStep(payloads, k, rest);
      FrameRoundTrip(payloads[k], EncodeAll(payloads, k + 1) + rest);
      TailDelivered(payloads, k + 1, rest);
    } else {
      assert EncodeAll(payloads, k) + rest == rest;
    }
  }

  lemma {:induction false} TailMustFit(payloads: seq<seq<byte>>, k: nat, rest: seq<byte>)
    requires k <= |payloads|
    requires DecodeMany(EncodeAll(payloads, k) + rest, |payloads| - k).0 == AsFrames(payloads, k)
    ensures AllFit(payloads, k)
    decreases |payloads| - k
  {
    if k < |payloads| {
      var data, more := EncodeAll(payloads, k) + rest, EncodeAll(payloads, k + 1) + rest;
      EncodeAllStep(payloads, k, rest);
      FrameRoundTrip(payloads[k], more);
      assert DecodeMany(data, |payloads| - k).0[0] == Decode(data).0;
      assert DecodeMany(data, |payloads| - k).0[1..] == DecodeMany(Decode(data).1, |payloads| - k - 1).0;
      assert AsFrames(payloads, k)[1..] == AsFrames(payloads, k + 1);
      TailMustFit(payloads, k + 1, rest);
    }
  }

  /**
   Any sequence of payloads is read back in order, leaving what follows intact, exactly when each
   is at most 4 MiB. Both readers compute `Decode` whatever chunks the transport delivers.
   */
  lemma StreamRoundTrip(payloads: seq<seq<byte>>, rest: seq<byte>)
    ensures DecodeMany(EncodeAll(payloads, 0) + rest, |payloads|) == (AsFrames(payloads, 0), rest) <==> AllFit(payloads, 0)
  {
    if AllFit(payloads, 0) {
      TailDelivered(payloads, 0, rest);
    } else if DecodeMany(EncodeAll(payloads, 0) + rest, |payloads|).0 == AsFrames(payloads, 0) {
      TailMustFit(payloads, 0, rest);
    }
  }
}
