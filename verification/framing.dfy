/**
 * The length-prefixed framing every message between the master and its
 * peers travels in: an 8-byte big-endian unsigned length, then the
 * serialised object. Serialisation itself is treated as the identity on
 * bytes; what is modelled is the header codec, the sender's framing and the
 * receiver's chunked read loop, including every way a read can fail.
 */
module Framing {
  import opened Wrappers
  import opened Road

  newtype byte = x: int | 0 <= x < 256

  /** Size of the length header (`struct` format `!Q`). */
  const HEADER_SIZE: nat := 8
  /** Largest body chunk asked of one `recv` call. */
  const MAX_CHUNK: nat := 4096
  /** One more than the largest length an unsigned 64-bit header can carry. */
  const TWO_64: nat := 0x1_0000_0000_0000_0000

  function Pow256(w: nat): (p: nat)
    ensures 1 <= p
  {
    if w == 0 then 1 else 256 * Pow256(w - 1)
  }

  /** `n` written big-endian in exactly `w` bytes (most significant first). */
  function EncodeBE(n: nat, w: nat): (bs: seq<byte>)
    ensures |bs| == w
  {
    if w == 0 then [] else EncodeBE(n / 256, w - 1) + [(n % 256) as byte]
  }

  /** The unsigned big-endian number a byte string denotes. */
  function DecodeBE(bs: seq<byte>): (n: nat)
    ensures n < Pow256(|bs|)
  {
    if |bs| == 0 then 0 else DecodeBE(bs[..|bs| - 1]) * 256 + bs[|bs| - 1] as int
  }

  lemma {:induction false} DecodeEncode(n: nat, w: nat)
    requires n < Pow256(w)
    ensures DecodeBE(EncodeBE(n, w)) == n
  {
    if w > 0 {
      var bs := EncodeBE(n, w);
      assert bs[..w - 1] == EncodeBE(n / 256, w - 1);
      DecodeEncode(n / 256, w - 1);
    }
  }

  lemma {:induction false} EncodeDecode(bs: seq<byte>)
    ensures EncodeBE(DecodeBE(bs), |bs|) == bs
  {
    if |bs| > 0 {
      var init := bs[..|bs| - 1];
      var n := DecodeBE(bs);
      assert n / 256 == DecodeBE(init) && n % 256 == bs[|bs| - 1] as int;
      EncodeDecode(init);
      assert bs == init + [bs[|bs| - 1]];
    }
  }

  lemma Pow256Of8()
    ensures Pow256(HEADER_SIZE) == TWO_64
  {
  }

  /** `struct.pack('!Q', len)`. */
  function Header(len: nat): (h: seq<byte>)
    requires len < TWO_64
    ensures |h| == HEADER_SIZE && DecodeBE(h) == len
  {
    Pow256Of8();
    DecodeEncode(len, HEADER_SIZE);
    EncodeBE(len, HEADER_SIZE)
  }

  /**
   * The bytes `send_msg` puts on the socket for a serialised object: the
   * header and the body. A body too long for the header makes the packing
   * raise, which `send_msg` swallows, so nothing is sent.
   */
  function Frame(payload: seq<byte>): (f: seq<byte>)
    ensures |payload| < TWO_64 ==> |f| == HEADER_SIZE + |payload|
                                   && DecodeBE(f[..HEADER_SIZE]) == |payload|
                                   && f[HEADER_SIZE..] == payload
    ensures TWO_64 <= |payload| ==> f == []
  {
    if |payload| < TWO_64 then
      var f := Header(|payload|) + payload;
      assert f[..HEADER_SIZE] == Header(|payload|);
      f
    else []
  }

  /**
   * How many bytes one `recv(want)` call returns when `avail` bytes are
   * waiting and the network is willing to hand over `g` of them: none only
   * when the peer has closed and nothing is left, otherwise at least one and
   * at most `want`.
   */
  function Delivered(want: nat, avail: nat, g: nat): (c: nat)
    requires 1 <= want
    ensures avail == 0 ==> c == 0
    ensures 0 < avail ==> 1 <= c <= want && c <= avail
    ensures Min(want, avail) <= g ==> c == Min(want, avail)
    ensures 1 <= g <= Min(want, avail) ==> c == g
  {
    if avail == 0 then 0 else Max(1, Min(g, Min(want, avail)))
  }

  /** One `recv(want)` call on the pending bytes of a stream: always a prefix of them. */
  function Recv(pending: seq<byte>, want: nat, g: nat): (chunk: seq<byte>)
    requires 1 <= want
    ensures |chunk| <= want && |chunk| <= |pending| && chunk == pending[..|chunk|]
    ensures |chunk| == 0 <==> |pending| == 0
  {
    pending[..Delivered(want, |pending|, g)]
  }

  /**
   * Reads exactly `count` bytes with repeated `recv` calls of at most `cap`
   * bytes each, as the body loop of `recv_msg` does; fails (ConnectionError)
   * when a call returns nothing. Call c of the loop is granted `grant(first + c)`;
   * `wants` records the size every call asked for.
   */
  method ReadExactly(stream: seq<byte>, count: nat, cap: nat, grant: nat -> nat, first: nat)
      returns (data: Option<seq<byte>>, rest: seq<byte>, wants: seq<nat>)
    requires 1 <= cap
    ensures |rest| <= |stream| && rest == stream[|stream| - |rest|..]
    ensures forall c :: 0 <= c < |wants| ==> 1 <= wants[c] <= cap
    ensures data.Some? <==> count <= |stream|
    ensures data.Some? ==> data.value == stream[..count] && rest == stream[count..]
    ensures data.None? ==> rest == []
    ensures count == 0 ==> wants == []
    ensures 1 <= count ==> 1 <= |wants|
  {
    var got: seq<byte> := [];
    rest := stream;
    wants := [];
    while |got| < count
      invariant |got| <= count && |got| <= |stream|
      invariant got == stream[..|got|] && rest == stream[|got|..]
      invariant forall c :: 0 <= c < |wants| ==> 1 <= wants[c] <= cap
      invariant count == 0 ==> wants == []
      invariant wants == [] ==> got == []
      decreases count - |got|
    {
      var want := Min(count - |got|, cap);
      var chunk := Recv(rest, want, grant(first + |wants|));
      wants := wants + [want];
      if |chunk| == 0 {
        // the connection was lost mid-read
        return None, rest, wants;
      }
      got := got + chunk;
      rest := rest[|chunk|..];
    }
    return Some(got), rest, wants;
  }

  /**
   * `recv_msg`: one `recv(8)` for the header, then the body in chunks of at
   * most 4096 bytes until the announced length has arrived. `grant(c)` is how
   * much the c-th `recv` call is given; `rest` is what remains unread. A
   * closed connection, a header that arrives short, a connection lost
   * mid-body and an empty body (which does not deserialise) all yield None.
   */
  method RecvMsg(stream: seq<byte>, grant: nat -> nat)
      returns (msg: Option<seq<byte>>, rest: seq<byte>, wants: seq<nat>)
    ensures |rest| <= |stream| && rest == stream[|stream| - |rest|..]
    ensures 1 <= |wants| && wants[0] == HEADER_SIZE
    ensures forall c :: 1 <= c < |wants| ==> 1 <= wants[c] <= MAX_CHUNK
    ensures msg.Some? <==> HEADER_SIZE <= grant(0) && HEADER_SIZE <= |stream|
                           && 1 <= DecodeBE(stream[..HEADER_SIZE])
                           && HEADER_SIZE + DecodeBE(stream[..HEADER_SIZE]) <= |stream|
    ensures msg.Some? ==> var len := DecodeBE(stream[..HEADER_SIZE]);
                          msg.value == stream[HEADER_SIZE..HEADER_SIZE + len]
                          && rest == stream[HEADER_SIZE + len..]
    ensures |stream| == 0 ==> msg.None? && |wants| == 1
    ensures HEADER_SIZE <= grant(0) && HEADER_SIZE <= |stream| && DecodeBE(stream[..HEADER_SIZE]) == 0 ==>
              wants == [HEADER_SIZE] && rest == stream[HEADER_SIZE..]
  {
    var header := Recv(stream, HEADER_SIZE, grant(0));
    wants := [HEADER_SIZE];
    rest := stream[|header|..];
    if |header| < HEADER_SIZE {
      // nothing at all (the peer closed) or a header `struct.unpack` rejects
      return None, rest, wants;
    }
    assert header == stream[..HEADER_SIZE];
    msg, rest, wants := ReadBody(stream, DecodeBE(header), grant, wants);
  }

  /** `recv_msg` with the header read by the same loop as the body. */
  method RecvMsgFixed(stream: seq<byte>, grant: nat -> nat)
      returns (msg: Option<seq<byte>>, rest: seq<byte>, wants: seq<nat>)
    ensures |rest| <= |stream| && rest == stream[|stream| - |rest|..]
    ensures 1 <= |wants| && forall c :: 0 <= c < |wants| ==> 1 <= wants[c] <= MAX_CHUNK
    ensures msg.Some? <==> HEADER_SIZE <= |stream|
                           && 1 <= DecodeBE(stream[..HEADER_SIZE])
                           && HEADER_SIZE + DecodeBE(stream[..HEADER_SIZE]) <= |stream|
    ensures msg.Some? ==> var len := DecodeBE(stream[..HEADER_SIZE]);
                          msg.value == stream[HEADER_SIZE..HEADER_SIZE + len]
                          && rest == stream[HEADER_SIZE + len..]
    ensures HEADER_SIZE <= |stream| && DecodeBE(stream[..HEADER_SIZE]) == 0 ==> rest == stream[HEADER_SIZE..]
  {
    var header;
    header, rest, wants := ReadExactly(stream, HEADER_SIZE, HEADER_SIZE, grant, 0);
    if header.None? {
      return None, rest, wants;
    }
    msg, rest, wants := ReadBody(stream, DecodeBE(header.value), grant, wants);
  }

  /**
   * The part of `recv_msg` after the header: read `len` bytes of body in
   * chunks of at most 4096, then deserialise them (the empty byte string
   * does not deserialise).
   */
  method ReadBody(stream: seq<byte>, len: nat, grant: nat -> nat, wants0: seq<nat>)
      returns (msg: Option<seq<byte>>, rest: seq<byte>, wants: seq<nat>)
    requires HEADER_SIZE <= |stream|
    requires 1 <= |wants0| && forall c :: 0 <= c < |wants0| ==> 1 <= wants0[c] <= MAX_CHUNK
    ensures |rest| <= |stream| && rest == stream[|stream| - |rest|..]
    ensures |wants| >= |wants0| && wants[..|wants0|] == wants0
    ensures forall c :: 0 <= c < |wants| ==> 1 <= wants[c] <= MAX_CHUNK
    ensures msg.Some? <==> 1 <= len && HEADER_SIZE + len <= |stream|
    ensures msg.Some? ==> msg.value == stream[HEADER_SIZE..HEADER_SIZE + len]
                          && rest == stream[HEADER_SIZE + len..]
    ensures len == 0 ==> wants == wants0 && rest == stream[HEADER_SIZE..]
  {
    var body, more;
    body, rest, more := ReadExactly(stream[HEADER_SIZE..], len, MAX_CHUNK, grant, |wants0|);
    wants := wants0 + more;
    if body.None? || len == 0 {
      return None, rest, wants;
    }
    return body, rest, wants;
  }

  /**
   * The frame reader as written loses a frame whose header the network
   * delivers in two pieces: the first `recv(8)` returns fewer than 8 bytes
   * and the unpacking fails, though the whole frame is on the stream.
   */
  method SplitHeaderLosesFrame(payload: seq<byte>, after: seq<byte>, grant: nat -> nat)
      returns (msg: Option<seq<byte>>, rest: seq<byte>)
    requires 1 <= |payload| < TWO_64
    requires grant(0) < HEADER_SIZE
    ensures msg == None
  {
    var wants;
    msg, rest, wants := RecvMsg(Frame(payload) + after, grant);
  }

  /**
   * Round trip of the framing: a non-empty serialised object sent with
   * `send_msg`, followed by anything else, is read back intact and the rest
   * is left on the stream, however the network splits the frame.
   */
  method ReceiveFrame(payload: seq<byte>, after: seq<byte>, grant: nat -> nat)
      returns (msg: Option<seq<byte>>, rest: seq<byte>)
    requires 1 <= |payload| < TWO_64
    ensures msg == Some(payload) && rest == after
  {
    var stream := Frame(payload) + after;
    assert stream[..HEADER_SIZE] == Frame(payload)[..HEADER_SIZE];
    assert stream[HEADER_SIZE..HEADER_SIZE + |payload|] == payload;
    assert stream[HEADER_SIZE + |payload|..] == after;
    var wants;
    msg, rest, wants := RecvMsgFixed(stream, grant);
  }

  /** The reader as written round-trips a frame whenever its header arrives in one piece. */
  method ReceiveFrameAsWritten(payload: seq<byte>, after: seq<byte>, grant: nat -> nat)
      returns (msg: Option<seq<byte>>, rest: seq<byte>)
    requires 1 <= |payload| < TWO_64
    requires HEADER_SIZE <= grant(0)
    ensures msg == Some(payload) && rest == after
  {
    var stream := Frame(payload) + after;
    assert stream[..HEADER_SIZE] == Frame(payload)[..HEADER_SIZE];
    assert stream[HEADER_SIZE..HEADER_SIZE + |payload|] == payload;
    assert stream[HEADER_SIZE + |payload|..] == after;
    var wants;
    msg, rest, wants := RecvMsg(stream, grant);
  }
}
