/**
 Length-prefixed frames, crates/oc-keyagent/src/frame.rs: a 4-byte big-endian length and that
 many bytes, at most 4 MiB.
 */
module Frame {
  import opened Results

  newtype Byte = b: int | 0 <= b < 0x100

  type Bytes = seq<Byte>

  const MAX_FRAME_SIZE: nat := 4 * 1024 * 1024

  datatype FrameError = Io | FrameTooLarge(actual: nat, max: nat) | Eof

  // ---------------------------------------------------------------------------
  // The length prefix
  // ---------------------------------------------------------------------------

  /** `to_be_bytes` of a number of w bytes. */
  function ToBe(n: nat, w: nat): (bs: Bytes)
    ensures |bs| == w
  {
    if w == 0 then [] else ToBe(n / 0x100, w - 1) + [(n % 0x100) as Byte]
  }

  function FromBe(bs: Bytes): nat {
    if bs == [] then 0 else FromBe(bs[..|bs| - 1]) * 0x100 + bs[|bs| - 1] as nat
  }

  /** How many numbers w bytes can hold. */
  function Range(w: nat): nat {
    if w == 0 then 1 else Range(w - 1) * 0x100
  }

  lemma {:induction false} LengthRoundTrip(n: nat, w: nat)
    requires n < Range(w)
    ensures FromBe(ToBe(n, w)) == n
  {
    if w > 0 {
      LengthRoundTrip(n / 0x100, w - 1);
      assert ToBe(n, w)[..w - 1] == ToBe(n / 0x100, w - 1);
    }
  }

  lemma {:induction false} LengthIsCanonical(bs: Bytes)
    ensures ToBe(FromBe(bs), |bs|) == bs && FromBe(bs) < Range(|bs|)
  {
    if bs != [] {
      LengthIsCanonical(bs[..|bs| - 1]);
      assert bs == bs[..|bs| - 1] + [bs[|bs| - 1]];
    }
  }

  /** The number four bytes stand for, most significant byte first. */
  function BigEndian(bs: Bytes): nat
    requires |bs| == 4
  {
    bs[0] as nat * 0x100_0000 + bs[1] as nat * 0x1_0000 + bs[2] as nat * 0x100 + bs[3] as nat
  }

  lemma FromBeIsBigEndian(bs: Bytes)
    requires |bs| == 4
    ensures FromBe(bs) == BigEndian(bs)
  {
    var three, two, one := bs[..3], bs[..2], bs[..1];
    assert three[..2] == two && two[..1] == one && one[..0] == [];
    assert FromBe(one) == bs[0] as nat;
    assert FromBe(two) == bs[0] as nat * 0x100 + bs[1] as nat;
    assert FromBe(three) == (bs[0] as nat * 0x100 + bs[1] as nat) * 0x100 + bs[2] as nat;
  }

  lemma FitsInPrefix(n: nat)
    requires n <= MAX_FRAME_SIZE
    ensures FromBe(ToBe(n, 4)) == n
  {
    assert Range(1) == 0x100 && Range(2) == 0x1_0000 && Range(3) == 0x100_0000;
    LengthRoundTrip(n, 4);
  }

  // ---------------------------------------------------------------------------
  // One frame
  // ---------------------------------------------------------------------------

  function Encode(payload: Bytes): (bs: Bytes)
    requires |payload| <= MAX_FRAME_SIZE
    ensures |bs| == 4 + |payload|
  {
    ToBe(|payload|, 4) + payload
  }

  /** A frame is its length in four bytes, most significant first, and the payload. */
  lemma EncodeMeans(payload: Bytes)
    requires |payload| <= MAX_FRAME_SIZE
    ensures BigEndian(Encode(payload)[..4]) == |payload| && Encode(payload)[4..] == payload
  {
    assert Encode(payload)[..4] == ToBe(|payload|, 4);
    FitsInPrefix(|payload|);
    FromBeIsBigEndian(Encode(payload)[..4]);
  }

  /** What reading one frame from a stream gives, and where it leaves the stream. */
  function Decode(stream: Bytes): Result<(Bytes, Bytes), FrameError> {
    if |stream| < 4 then Err(Eof)
    else
      var len := FromBe(stream[..4]);
      if len > MAX_FRAME_SIZE then Err(FrameTooLarge(len, MAX_FRAME_SIZE))
      else if |stream| < 4 + len then Err(Io)
      else Ok((stream[4..4 + len], stream[4 + len..]))
  }

  lemma DecodeEncode(payload: Bytes, rest: Bytes)
    requires |payload| <= MAX_FRAME_SIZE
    ensures Decode(Encode(payload) + rest) == Ok((payload, rest))
  {
    var stream := Encode(payload) + rest;
    FitsInPrefix(|payload|);
    assert stream[..4] == ToBe(|payload|, 4);
    assert stream[4..4 + |payload|] == payload;
    assert stream[4 + |payload|..] == rest;
  }

  /** Whatever is accepted re-encodes to exactly the bytes that were consumed. */
  lemma EncodeDecode(stream: Bytes)
    requires Decode(stream).Ok?
    ensures |Decode(stream).value.0| <= MAX_FRAME_SIZE
    ensures Encode(Decode(stream).value.0) + Decode(stream).value.1 == stream
  {
    var (payload, rest) := Decode(stream).value;
    LengthIsCanonical(stream[..4]);
    assert stream == stream[..4] + payload + rest;
  }

  // ---------------------------------------------------------------------------
  // Streams of frames
  // ---------------------------------------------------------------------------

  ghost predicate Sendable(payloads: seq<Bytes>) {
    forall p :: p in payloads ==> |p| <= MAX_FRAME_SIZE
  }

  function EncodeAll(payloads: seq<Bytes>): Bytes
    requires Sendable(payloads)
  {
    if payloads == [] then [] else Encode(payloads[0]) + EncodeAll(payloads[1..])
  }

  /** Reading frames until the first error. */
  function ReadAll(stream: Bytes): (seq<Bytes>, FrameError)
    decreases |stream|
  {
    match Decode(stream)
    case Err(e) => ([], e)
    case Ok((payload, rest)) =>
      var (more, e) := ReadAll(rest);
      ([payload] + more, e)
  }

  /** Writing any list of frames and reading until the end gives the list back. */
  lemma {:induction false} StreamRoundTrip(payloads: seq<Bytes>)
    requires Sendable(payloads)
    ensures ReadAll(EncodeAll(payloads)) == (payloads, Eof)
  {
    if payloads != [] {
      StreamRoundTrip(payloads[1..]);
      DecodeEncode(payloads[0], EncodeAll(payloads[1..]));
      assert payloads == [payloads[0]] + payloads[1..];
    }
  }

  /** How many of the frames fit into the first k bytes. */
  function Whole(payloads: seq<Bytes>, k: nat): nat
    requires Sendable(payloads)
  {
    if payloads == [] || k < 4 + |payloads[0]| then 0 else 1 + Whole(payloads[1..], k - 4 - |payloads[0]|)
  }

  /** The bytes taken by the first w frames. */
  function Size(payloads: seq<Bytes>, w: nat): nat
    requires w <= |payloads|
  {
    if w == 0 then 0 else 4 + |payloads[0]| + Size(payloads[1..], w - 1)
  }

  lemma {:induction false} SizeIsLength(payloads: seq<Bytes>)
    requires Sendable(payloads)
    ensures |EncodeAll(payloads)| == Size(payloads, |payloads|)
  {
    if payloads != [] {
      SizeIsLength(payloads[1..]);
    }
  }

  /** The first k bytes of what was sent. */
  function Arrived(payloads: seq<Bytes>, k: nat): Bytes
    requires Sendable(payloads) && k <= Size(payloads, |payloads|)
  {
    SizeIsLength(payloads);
    EncodeAll(payloads)[..k]
  }

  /** A first frame that is cut short is not read. */
  lemma CutInFirstFrame(payloads: seq<Bytes>, k: nat)
    requires Sendable(payloads) && payloads != [] && k < 4 + |payloads[0]|
    ensures ReadAll(Arrived(payloads, k)) == ([], if k < 4 then Eof else Io)
  {
    SizeIsLength(payloads);
    if k >= 4 {
      assert Arrived(payloads, k)[..4] == ToBe(|payloads[0]|, 4);
      FitsInPrefix(|payloads[0]|);
    }
  }

  /** A first frame that arrives in full is read, and reading goes on behind it. */
  lemma CutBehindFirstFrame(payloads: seq<Bytes>, k: nat)
    requires Sendable(payloads) && payloads != [] && 4 + |payloads[0]| <= k <= Size(payloads, |payloads|)
    ensures var more := ReadAll(Arrived(payloads[1..], k - 4 - |payloads[0]|));
            ReadAll(Arrived(payloads, k)) == ([payloads[0]] + more.0, more.1)
  {
    SizeIsLength(payloads);
    SizeIsLength(payloads[1..]);
    var cut := Arrived(payloads[1..], k - 4 - |payloads[0]|);
    assert Arrived(payloads, k) == Encode(payloads[0]) + cut;
    DecodeEncode(payloads[0], cut);
  }

  lemma {:induction false} WholeBounds(payloads: seq<Bytes>, k: nat)
    requires Sendable(payloads) && k < Size(payloads, |payloads|)
    ensures Whole(payloads, k) < |payloads|
    ensures Size(payloads, Whole(payloads, k)) <= k < Size(payloads, Whole(payloads, k) + 1)
  {
    if k >= 4 + |payloads[0]| {
      WholeBounds(payloads[1..], k - 4 - |payloads[0]|);
    }
  }

  /** Frame by frame, what the first k bytes must give. */
  ghost function Expected(payloads: seq<Bytes>, k: nat): (seq<Bytes>, FrameError)
    requires k < Size(payloads, |payloads|)
  {
    if k < 4 + |payloads[0]| then ([], if k < 4 then Eof else Io)
    else
      var (more, e) := Expected(payloads[1..], k - 4 - |payloads[0]|);
      ([payloads[0]] + more, e)
  }

  lemma {:induction false} ReadsAsExpected(payloads: seq<Bytes>, k: nat)
    requires Sendable(payloads) && k < Size(payloads, |payloads|)
    ensures ReadAll(Arrived(payloads, k)) == Expected(payloads, k)
  {
    if k < 4 + |payloads[0]| {
      CutInFirstFrame(payloads, k);
    } else {
      var rest, k' := payloads[1..], k - 4 - |payloads[0]|;
      assert k' < Size(rest, |rest|);
      CutBehindFirstFrame(payloads, k);
      ReadsAsExpected(rest, k');
    }
  }

  lemma {:induction false} ExpectedIsWhole(payloads: seq<Bytes>, k: nat)
    requires Sendable(payloads) && k < Size(payloads, |payloads|)
    ensures var w := Whole(payloads, k);
            && w < |payloads| && Size(payloads, w) <= k
            && Expected(payloads, k) == (payloads[..w], if k - Size(payloads, w) < 4 then Eof else Io)
  {
    WholeBounds(payloads, k);
    if k >= 4 + |payloads[0]| {
      var rest, k' := payloads[1..], k - 4 - |payloads[0]|;
      ExpectedIsWhole(rest, k');
      assert payloads[..1 + Whole(rest, k')] == [payloads[0]] + rest[..Whole(rest, k')];
    }
  }

  /**
   A stream cut short anywhere gives exactly the frames that arrived in full - a proper
   prefix of those sent, none of them altered - and then Eof if less than a length prefix is
   left, Io otherwise.
   */
  lemma Truncated(payloads: seq<Bytes>, k: nat)
    requires Sendable(payloads) && k < Size(payloads, |payloads|)
    ensures var w := Whole(payloads, k);
            && w < |payloads| && Size(payloads, w) <= k < Size(payloads, w + 1)
            && ReadAll(Arrived(payloads, k)) == (payloads[..w], if k - Size(payloads, w) < 4 then Eof else Io)
  {
    WholeBounds(payloads, k);
    ReadsAsExpected(payloads, k);
    ExpectedIsWhole(payloads, k);
  }

  /** Everything a reader accepts from any stream re-encodes to the bytes it went through. */
  lemma {:induction false} ReadAllIsFaithful(stream: Bytes)
    ensures Sendable(ReadAll(stream).0)
    ensures EncodeAll(ReadAll(stream).0) <= stream
    decreases |stream|
  {
    if Decode(stream).Ok? {
      var (payload, rest) := Decode(stream).value;
      EncodeDecode(stream);
      ReadAllIsFaithful(rest);
      var more := ReadAll(rest).0;
      assert ReadAll(stream).0 == [payload] + more;
      assert ([payload] + more)[1..] == more;
      assert Encode(payload) + EncodeAll(more) <= Encode(payload) + rest;
    }
  }

  // ---------------------------------------------------------------------------
  // Reader and writer
  // ---------------------------------------------------------------------------

  /** What `read_exact` comes to: the bytes, the end of the stream, or another I/O error. */
  datatype Got = Filled(bytes: Bytes) | Ended | Broke

  /** The bytes that arrive, how many of them were read, and whether an error rather than the end follows. */
  class Reader {
    const data: Bytes
    const broken: bool
    var pos: nat

    ghost predicate Valid()
      reads this
    {
      pos <= |data|
    }

    constructor (data: Bytes, broken: bool)
      ensures Valid() && this.data == data && this.broken == broken && pos == 0
    {
      this.data, this.broken, pos := data, broken, 0;
    }

    /** `read_exact`: n bytes or none; a short stream is used up. */
    method ReadExact(n: nat) returns (r: Got)
      requires Valid()
      modifies this
      ensures Valid()
      ensures if old(pos) + n <= |data|
              then r == Filled(data[old(pos)..old(pos) + n]) && pos == old(pos) + n
              else r == (if broken then Broke else Ended) && pos == |data|
    {
      if pos + n <= |data| {
        r := Filled(data[pos..pos + n]);
        pos := pos + n;
      } else {
        r := if broken then Broke else Ended;
        pos := |data|;
      }
    }

    /** `read_frame`; only the end of the stream, not an error, is reported as `Eof`. */
    method ReadFrame() returns (r: Result<Bytes, FrameError>)
      requires Valid()
      modifies this
      ensures Valid()
      ensures match Decode(data[old(pos)..])
              case Ok((payload, rest)) => r == Ok(payload) && data[pos..] == rest
              case Err(e) => r == Err(if e.Eof? && broken then Io else e)
      ensures var stream := data[old(pos)..];
              if |stream| < 4 then r == Err(if broken then Io else Eof)
              else
                var len := BigEndian(stream[..4]);
                if len > 4_194_304 then r == Err(FrameTooLarge(len, 4_194_304))
                else if |stream| < 4 + len then r == Err(Io)
                else r == Ok(stream[4..4 + len]) && pos == old(pos) + 4 + len
    {
      ghost var stream := data[pos..];
      var prefix := ReadExact(4);
      if prefix.Ended? {
        return Err(Eof);
      }
      if prefix.Broke? {
        return Err(Io);
      }
      assert stream[..4] == prefix.bytes;
      FromBeIsBigEndian(prefix.bytes);
      var len := FromBe(prefix.bytes);
      if len == 0 {
        assert stream[4..4] == [];
        return Ok([]);
      }
      if len > MAX_FRAME_SIZE {
        return Err(FrameTooLarge(len, MAX_FRAME_SIZE));
      }
      var payload := ReadExact(len);
      if !payload.Filled? {
        return Err(Io);
      }
      assert stream[4..4 + len] == payload.bytes;
      r := Ok(payload.bytes);
    }
  }

  /** As much of the bytes as there is room for. */
  function Cut(bytes: Bytes, room: nat): Bytes {
    if |bytes| <= room then bytes else bytes[..room]
  }

  class Writer {
    var data: Bytes

    constructor ()
      ensures data == []
    {
      data := [];
    }

    /** `write_all` to a peer that takes so many more bytes. */
    method WriteAll(bytes: Bytes, room: nat) returns (ok: bool)
      modifies this
      ensures ok <==> |bytes| <= room
      ensures data == old(data) + Cut(bytes, room)
    {
      data := data + Cut(bytes, room);
      ok := |bytes| <= room;
    }

    /** `write_frame`. What a failed write leaves on the wire is the beginning of the frame. */
    method WriteFrame(payload: Bytes, room: nat, flushes: bool) returns (r: Result<(), FrameError>)
      modifies this
      ensures |payload| > MAX_FRAME_SIZE ==> r == Err(FrameTooLarge(|payload|, MAX_FRAME_SIZE)) && data == old(data)
      ensures |payload| <= MAX_FRAME_SIZE ==> data == old(data) + Cut(Encode(payload), room)
      ensures |payload| <= MAX_FRAME_SIZE ==> r == if |Encode(payload)| <= room && flushes then Ok(()) else Err(Io)
    {
      if |payload| > MAX_FRAME_SIZE {
        return Err(FrameTooLarge(|payload|, MAX_FRAME_SIZE));
      }
      var prefix := ToBe(|payload|, 4);
      var ok := WriteAll(prefix, room);
      if !ok {
        assert Cut(prefix, room) == Cut(Encode(payload), room);
        return Err(Io);
      }
      ok := WriteAll(payload, room - |prefix|);
      assert prefix + Cut(payload, room - |prefix|) == Cut(Encode(payload), room);
      r := if ok && flushes then Ok(()) else Err(Io);
    }
  }

  /**
   After a write that failed part way, the other end reads exactly the frames sent before it,
   and then an end or an error, never a frame that was not sent.
   */
  lemma FailedWriteIsNoFrame(payloads: seq<Bytes>, payload: Bytes, room: nat)
    requires Sendable(payloads) && |payload| <= MAX_FRAME_SIZE && room < |Encode(payload)|
    ensures ReadAll(EncodeAll(payloads) + Cut(Encode(payload), room)) == (payloads, if room < 4 then Eof else Io)
  {
    var all, sent := payloads + [payload], Size(payloads, |payloads|);
    CutPoint(payloads, payload, room);
    WholeAtCut(payloads, payload, room);
    Truncated(all, sent + room);
    assert all[..|payloads|] == payloads;
  }

  lemma CutPoint(payloads: seq<Bytes>, payload: Bytes, room: nat)
    requires Sendable(payloads) && |payload| <= MAX_FRAME_SIZE && room < |Encode(payload)|
    ensures var all, sent := payloads + [payload], Size(payloads, |payloads|);
            && Sendable(all) && sent + room < Size(all, |all|)
            && Arrived(all, sent + room) == EncodeAll(payloads) + Cut(Encode(payload), room)
  {
    EncodeAllSnoc(payloads, payload);
    SizeIsLength(payloads);
    SizeIsLength(payloads + [payload]);
  }

  lemma WholeAtCut(payloads: seq<Bytes>, payload: Bytes, room: nat)
    requires Sendable(payloads) && |payload| <= MAX_FRAME_SIZE && room < |Encode(payload)|
    ensures var all, sent := payloads + [payload], Size(payloads, |payloads|);
            Sendable(all) && Size(all, |payloads|) == sent && Whole(all, sent + room) == |payloads|
  {
    EncodeAllSnoc(payloads, payload);
    SizeIsLength(payloads);
    SizeIsLength(payloads + [payload]);
    SizeSnoc(payloads, payload);
    WholeIs(payloads + [payload], Size(payloads, |payloads|) + room, |payloads|);
  }

  lemma {:induction false} EncodeAllSnoc(payloads: seq<Bytes>, payload: Bytes)
    requires Sendable(payloads) && |payload| <= MAX_FRAME_SIZE
    ensures Sendable(payloads + [payload])
    ensures EncodeAll(payloads + [payload]) == EncodeAll(payloads) + Encode(payload)
  {
    if payloads == [] {
      assert payloads + [payload] == [payload] && [payload][1..] == [];
    } else {
      assert (payloads + [payload])[1..] == payloads[1..] + [payload];
      EncodeAllSnoc(payloads[1..], payload);
    }
  }

  lemma {:induction false} SizeSnoc(payloads: seq<Bytes>, payload: Bytes)
    ensures Size(payloads + [payload], |payloads|) == Size(payloads, |payloads|)
  {
    if payloads != [] {
      assert (payloads + [payload])[1..] == payloads[1..] + [payload];
      SizeSnoc(payloads[1..], payload);
    }
  }

  lemma {:induction false} WholeIs(payloads: seq<Bytes>, k: nat, w: nat)
    requires Sendable(payloads) && w < |payloads| && Size(payloads, w) <= k < Size(payloads, w + 1)
    ensures Whole(payloads, k) == w
  {
    if w > 0 {
      WholeIs(payloads[1..], k - 4 - |payloads[0]|, w - 1);
    }
  }
}
