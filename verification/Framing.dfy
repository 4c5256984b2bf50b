/**
 Length-prefixed framing (crates/unimatrix-engine/src/wire.rs): a 4-byte big-endian
 length followed by the payload. A writer appends to a byte stream, a reader
 consumes one; a read that meets the end of the stream uses up what was left.
 */
module Framing {
  import opened Prelude

  newtype Byte = x: int | 0 <= x < 256

  const MAX_PAYLOAD_SIZE: nat := 1_048_576
  const FRAME_HEADER_SIZE: nat := 4

  datatype WriteError = InvalidInput

  datatype ReadError = ClosedInHeader | ClosedInPayload | EmptyPayload | PayloadTooLarge(length: nat)
  {
    /** The stream ended, as opposed to a frame being malformed. */
    predicate EndOfStream() {
      ClosedInHeader? || ClosedInPayload?
    }
  }

  // ----- the header -----

  function ToBigEndian(n: nat): seq<Byte>
    requires n < 0x1_0000_0000
  {
    [(n / 0x100_0000) as Byte, (n / 0x1_0000 % 0x100) as Byte, (n / 0x100 % 0x100) as Byte, (n % 0x100) as Byte]
  }

  function FromBigEndian(h: seq<Byte>): nat
    requires |h| == FRAME_HEADER_SIZE
  {
    h[0] as nat * 0x100_0000 + h[1] as nat * 0x1_0000 + h[2] as nat * 0x100 + h[3] as nat
  }

  lemma HeaderRoundTrip(n: nat)
    requires n < 0x1_0000_0000
    ensures FromBigEndian(ToBigEndian(n)) == n
  {
    var a, b := n / 0x100, n / 0x1_0000;
    assert n == a * 0x100 + n % 0x100;
    assert a == b * 0x100 + a % 0x100 by {
      assert b == a / 0x100;
    }
    assert b == (n / 0x100_0000) * 0x100 + b % 0x100 by {
      assert n / 0x100_0000 == b / 0x100;
    }
  }

  // ----- frames -----

  function Frame(payload: seq<Byte>): seq<Byte>
    requires |payload| <= MAX_PAYLOAD_SIZE
  {
    ToBigEndian(|payload|) + payload
  }

  /** The result of reading one frame, and what remains of the stream. */
  function Parse(s: seq<Byte>, maxSize: nat): (Result<seq<Byte>, ReadError>, seq<Byte>) {
    if |s| < FRAME_HEADER_SIZE then (Err(ClosedInHeader), [])
    else
      var length, rest := FromBigEndian(s[..FRAME_HEADER_SIZE]), s[FRAME_HEADER_SIZE..];
      if length == 0 then (Err(EmptyPayload), rest)
      else if length > maxSize then (Err(PayloadTooLarge(length)), rest)
      else if |rest| < length then (Err(ClosedInPayload), [])
      else (Ok(rest[..length]), rest[length..])
  }

  class ByteSink {
    var written: seq<Byte>

    constructor ()
      ensures written == []
    {
      written := [];
    }

    method WriteAll(bytes: seq<Byte>)
      modifies this
      ensures written == old(written) + bytes
    {
      written := written + bytes;
    }
  }

  class ByteSource {
    var unread: seq<Byte>

    constructor (bytes: seq<Byte>)
      ensures unread == bytes
    {
      unread := bytes;
    }

    /** Fills a buffer of `n` bytes, or fails at the end of the stream. */
    method ReadExact(n: nat) returns (buffer: Option<seq<Byte>>)
      modifies this
      ensures if n <= |old(unread)| then buffer == Some(old(unread)[..n]) && unread == old(unread)[n..]
              else buffer == None && unread == []
    {
      if n <= |unread| {
        buffer, unread := Some(unread[..n]), unread[n..];
      } else {
        buffer, unread := None, [];
      }
    }
  }

  method WriteFrame(writer: ByteSink, payload: seq<Byte>) returns (r: Option<WriteError>)
    modifies writer
    ensures r.None? <==> |payload| <= MAX_PAYLOAD_SIZE
    ensures writer.written == old(writer.written) + if |payload| <= MAX_PAYLOAD_SIZE then Frame(payload) else []
    ensures var n := |payload|;
            writer.written == old(writer.written) +
            if n > 1_048_576 then []
            else [(n / 16_777_216) as Byte, (n / 65_536 % 256) as Byte, (n / 256 % 256) as Byte, (n % 256) as Byte] + payload
  {
    if |payload| > MAX_PAYLOAD_SIZE {
      assert writer.written + [] == writer.written;
      return Some(InvalidInput);
    }
    writer.WriteAll(ToBigEndian(|payload|));
    writer.WriteAll(payload);
    AppendAssociative(old(writer.written), ToBigEndian(|payload|), payload);
    return None;
  }

  method ReadFrame(reader: ByteSource, maxSize: nat) returns (r: Result<seq<Byte>, ReadError>)
    modifies reader
    ensures (r, reader.unread) == Parse(old(reader.unread), maxSize)
    ensures var s := old(reader.unread);
            if |s| < 4 then r == Err(ClosedInHeader) && reader.unread == []
            else
              var n := s[0] as nat * 16_777_216 + s[1] as nat * 65_536 + s[2] as nat * 256 + s[3] as nat;
              if n == 0 then r == Err(EmptyPayload) && reader.unread == s[4..]
              else if n > maxSize then r == Err(PayloadTooLarge(n)) && reader.unread == s[4..]
              else if |s| < 4 + n then r == Err(ClosedInPayload) && reader.unread == []
              else r == Ok(s[4..4 + n]) && reader.unread == s[4 + n..]
  {
    var header := reader.ReadExact(FRAME_HEADER_SIZE);
    if header.None? {
      return Err(ClosedInHeader);
    }
    var length := FromBigEndian(header.value);
    if length == 0 {
      return Err(EmptyPayload);
    }
    if length > maxSize {
      return Err(PayloadTooLarge(length));
    }
    var buffer := reader.ReadExact(length);
    if buffer.None? {
      return Err(ClosedInPayload);
    }
    ghost var s := old(reader.unread);
    assert s[4..][..length] == s[4..4 + length] && s[4..][length..] == s[4 + length..];
    return Ok(buffer.value);
  }

  // ----- one frame -----

  /** Reading back a frame that was written, whatever follows it. */
  lemma ParseFrame(payload: seq<Byte>, rest: seq<Byte>, maxSize: nat)
    requires |payload| <= MAX_PAYLOAD_SIZE
    ensures Parse(Frame(payload) + rest, maxSize) ==
            if |payload| == 0 then (Err(EmptyPayload), rest)
            else if |payload| > maxSize then (Err(PayloadTooLarge(|payload|)), payload + rest)
            else (Ok(payload), rest)
  {
    hide ToBigEndian, FromBigEndian;
    var s := Frame(payload) + rest;
    HeaderSize(|payload|);
    HeaderRoundTrip(|payload|);
    assert s[..FRAME_HEADER_SIZE] == ToBigEndian(|payload|);
    assert s[FRAME_HEADER_SIZE..] == payload + rest;
  }

  lemma HeaderSize(n: nat)
    requires n < 0x1_0000_0000
    ensures |ToBigEndian(n)| == FRAME_HEADER_SIZE
  {
  }

  /** A frame that is cut short reads as the end of the stream. */
  lemma ParseCut(payload: seq<Byte>, c: nat, maxSize: nat)
    requires 1 <= |payload| <= MAX_PAYLOAD_SIZE && |payload| <= maxSize
    requires c < |Frame(payload)|
    ensures Parse(Frame(payload)[..c], maxSize) ==
            (Err(if c < FRAME_HEADER_SIZE then ClosedInHeader else ClosedInPayload), [])
  {
    hide ToBigEndian, FromBigEndian;
    var s := Frame(payload)[..c];
    HeaderSize(|payload|);
    HeaderRoundTrip(|payload|);
    if c >= FRAME_HEADER_SIZE {
      assert s[..FRAME_HEADER_SIZE] == ToBigEndian(|payload|);
    }
  }

  /** A payload survives being written and read back exactly when it is neither empty nor oversized. */
  lemma RoundTripIff(payload: seq<Byte>, rest: seq<Byte>)
    ensures |payload| <= MAX_PAYLOAD_SIZE && Parse(Frame(payload) + rest, MAX_PAYLOAD_SIZE) == (Ok(payload), rest)
            <==> 1 <= |payload| <= 1_048_576
  {
    if |payload| <= MAX_PAYLOAD_SIZE {
      ParseFrame(payload, rest, MAX_PAYLOAD_SIZE);
    }
  }

  // ----- streams of frames -----

  ghost predicate Readable(payloads: seq<seq<Byte>>, maxSize: nat) {
    forall i :: 0 <= i < |payloads| ==> 1 <= |payloads[i]| <= MAX_PAYLOAD_SIZE && |payloads[i]| <= maxSize
  }

  function Encode(payloads: seq<seq<Byte>>): seq<Byte>
    requires forall i :: 0 <= i < |payloads| ==> |payloads[i]| <= MAX_PAYLOAD_SIZE
  {
    if payloads == [] then [] else Frame(payloads[0]) + Encode(payloads[1..])
  }

  /** Frames read one after another until a read fails, and that failure. */
  function ReadAll(s: seq<Byte>, maxSize: nat): (seq<seq<Byte>>, ReadError)
    decreases |s|
  {
    var (r, rest) := Parse(s, maxSize);
    match r
    case Err(e) => ([], e)
    case Ok(payload) =>
      var (more, e) := ReadAll(rest, maxSize);
      ([payload] + more, e)
  }

  /** How many frames lie wholly within the first `c` bytes. */
  function WholeFrames(payloads: seq<seq<Byte>>, c: nat): (k: nat)
    requires forall i :: 0 <= i < |payloads| ==> |payloads[i]| <= MAX_PAYLOAD_SIZE
    ensures k <= |payloads|
  {
    if payloads == [] || c < |Frame(payloads[0])| then 0
    else 1 + WholeFrames(payloads[1..], c - |Frame(payloads[0])|)
  }

  /** `WholeFrames` is the largest number of leading frames that fit. */
  lemma {:induction false} WholeFramesIsLargest(payloads: seq<seq<Byte>>, c: nat, k: nat)
    requires (forall i :: 0 <= i < |payloads| ==> |payloads[i]| <= MAX_PAYLOAD_SIZE) && k <= |payloads|
    ensures |Encode(payloads[..k])| <= c <==> k <= WholeFrames(payloads, c)
    decreases |payloads|
  {
    hide Frame;
    if k > 0 {
      assert payloads[..k][1..] == payloads[1..][..k - 1];
      if c >= |Frame(payloads[0])| {
        WholeFramesIsLargest(payloads[1..], c - |Frame(payloads[0])|, k - 1);
      }
    }
  }

  /**
   A stream cut after any number of bytes reads as exactly the frames it wholly
   contains and then the end of the stream, never as a wrong payload.
   */
  lemma {:induction false} CutStream(payloads: seq<seq<Byte>>, c: nat, maxSize: nat)
    requires Readable(payloads, maxSize) && c <= |Encode(payloads)|
    ensures var (read, e) := ReadAll(Encode(payloads)[..c], maxSize);
            read == payloads[..WholeFrames(payloads, c)] && e.EndOfStream()
    decreases |payloads|
  {
    if payloads == [] {
      assert ReadAll([], maxSize).0 == [];
    } else {
      hide Frame, Parse, WholeFrames;
      var first, rest := Frame(payloads[0]), Encode(payloads[1..]);
      WholeFramesStep(payloads, c);
      if c < |first| {
        TakeWithin(first, rest, c);
        ParseCut(payloads[0], c, maxSize);
      } else {
        var d := c - |first|;
        TakeBeyond(first, rest, c);
        ParseFrame(payloads[0], rest[..d], maxSize);
        CutStream(payloads[1..], d, maxSize);
        TakeOneMore(payloads, WholeFrames(payloads[1..], d));
      }
    }
  }

  lemma WholeFramesStep(payloads: seq<seq<Byte>>, c: nat)
    requires (forall i :: 0 <= i < |payloads| ==> |payloads[i]| <= MAX_PAYLOAD_SIZE) && payloads != []
    ensures WholeFrames(payloads, c) ==
            if c < |Frame(payloads[0])| then 0 else 1 + WholeFrames(payloads[1..], c - |Frame(payloads[0])|)
  {
  }

  lemma TakeWithin<T>(a: seq<T>, b: seq<T>, c: nat)
    requires c <= |a|
    ensures (a + b)[..c] == a[..c]
  {
  }

  lemma TakeBeyond<T>(a: seq<T>, b: seq<T>, c: nat)
    requires |a| <= c <= |a + b|
    ensures (a + b)[..c] == a + b[..c - |a|]
  {
  }

  lemma TakeOneMore<T>(s: seq<T>, n: nat)
    requires n < |s|
    ensures s[..n + 1] == [s[0]] + s[1..][..n]
  {
  }

  /** A complete stream reads back as the payloads that were written. */
  lemma StreamRoundTrip(payloads: seq<seq<Byte>>, maxSize: nat)
    requires Readable(payloads, maxSize)
    ensures ReadAll(Encode(payloads), maxSize).0 == payloads && ReadAll(Encode(payloads), maxSize).1.EndOfStream()
  {
    var s := Encode(payloads);
    CutStream(payloads, |s|, maxSize);
    assert s[..|s|] == s && payloads[..|payloads|] == payloads;
    WholeFramesIsLargest(payloads, |s|, |payloads|);
  }
}
