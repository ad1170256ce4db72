/** Length-prefixed messages between the host and the guest agent. A message is its encoded bytes. */
module GuestWire {
  import opened Results

  newtype Byte = b: int | 0 <= b < 256

  const MAX_MESSAGE_SIZE := 4 * 1024 * 1024
  const UINT32_LIMIT := 0x1_0000_0000

  /** io.EOF: nothing could be read. io.ErrUnexpectedEOF: only a part. */
  datatype ReadError = EOF | UnexpectedEOF | TooLarge

  /** binary.BigEndian.PutUint32 of a length cut to 32 bits. */
  function BigEndian(n: nat): (r: seq<Byte>)
    ensures |r| == 4
  {
    var m := n % UINT32_LIMIT;
    [(m / 0x100_0000) as Byte, (m / 0x1_0000 % 256) as Byte, (m / 256 % 256) as Byte, (m % 256) as Byte]
  }

  function FromBigEndian(b: seq<Byte>): nat
    requires |b| == 4
  {
    var b0: int, b1: int, b2: int, b3: int := b[0] as int, b[1] as int, b[2] as int, b[3] as int;
    b0 * 0x100_0000 + b1 * 0x1_0000 + b2 * 256 + b3
  }

  lemma BigEndianRoundTrip(n: nat)
    ensures FromBigEndian(BigEndian(n)) == n % 0x1_0000_0000
    ensures var b := BigEndian(n);
            (b[0] as int) * 0x100_0000 + (b[1] as int) * 0x1_0000 + (b[2] as int) * 0x100 + (b[3] as int)
            == n % 0x1_0000_0000
  {
    var m := n % UINT32_LIMIT;
    assert m / 0x1_0000 / 256 == m / 0x100_0000;
    assert m / 256 / 256 == m / 0x1_0000;
  }

  function Frame(data: seq<Byte>): seq<Byte> {
    BigEndian(|data|) + data
  }

  function Frames(messages: seq<seq<Byte>>): seq<Byte> {
    if messages == [] then [] else Frame(messages[0]) + Frames(messages[1..])
  }

  /** io.ReadFull of n bytes: the bytes and what is left of the stream. */
  function ReadExactly(stream: seq<Byte>, n: nat): Result<(seq<Byte>, seq<Byte>), ReadError> {
    if n <= |stream| then Ok((stream[..n], stream[n..]))
    else if stream == [] then Err(EOF)
    else Err(UnexpectedEOF)
  }

  function ReadOne(stream: seq<Byte>): Result<(seq<Byte>, seq<Byte>), ReadError> {
    match ReadExactly(stream, 4)
    case Err(e) => Err(e)
    case Ok((header, rest)) =>
      var size := FromBigEndian(header);
      if size > MAX_MESSAGE_SIZE then Err(TooLarge) else ReadExactly(rest, size)
  }

  lemma ReadOneShortens(stream: seq<Byte>)
    ensures ReadOne(stream).Ok? ==> |ReadOne(stream).value.1| < |stream|
  {
  }

  /** Reading messages until the first error. */
  function ReadAll(stream: seq<Byte>): (seq<seq<Byte>>, ReadError)
    decreases |stream|
  {
    ReadOneShortens(stream);
    match ReadOne(stream)
    case Err(e) => ([], e)
    case Ok((data, rest)) =>
      var (more, e) := ReadAll(rest);
      ([data] + more, e)
  }

  // ---- The connection ----

  class Conn {
    var input: seq<Byte>
    var output: seq<Byte>

    constructor (input: seq<Byte>)
      ensures this.input == input && output == []
    {
      this.input := input;
      output := [];
    }

    method Write(data: seq<Byte>)
      modifies this`output
      ensures output == old(output) + data
    {
      output := output + data;
    }

    /** io.ReadFull into a buffer. */
    method ReadFull(buf: array<Byte>) returns (err: Option<ReadError>)
      modifies this`input, buf
      ensures match ReadExactly(old(input), buf.Length)
              case Ok((data, rest)) => err == None && buf[..] == data && input == rest
              case Err(e) => err == Some(e) && input == []
    {
      var n := 0;
      while n < buf.Length && n < |input|
        invariant 0 <= n <= buf.Length && n <= |input| && buf[..n] == input[..n] && input == old(input)
      {
        buf[n] := input[n];
        n := n + 1;
      }
      input := input[n..];
      if n < buf.Length {
        return Some(if n == 0 then EOF else UnexpectedEOF);
      }
      err := None;
    }

    /** The length, then the bytes. */
    method WriteMessage(data: seq<Byte>)
      modifies this`output
      ensures output == old(output) + Frame(data)
    {
      Write(BigEndian(|data|));
      Write(data);
    }

    method ReadMessage() returns (r: Result<seq<Byte>, ReadError>)
      modifies this`input
      ensures match ReadOne(old(input))
              case Ok((data, rest)) => r == Ok(data) && input == rest
              case Err(e) => r == Err(e)
    {
      var lenBuf := new Byte[4](_ => 0);
      var err := ReadFull(lenBuf);
      if err.Some? {
        return Err(err.value);
      }
      var size := FromBigEndian(lenBuf[..]);
      if size > MAX_MESSAGE_SIZE {
        return Err(TooLarge);
      }
      var data := new Byte[size](_ => 0);
      err := ReadFull(data);
      if err.Some? {
        return Err(err.value);
      }
      r := Ok(data[..]);
    }
  }

  // ---- Round trips ----

  /** A written message reads back, with the stream behind it untouched, exactly when it is at most 4 MiB. */
  lemma FrameReadsBackIff(data: seq<Byte>, rest: seq<Byte>)
    ensures ReadOne(Frame(data) + rest) == Ok((data, rest)) <==> |data| <= 4 * 1024 * 1024
    ensures 4 * 1024 * 1024 < |data| < 0x1_0000_0000 ==> ReadOne(Frame(data) + rest) == Err(TooLarge)
  {
    var stream := Frame(data) + rest;
    assert stream[..4] == BigEndian(|data|) && stream[4..] == data + rest;
    BigEndianRoundTrip(|data|);
    if |data| <= MAX_MESSAGE_SIZE {
      assert (data + rest)[..|data|] == data && (data + rest)[|data|..] == rest;
    } else if ReadOne(stream).Ok? {
      assert |ReadOne(stream).value.0| <= MAX_MESSAGE_SIZE;
    }
  }

  /** A readable frame in front of a stream is one more message. */
  lemma FrameInFront(data: seq<Byte>, rest: seq<Byte>)
    requires |data| <= MAX_MESSAGE_SIZE
    ensures ReadAll(Frame(data) + rest) == ([data] + ReadAll(rest).0, ReadAll(rest).1)
  {
    FrameReadsBackIff(data, rest);
  }

  predicate AllSmall(messages: seq<seq<Byte>>) {
    forall m :: m in messages ==> |m| <= MAX_MESSAGE_SIZE
  }

  /** Messages written one after the other read back in order, then reading goes on behind them. */
  lemma {:induction false} FramesReadBack(messages: seq<seq<Byte>>, rest: seq<Byte>)
    requires AllSmall(messages)
    ensures ReadAll(Frames(messages) + rest) == (messages + ReadAll(rest).0, ReadAll(rest).1)
  {
    if messages == [] {
      assert Frames(messages) + rest == rest;
      assert messages + ReadAll(rest).0 == ReadAll(rest).0;
    } else {
      var first, behind := messages[0], Frames(messages[1..]) + rest;
      FramesSplit(messages, rest);
      assert first in messages;
      FrameInFront(first, behind);
      FramesReadBack(messages[1..], rest);
      InFront(messages, ReadAll(rest).0);
    }
  }

  lemma FramesSplit(messages: seq<seq<Byte>>, rest: seq<Byte>)
    requires messages != []
    ensures Frames(messages) + rest == Frame(messages[0]) + (Frames(messages[1..]) + rest)
  {
  }

  lemma InFront<T>(xs: seq<T>, ys: seq<T>)
    requires xs != []
    ensures [xs[0]] + (xs[1..] + ys) == xs + ys
  {
  }

  /** A part of a frame is no message: it reads as the end of the stream when it is empty or is just
      the length, and as an unexpected end otherwise. */
  lemma CutFrame(data: seq<Byte>, k: nat)
    requires |data| <= MAX_MESSAGE_SIZE && k < |Frame(data)|
    ensures ReadOne(Frame(data)[..k]) == Err(if k == 0 || k == 4 then EOF else UnexpectedEOF)
  {
    var part := Frame(data)[..k];
    if k >= 4 {
      assert part[..4] == BigEndian(|data|);
      BigEndianRoundTrip(|data|);
      assert part[4..] == data[..k - 4];
    }
  }

  /** A stream cut inside a frame yields the earlier messages and then an error. */
  lemma CutStreamYieldsEarlierMessages(messages: seq<seq<Byte>>, data: seq<Byte>, k: nat)
    requires AllSmall(messages) && |data| <= MAX_MESSAGE_SIZE && k < |Frame(data)|
    ensures ReadAll(Frames(messages) + Frame(data)[..k])
         == (messages, if k == 0 || k == 4 then EOF else UnexpectedEOF)
  {
    CutFrame(data, k);
    FramesReadBack(messages, Frame(data)[..k]);
    assert messages + [] == messages;
  }
}
