/** Messages written by several writers to one connection without a lock. Each message is two writes,
    its length and its body, and here each of them is a step of its own. */
module GuestWrites {
  import opened GuestWire

  type Writer = nat

  datatype Write = Length(writer: Writer, data: seq<Byte>) | Body(writer: Writer, data: seq<Byte>)

  const BRACE: Byte := 123

  /** A JSON object of readable size. */
  predicate IsObject(data: seq<Byte>) {
    data != [] && data[0] == BRACE && |data| <= MAX_MESSAGE_SIZE
  }

  predicate AllObjects(messages: seq<seq<Byte>>) {
    forall m :: m in messages ==> IsObject(m)
  }

  /** Each writer writes the lengths and bodies of its messages in turn, whatever the others do;
      `pending` holds the messages whose length has been written. At the end none is left. */
  predicate Legal(pending: map<Writer, seq<Byte>>, writes: seq<Write>)
    decreases |writes|
  {
    if writes == [] then pending == map[]
    else match writes[0]
      case Length(writer, data) => writer !in pending && IsObject(data) && Legal(pending[writer := data], writes[1..])
      case Body(writer, data) => writer in pending && pending[writer] == data && Legal(pending - {writer}, writes[1..])
  }

  function Stream(writes: seq<Write>): seq<Byte>
    decreases |writes|
  {
    if writes == [] then []
    else (if writes[0].Length? then BigEndian(|writes[0].data|) else writes[0].data) + Stream(writes[1..])
  }

  /** The messages in the order of their bodies. */
  function Messages(writes: seq<Write>): seq<seq<Byte>>
    decreases |writes|
  {
    if writes == [] then []
    else (if writes[0].Length? then [] else [writes[0].data]) + Messages(writes[1..])
  }

  /** No other write falls between a length and its body. */
  predicate Untorn(writes: seq<Write>) {
    forall i :: 0 <= i < |writes| && writes[i].Length? ==>
      i + 1 < |writes| && writes[i + 1] == Body(writes[i].writer, writes[i].data)
  }

  lemma {:induction false} MessagesAreObjects(pending: map<Writer, seq<Byte>>, writes: seq<Write>)
    requires Legal(pending, writes) && forall writer :: writer in pending ==> IsObject(pending[writer])
    ensures AllObjects(Messages(writes))
    ensures pending != map[] ==> Messages(writes) != []
    decreases |writes|
  {
    if writes != [] {
      var writer, data := writes[0].writer, writes[0].data;
      if writes[0].Length? {
        assert writer in pending[writer := data];
        MessagesAreObjects(pending[writer := data], writes[1..]);
      } else {
        MessagesAreObjects(pending - {writer}, writes[1..]);
      }
    }
  }

  /** What the first two writes of a run from rest are. */
  lemma FirstTwo(writes: seq<Write>)
    requires Legal(map[], writes) && writes != []
    ensures |writes| > 1 && writes[0].Length? && IsObject(writes[0].data)
    ensures writes[1].Length? ==> IsObject(writes[1].data)
    ensures writes[1].Body? ==> writes[1] == Body(writes[0].writer, writes[0].data) && Legal(map[], writes[2..])
  {
    var first: map<Writer, seq<Byte>> := map[];
    first := first[writes[0].writer := writes[0].data];
    assert Legal(first, writes[1..]);
    assert writes[0].writer in first;
    assert writes[1..][0] == writes[1] && writes[1..][1..] == writes[2..];
    if writes[1].Body? {
      assert first - {writes[1].writer} == map[];
    }
  }

  /** A message whose two writes come first and together is one frame. */
  lemma WholeMessageFirst(writes: seq<Write>)
    requires |writes| > 1 && writes[0].Length? && writes[1] == Body(writes[0].writer, writes[0].data)
    ensures Stream(writes) == Frame(writes[0].data) + Stream(writes[2..])
    ensures Messages(writes) == [writes[0].data] + Messages(writes[2..])
  {
    var data, rest := writes[0].data, writes[2..];
    assert writes[1..][0] == writes[1] && writes[1..][1..] == rest;
    assert Stream(writes[1..]) == data + Stream(rest);
    assert BigEndian(|data|) + (data + Stream(rest)) == Frame(data) + Stream(rest);
    assert Messages(writes[1..]) == [data] + Messages(rest);
    assert Messages(writes) == [] + Messages(writes[1..]);
  }

  lemma UntornBehind(writes: seq<Write>)
    requires |writes| > 1 && writes[0].Length? && writes[1] == Body(writes[0].writer, writes[0].data)
    ensures Untorn(writes) <==> Untorn(writes[2..])
  {
    var rest := writes[2..];
    if Untorn(writes) {
      forall i | 0 <= i < |rest| && rest[i].Length?
        ensures i + 1 < |rest| && rest[i + 1] == Body(rest[i].writer, rest[i].data)
      {
        assert writes[i + 2].Length?;
      }
    }
    if Untorn(rest) {
      forall i | 0 <= i < |writes| && writes[i].Length?
        ensures i + 1 < |writes| && writes[i + 1] == Body(writes[i].writer, writes[i].data)
      {
        if i > 1 {
          assert rest[i - 2].Length?;
        }
      }
    }
  }

  /** Untorn messages are read back, and then the end of the stream. */
  lemma {:induction false} UntornReads(writes: seq<Write>)
    requires Legal(map[], writes) && Untorn(writes)
    ensures Stream(writes) == Frames(Messages(writes)) && ReadAll(Stream(writes)) == (Messages(writes), EOF)
    decreases |writes|
  {
    if writes != [] {
      FirstTwo(writes);
      WholeMessageFirst(writes);
      UntornBehind(writes);
      UntornReads(writes[2..]);
      FrameInFront(writes[0].data, Stream(writes[2..]));
    }
  }

  /** Where two lengths follow each other, the message read begins with the second length's first byte,
      or the stream ends inside it. */
  lemma TornMessageFirst(writes: seq<Write>)
    requires |writes| > 1 && writes[0].Length? && writes[1].Length?
    requires IsObject(writes[0].data) && IsObject(writes[1].data)
    ensures match ReadOne(Stream(writes))
            case Err(e) => e == UnexpectedEOF
            case Ok((data, _)) => data != [] && data[0] == 0
  {
    var first, second := BigEndian(|writes[0].data|), BigEndian(|writes[1].data|);
    var rest := second + Stream(writes[1..][1..]);
    assert Stream(writes) == first + rest;
    assert Stream(writes)[..4] == first && Stream(writes)[4..] == rest;
    BigEndianRoundTrip(|writes[0].data|);
    assert rest[0] == second[0] == 0;
  }

  /** The reader gets the first k messages; what it reads next begins with a zero byte, which is no
      object, or is cut off by the end of the stream. */
  predicate ReadsOnly(k: nat, messages: seq<seq<Byte>>, read: (seq<seq<Byte>>, ReadError)) {
    && k < |messages| && k <= |read.0| && read.0[..k] == messages[..k]
    && (if k == |read.0| then read.1 == UnexpectedEOF else read.0[k] != [] && read.0[k][0] == 0)
  }

  lemma ReadsOneMore(k: nat, m: seq<Byte>, messages: seq<seq<Byte>>, read: (seq<seq<Byte>>, ReadError))
    requires ReadsOnly(k, messages, read)
    ensures ReadsOnly(k + 1, [m] + messages, ([m] + read.0, read.1))
  {
    assert ([m] + read.0)[..k + 1] == [m] + read.0[..k];
    assert ([m] + messages)[..k + 1] == [m] + messages[..k];
  }

  /** From the first torn message on, nothing is read as it was written. */
  lemma {:induction false} TornReads(writes: seq<Write>) returns (k: nat)
    requires Legal(map[], writes) && !Untorn(writes)
    ensures ReadsOnly(k, Messages(writes), ReadAll(Stream(writes)))
    decreases |writes|
  {
    FirstTwo(writes);
    if writes[1].Body? {
      WholeMessageFirst(writes);
      UntornBehind(writes);
      k := TornReads(writes[2..]);
      FrameInFront(writes[0].data, Stream(writes[2..]));
      ReadsOneMore(k, writes[0].data, Messages(writes[2..]), ReadAll(Stream(writes[2..])));
      k := k + 1;
    } else {
      k := 0;
      TornMessageFirst(writes);
      var pending: map<Writer, seq<Byte>> := map[];
      pending := pending[writes[0].writer := writes[0].data];
      assert writes[0].writer in pending;
      MessagesAreObjects(pending, writes[1..]);
    }
  }

  /** The reader gets every message and then the end of the stream if and only if no other write falls
      between a length and its body. */
  lemma ReadBackIffUntorn(writes: seq<Write>)
    requires Legal(map[], writes)
    ensures ReadAll(Stream(writes)) == (Messages(writes), EOF) <==> Untorn(writes)
  {
    if Untorn(writes) {
      UntornReads(writes);
    } else {
      var k := TornReads(writes);
      MessagesAreObjects(map[], writes);
      assert Messages(writes)[k] in Messages(writes);
    }
  }

  lemma WholeFramesReadBack(messages: seq<seq<Byte>>, stream: seq<Byte>)
    requires AllObjects(messages) && stream == Frames(messages)
    ensures ReadAll(stream) == (messages, EOF)
  {
    var end := ReadAll([]);
    assert end == ([], EOF);
    FramesReadBack(messages, []);
    assert stream == Frames(messages) + [];
    assert messages + end.0 == messages;
  }

  lemma ObjectsReadOn(messages: seq<seq<Byte>>, k: nat, others: seq<seq<Byte>>)
    requires AllObjects(messages)
    ensures !ReadsOnly(k, others, (messages, EOF))
  {
    assert k < |messages| ==> messages[k] in messages;
  }

  /** The stream is that of any whole messages, in whatever order, only in that case. */
  lemma StreamIsFramesIffUntorn(writes: seq<Write>)
    requires Legal(map[], writes)
    ensures (exists messages :: AllObjects(messages) && Stream(writes) == Frames(messages)) <==> Untorn(writes)
  {
    if Untorn(writes) {
      UntornReads(writes);
      MessagesAreObjects(map[], writes);
      assert AllObjects(Messages(writes));
    } else {
      var k := TornReads(writes);
      forall messages | AllObjects(messages) ensures Stream(writes) != Frames(messages) {
        ObjectsReadOn(messages, k, Messages(writes));
        if Stream(writes) == Frames(messages) {
          WholeFramesReadBack(messages, Stream(writes));
        }
      }
    }
  }
}
