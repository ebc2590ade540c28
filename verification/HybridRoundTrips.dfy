/** What one side encodes the other side decodes, in either framing and any chunking. */
module HybridRoundTrips {
  import opened Wrappers
  import opened Sequences
  import opened Wire
  import opened LineFraming
  import opened HeaderFraming
  import opened HybridCodec
  import opened HybridRuns

  /** What a writer with this latch puts on the wire for a list of items. */
  function EncodedStream<T>(items: seq<T>, serialize: T -> Bytes, protocol: Option<WireProtocol>): Bytes {
    if items == [] then [] else Encoded(serialize(items[0]), protocol) + EncodedStream(items[1..], serialize, protocol)
  }

  function Messages<T>(items: seq<T>): seq<Outcome<T>> {
    seq(|items|, i requires 0 <= i < |items| => Message(items[i]))
  }

  ghost predicate ReadsBack<T(!new)>(items: seq<T>, serialize: T -> Bytes, parse: Bytes -> Parsed<T>) {
    forall i :: 0 <= i < |items| ==> parse(serialize(items[i])) == Item(items[i])
  }

  function EncodedFrames<T>(items: seq<T>, serialize: T -> Bytes): seq<Frame> {
    seq(|items|, i requires 0 <= i < |items| =>
      Frame(EncodedHeader(|serialize(items[i])|), CRLFCRLF, serialize(items[i])))
  }

  lemma {:induction false} EncodedStreamIsFrames<T>(items: seq<T>, serialize: T -> Bytes, protocol: Option<WireProtocol>)
    requires protocol != Some(JsonLine)
    ensures EncodedStream(items, serialize, protocol) == FramesBytes(EncodedFrames(items, serialize))
  {
    hide EncodedHeader;
    if items != [] {
      assert EncodedFrames(items, serialize)[1..] == EncodedFrames(items[1..], serialize);
      EncodedStreamIsFrames(items[1..], serialize, protocol);
    }
  }

  lemma {:induction false} VerdictsOfReadBackItems<T(!new)>(
    items: seq<T>, serialize: T -> Bytes, parse: Bytes -> Parsed<T>)
    requires ReadsBack(items, serialize, parse)
    ensures FramesOutcomes(EncodedFrames(items, serialize), parse) == Messages(items)
  {
    hide EncodedHeader;
    if items != [] {
      assert EncodedFrames(items, serialize)[1..] == EncodedFrames(items[1..], serialize);
      assert EncodedFrames(items, serialize)[0].payload == serialize(items[0]);
      VerdictsOfReadBackItems(items[1..], serialize, parse);
      assert Messages(items) == [Message(items[0])] + Messages(items[1..]);
    }
  }

  lemma {:induction false} FramesOutcomesPrefix<T>(fs: seq<Frame>, k: nat, parse: Bytes -> Parsed<T>)
    requires k <= |fs|
    ensures FramesOutcomes(fs, parse) == FramesOutcomes(fs[..k], parse) + FramesOutcomes(fs[k..], parse)
  {
    if k == 0 {
      assert fs[0..] == fs;
    } else {
      assert fs[..k][1..] == fs[1..][..k - 1] && fs[k..] == fs[1..][k - 1..];
      FramesOutcomesPrefix(fs[1..], k - 1, parse);
    }
  }

  /** Content-Length round trip: a fresh reader (undecided, or already latched) fed any part of
      an encoded stream in any chunking delivers the first items, in order; once it has the
      whole stream and answers `Pending` it has delivered all of them and kept no byte. */
  lemma ContentLengthRoundTrip<T(!new)>(
    items: seq<T>, serialize: T -> Bytes, parse: Bytes -> Parsed<T>,
    latch: Option<WireProtocol>, actions: seq<Action>, max: nat)
    requires (latch.None? && max >= 13) || latch == Some(ContentLength)
    requires ReadsBack(items, serialize, parse)
    requires forall i :: 0 <= i < |items| ==> |EncodeFrame(serialize(items[i]))| <= USIZE_MAX
    requires Total(actions) <= EncodedStream(items, serialize, latch)
    ensures var (outcomes, end) := Run(Fresh(latch), actions, max, parse);
            && outcomes <= Messages(items)
            && (Total(actions) == EncodedStream(items, serialize, latch) && DecodeStep(end, max, parse).0.Pending?
                ==> outcomes == Messages(items) && end.buf == [])
  {
    hide Run, DecodeStep, EncodedHeader, LooksLikeContentLengthFrame, WellFramed, FramesBytes, FramesOutcomes, EncodedStream;
    var d := Fresh(latch);
    var fs := EncodedFrames(items, serialize);
    var (outcomes, end) := Run(d, actions, max, parse);
    EncodedStreamIsFrames(items, serialize, latch);
    AllEncodedFramesAreWellFramed(items, serialize);
    assert d.buf + Total(actions) == Total(actions);
    var k := FrameSession(d, actions, fs, max, parse);
    VerdictsOfReadBackItems(items, serialize, parse);
    FramesOutcomesPrefix(fs, k, parse);
    if Total(actions) == EncodedStream(items, serialize, latch) {
      FramesBytesSplit(fs, k);
      SameSuffix(FramesBytes(fs[..k]), end.buf, FramesBytes(fs[k..]));
      if k < |items| {
        assert fs[k..] == EncodedFrames(items[k..], serialize);
        CompleteFrameIsDelivered(end, items[k..], serialize, max, parse);
      } else {
        assert fs[..k] == fs && fs[k..] == [];
        assert FramesBytes([]) == [] by { NoFrames(parse); }
      }
    }
  }

  lemma SameSuffix(a: Bytes, b: Bytes, c: Bytes)
    requires a + b == a + c
    ensures b == c
  {
    PrefixDrops(a, b, c);
  }

  lemma AllEncodedFramesAreWellFramed<T>(items: seq<T>, serialize: T -> Bytes)
    requires forall i :: 0 <= i < |items| ==> |EncodeFrame(serialize(items[i]))| <= USIZE_MAX
    ensures var fs := EncodedFrames(items, serialize);
            && (forall i :: 0 <= i < |fs| ==> WellFramed(fs[i]) && fs[i].closing == CRLFCRLF)
            && (fs != [] ==> LooksLikeContentLengthFrame(fs[0].header))
  {
    hide EncodedHeader, WellFramed, LooksLikeContentLengthFrame;
    forall i | 0 <= i < |items|
      ensures WellFramed(EncodedFrames(items, serialize)[i])
      ensures LooksLikeContentLengthFrame(EncodedFrames(items, serialize)[i].header)
    {
      EncodedFramesAreWellFramed(serialize(items[i]));
    }
  }

  lemma {:induction false} FramesBytesSplit(fs: seq<Frame>, k: nat)
    requires k <= |fs|
    ensures FramesBytes(fs) == FramesBytes(fs[..k]) + FramesBytes(fs[k..])
  {
    hide FrameBytes;
    if k == 0 {
      assert fs[0..] == fs;
    } else {
      assert fs[..k][1..] == fs[1..][..k - 1] && fs[k..] == fs[1..][k - 1..];
      FramesBytesSplit(fs[1..], k - 1);
    }
  }

  lemma CompleteFrameIsDelivered<T(!new)>(
    d: Decoder, items: seq<T>, serialize: T -> Bytes, max: nat, parse: Bytes -> Parsed<T>)
    requires items != [] && ReadsBack(items, serialize, parse)
    requires ReadAsFrames(d, EncodedFrames(items, serialize), max)
    requires d.buf == FramesBytes(EncodedFrames(items, serialize))
    ensures DecodeStep(d, max, parse).0.Ready?
  {
    hide DecodeStep, EncodedHeader, WellFramed, LooksLikeContentLengthFrame;
    var fs := EncodedFrames(items, serialize);
    FrameSessionStep(d, fs, max, parse);
    assert fs[0].payload == serialize(items[0]);
    assert |d.buf| >= |FrameBytes(fs[0])|;
  }

  /** A compact JSON text never holds a raw newline and never ends in a carriage return. */
  predicate FitsOnALine(payload: Bytes, max: nat) {
    LF !in payload && |payload| <= max && (payload == [] || payload[|payload| - 1] != CR)
  }

  lemma EmptyStreamMeansNothing<T>(max: nat, parse: Bytes -> Parsed<T>)
    ensures LineOutcomes([], max, parse) == []
  {
  }

  lemma {:induction false} EncodedLinesMean<T(!new)>(
    items: seq<T>, serialize: T -> Bytes, parse: Bytes -> Parsed<T>, max: nat)
    requires ReadsBack(items, serialize, parse)
    requires forall i :: 0 <= i < |items| ==> FitsOnALine(serialize(items[i]), max)
    ensures LineOutcomes(EncodedStream(items, serialize, Some(JsonLine)), max, parse) == Messages(items)
  {
    hide LineOutcomes, EncodedStream, Messages, FitsOnALine;
    if items == [] {
      NoItems(serialize);
      EmptyStreamMeansNothing(max, parse);
    } else {
      FirstItem(items, serialize);
      FirstLineMeans(serialize(items[0]), EncodedStream(items[1..], serialize, Some(JsonLine)), items[0], max, parse);
      EncodedLinesMean(items[1..], serialize, parse, max);
    }
  }

  lemma FirstLineMeans<T>(line: Bytes, rest: Bytes, item: T, max: nat, parse: Bytes -> Parsed<T>)
    requires FitsOnALine(line, max) && parse(line) == Item(item)
    ensures LineOutcomes(line + [LF] + rest, max, parse) == [Message(item)] + LineOutcomes(rest, max, parse)
  {
    hide IndexOf, IndexFrom, LineOutcomes;
    var s := line + [LF] + rest;
    IndexOfIs(s, LF, |line|);
    assert s[..|line|] == line && s[|line| + 1..] == rest;
    LineOutcomesStep(s, max, parse, |line|);
    assert LineOutcome(line, max, parse) == [Message(item)];
  }

  /** One call on a buffer that holds part of a stream of lines that fit: it takes the first line
      whole and delivers its item, or takes nothing and waits. */
  lemma LineDecodeTakesOneLine<T>(line: Bytes, buf: Bytes, more: Bytes, item: T, max: nat, parse: Bytes -> Parsed<T>)
    requires FitsOnALine(line, max) && parse(line) == Item(item) && buf <= line + [LF] + more
    ensures |buf| <= |line| ==> LineDecode(buf, false, max, parse) == LineStep(Pending, buf, false, false)
    ensures |buf| > |line| ==>
              && buf == line + [LF] + buf[|line| + 1..]
              && LineDecode(buf, false, max, parse) == LineStep(Ready(Message(item)), buf[|line| + 1..], false, true)
  {
    hide IndexOf, IndexFrom;
    var whole := line + [LF] + more;
    assert whole[..|line|] == line && whole[|line|] == LF;
    if |buf| <= |line| {
      assert forall i :: 0 <= i < |buf| ==> buf[i] == line[i];
      IndexOfNone(buf, LF);
    } else {
      assert forall i :: 0 <= i < |line| ==> buf[i] == line[i];
      assert buf[|line|] == LF;
      IndexOfIs(buf, LF, |line|);
      assert buf[..|line|] == line;
    }
  }

  lemma EmptyLineBufferWaits<T>(max: nat, parse: Bytes -> Parsed<T>)
    ensures LineDecode([], false, max, parse) == LineStep(Pending, [], false, false)
  {
  }

  /** Over any session on a stream of lines that fit, the first items have been delivered and the
      rest of the stream is unread. */
  lemma {:induction false} EncodedLinesSession<T(!new)>(
    buf: Bytes, items: seq<T>, serialize: T -> Bytes, parse: Bytes -> Parsed<T>, actions: seq<Action>, max: nat)
    returns (k: nat)
    requires ReadsBack(items, serialize, parse)
    requires forall i :: 0 <= i < |items| ==> FitsOnALine(serialize(items[i]), max)
    requires buf + Total(actions) <= EncodedStream(items, serialize, Some(JsonLine))
    ensures var (outcomes, end) := Run(Decoder(buf, false, Some(JsonLine)), actions, max, parse);
            && k <= |items| && outcomes == Messages(items[..k])
            && end.protocol == Some(JsonLine) && !end.discarding
            && buf + Total(actions) == EncodedStream(items[..k], serialize, Some(JsonLine)) + end.buf
    decreases |actions|
  {
    hide DecodeStep, EncodedStream, FitsOnALine, Messages;
    var d := Decoder(buf, false, Some(JsonLine));
    if actions == [] {
      k := 0;
      assert buf + [] == buf && items[..0] == [];
      NoItems(serialize);
    } else {
      var rest := actions[1..];
      match actions[0]
      case Receive(chunk) =>
        assert buf + Total(actions) == buf + chunk + Total(rest);
        k := EncodedLinesSession(buf + chunk, items, serialize, parse, rest, max);
      case PollOnce =>
        assert Total(actions) == Total(rest);
        EncodedLineStep(buf, items, serialize, parse, max);
        if items != [] && |buf| > |serialize(items[0])| {
          var left := buf[|serialize(items[0])| + 1..];
          LineLeavesTheRest(items, buf, left, Total(rest), serialize);
          var n := EncodedLinesSession(left, items[1..], serialize, parse, rest, max);
          var (outcomes, end) := Run(Decoder(left, false, Some(JsonLine)), rest, max, parse);
          CountFirstLine(items, n, buf, left, Total(rest), outcomes, end.buf, serialize);
          k := n + 1;
        } else {
          k := EncodedLinesSession(buf, items, serialize, parse, rest, max);
        }
    }
  }

  lemma EncodedLineStep<T(!new)>(
    buf: Bytes, items: seq<T>, serialize: T -> Bytes, parse: Bytes -> Parsed<T>, max: nat)
    requires ReadsBack(items, serialize, parse)
    requires forall i :: 0 <= i < |items| ==> FitsOnALine(serialize(items[i]), max)
    requires buf <= EncodedStream(items, serialize, Some(JsonLine))
    ensures var d := Decoder(buf, false, Some(JsonLine));
            if items != [] && |buf| > |serialize(items[0])|
            then && var left := buf[|serialize(items[0])| + 1..];
                 && buf == serialize(items[0]) + [LF] + left
                 && DecodeStep(d, max, parse) == (Ready(Message(items[0])), d.(buf := left))
            else DecodeStep(d, max, parse) == (Pending, d)
  {
    hide LineDecode, FrameDecode, EncodedStream, FitsOnALine;
    if items == [] {
      NoItems(serialize);
      EmptyLineBufferWaits(max, parse);
    } else {
      FirstItem(items, serialize);
      LineDecodeTakesOneLine(serialize(items[0]), buf, EncodedStream(items[1..], serialize, Some(JsonLine)),
                             items[0], max, parse);
    }
  }

  lemma LineLeavesTheRest<T>(items: seq<T>, before: Bytes, after: Bytes, coming: Bytes, serialize: T -> Bytes)
    requires items != [] && before == serialize(items[0]) + [LF] + after
    requires before + coming <= EncodedStream(items, serialize, Some(JsonLine))
    ensures after + coming <= EncodedStream(items[1..], serialize, Some(JsonLine))
  {
    hide EncodedStream;
    FirstItem(items, serialize);
    assert before + coming == serialize(items[0]) + [LF] + (after + coming);
    PrefixDrops(serialize(items[0]) + [LF], after + coming, EncodedStream(items[1..], serialize, Some(JsonLine)));
  }

  lemma CountFirstLine<T>(items: seq<T>, n: nat, before: Bytes, after: Bytes, coming: Bytes,
                          outcomes: seq<Outcome<T>>, left: Bytes, serialize: T -> Bytes)
    requires items != [] && n < |items| && before == serialize(items[0]) + [LF] + after
    requires outcomes == Messages(items[1..][..n])
    requires after + coming == EncodedStream(items[1..][..n], serialize, Some(JsonLine)) + left
    ensures [Message(items[0])] + outcomes == Messages(items[..n + 1])
    ensures before + coming == EncodedStream(items[..n + 1], serialize, Some(JsonLine)) + left
  {
    hide EncodedStream, Messages;
    FirstItem(items[..n + 1], serialize);
    assert items[..n + 1][1..] == items[1..][..n];
    assert before + coming == serialize(items[0]) + [LF] + (after + coming);
  }

  lemma NoItems<T>(serialize: T -> Bytes)
    ensures Messages<T>([]) == [] && EncodedStream<T>([], serialize, Some(JsonLine)) == []
  {
  }

  lemma FirstItem<T>(items: seq<T>, serialize: T -> Bytes)
    requires items != []
    ensures EncodedStream(items, serialize, Some(JsonLine))
         == serialize(items[0]) + [LF] + EncodedStream(items[1..], serialize, Some(JsonLine))
    ensures Messages(items) == [Message(items[0])] + Messages(items[1..])
  {
    hide Messages, EncodeFrame;
    FirstMessage(items);
  }

  lemma FirstMessage<T>(items: seq<T>)
    requires items != []
    ensures Messages(items) == [Message(items[0])] + Messages(items[1..])
  {
  }

  /** Items in front of a list are delivered in front. */
  lemma MessagesPrefix<T>(items: seq<T>, k: nat)
    requires k <= |items|
    ensures Messages(items[..k]) <= Messages(items) && |Messages(items[..k])| == k
    ensures Messages(items[..k]) == Messages(items) ==> items[..k] == items
  {
    assert items == items[..k] + items[k..];
  }

  /** JSON-line round trip: a latched line reader fed any part of an encoded stream in any chunking
      delivers the first items, in order; it has delivered all of the whole stream exactly when it
      answers `Pending`, and has then kept no byte. */
  lemma JsonLineRoundTrip<T(!new)>(
    items: seq<T>, serialize: T -> Bytes, parse: Bytes -> Parsed<T>, actions: seq<Action>, max: nat)
    requires ReadsBack(items, serialize, parse)
    requires forall i :: 0 <= i < |items| ==> FitsOnALine(serialize(items[i]), max)
    requires Total(actions) <= EncodedStream(items, serialize, Some(JsonLine))
    ensures var (outcomes, end) := Run(Fresh(Some(JsonLine)), actions, max, parse);
            && outcomes <= Messages(items)
            && (Total(actions) == EncodedStream(items, serialize, Some(JsonLine)) ==>
                  && (DecodeStep(end, max, parse).0.Pending? <==> outcomes == Messages(items))
                  && (outcomes == Messages(items) ==> end.buf == []))
  {
    hide Run, DecodeStep, LineOutcomes, EncodedStream, Messages, FitsOnALine, Total;
    var (outcomes, end) := Run(Fresh(Some(JsonLine)), actions, max, parse);
    assert [] + Total(actions) == Total(actions);
    var k := EncodedLinesSession([], items, serialize, parse, actions, max);
    MessagesPrefix(items, k);
    if Total(actions) == EncodedStream(items, serialize, Some(JsonLine)) {
      EncodedLinesMean(items, serialize, parse, max);
      ChunkInvariance(Some(JsonLine), actions, max, parse);
      if outcomes == Messages(items) {
        assert EncodedStream(items, serialize, Some(JsonLine)) + []
            == EncodedStream(items, serialize, Some(JsonLine)) + end.buf;
        SameSuffix(EncodedStream(items, serialize, Some(JsonLine)), [], end.buf);
      }
    }
  }

  /** Either framing: once all of an encoded stream has arrived, in any chunking and with any polls in
      between, as many further polls as there are items deliver the rest of them and empty the buffer. */
  lemma DrainedRoundTrip<T(!new)>(
    items: seq<T>, serialize: T -> Bytes, parse: Bytes -> Parsed<T>,
    latch: Option<WireProtocol>, actions: seq<Action>, n: nat, max: nat)
    requires ReadsBack(items, serialize, parse) && n >= |items|
    requires latch.None? ==> max >= 13
    requires latch == Some(JsonLine) ==> forall i :: 0 <= i < |items| ==> FitsOnALine(serialize(items[i]), max)
    requires latch != Some(JsonLine) ==> forall i :: 0 <= i < |items| ==> |EncodeFrame(serialize(items[i]))| <= USIZE_MAX
    requires Total(actions) == EncodedStream(items, serialize, latch)
    ensures var (outcomes, end) := Run(Fresh(latch), actions + Polls(n), max, parse);
            outcomes == Messages(items) && end.buf == []
  {
    hide Run, DecodeStep, EncodedStream, LineOutcomes, Polls, FitsOnALine, EncodeFrame, Messages;
    TotalOfPolls(actions, n);
    if latch == Some(JsonLine) {
      EncodedLinesMean(items, serialize, parse, max);
      assert |Messages(items)| == |items| by { MessageCount(items); }
      DrainedSessionIsComplete(latch, actions, n, max, parse);
      JsonLineRoundTrip(items, serialize, parse, actions + Polls(n), max);
    } else {
      assert latch.None? || latch.value.ContentLength?;
      DrainedFrames(items, serialize, parse, latch, actions, n, max);
    }
  }

  lemma MessageCount<T>(items: seq<T>)
    ensures |Messages(items)| == |items|
  {
  }

  lemma {:induction false} TotalOfPolls(actions: seq<Action>, n: nat)
    ensures Total(actions + Polls(n)) == Total(actions)
    decreases |actions|, n
  {
    if actions != [] {
      assert (actions + Polls(n))[1..] == actions[1..] + Polls(n);
      TotalOfPolls(actions[1..], n);
    } else {
      assert actions + Polls(n) == Polls(n);
      if n > 0 {
        assert Polls(n)[1..] == Polls(n - 1) && [] + Polls(n - 1) == Polls(n - 1);
        TotalOfPolls([], n - 1);
      }
    }
  }

  lemma DrainedFrames<T(!new)>(
    items: seq<T>, serialize: T -> Bytes, parse: Bytes -> Parsed<T>,
    latch: Option<WireProtocol>, actions: seq<Action>, n: nat, max: nat)
    requires ReadsBack(items, serialize, parse) && n >= |items|
    requires (latch.None? && max >= 13) || latch == Some(ContentLength)
    requires forall i :: 0 <= i < |items| ==> |EncodeFrame(serialize(items[i]))| <= USIZE_MAX
    requires Total(actions) == EncodedStream(items, serialize, latch)
    ensures var (outcomes, end) := Run(Fresh(latch), actions + Polls(n), max, parse);
            outcomes == Messages(items) && end.buf == []
  {
    hide Run, DecodeStep, EncodedStream, FramesBytes, FramesOutcomes, Polls, WellFramed, ClearOfCrlf,
         EncodeFrame, Messages, LooksLikeContentLengthFrame;
    var d, fs := Fresh(latch), EncodedFrames(items, serialize);
    var (outcomes, mid) := Run(d, actions, max, parse);
    EncodedStreamIsFrames(items, serialize, latch);
    AllEncodedFramesAreWellFramed(items, serialize);
    CrlfFramesAreClear(fs);
    assert d.buf + Total(actions) == Total(actions);
    var k := FrameSession(d, actions, fs, max, parse);
    FramesBytesSplit(fs, k);
    SameSuffix(FramesBytes(fs[..k]), mid.buf, FramesBytes(fs[k..]));
    DrainingTakesEveryFrame(mid, fs[k..], n, max, parse);
    RunAppend(d, actions, Polls(n), max, parse);
    FramesOutcomesPrefix(fs, k, parse);
    VerdictsOfReadBackItems(items, serialize, parse);
  }

  lemma CrlfFramesAreClear(fs: seq<Frame>)
    requires forall i :: 0 <= i < |fs| ==> fs[i].closing == CRLFCRLF
    ensures forall i :: 0 <= i < |fs| ==> ClearOfCrlf(fs[i], FramesBytes(fs[i..]))
  {
  }

  // Header blocks closed by two bare newlines

  /** The length is announced on the first line, or by the lines after it. */
  lemma LengthOnFirstLine(header: Bytes, k: nat)
    requires IndexOf(header, LF) == Some(k)
    ensures var field := LengthField(WithoutCarriageReturn(header[..k]));
            ContentLengthOf(header) == if field.Some? then ReadLength(field.value) else ContentLengthOf(header[k + 1..])
  {
    hide IndexOf, IndexFrom, LengthField, ReadLength;
    assert HeaderLines(header)[1..] == HeaderLines(header[k + 1..]);
  }

  lemma LengthOnOnlyLine(header: Bytes)
    requires IndexOf(header, LF) == None && ContentLengthOf(header).Ok?
    ensures var field := LengthField(WithoutCarriageReturn(header));
            field.Some? && ContentLengthOf(header) == ReadLength(field.value)
  {
    hide IndexOf, IndexFrom, TrimText, EqIgnoreAsciiCase, ReadLength;
    assert LengthFromLines([header][1..]).Err?;
    assert StripEnd(WithoutCarriageReturn(header), IsCarriageReturn) == StripEnd(header, IsCarriageReturn);
  }

  /** The length already announced is not changed by further header lines. */
  lemma {:induction false} LaterLinesDoNotMatter(header: Bytes, more: Bytes)
    requires ContentLengthOf(header).Ok?
    ensures ContentLengthOf(header + [LF] + more) == ContentLengthOf(header)
    decreases |header|
  {
    hide IndexOf, IndexFrom, ContentLengthOf, LengthField, ReadLength;
    var s := header + [LF] + more;
    match IndexOf(header, LF)
    case None =>
      IndexOfIs(s, LF, |header|);
      assert s[..|header|] == header;
      LengthOnOnlyLine(header);
      LengthOnFirstLine(s, |header|);
    case Some(k) =>
      IndexOfIs(s, LF, k);
      assert s[..k] == header[..k] && s[k + 1..] == header[k + 1..] + [LF] + more;
      LengthOnFirstLine(header, k);
      LengthOnFirstLine(s, k);
      if LengthField(WithoutCarriageReturn(header[..k])).None? {
        LaterLinesDoNotMatter(header[k + 1..], more);
      }
  }

  /** A complete frame whose header block ends in two bare newlines is taken as that frame if
      and only if no CRLF blank line stands anywhere in the buffer, later frames included; so on
      streams that hold one, unlike those of `FrameSession`, chunking matters. */
  lemma BareNewlineFrameNeedsNoCrlfBlankLine<T>(f: Frame, more: Bytes, parse: Bytes -> Parsed<T>)
    requires WellFramed(f) && f.closing == LFLF
    ensures var buf := FrameBytes(f) + more;
            FrameDecode(buf, parse).rest == more <==> !Contains(buf, CRLFCRLF)
  {
    hide Find, FindFrom, Utf8.Valid, ContentLengthOf;
    var block := f.header + LFLF;
    var buf := FrameBytes(f) + more;
    var taken := |FrameBytes(f)|;
    assert buf[..|block|] == block && buf[taken..] == more;
    match Find(buf, CRLFCRLF)
    case None =>
      FrameDecodeTakesExactlyOneFrame(f, buf, more, parse);
    case Some(i) =>
      CrlfBlankLineComesLater(f.header, buf, i);
      assert buf[..i] == f.header + [LF] + ([LF] + buf[|block|..i]);
      LaterLinesDoNotMatter(f.header, [LF] + buf[|block|..i]);
      assert |FrameDecode(buf, parse).rest| != |more|;
  }

  /** A frame that is not taken: its payload is a CRLF blank line. */
  lemma ABareNewlineFrameIsMissed<T>(parse: Bytes -> Parsed<T>)
    ensures var f := Frame(EncodedHeader(4), LFLF, CRLFCRLF);
            WellFramed(f) && FrameDecode(FrameBytes(f), parse).rest != []
  {
    hide Find, FindFrom, ContentLengthOf, EncodedHeader;
    var f := Frame(EncodedHeader(4), LFLF, CRLFCRLF);
    var h := f.header;
    HeaderOfFour();
    PlainHeaderEndsAtBareNewlines(h);
    assert FrameBytes(f) + [] == FrameBytes(f);
    assert FrameBytes(f)[|h| + 2..|h| + 6] == CRLFCRLF;
    assert OccursAt(FrameBytes(f), CRLFCRLF, |h| + 2);
    BareNewlineFrameNeedsNoCrlfBlankLine(f, [], parse);
  }

  lemma HeaderOfFour()
    ensures var h := EncodedHeader(4);
            && |h| < 100 && Utf8.Valid(h) && ContentLengthOf(h) == Ok(4)
            && forall i :: 0 <= i < |h| ==> h[i] != CR && h[i] != LF
  {
    hide ContentLengthOf;
    assert PrintDecimal(4) == [52] by { assert Decimals.Digits(4) == [4]; }
    EncodedHeaderBytes(4);
    EncodedLengthIsRead(4);
    Utf8.AsciiIsValid(EncodedHeader(4));
  }

  lemma PlainHeaderEndsAtBareNewlines(h: Bytes)
    requires forall i :: 0 <= i < |h| ==> h[i] != CR && h[i] != LF
    ensures Find(h + LFLF, LFLF) == Some(|h|) && Find(h + LFLF, CRLFCRLF) == None
  {
    hide Find, FindFrom;
    var block := h + LFLF;
    assert OccursAt(block, LFLF, |h|);
    forall i: nat | i < |h|
      ensures !OccursAt(block, LFLF, i)
    {
      assert block[i..i + 2][0] == h[i];
    }
    FindIs(block, LFLF, |h|);
    forall i: nat
      ensures !OccursAt(block, CRLFCRLF, i)
    {
      if i + 4 <= |block| { assert block[i..i + 4][0] == h[i]; }
    }
  }

  lemma CrlfBlankLineComesLater(header: Bytes, buf: Bytes, i: nat)
    requires header + LFLF <= buf && Find(header + LFLF, CRLFCRLF) == None
    ensures OccursAt(buf, CRLFCRLF, i) ==> i >= |header| + 2
  {
    var block := header + LFLF;
    assert block[|header|] == LF && block[|header| + 1] == LF;
    assert !OccursAt(block, CRLFCRLF, i);
    if i + 4 <= |block| {
      assert buf[i..i + 4] == block[i..i + 4];
    } else if i + 4 <= |buf| {
      assert buf[i..i + 4][1] == buf[i + 1] && buf[i..i + 4][2] == buf[i + 2];
      assert buf[i..i + 4][0] == buf[i] && buf[i..i + 4][3] == buf[i + 3];
    }
  }
}
