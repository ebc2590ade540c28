/** Whole sessions of the hybrid codec: any interleaving of arriving chunks and decoder calls. */
module HybridRuns {
  import opened Wrappers
  import opened Sequences
  import opened Wire
  import opened LineFraming
  import opened HeaderFraming
  import opened HybridCodec

  datatype Action = Receive(chunk: Bytes) | PollOnce

  /** The outcomes delivered by a session, and the decoder it leaves. */
  function Run<T>(d: Decoder, actions: seq<Action>, max: nat, parse: Bytes -> Parsed<T>): (seq<Outcome<T>>, Decoder)
    decreases |actions|
  {
    if actions == [] then ([], d)
    else
      match actions[0]
      case Receive(chunk) => Run(d.(buf := d.buf + chunk), actions[1..], max, parse)
      case PollOnce =>
        var (poll, d') := DecodeStep(d, max, parse);
        var (outcomes, end) := Run(d', actions[1..], max, parse);
        (Delivered(poll) + outcomes, end)
  }

  /** The bytes received over a session. */
  function Total(actions: seq<Action>): Bytes {
    if actions == [] then []
    else (if actions[0].Receive? then actions[0].chunk else []) + Total(actions[1..])
  }

  function Fresh(protocol: Option<WireProtocol>): Decoder {
    Decoder([], false, protocol)
  }

  /** Once the protocol is fixed it is fixed for the rest of the session. */
  lemma {:induction false} LatchIsPermanent<T>(d: Decoder, actions: seq<Action>, max: nat, parse: Bytes -> Parsed<T>)
    requires d.protocol.Some?
    ensures Run(d, actions, max, parse).1.protocol == d.protocol
    decreases |actions|
  {
    hide LineDecode, FrameDecode;
    if actions != [] {
      match actions[0]
      case Receive(chunk) => LatchIsPermanent(d.(buf := d.buf + chunk), actions[1..], max, parse);
      case PollOnce => LatchIsPermanent(DecodeStep(d, max, parse).1, actions[1..], max, parse);
    }
  }

  // Line sessions

  /** The session is read as lines: the latch says so, or the constructor's unlimited codec has
      not decided yet and the stream does not begin like a header. */
  predicate ReadAsLines(d: Decoder, coming: Bytes, max: nat) {
    || d.protocol == Some(JsonLine)
    || (&& d.protocol.None? && !d.discarding
        && max == USIZE_MAX && |d.buf + coming| <= USIZE_MAX
        && !LooksLikeContentLengthFrame(d.buf + coming))
  }

  lemma LooksAreSettledEarly(a: Bytes, b: Bytes)
    ensures LooksLikeContentLengthFrame(a) ==> LooksLikeContentLengthFrame(a + b)
  {
    if |a| >= 14 {
      assert (a + b)[..14] == a[..14];
    }
  }

  /** One call of a session read as lines: it stays one, and no outcome is lost. */
  lemma LineSessionStep<T>(d: Decoder, coming: Bytes, max: nat, parse: Bytes -> Parsed<T>, more: Bytes)
    requires ReadAsLines(d, coming, max)
    ensures var (poll, d') := DecodeStep(d, max, parse);
            && !TakesHeaderPath(d) && ReadAsLines(d', coming, max)
            && Owed(d.buf + more, d.discarding, max, parse)
               == Delivered(poll) + Owed(d'.buf + more, d'.discarding, max, parse)
  {
    hide IndexFrom, Owed, LooksLikeContentLengthFrame;
    LooksAreSettledEarly(d.buf, coming);
    LineDecodeKeepsWhatIsOwed(d.buf, d.discarding, max, parse, more);
  }

  /** Over any session read as lines, and whatever bytes may still follow, the outcomes
      delivered are exactly the first ones owed to the whole stream. */
  lemma {:induction false} LineSession<T>(
    d: Decoder, actions: seq<Action>, max: nat, parse: Bytes -> Parsed<T>, more: Bytes)
    requires ReadAsLines(d, Total(actions), max)
    ensures var (outcomes, end) := Run(d, actions, max, parse);
            && ReadAsLines(end, [], max)
            && Owed(d.buf + Total(actions) + more, d.discarding, max, parse)
               == outcomes + Owed(end.buf + more, end.discarding, max, parse)
    decreases |actions|
  {
    hide DecodeStep, Owed, LooksLikeContentLengthFrame;
    if actions == [] {
      assert d.buf + [] == d.buf;
    } else {
      var rest := actions[1..];
      match actions[0]
      case Receive(chunk) =>
        assert d.buf + Total(actions) == d.buf + chunk + Total(rest);
        LineSession(d.(buf := d.buf + chunk), rest, max, parse, more);
      case PollOnce =>
        assert Total(actions) == Total(rest);
        var (poll, d') := DecodeStep(d, max, parse);
        LineSessionStep(d, Total(rest), max, parse, Total(rest) + more);
        assert d.buf + Total(rest) + more == d.buf + (Total(rest) + more);
        assert d'.buf + Total(rest) + more == d'.buf + (Total(rest) + more);
        LineSession(d', rest, max, parse, more);
    }
  }

  /** Chunk invariance: however a stream is cut and polled, what has been delivered is a prefix
      of the meaning of the bytes received so far, and it is all of it exactly when the
      decoder has nothing more to say. */
  lemma ChunkInvariance<T>(
    protocol: Option<WireProtocol>, actions: seq<Action>, max: nat, parse: Bytes -> Parsed<T>)
    requires ReadAsLines(Fresh(protocol), Total(actions), max)
    ensures var (outcomes, end) := Run(Fresh(protocol), actions, max, parse);
            && outcomes <= LineOutcomes(Total(actions), max, parse)
            && (DecodeStep(end, max, parse).0.Pending? <==> outcomes == LineOutcomes(Total(actions), max, parse))
  {
    hide LineDecode, FrameDecode, LineOutcomes, LooksLikeContentLengthFrame, Run;
    var d := Fresh(protocol);
    var (outcomes, end) := Run(d, actions, max, parse);
    LineSession(d, actions, max, parse, []);
    assert d.buf + Total(actions) + [] == Total(actions) && end.buf + [] == end.buf;
    LineSessionStep(end, [], max, parse, []);
    PendingMeansSettled(end.buf, end.discarding, max, parse);
  }

  // Draining

  function Polls(n: nat): seq<Action> {
    if n == 0 then [] else [PollOnce] + Polls(n - 1)
  }

  lemma {:induction false} RunAppend<T>(d: Decoder, a: seq<Action>, b: seq<Action>, max: nat, parse: Bytes -> Parsed<T>)
    ensures var mid := Run(d, a, max, parse);
            var end := Run(mid.1, b, max, parse);
            Run(d, a + b, max, parse) == (mid.0 + end.0, end.1)
    decreases |a|
  {
    hide DecodeStep;
    if a == [] {
      assert a + b == b;
      assert [] + Run(d, b, max, parse).0 == Run(d, b, max, parse).0;
    } else {
      assert (a + b)[1..] == a[1..] + b;
      match a[0]
      case Receive(chunk) => RunAppend(d.(buf := d.buf + chunk), a[1..], b, max, parse);
      case PollOnce =>
        var (poll, d') := DecodeStep(d, max, parse);
        RunAppend(d', a[1..], b, max, parse);
        var (rest, mid) := Run(d', a[1..], max, parse);
        Reassociate(Delivered(poll), rest, Run(mid, b, max, parse).0);
    }
  }

  /** Polling is never stuck: as many polls as there are outcomes owed deliver them all, and then the
      decoder has nothing more to say. */
  lemma {:induction false} DrainingDeliversWhatIsOwed<T>(d: Decoder, n: nat, max: nat, parse: Bytes -> Parsed<T>)
    requires ReadAsLines(d, [], max) && n >= |Owed(d.buf, d.discarding, max, parse)|
    ensures var (outcomes, end) := Run(d, Polls(n), max, parse);
            && outcomes == Owed(d.buf, d.discarding, max, parse)
            && DecodeStep(end, max, parse).0.Pending?
    decreases n
  {
    hide LineDecode, FrameDecode, Owed, LooksLikeContentLengthFrame, ReadAsLines;
    var (poll, d') := DecodeStep(d, max, parse);
    OnePollIsOwed(d, max, parse);
    if n > 0 {
      assert Polls(n)[0] == PollOnce && Polls(n)[1..] == Polls(n - 1);
      DrainingDeliversWhatIsOwed(d', n - 1, max, parse);
    }
  }

  lemma OnePollIsOwed<T>(d: Decoder, max: nat, parse: Bytes -> Parsed<T>)
    requires ReadAsLines(d, [], max)
    ensures var (poll, d') := DecodeStep(d, max, parse);
            && ReadAsLines(d', [], max)
            && Owed(d.buf, d.discarding, max, parse) == Delivered(poll) + Owed(d'.buf, d'.discarding, max, parse)
            && (poll.Pending? <==> Owed(d.buf, d.discarding, max, parse) == [])
  {
    hide LineDecode, FrameDecode, Owed, LooksLikeContentLengthFrame, ReadAsLines;
    LineSessionStep(d, [], max, parse, []);
    PendingMeansSettled(d.buf, d.discarding, max, parse);
    var d' := DecodeStep(d, max, parse).1;
    assert d.buf + [] == d.buf && d'.buf + [] == d'.buf;
  }

  /** However a stream was cut and polled, enough further polls deliver the whole of its meaning. */
  lemma DrainedSessionIsComplete<T>(
    protocol: Option<WireProtocol>, actions: seq<Action>, n: nat, max: nat, parse: Bytes -> Parsed<T>)
    requires ReadAsLines(Fresh(protocol), Total(actions), max)
    requires n >= |LineOutcomes(Total(actions), max, parse)|
    ensures var (outcomes, end) := Run(Fresh(protocol), actions + Polls(n), max, parse);
            && outcomes == LineOutcomes(Total(actions), max, parse)
            && DecodeStep(end, max, parse).0.Pending?
  {
    hide Run, LineOutcomes, DecodeStep, ReadAsLines, Polls;
    var d := Fresh(protocol);
    var (outcomes, end) := Run(d, actions, max, parse);
    LineSession(d, actions, max, parse, []);
    assert d.buf + Total(actions) + [] == Total(actions) && end.buf + [] == end.buf;
    DrainingDeliversWhatIsOwed(end, n, max, parse);
    RunAppend(d, actions, Polls(n), max, parse);
  }

  /** At the end of the stream an unterminated last line counts as if it were terminated,
      unless it is empty or a lone carriage return; also when that line is all there is and the
      protocol is still undecided. */
  lemma EndOfStreamClosesTheLastLine<T>(
    protocol: Option<WireProtocol>, actions: seq<Action>, max: nat, parse: Bytes -> Parsed<T>)
    requires ReadAsLines(Fresh(protocol), Total(actions), max)
    requires DecodeStep(Run(Fresh(protocol), actions, max, parse).1, max, parse).0.Pending?
    ensures var (outcomes, end) := Run(Fresh(protocol), actions, max, parse);
            var final := DecodeStep(end, max, parse).1;
            var poll := EofStep(end, max, parse).0;
            if final.buf == [] || final.buf == [CR]
            then poll.Pending? && outcomes == LineOutcomes(Total(actions), max, parse)
            else outcomes + Delivered(poll) == LineOutcomes(Total(actions) + [LF], max, parse)
  {
    hide LineDecode, FrameDecode, LineOutcomes, Run, IndexOf, IndexFrom, LooksLikeContentLengthFrame;
    var d := Fresh(protocol);
    var s := Total(actions);
    var (outcomes, end) := Run(d, actions, max, parse);
    var final := DecodeStep(end, max, parse).1;
    ChunkInvariance(protocol, actions, max, parse);
    LineSession(d, actions, max, parse, [LF]);
    LineSessionStep(end, [], max, parse, [LF]);
    PendingMeansSettled(end.buf, end.discarding, max, parse);
    if final.buf != [] && final.buf != [CR] {
      LineDecodeKeepsWhatIsOwed(end.buf, end.discarding, max, parse, [LF]);
      assert d.buf + s + [LF] == s + [LF];
      ClosedLineOwesItsOutcome(final.buf, max, parse);
    }
  }

  lemma ClosedLineOwesItsOutcome<T>(line: Bytes, max: nat, parse: Bytes -> Parsed<T>)
    requires LF !in line && |line| <= max
    ensures Owed(line + [LF], false, max, parse) == Delivered(VerdictPoll(parse(WithoutCarriageReturn(line))))
  {
    var s := line + [LF];
    IndexOfIs(s, LF, |line|);
    LineOutcomesStep(s, max, parse, |line|);
    assert s[..|line|] == line && s[|line| + 1..] == [];
  }

  // Content-Length sessions

  function FramesOutcomes<T>(fs: seq<Frame>, parse: Bytes -> Parsed<T>): seq<Outcome<T>> {
    if fs == [] then [] else ParseOutcome(parse(fs[0].payload)) + FramesOutcomes(fs[1..], parse)
  }

  /** The session is read as frames: the latch says so, or the codec has not decided yet and
      the first header begins the way a header must; and from a frame closed by bare newlines on
      the stream holds no CRLF blank line. */
  predicate ReadAsFrames(d: Decoder, fs: seq<Frame>, max: nat) {
    && (forall i :: 0 <= i < |fs| ==> WellFramed(fs[i]) && ClearOfCrlf(fs[i], FramesBytes(fs[i..])))
    && (|| d.protocol == Some(ContentLength)
        || (&& d.protocol.None? && !d.discarding && max >= 13
            && (fs != [] ==> LooksLikeContentLengthFrame(fs[0].header))))
  }

  /** Before the first fourteen bytes of a header are there, the undecided codec looks for a
      line, finds none and leaves everything as it is. */
  lemma ShortHeaderPrefixWaits<T>(d: Decoder, f: Frame, more: Bytes, max: nat, parse: Bytes -> Parsed<T>)
    requires d.protocol.None? && !d.discarding && max >= 13
    requires LooksLikeContentLengthFrame(f.header) && d.buf <= FrameBytes(f) + more
    ensures if |d.buf| < 14 then DecodeStep(d, max, parse) == (Pending, d) else TakesHeaderPath(d)
  {
    var s := FrameBytes(f) + more;
    assert s[..14] == f.header[..14];
    if |d.buf| < 14 {
      forall i | 0 <= i < |d.buf|
        ensures d.buf[i] != LF
      {
        assert d.buf[i] == f.header[..14][i];
        assert LowerAscii(LF) == LF;
        assert LowerAscii(f.header[..14][i]) == CONTENT_LENGTH[i];
      }
      IndexOfNone(d.buf, LF);
    } else {
      assert d.buf[..14] == s[..14];
    }
  }

  /** One call on a buffer that holds part of a stream of well-formed frames: it either takes
      the first frame whole, delivering its verdict, or takes nothing and waits. */
  lemma FrameSessionStep<T>(d: Decoder, fs: seq<Frame>, max: nat, parse: Bytes -> Parsed<T>)
    requires ReadAsFrames(d, fs, max) && d.buf <= FramesBytes(fs)
    ensures var (poll, d') := DecodeStep(d, max, parse);
      if fs != [] && |d.buf| >= |FrameBytes(fs[0])|
      then && poll == VerdictPoll(parse(fs[0].payload)) && ReadAsFrames(d', fs[1..], max)
           && d.buf == FrameBytes(fs[0]) + d'.buf
      else poll == Pending && d' == d
  {
    hide FrameDecode, WellFramed, LooksLikeContentLengthFrame, LineDecode, ClearOfCrlf, FrameBytes, FramesBytes;
    if fs == [] {
      NoFrames(parse);
      EmptyBufferWaits(d, max, parse);
    } else {
      var f := fs[0];
      assert fs[0..] == fs;
      FirstFrame(fs, parse);
      if d.protocol.None? {
        ShortHeaderPrefixWaits(d, f, FramesBytes(fs[1..]), max, parse);
        HeaderFitsInFrame(f);
      }
      ClearPrefix(f, FramesBytes(fs), d.buf);
      FrameDecodeTakesExactlyOneFrame(f, d.buf, FramesBytes(fs[1..]), parse);
      LaterFramesStayClear(fs);
      if |d.buf| >= |FrameBytes(f)| {
        assert d.buf[..|FrameBytes(f)|] == FrameBytes(f);
      }
    }
  }

  lemma LaterFramesStayClear(fs: seq<Frame>)
    requires fs != []
    requires forall i :: 0 <= i < |fs| ==> WellFramed(fs[i]) && ClearOfCrlf(fs[i], FramesBytes(fs[i..]))
    ensures forall i :: 0 <= i < |fs| - 1 ==> WellFramed(fs[1..][i]) && ClearOfCrlf(fs[1..][i], FramesBytes(fs[1..][i..]))
  {
    hide WellFramed, ClearOfCrlf, FramesBytes;
    assert forall i :: 0 <= i < |fs| - 1 ==> fs[1..][i] == fs[i + 1] && fs[1..][i..] == fs[i + 1..];
  }

  lemma ClearPrefix(f: Frame, stream: Bytes, buf: Bytes)
    requires ClearOfCrlf(f, stream) && buf <= stream
    ensures ClearOfCrlf(f, buf)
  {
    hide Find;
    var found := Find(buf, CRLFCRLF);
    if found.Some? {
      assert stream[found.value..found.value + 4] == buf[found.value..found.value + 4];
      assert OccursAt(stream, CRLFCRLF, found.value);
    }
  }

  lemma HeaderFitsInFrame(f: Frame)
    requires LooksLikeContentLengthFrame(f.header)
    ensures |FrameBytes(f)| >= 14
  {
  }

  lemma EmptyBufferWaits<T>(d: Decoder, max: nat, parse: Bytes -> Parsed<T>)
    requires d.buf == [] && (d.protocol == Some(ContentLength) || !d.discarding)
    ensures DecodeStep(d, max, parse) == (Pending, d)
  {
    assert FindHeaderTerminator([]) == None;
  }

  /** Over any session on a stream of well-formed frames, what has been delivered is the
      verdicts of the first frames, and what is unread is the rest of the stream. */
  lemma {:induction false} FrameSession<T>(
    d: Decoder, actions: seq<Action>, fs: seq<Frame>, max: nat, parse: Bytes -> Parsed<T>) returns (k: nat)
    requires ReadAsFrames(d, fs, max) && d.buf + Total(actions) <= FramesBytes(fs)
    ensures var (outcomes, end) := Run(d, actions, max, parse);
            && k <= |fs| && ReadAsFrames(end, fs[k..], max)
            && outcomes == FramesOutcomes(fs[..k], parse)
            && d.buf + Total(actions) == FramesBytes(fs[..k]) + end.buf
    decreases |actions|
  {
    hide DecodeStep, WellFramed, LooksLikeContentLengthFrame, FrameBytes, FramesBytes, FramesOutcomes, VerdictPoll;
    if actions == [] {
      assert d.buf + [] == d.buf;
      k := 0;
      NoFrames(parse);
      assert fs[..0] == [] && fs[0..] == fs;
    } else {
      var rest := actions[1..];
      match actions[0]
      case Receive(chunk) =>
        assert d.buf + Total(actions) == d.buf + chunk + Total(rest);
        k := FrameSession(d.(buf := d.buf + chunk), rest, fs, max, parse);
      case PollOnce =>
        assert Total(actions) == Total(rest);
        FrameSessionStep(d, fs, max, parse);
        var (poll, d') := DecodeStep(d, max, parse);
        if fs != [] && |d.buf| >= |FrameBytes(fs[0])| {
          FrameLeavesTheRest(fs, d.buf, d'.buf, Total(rest), parse);
          var n := FrameSession(d', rest, fs[1..], max, parse);
          var (outcomes, end) := Run(d', rest, max, parse);
          CountFirstFrame(fs, n, d.buf, d'.buf, Total(rest), outcomes, end.buf, parse);
          k := n + 1;
        } else {
          k := FrameSession(d, rest, fs, max, parse);
        }
    }
  }

  /** As many polls as there are complete frames take them all. */
  lemma {:induction false} DrainingTakesEveryFrame<T>(
    d: Decoder, fs: seq<Frame>, n: nat, max: nat, parse: Bytes -> Parsed<T>)
    requires ReadAsFrames(d, fs, max) && d.buf == FramesBytes(fs) && n >= |fs|
    ensures var (outcomes, end) := Run(d, Polls(n), max, parse);
            outcomes == FramesOutcomes(fs, parse) && end.buf == []
    decreases n
  {
    hide DecodeStep, ReadAsFrames, FrameBytes, FramesBytes, FramesOutcomes, VerdictPoll;
    NoFrames(parse);
    FrameSessionStep(d, fs, max, parse);
    if n > 0 {
      assert Polls(n)[0] == PollOnce && Polls(n)[1..] == Polls(n - 1);
      var d' := DecodeStep(d, max, parse).1;
      if fs == [] {
        DrainingTakesEveryFrame(d, fs, n - 1, max, parse);
      } else {
        FirstFrame(fs, parse);
        assert d'.buf == d.buf[|FrameBytes(fs[0])|..] == FramesBytes(fs[1..]);
        DrainingTakesEveryFrame(d', fs[1..], n - 1, max, parse);
      }
    }
  }

  lemma NoFrames<T>(parse: Bytes -> Parsed<T>)
    ensures FramesBytes([]) == [] && FramesOutcomes([], parse) == []
  {
  }

  lemma FirstFrame<T>(fs: seq<Frame>, parse: Bytes -> Parsed<T>)
    requires fs != []
    ensures FramesBytes(fs) == FrameBytes(fs[0]) + FramesBytes(fs[1..])
    ensures FramesOutcomes(fs, parse) == Delivered(VerdictPoll(parse(fs[0].payload))) + FramesOutcomes(fs[1..], parse)
  {
  }

  lemma FrameLeavesTheRest<T>(fs: seq<Frame>, before: Bytes, after: Bytes, coming: Bytes, parse: Bytes -> Parsed<T>)
    requires fs != [] && before == FrameBytes(fs[0]) + after && before + coming <= FramesBytes(fs)
    ensures after + coming <= FramesBytes(fs[1..])
  {
    hide FrameBytes, FramesBytes;
    FirstFrame(fs, parse);
    assert before + coming == FrameBytes(fs[0]) + (after + coming);
    PrefixDrops(FrameBytes(fs[0]), after + coming, FramesBytes(fs[1..]));
  }

  lemma CountFirstFrame<T>(
    fs: seq<Frame>, n: nat, before: Bytes, after: Bytes, coming: Bytes,
    outcomes: seq<Outcome<T>>, left: Bytes, parse: Bytes -> Parsed<T>)
    requires fs != [] && n < |fs| && before == FrameBytes(fs[0]) + after
    requires outcomes == FramesOutcomes(fs[1..][..n], parse)
    requires after + coming == FramesBytes(fs[1..][..n]) + left
    ensures Delivered(VerdictPoll(parse(fs[0].payload))) + outcomes == FramesOutcomes(fs[..n + 1], parse)
    ensures before + coming == FramesBytes(fs[..n + 1]) + left
    ensures fs[n + 1..] == fs[1..][n..]
  {
    hide FrameBytes, FramesBytes, FramesOutcomes;
    FirstFrame(fs[..n + 1], parse);
    assert fs[..n + 1][1..] == fs[1..][..n];
    assert before + coming == FrameBytes(fs[0]) + (after + coming);
  }

  lemma PrefixDrops(a: Bytes, b: Bytes, c: Bytes)
    requires a + b <= a + c
    ensures b <= c
  {
    assert (a + c)[|a|..] == c;
    assert (a + b)[|a|..] == b;
  }

  // The end of a stream of frames

  /** `n` calls at the end of the stream. */
  function EofRun<T>(d: Decoder, n: nat, max: nat, parse: Bytes -> Parsed<T>): (seq<Outcome<T>>, Decoder)
    decreases n
  {
    if n == 0 then ([], d)
    else
      var (poll, d') := EofStep(d, max, parse);
      var (outcomes, end) := EofRun(d', n - 1, max, parse);
      (Delivered(poll) + outcomes, end)
  }

  /** For a latched Content-Length codec a call at the end of the stream takes a complete frame and
      delivers its verdict, and leaves a partial one alone. */
  lemma EofTakesTheFrame<T>(d: Decoder, f: Frame, more: Bytes, max: nat, parse: Bytes -> Parsed<T>)
    requires d.protocol == Some(ContentLength) && WellFramed(f) && ClearOfCrlf(f, d.buf)
    requires d.buf <= FrameBytes(f) + more
    ensures var (poll, d') := EofStep(d, max, parse);
      && d' == d.(buf := d'.buf)
      && if |d.buf| < |FrameBytes(f)| then poll == Pending && d' == d
         else && d.buf == FrameBytes(f) + d'.buf
              && poll == (match parse(f.payload)
                          case Item(v) => Ready(Message(v))
                          case Ignored => Pending
                          case Malformed => Ready(Failure(Serde)))
  {
    hide FrameDecode, WellFramed, FrameBytes, ClearOfCrlf, LineDecode;
    FrameDecodeTakesExactlyOneFrame(f, d.buf, more, parse);
    if d.buf == [] { EmptyBufferWaits(d, max, parse); }
    if |d.buf| >= |FrameBytes(f)| {
      assert d.buf[..|FrameBytes(f)|] == (FrameBytes(f) + more)[..|FrameBytes(f)|] == FrameBytes(f);
    }
  }

  lemma {:induction false} FramesBytesAppend(fs: seq<Frame>, last: Frame)
    ensures FramesBytes(fs + [last]) == FramesBytes(fs) + FrameBytes(last)
  {
    hide FrameBytes;
    if fs == [] {
      assert fs + [last] == [last] && [last][1..] == [];
    } else {
      assert (fs + [last])[1..] == fs[1..] + [last];
      FramesBytesAppend(fs[1..], last);
    }
  }

  /** As many calls at the end of the stream as there are complete frames deliver all their verdicts;
      a partial frame after them is left as it is. */
  lemma {:induction false} EofTakesEveryFrame<T>(
    d: Decoder, fs: seq<Frame>, last: Frame, part: Bytes, n: nat, max: nat, parse: Bytes -> Parsed<T>)
    requires d.protocol == Some(ContentLength) && ReadAsFrames(d, fs + [last], max)
    requires d.buf == FramesBytes(fs) + part && part <= FrameBytes(last) && |part| < |FrameBytes(last)|
    requires n >= |fs|
    ensures var (outcomes, end) := EofRun(d, n, max, parse);
            outcomes == FramesOutcomes(fs, parse) && end == d.(buf := part)
    decreases n
  {
    hide EofStep, WellFramed, ClearOfCrlf, FrameBytes, FramesBytes, FramesOutcomes, LooksLikeContentLengthFrame;
    var all := fs + [last];
    NoFrames(parse);
    assert all[0..] == all;
    FirstFrame(all, parse);
    if fs == [] {
      assert all[1..] == [] && all[0] == last && [] + part == part;
      assert d.buf == part;
      assert FrameBytes(last) + [] == FrameBytes(last);
      ClearPrefix(last, FramesBytes(all), d.buf);
      EofTakesTheFrame(d, last, [], max, parse);
      if n > 0 { EofTakesEveryFrame(d, fs, last, part, n - 1, max, parse); }
    } else {
      var rest := fs[1..];
      assert all[0] == fs[0] && all[1..] == rest + [last];
      FirstFrame(fs, parse);
      FramesBytesAppend(fs, last);
      assert d.buf == FrameBytes(fs[0]) + (FramesBytes(rest) + part);
      ClearPrefix(fs[0], FramesBytes(all), d.buf);
      EofTakesTheFrame(d, fs[0], FramesBytes(rest) + part, max, parse);
      var d' := EofStep(d, max, parse).1;
      PrefixDrops(FrameBytes(fs[0]), d'.buf, FramesBytes(rest) + part);
      PrefixDrops(FrameBytes(fs[0]), FramesBytes(rest) + part, d'.buf);
      LaterFramesStayClear(all);
      EofTakesEveryFrame(d', rest, last, part, n - 1, max, parse);
    }
  }

  /** What is left over at the end of the stream is judged as one payload, unless it is empty or a lone
      carriage return. */
  ghost predicate JudgedWhole<T>(left: Bytes, poll: Poll<T>, kept: Bytes, parse: Bytes -> Parsed<T>) {
    if left == [] || left == [CR] then poll == Pending && kept == left
    else kept == [] && poll == (match parse(WithoutCarriageReturn(left))
                                case Item(v) => Ready(Message(v))
                                case Ignored => Pending
                                case Malformed => Ready(Failure(Serde)))
  }

  /** An undecided codec at the end of a stream that begins like a header: a complete frame is judged
      and latches the protocol, but after an ignored notification, and before a frame is complete, all
      that is left is judged as one payload. */
  lemma EofOfAnUndecidedFrame<T>(d: Decoder, f: Frame, more: Bytes, max: nat, parse: Bytes -> Parsed<T>)
    requires d.protocol.None? && !d.discarding && max >= 13
    requires WellFramed(f) && LooksLikeContentLengthFrame(f.header) && ClearOfCrlf(f, d.buf)
    requires d.buf <= FrameBytes(f) + more
    ensures var (poll, d') := EofStep(d, max, parse);
      if |d.buf| < |FrameBytes(f)| then JudgedWhole(d.buf, poll, d'.buf, parse)
      else
        && var rest := d.buf[|FrameBytes(f)|..];
        && d'.protocol == Some(ContentLength)
        && match parse(f.payload)
           case Item(v) => poll == Ready(Message(v)) && d'.buf == rest
           case Malformed => poll == Ready(Failure(Serde)) && d'.buf == rest
           case Ignored => JudgedWhole(rest, poll, d'.buf, parse)
  {
    hide FrameDecode, WellFramed, FrameBytes, ClearOfCrlf, LineDecode, LooksLikeContentLengthFrame;
    ShortHeaderPrefixWaits(d, f, more, max, parse);
    HeaderFitsInFrame(f);
    FrameDecodeTakesExactlyOneFrame(f, d.buf, more, parse);
  }
}
