/** Bytes on the wire and the verdict of the JSON parser, which is kept abstract. */
module Wire {

  newtype byte = b: int | 0 <= b < 256

  type Bytes = seq<byte>

  const CR: byte := 13
  const LF: byte := 10
  const COLON: byte := 58

  const USIZE_MAX: nat := 0xFFFF_FFFF_FFFF_FFFF

  /** What `try_parse_with_compatibility` answers for one payload: a message, a
      notification to be skipped for compatibility, or a serde error. */
  datatype Parsed<+T> = Item(value: T) | Ignored | Malformed

  /** `FrameLengthOverflow` stands for the panic of the frame length addition when the
      announced length does not fit a 64-bit `usize` together with the header. */
  datatype CodecError =
    | MaxLineLengthExceeded
    | MissingContentLength
    | InvalidContentLength(value: Bytes)
    | InvalidHeaderFrame
    | Serde
    | FrameLengthOverflow

  datatype Outcome<+T> = Message(value: T) | Failure(error: CodecError)

  /** One answer of the decoder: nothing yet, or an outcome. */
  datatype Poll<+T> = Pending | Ready(outcome: Outcome<T>)

  function Delivered<T>(p: Poll<T>): seq<Outcome<T>> {
    if p.Pending? then [] else [p.outcome]
  }

  function WithoutCarriageReturn(s: Bytes): Bytes {
    if s != [] && s[|s| - 1] == CR then s[..|s| - 1] else s
  }

  function SaturatingAdd(a: nat, b: nat): nat {
    if a + b > USIZE_MAX then USIZE_MAX else a + b
  }
}

/** Newline-delimited framing. `LineOutcomes` says what a whole stream means, by cutting it
    at its newlines in one go; `LineDecode` is one call of the incremental decoder on an
    unread buffer. */
module LineFraming {
  import opened Wrappers
  import opened Sequences
  import opened Wire

  /** The complete lines of a stream, without their newlines. */
  function Lines(s: Bytes): seq<Bytes> {
    match IndexOf(s, LF)
    case None => []
    case Some(k) => [s[..k]] + Lines(s[k + 1..])
  }

  /** What follows the last newline. */
  function Tail(s: Bytes): Bytes {
    match IndexOf(s, LF)
    case None => s
    case Some(k) => Tail(s[k + 1..])
  }

  function Unlines(lines: seq<Bytes>): Bytes {
    if lines == [] then [] else lines[0] + [LF] + Unlines(lines[1..])
  }

  /** Cutting at newlines is the only way to write a stream as newline-free lines, each
      closed by a newline, and a newline-free tail. */
  lemma {:induction false} LinesCutTheStream(s: Bytes)
    ensures s == Unlines(Lines(s)) + Tail(s)
    ensures LF !in Tail(s) && forall l :: l in Lines(s) ==> LF !in l
  {
    hide IndexFrom;
    var n := IndexOf(s, LF);
    if n.Some? {
      var rest := s[n.value + 1..];
      LinesCutTheStream(rest);
      assert Lines(s)[0] == s[..n.value] && Lines(s)[1..] == Lines(rest);
      assert s == s[..n.value] + [LF] + rest;
    }
  }

  lemma {:induction false} LinesOfUnlines(lines: seq<Bytes>, tail: Bytes)
    requires LF !in tail && forall l :: l in lines ==> LF !in l
    ensures Lines(Unlines(lines) + tail) == lines && Tail(Unlines(lines) + tail) == tail
  {
    if lines == [] {
      assert Unlines(lines) + tail == tail;
      IndexOfNone(tail, LF);
    } else {
      var s, k := Unlines(lines) + tail, |lines[0]|;
      assert lines[0] in lines;
      assert s == lines[0] + [LF] + (Unlines(lines[1..]) + tail);
      IndexOfIs(s, LF, k);
      assert s[..k] == lines[0] && s[k + 1..] == Unlines(lines[1..]) + tail;
      LinesOfUnlines(lines[1..], tail);
    }
  }

  function ParseOutcome<T>(verdict: Parsed<T>): seq<Outcome<T>> {
    match verdict
    case Item(v) => [Message(v)]
    case Ignored => []
    case Malformed => [Failure(Serde)]
  }

  /** What one complete line amounts to. */
  function LineOutcome<T>(line: Bytes, max: nat, parse: Bytes -> Parsed<T>): seq<Outcome<T>> {
    if |line| > max then [Failure(MaxLineLengthExceeded)]
    else ParseOutcome(parse(WithoutCarriageReturn(line)))
  }

  function TailOutcome<T>(tail: Bytes, max: nat): seq<Outcome<T>> {
    if |tail| > max then [Failure(MaxLineLengthExceeded)] else []
  }

  function OutcomesOf<T>(lines: seq<Bytes>, max: nat, parse: Bytes -> Parsed<T>): seq<Outcome<T>> {
    if lines == [] then [] else LineOutcome(lines[0], max, parse) + OutcomesOf(lines[1..], max, parse)
  }

  /** The meaning of a whole stream: every complete line gives its outcome, an over-long
      line (finished or not) gives exactly one error. */
  function LineOutcomes<T>(s: Bytes, max: nat, parse: Bytes -> Parsed<T>): seq<Outcome<T>> {
    OutcomesOf(Lines(s), max, parse) + TailOutcome(Tail(s), max)
  }

  lemma LineOutcomesStep<T>(s: Bytes, max: nat, parse: Bytes -> Parsed<T>, k: nat)
    requires IndexOf(s, LF) == Some(k)
    ensures LineOutcomes(s, max, parse)
         == LineOutcome(s[..k], max, parse) + LineOutcomes(s[k + 1..], max, parse)
  {
    var rest := s[k + 1..];
    assert Lines(s)[0] == s[..k] && Lines(s)[1..] == Lines(rest);
    assert (LineOutcome(s[..k], max, parse) + OutcomesOf(Lines(rest), max, parse)) + TailOutcome<T>(Tail(rest), max)
        == LineOutcome(s[..k], max, parse) + (OutcomesOf(Lines(rest), max, parse) + TailOutcome<T>(Tail(rest), max));
  }

  /** What one line means: the verdict on its text without one carriage return, or one error when it is
      too long. Text after the last newline means nothing yet, unless it is too long already. */
  lemma OneLineMeans<T>(line: Bytes, returned: bool, rest: Bytes, max: nat, parse: Bytes -> Parsed<T>)
    requires LF !in line && (returned || line == [] || line[|line| - 1] != CR)
    ensures var text := line + if returned then [CR] else [];
      && LineOutcomes(text + [LF] + rest, max, parse)
         == (if |text| > max then [Failure(MaxLineLengthExceeded)]
             else match parse(line)
                  case Item(v) => [Message(v)]
                  case Ignored => []
                  case Malformed => [Failure(Serde)])
            + LineOutcomes(rest, max, parse)
      && LineOutcomes(text, max, parse) == if |text| > max then [Failure(MaxLineLengthExceeded)] else []
  {
    hide IndexFrom, LineOutcomes;
    var text := line + if returned then [CR] else [];
    var s := text + [LF] + rest;
    assert WithoutCarriageReturn(text) == line;
    IndexOfIs(s, LF, |text|);
    assert s[..|text|] == text && s[|text| + 1..] == rest;
    LineOutcomesStep(s, max, parse, |text|);
    OnlyATail(text, max, parse);
  }

  lemma OnlyATail<T>(text: Bytes, max: nat, parse: Bytes -> Parsed<T>)
    requires LF !in text
    ensures LineOutcomes(text, max, parse) == if |text| > max then [Failure(MaxLineLengthExceeded)] else []
  {
    IndexOfNone(text, LF);
  }

  /** `latched` records whether the call has seen a complete line, which fixes the protocol. */
  datatype LineStep<+T> = LineStep(poll: Poll<T>, rest: Bytes, discarding: bool, latched: bool)

  /** One call of `decode_json_line`, without its scan cursor and its bounded search window. */
  function LineDecode<T>(buf: Bytes, discarding: bool, max: nat, parse: Bytes -> Parsed<T>): (r: LineStep<T>)
    ensures |r.rest| <= |buf|
    decreases |buf|, discarding
  {
    match IndexOf(buf, LF)
    case None =>
      if discarding then LineStep(Pending, [], true, false)
      else if |buf| > max then LineStep(Ready(Failure(MaxLineLengthExceeded)), buf, true, false)
      else LineStep(Pending, buf, false, false)
    case Some(k) =>
      var rest := buf[k + 1..];
      if discarding then LineDecode(rest, false, max, parse)
      else if k > max then LineStep(Ready(Failure(MaxLineLengthExceeded)), buf, true, false)
      else
        match parse(WithoutCarriageReturn(buf[..k]))
        case Item(v) => LineStep(Ready(Message(v)), rest, false, true)
        case Malformed => LineStep(Ready(Failure(Serde)), rest, false, true)
        case Ignored => LineDecode(rest, false, max, parse).(latched := true)
  }

  /** The outcomes a decoder with this unread buffer still has to deliver. */
  function Owed<T>(buf: Bytes, discarding: bool, max: nat, parse: Bytes -> Parsed<T>): seq<Outcome<T>> {
    if !discarding then LineOutcomes(buf, max, parse)
    else
      match IndexOf(buf, LF)
      case None => []
      case Some(k) => LineOutcomes(buf[k + 1..], max, parse)
  }

  /** Nothing is left to do until more bytes arrive. */
  predicate Settled(buf: Bytes, discarding: bool, max: nat) {
    LF !in buf && if discarding then buf == [] else |buf| <= max
  }

  lemma IndexOfPrefix(buf: Bytes, more: Bytes, k: nat)
    requires IndexOf(buf, LF) == Some(k)
    ensures IndexOf(buf + more, LF) == Some(k)
    ensures (buf + more)[..k] == buf[..k] && (buf + more)[k + 1..] == buf[k + 1..] + more
  {
    IndexOfIs(buf + more, LF, k);
  }

  /** A call neither loses nor invents an outcome, whatever bytes may follow the buffer:
      what was owed is what it delivers followed by what is owed afterwards. */
  lemma {:induction false} LineDecodeKeepsWhatIsOwed<T>(
    buf: Bytes, discarding: bool, max: nat, parse: Bytes -> Parsed<T>, more: Bytes)
    ensures var r := LineDecode(buf, discarding, max, parse);
            && Owed(buf + more, discarding, max, parse)
            == Delivered(r.poll) + Owed(r.rest + more, r.discarding, max, parse)
    decreases |buf|, discarding
  {
    hide IndexOf, IndexFrom, LineOutcomes, Lines, Tail, OutcomesOf;
    var r := LineDecode(buf, discarding, max, parse);
    match IndexOf(buf, LF) {
      case None =>
        if discarding {
          OwedSkipsDiscarded(buf, more, max, parse);
          assert [] + more == more;
        } else if |buf| > max {
          assert forall i :: 0 <= i <= max ==> (buf + more)[i] == buf[i];
          TooLongOwesOneError(buf + more, max, parse);
        }
      case Some(k) =>
        var rest := buf[k + 1..];
        if discarding {
          IndexOfPrefix(buf, more, k);
          LineDecodeKeepsWhatIsOwed(rest, false, max, parse, more);
        } else if k > max {
          assert forall i :: 0 <= i <= max ==> (buf + more)[i] == buf[i];
          TooLongOwesOneError(buf + more, max, parse);
        } else {
          OwedAtNewline(buf, more, max, parse, k);
          if parse(WithoutCarriageReturn(buf[..k])).Ignored? {
            LineDecodeKeepsWhatIsOwed(rest, false, max, parse, more);
          }
        }
    }
  }

  lemma OwedAtNewline<T>(buf: Bytes, more: Bytes, max: nat, parse: Bytes -> Parsed<T>, k: nat)
    requires IndexOf(buf, LF) == Some(k) && k <= max
    ensures Owed(buf + more, false, max, parse)
         == ParseOutcome(parse(WithoutCarriageReturn(buf[..k]))) + Owed(buf[k + 1..] + more, false, max, parse)
  {
    IndexOfPrefix(buf, more, k);
    LineOutcomesStep(buf + more, max, parse, k);
  }

  lemma OwedSkipsDiscarded<T>(buf: Bytes, more: Bytes, max: nat, parse: Bytes -> Parsed<T>)
    requires LF !in buf
    ensures Owed(buf + more, true, max, parse) == Owed(more, true, max, parse)
  {
    hide IndexFrom, LineOutcomes;
    match IndexOf(more, LF)
    case None => IndexOfNone(buf + more, LF);
    case Some(k) =>
      IndexOfIs(buf + more, LF, |buf| + k);
      assert (buf + more)[|buf| + k + 1..] == more[k + 1..];
  }

  lemma TooLongOwesOneError<T>(s: Bytes, max: nat, parse: Bytes -> Parsed<T>)
    requires |s| > max && forall i :: 0 <= i <= max ==> s[i] != LF
    ensures Owed(s, false, max, parse) == [Failure(MaxLineLengthExceeded)] + Owed(s, true, max, parse)
  {
    match IndexOf(s, LF)
    case None =>
    case Some(k) => LineOutcomesStep(s, max, parse, k);
  }

  /** `Pending` is answered exactly when nothing is owed, and then the decoder is settled. */
  lemma {:induction false} PendingMeansSettled<T>(buf: Bytes, discarding: bool, max: nat, parse: Bytes -> Parsed<T>)
    ensures var r := LineDecode(buf, discarding, max, parse);
            && (r.poll.Pending? ==> Settled(r.rest, r.discarding, max))
            && (r.poll.Pending? <==> Owed(buf, discarding, max, parse) == [])
    decreases |buf|, discarding
  {
    hide IndexOf, IndexFrom, LineOutcomes, Lines, Tail, OutcomesOf, Owed;
    var r := LineDecode(buf, discarding, max, parse);
    LineDecodeKeepsWhatIsOwed(buf, discarding, max, parse, []);
    assert buf + [] == buf && r.rest + [] == r.rest;
    match IndexOf(buf, LF) {
      case None =>
        if r.poll.Pending? { SettledOwesNothing(r.rest, r.discarding, max, parse); }
      case Some(k) =>
        if discarding || (k <= max && parse(WithoutCarriageReturn(buf[..k])).Ignored?) {
          PendingMeansSettled(buf[k + 1..], false, max, parse);
          if r.poll.Pending? { SettledOwesNothing(r.rest, r.discarding, max, parse); }
        }
    }
  }

  lemma SettledOwesNothing<T>(buf: Bytes, discarding: bool, max: nat, parse: Bytes -> Parsed<T>)
    requires Settled(buf, discarding, max)
    ensures Owed(buf, discarding, max, parse) == []
  {
    IndexOfNone(buf, LF);
  }
}
