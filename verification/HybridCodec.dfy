/** The hybrid codec: newline-delimited or Content-Length framing, decided by the first bytes
    and then fixed for both directions. `DecodeStep` is one call on a value; the class below is
    the decoder with its scan cursor, its search window and its growing buffer. */
module HybridCodec {
  import opened Wrappers
  import opened Sequences
  import opened Wire
  import opened LineFraming
  import opened HeaderFraming

  datatype WireProtocol = JsonLine | ContentLength

  /** What a decoder will do next depends on these three things only. */
  datatype Decoder = Decoder(buf: Bytes, discarding: bool, protocol: Option<WireProtocol>)

  function LatchIf(latched: Option<WireProtocol>, seen: bool, p: WireProtocol): Option<WireProtocol> {
    if seen && latched.None? then Some(p) else latched
  }

  predicate TakesHeaderPath(d: Decoder) {
    match d.protocol
    case Some(p) => p.ContentLength?
    case None => LooksLikeContentLengthFrame(d.buf)
  }

  function DecodeStep<T>(d: Decoder, max: nat, parse: Bytes -> Parsed<T>): (Poll<T>, Decoder) {
    if TakesHeaderPath(d) then
      var r := FrameDecode(d.buf, parse);
      (r.poll, Decoder(r.rest, d.discarding, LatchIf(d.protocol, r.latched, ContentLength)))
    else
      var r := LineDecode(d.buf, d.discarding, max, parse);
      (r.poll, Decoder(r.rest, r.discarding, LatchIf(d.protocol, r.latched, JsonLine)))
  }

  function VerdictPoll<T>(verdict: Parsed<T>): Poll<T> {
    match verdict
    case Item(v) => Ready(Message(v))
    case Ignored => Pending
    case Malformed => Ready(Failure(Serde))
  }

  /** A call at the end of the stream: an unterminated last line still counts. */
  function EofStep<T>(d: Decoder, max: nat, parse: Bytes -> Parsed<T>): (Poll<T>, Decoder) {
    if d.protocol == Some(ContentLength) && d.buf != [] then
      var r := FrameDecode(d.buf, parse);
      (r.poll, d.(buf := r.rest))
    else
      var (poll, d') := DecodeStep(d, max, parse);
      if poll.Ready? || d'.buf == [] || d'.buf == [CR] then (poll, d')
      else (VerdictPoll(parse(WithoutCarriageReturn(d'.buf))), d'.(buf := []))
  }

  function Encoded(payload: Bytes, protocol: Option<WireProtocol>): Bytes {
    if protocol == Some(JsonLine) then payload + [LF] else EncodeFrame(payload)
  }

  lemma DiscardingSkips<T>(data: Bytes, n: nat, max: nat, parse: Bytes -> Parsed<T>)
    requires n <= |data| && forall i :: 0 <= i < n ==> data[i] != LF
    ensures LineDecode(data, true, max, parse) == LineDecode(data[n..], true, max, parse)
  {
    SearchSkips(data, n);
    hide IndexOf;
    var rest := data[n..];
    match IndexOf(rest, LF)
    case None =>
    case Some(k) => assert data[n + k + 1..] == rest[k + 1..];
  }

  lemma SearchSkips(data: Bytes, n: nat)
    requires n <= |data| && forall i :: 0 <= i < n ==> data[i] != LF
    ensures IndexOf(data, LF) == Shifted(IndexOf(data[n..], LF), n)
  {
    hide IndexFrom;
    var rest := data[n..];
    match IndexOf(rest, LF)
    case None => IndexOfNone(data, LF);
    case Some(k) =>
      assert forall i :: n <= i < n + k ==> data[i] == rest[i - n];
      IndexOfIs(data, LF, n + k);
  }

  /** The end of the search window: one byte past the longest line allowed. */
  function ReadTo(data: Bytes, max: nat): (r: nat)
    ensures r <= |data| && r <= SaturatingAdd(max, 1) && (data != [] ==> r > 0)
    ensures r == |data| || r == SaturatingAdd(max, 1)
  {
    var window := SaturatingAdd(max, 1);
    if window <= |data| then window else |data|
  }

  function OrSeen<T>(s: LineStep<T>, seen: bool): LineStep<T> {
    s.(latched := seen || s.latched)
  }

  ghost predicate Found(data: Bytes, max: nat, newline: Option<nat>) {
    match newline
    case Some(k) => k < ReadTo(data, max) && IndexOf(data, LF) == Some(k)
    case None => forall i :: 0 <= i < ReadTo(data, max) ==> data[i] != LF
  }

  /** A newline missing from `data[..from]` and looked for from there to the end of the window
      has been looked for in the whole window. */
  lemma WindowedSearch(data: Bytes, from: nat, max: nat)
    requires from <= ReadTo(data, max) && forall i :: 0 <= i < from ==> data[i] != LF
    ensures var newline := Shifted(IndexOf(data[from..ReadTo(data, max)], LF), from);
            && Found(data, max, newline)
            && (newline.Some? ==> newline.value < |data|)
            && (newline.None? ==> forall i :: 0 <= i < ReadTo(data, max) ==> data[i] != LF)
  {
    hide IndexOf, IndexFrom;
    var to := ReadTo(data, max);
    var window := data[from..to];
    match IndexOf(window, LF)
    case Some(k) =>
      assert forall i :: from <= i < from + k ==> data[i] == window[i - from];
      IndexOfIs(data, LF, from + k);
    case None =>
      assert forall i :: from <= i < to ==> data[i] == window[i - from];
  }

  /** What each branch of the scanning loop does to the decoding of the buffer, given where
      the search window has its first newline. */
  lemma ScanBranches<T>(data: Bytes, discarding: bool, max: nat, parse: Bytes -> Parsed<T>, newline: Option<nat>)
    requires max <= USIZE_MAX && |data| <= USIZE_MAX && Found(data, max, newline)
    ensures discarding && newline.Some? ==>
      LineDecode(data, true, max, parse) == LineDecode(data[newline.value + 1..], false, max, parse)
    ensures discarding && newline.None? ==>
      LineDecode(data, true, max, parse) == LineDecode(data[ReadTo(data, max)..], true, max, parse)
    ensures !discarding && newline.Some? ==>
      && var rest := data[newline.value + 1..];
      && LineDecode(data, false, max, parse) == (match parse(WithoutCarriageReturn(data[..newline.value]))
                                                 case Item(v) => LineStep(Ready(Message(v)), rest, false, true)
                                                 case Malformed => LineStep(Ready(Failure(Serde)), rest, false, true)
                                                 case Ignored => OrSeen(LineDecode(rest, false, max, parse), true))
    ensures !discarding && newline.None? && |data| > max ==>
      LineDecode(data, false, max, parse) == LineStep(Ready(Failure(MaxLineLengthExceeded)), data, true, false)
    ensures !discarding && newline.None? && |data| <= max ==>
      LineDecode(data, false, max, parse) == LineStep(Pending, data, false, false) && ReadTo(data, max) == |data|
  {
    if discarding {
      if newline.None? { DiscardingSkips(data, ReadTo(data, max), max, parse); }
    } else if newline.None? && |data| <= max {
      IndexOfNone(data, LF);
    }
  }

  lemma NothingLeftToDiscard<T>(max: nat, parse: Bytes -> Parsed<T>)
    ensures LineDecode([], true, max, parse) == LineStep(Pending, [], true, false)
  {
  }

  /** The growable byte buffer the codec consumes from the front. */
  class BytesMut {
    var data: Bytes

    constructor ()
      ensures data == []
    {
      data := [];
    }

    method Extend(more: Bytes)
      modifies this
      ensures data == old(data) + more
    {
      data := data + more;
    }

    method Advance(n: nat)
      requires n <= |data|
      modifies this
      ensures data == old(data)[n..]
    {
      data := data[n..];
    }

    method SplitTo(n: nat) returns (front: Bytes)
      requires n <= |data|
      modifies this
      ensures front == old(data)[..n] && data == old(data)[n..]
    {
      front := data[..n];
      data := data[n..];
    }
  }

  /** The latch shared by the reading and the writing half of a transport. */
  class SharedProtocol {
    var latched: Option<WireProtocol>

    constructor ()
      ensures latched == None
    {
      latched := None;
    }

    method SetIfUnset(p: WireProtocol)
      modifies this
      ensures latched == LatchIf(old(latched), true, p)
    {
      if latched.None? {
        latched := Some(p);
      }
    }
  }

  class HybridJsonRpcMessageCodec<T> {
    const parse: Bytes -> Parsed<T>
    const serialize: T -> Option<Bytes>
    const maxLength: nat
    const protocol: SharedProtocol
    var nextIndex: nat
    var isDiscarding: bool

    constructor (protocol: SharedProtocol, parse: Bytes -> Parsed<T>, serialize: T -> Option<Bytes>)
      ensures this.protocol == protocol && this.parse == parse && this.serialize == serialize
      ensures maxLength == USIZE_MAX && nextIndex == 0 && !isDiscarding
    {
      this.protocol, this.parse, this.serialize := protocol, parse, serialize;
      maxLength, nextIndex, isDiscarding := USIZE_MAX, 0, false;
    }

    /** Unless the cursor has gone out of use, it stays inside the search window and no
        newline lies before it. */
    ghost predicate Valid(buf: BytesMut)
      reads this, buf, protocol
    {
      && maxLength <= USIZE_MAX && |buf.data| <= USIZE_MAX
      && (protocol.latched != Some(ContentLength) ==> CursorOk(buf.data))
    }

    ghost predicate CursorOk(data: Bytes)
      reads this
    {
      && nextIndex <= |data| && nextIndex <= SaturatingAdd(maxLength, 1)
      && forall i :: 0 <= i < nextIndex ==> data[i] != LF
    }

    ghost function State(buf: BytesMut): Decoder
      reads this, buf, protocol
    {
      Decoder(buf.data, isDiscarding, protocol.latched)
    }

    method DecodeContentLength(buf: BytesMut) returns (r: Poll<T>)
      requires Valid(buf) && (protocol.latched.None? || protocol.latched == Some(ContentLength))
      modifies buf, protocol
      ensures var s := FrameDecode(old(buf.data), parse);
              && r == s.poll && buf.data == s.rest
              && protocol.latched == LatchIf(old(protocol.latched), s.latched, ContentLength)
      ensures Valid(buf)
    {
      hide IndexOf, IndexFrom, Find, FindFrom, ContentLengthOf, Utf8.Valid;
      var terminator := FindHeaderTerminator(buf.data);
      if terminator.None? {
        return Pending;
      }
      var (headerEnd, delimiterLen) := terminator.value;
      var header := buf.data[..headerEnd];
      if !Utf8.Valid(header) {
        return Ready(Failure(InvalidHeaderFrame));
      }
      var length := ParseContentLength(header);
      if length.Err? {
        return Ready(Failure(length.error));
      }
      var bodyStart := headerEnd + delimiterLen;
      var frameLen := bodyStart + length.value;
      if frameLen > USIZE_MAX {
        return Ready(Failure(FrameLengthOverflow));
      }
      if |buf.data| < frameLen {
        return Pending;
      }
      var frame := buf.SplitTo(frameLen);
      var payload := frame[bodyStart..];
      assert payload == old(buf.data)[bodyStart..frameLen];
      protocol.SetIfUnset(ContentLength);
      return VerdictPoll(parse(payload));
    }

    /** The windowed, resumable scan finds what one look at the whole buffer would find. */
    method DecodeJsonLine(buf: BytesMut) returns (r: Poll<T>)
      requires Valid(buf) && protocol.latched != Some(ContentLength)
      modifies this, buf, protocol
      ensures Valid(buf) && protocol.latched != Some(ContentLength)
      ensures var s := LineDecode(old(buf.data), old(isDiscarding), maxLength, parse);
              && r == s.poll && buf.data == s.rest && isDiscarding == s.discarding
              && protocol.latched == LatchIf(old(protocol.latched), s.latched, JsonLine)
    {
      hide LineDecode, CursorOk;
      ghost var seen := false;
      ghost var goal := LineDecode(buf.data, isDiscarding, maxLength, parse);
      var done := false;
      r := Pending;
      while !done
        invariant Valid(buf) && protocol.latched != Some(ContentLength)
        invariant protocol.latched == LatchIf(old(protocol.latched), seen, JsonLine)
        invariant goal == if done then LineStep(r, buf.data, isDiscarding, seen)
                          else OrSeen(LineDecode(buf.data, isDiscarding, maxLength, parse), seen)
        decreases !done, |buf.data|, isDiscarding
      {
        ghost var now;
        r, done, now := ScanOnce(buf);
        seen := seen || now;
      }
    }

    /** One turn of the scan: it answers, or leaves the same question about fewer bytes. */
    method ScanOnce(buf: BytesMut) returns (r: Poll<T>, done: bool, ghost seen: bool)
      requires Valid(buf) && protocol.latched != Some(ContentLength)
      modifies this, buf, protocol
      ensures Valid(buf) && protocol.latched == LatchIf(old(protocol.latched), seen, JsonLine)
      ensures LineDecode(old(buf.data), old(isDiscarding), maxLength, parse) ==
              if done then LineStep(r, buf.data, isDiscarding, seen)
              else OrSeen(LineDecode(buf.data, isDiscarding, maxLength, parse), seen)
      ensures !done ==> |buf.data| < |old(buf.data)| || (buf.data == old(buf.data) && !isDiscarding && old(isDiscarding))
    {
      hide LineDecode, IndexOf, IndexFrom, ReadTo, WithoutCarriageReturn, Found, Shifted, SaturatingAdd;
      var data := buf.data;
      var readTo := ReadTo(data, maxLength);
      var newline := Shifted(IndexOf(data[nextIndex..readTo], LF), nextIndex);
      WindowedSearch(data, nextIndex, maxLength);
      ScanBranches(data, isDiscarding, maxLength, parse, newline);
      r, done, seen := Pending, false, false;

      if isDiscarding {
        if newline.Some? {
          buf.Advance(newline.value + 1);
          isDiscarding := false;
          nextIndex := 0;
        } else {
          buf.Advance(readTo);
          nextIndex := 0;
          if buf.data == [] {
            NothingLeftToDiscard(maxLength, parse);
            done := true;
          }
        }
      } else if newline.Some? {
        nextIndex := 0;
        var line := buf.SplitTo(newline.value + 1);
        line := line[..|line| - 1];
        assert line == data[..newline.value];
        protocol.SetIfUnset(JsonLine);
        seen := true;
        var verdict := parse(WithoutCarriageReturn(line));
        if !verdict.Ignored? {
          r, done := VerdictPoll(verdict), true;
        }
      } else if |data| > maxLength {
        isDiscarding := true;
        r, done := Ready(Failure(MaxLineLengthExceeded)), true;
      } else {
        nextIndex := readTo;
        done := true;
      }
    }

    method Decode(buf: BytesMut) returns (r: Poll<T>)
      requires Valid(buf)
      modifies this, buf, protocol
      ensures Valid(buf)
      ensures (r, State(buf)) == DecodeStep(old(State(buf)), maxLength, parse)
    {
      hide LineDecode, FrameDecode, IndexOf, IndexFrom, Find, FindFrom;
      match protocol.latched {
        case Some(p) =>
          if p.ContentLength? {
            r := DecodeContentLength(buf);
          } else {
            r := DecodeJsonLine(buf);
          }
        case None =>
          if LooksLikeContentLengthFrame(buf.data) {
            r := DecodeContentLength(buf);
          } else {
            r := DecodeJsonLine(buf);
          }
      }
    }

    method DecodeEof(buf: BytesMut) returns (r: Poll<T>)
      requires Valid(buf)
      modifies this, buf, protocol
      ensures Valid(buf)
      ensures (r, State(buf)) == EofStep(old(State(buf)), maxLength, parse)
    {
      hide DecodeStep;
      if protocol.latched == Some(ContentLength) && buf.data != [] {
        r := DecodeContentLength(buf);
      } else {
        r := Decode(buf);
        if r.Pending? {
          nextIndex := 0;
          if buf.data != [] && buf.data != [CR] {
            ghost var last := buf.data;
            var line := buf.SplitTo(|buf.data|);
            assert line == last && buf.data == [];
            r := VerdictPoll(parse(WithoutCarriageReturn(line)));
          }
        }
      }
    }

    /** Writes in the latched protocol; until there is one, in Content-Length framing. */
    method Encode(item: T, buf: BytesMut) returns (ok: bool)
      modifies buf
      ensures ok == serialize(item).Some?
      ensures buf.data == old(buf.data) + if ok then Encoded(serialize(item).value, protocol.latched) else []
    {
      var payload := serialize(item);
      if payload.None? {
        return false;
      }
      if protocol.latched == Some(JsonLine) {
        buf.Extend(payload.value);
        buf.Extend([LF]);
      } else {
        buf.Extend(EncodedHeader(|payload.value|) + CRLFCRLF);
        buf.Extend(payload.value);
      }
      return true;
    }
  }
}
