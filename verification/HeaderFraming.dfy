/** Validity of UTF-8, as `std::str::from_utf8` checks it (section 4 of RFC 3629). */
module Utf8 {
  import opened Wire

  predicate Between(b: byte, lo: byte, hi: byte) {
    lo <= b <= hi
  }

  predicate Continuation(b: byte) {
    Between(b, 0x80, 0xBF)
  }

  predicate TwoByte(s: Bytes) {
    |s| >= 2 && Between(s[0], 0xC2, 0xDF) && Continuation(s[1])
  }

  predicate ThreeByte(s: Bytes) {
    && |s| >= 3 && Continuation(s[1]) && Continuation(s[2])
    && (|| (s[0] == 0xE0 && s[1] >= 0xA0)
        || Between(s[0], 0xE1, 0xEC)
        || (s[0] == 0xED && s[1] <= 0x9F)
        || Between(s[0], 0xEE, 0xEF))
  }

  predicate FourByte(s: Bytes) {
    && |s| >= 4 && Continuation(s[1]) && Continuation(s[2]) && Continuation(s[3])
    && (|| (s[0] == 0xF0 && s[1] >= 0x90)
        || Between(s[0], 0xF1, 0xF3)
        || (s[0] == 0xF4 && s[1] <= 0x8F))
  }

  predicate Valid(s: Bytes)
    decreases |s|
  {
    if s == [] then true
    else if s[0] <= 0x7F then Valid(s[1..])
    else if TwoByte(s) then Valid(s[2..])
    else if ThreeByte(s) then Valid(s[3..])
    else FourByte(s) && Valid(s[4..])
  }

  lemma {:induction false} AsciiIsValid(s: Bytes)
    requires forall i :: 0 <= i < |s| ==> s[i] <= 0x7F
    ensures Valid(s)
  {
    if s != [] { AsciiIsValid(s[1..]); }
  }
}

/** Content-Length framing: the header part of the Language Server Protocol base protocol. */
module HeaderFraming {
  import opened Wrappers
  import opened Sequences
  import opened Wire
  import Decimals
  import Utf8

  const CONTENT_LENGTH: Bytes := [99, 111, 110, 116, 101, 110, 116, 45, 108, 101, 110, 103, 116, 104]
  const CAPITALISED: Bytes := CONTENT_LENGTH[0 := 67][8 := 76]
  const CRLFCRLF: Bytes := [CR, LF, CR, LF]
  const LFLF: Bytes := [LF, LF]

  function LowerAscii(b: byte): byte {
    if 65 <= b <= 90 then b + 32 else b
  }

  predicate EqIgnoreAsciiCase(a: Bytes, b: Bytes) {
    |a| == |b| && forall i :: 0 <= i < |a| ==> LowerAscii(a[i]) == LowerAscii(b[i])
  }

  predicate IsBlank(b: byte) {
    9 <= b <= 13 || b == 32
  }

  /** The three-byte codes of Unicode white space. */
  predicate IsWideBlank(a: byte, b: byte, c: byte) {
    || (a == 0xE1 && b == 0x9A && c == 0x80)
    || (a == 0xE2 && b == 0x80 && (0x80 <= c <= 0x8A || c == 0xA8 || c == 0xA9 || c == 0xAF))
    || (a == 0xE2 && b == 0x81 && c == 0x9F)
    || (a == 0xE3 && b == 0x80 && c == 0x80)
  }

  predicate IsNarrowBlank(a: byte, b: byte) {
    a == 0xC2 && (b == 0x85 || b == 0xA0)
  }

  /** How many bytes the white-space character at the start of UTF-8 text takes, if there is one. */
  function BlankAtStart(s: Bytes): (n: nat)
    ensures n <= |s|
  {
    if |s| >= 1 && IsBlank(s[0]) then 1
    else if |s| >= 2 && IsNarrowBlank(s[0], s[1]) then 2
    else if |s| >= 3 && IsWideBlank(s[0], s[1], s[2]) then 3
    else 0
  }

  function BlankAtEnd(s: Bytes): (n: nat)
    ensures n <= |s|
  {
    var e := |s|;
    if e >= 1 && IsBlank(s[e - 1]) then 1
    else if e >= 2 && IsNarrowBlank(s[e - 2], s[e - 1]) then 2
    else if e >= 3 && IsWideBlank(s[e - 3], s[e - 2], s[e - 1]) then 3
    else 0
  }

  function TrimTextStart(s: Bytes): Bytes
    decreases |s|
  {
    if BlankAtStart(s) == 0 then s else TrimTextStart(s[BlankAtStart(s)..])
  }

  function TrimTextEnd(s: Bytes): Bytes
    decreases |s|
  {
    if BlankAtEnd(s) == 0 then s else TrimTextEnd(s[..|s| - BlankAtEnd(s)])
  }

  /** `trim` of UTF-8 text. */
  function TrimText(s: Bytes): Bytes {
    TrimTextStart(TrimTextEnd(s))
  }

  predicate IsCarriageReturn(b: byte) {
    b == CR
  }

  predicate IsDigit(b: byte) {
    48 <= b <= 57
  }

  predicate LooksLikeContentLengthFrame(buf: Bytes) {
    |buf| >= 14 && EqIgnoreAsciiCase(buf[..14], CONTENT_LENGTH)
  }

  /** Where the header block ends, and how long its terminator is. */
  function FindHeaderTerminator(buf: Bytes): Option<(nat, nat)> {
    match Find(buf, CRLFCRLF)
    case Some(i) => Some((i, 4))
    case None =>
      match Find(buf, LFLF)
      case Some(i) => Some((i, 2))
      case None => None
  }

  /** `str::lines`: an unterminated last line keeps its carriage return. */
  function HeaderLines(header: Bytes): seq<Bytes> {
    match IndexOf(header, LF)
    case None => if header == [] then [] else [header]
    case Some(k) => [WithoutCarriageReturn(header[..k])] + HeaderLines(header[k + 1..])
  }

  function DigitValue(b: byte): nat
    requires IsDigit(b)
  {
    b as int - 48
  }

  function DigitValues(v: Bytes): seq<nat>
    requires forall i :: 0 <= i < |v| ==> IsDigit(v[i])
  {
    seq(|v|, i requires 0 <= i < |v| => DigitValue(v[i]))
  }

  /** `str::parse::<usize>`: an optional plus sign, then digits, within 64 bits. */
  function ParseUsize(v: Bytes): Option<nat> {
    ParseDigits(if v != [] && v[0] == 43 then v[1..] else v)
  }

  predicate AllDigits(d: Bytes) {
    forall i :: 0 <= i < |d| ==> IsDigit(d[i])
  }

  function ParseDigits(d: Bytes): Option<nat> {
    if d == [] || !AllDigits(d) then None
    else
      var n := Decimals.Value(DigitValues(d));
      if n <= USIZE_MAX then Some(n) else None
  }

  /** The value part of a header line that names the content length, if it does. */
  function LengthField(raw: Bytes): Option<Bytes> {
    var line := StripEnd(raw, IsCarriageReturn);
    match IndexOf(line, COLON)
    case None => None
    case Some(c) =>
      if EqIgnoreAsciiCase(TrimText(line[..c]), CONTENT_LENGTH)
      then Some(TrimText(line[c + 1..])) else None
  }

  function ReadLength(field: Bytes): Result<nat, CodecError> {
    match ParseUsize(field)
    case Some(n) => Ok(n)
    case None => Err(InvalidContentLength(field))
  }

  function LengthFromLines(lines: seq<Bytes>): Result<nat, CodecError> {
    if lines == [] then Err(MissingContentLength)
    else if LengthField(lines[0]).Some? then ReadLength(LengthField(lines[0]).value)
    else LengthFromLines(lines[1..])
  }

  function ContentLengthOf(header: Bytes): Result<nat, CodecError> {
    LengthFromLines(HeaderLines(header))
  }

  /** The loop over header lines stops at the first one naming the content length. */
  method ParseContentLength(header: Bytes) returns (r: Result<nat, CodecError>)
    ensures r == ContentLengthOf(header)
  {
    hide HeaderLines, IndexOf, IndexFrom, StripStart, StripEnd, TrimText, ParseUsize, EqIgnoreAsciiCase;
    var lines := HeaderLines(header);
    var i := 0;
    while i < |lines|
      invariant 0 <= i <= |lines|
      invariant ContentLengthOf(header) == LengthFromLines(lines[i..])
    {
      var line := StripEnd(lines[i], IsCarriageReturn);
      var colon := IndexOf(line, COLON);
      if colon.Some? && EqIgnoreAsciiCase(TrimText(line[..colon.value]), CONTENT_LENGTH) {
        var value := TrimText(line[colon.value + 1..]);
        var n := ParseUsize(value);
        return if n.Some? then Ok(n.value) else Err(InvalidContentLength(value));
      }
      assert lines[i..][1..] == lines[i + 1..];
      i := i + 1;
    }
    return Err(MissingContentLength);
  }

  /** `latched` records whether a whole frame has been taken off the buffer. */
  datatype FrameStep<+T> = FrameStep(poll: Poll<T>, rest: Bytes, latched: bool)

  /** One call of `decode_content_length`. */
  function FrameDecode<T>(buf: Bytes, parse: Bytes -> Parsed<T>): (r: FrameStep<T>)
    ensures if r.latched then |r.rest| < |buf| else r.rest == buf
  {
    match FindHeaderTerminator(buf)
    case None => FrameStep(Pending, buf, false)
    case Some((headerEnd, delimiterLen)) =>
      var header := buf[..headerEnd];
      if !Utf8.Valid(header) then FrameStep(Ready(Failure(InvalidHeaderFrame)), buf, false)
      else
        match ContentLengthOf(header)
        case Err(e) => FrameStep(Ready(Failure(e)), buf, false)
        case Ok(n) =>
          var bodyStart := headerEnd + delimiterLen;
          if bodyStart + n > USIZE_MAX then FrameStep(Ready(Failure(FrameLengthOverflow)), buf, false)
          else if |buf| < bodyStart + n then FrameStep(Pending, buf, false)
          else
            match parse(buf[bodyStart..bodyStart + n])
            case Item(v) => FrameStep(Ready(Message(v)), buf[bodyStart + n..], true)
            case Ignored => FrameStep(Pending, buf[bodyStart + n..], true)
            case Malformed => FrameStep(Ready(Failure(Serde)), buf[bodyStart + n..], true)
  }

  /** A header block, the blank line that closes it, and the payload it announces. */
  datatype Frame = Frame(header: Bytes, closing: Bytes, payload: Bytes)

  function FrameBytes(f: Frame): Bytes {
    f.header + f.closing + f.payload
  }

  function FramesBytes(fs: seq<Frame>): Bytes {
    if fs == [] then [] else FrameBytes(fs[0]) + FramesBytes(fs[1..])
  }

  /** The header is closed by a CRLF blank line or by two bare newlines, it announces the payload's
      length, and its own end is the first blank line. */
  predicate WellFramed(f: Frame) {
    && (f.closing == CRLFCRLF || f.closing == LFLF)
    && Utf8.Valid(f.header)
    && ContentLengthOf(f.header) == Ok(|f.payload|)
    && |FrameBytes(f)| <= USIZE_MAX
    && Find(f.header + f.closing, f.closing) == Some(|f.header|)
    && Find(f.header + f.closing, if f.closing == LFLF then CRLFCRLF else LFLF) == None
  }

  /** The decoder looks for a CRLF blank line in the whole buffer before it looks for bare newlines,
      so a frame closed by bare newlines has to be clear of any to come. */
  predicate ClearOfCrlf(f: Frame, stream: Bytes) {
    f.closing == LFLF ==> !Contains(stream, CRLFCRLF)
  }

  /** On any part of a well-formed frame that stops short of its end the decoder waits and
      takes nothing; once the frame is complete it takes exactly that frame. */
  lemma FrameDecodeTakesExactlyOneFrame<T>(f: Frame, buf: Bytes, more: Bytes, parse: Bytes -> Parsed<T>)
    requires WellFramed(f) && ClearOfCrlf(f, buf)
    requires buf <= FrameBytes(f) + more
    ensures |buf| < |FrameBytes(f)| ==> FrameDecode(buf, parse) == FrameStep(Pending, buf, false)
    ensures |buf| >= |FrameBytes(f)| ==>
      && var rest := buf[|FrameBytes(f)|..];
      && FrameDecode(buf, parse) == (match parse(f.payload)
                                     case Item(v) => FrameStep(Ready(Message(v)), rest, true)
                                     case Ignored => FrameStep(Pending, rest, true)
                                     case Malformed => FrameStep(Ready(Failure(Serde)), rest, true))
  {
    hide Find, FindFrom, Utf8.Valid, ContentLengthOf;
    var block := f.header + f.closing;
    var whole := FrameBytes(f) + more;
    assert whole[..|block|] == block;
    if |buf| < |block| {
      assert buf == block[..|buf|];
      NoOccurrenceInPrefix(block, CRLFCRLF, |buf|);
      NoOccurrenceInPrefix(block, LFLF, |buf|);
    } else {
      assert buf[..|block|] == block;
      BlankLineIsFound(f, buf);
      assert buf[..|f.header|] == f.header;
      if |buf| >= |FrameBytes(f)| {
        assert whole[|block|..|FrameBytes(f)|] == f.payload;
        assert buf[|block|..|FrameBytes(f)|] == f.payload;
      }
    }
  }

  lemma BlankLineIsFound(f: Frame, buf: Bytes)
    requires WellFramed(f) && f.header + f.closing <= buf
    ensures Find(buf, f.closing) == Some(|f.header|)
  {
    hide Find, FindFrom, Utf8.Valid, ContentLengthOf;
    var block, n := f.header + f.closing, |f.closing|;
    assert OccursAt(buf, f.closing, |f.header|);
    forall i: nat | i < |f.header|
      ensures !OccursAt(buf, f.closing, i)
    {
      assert !OccursAt(block, f.closing, i);
      assert buf[i..i + n] == block[i..i + n];
    }
    FindIs(buf, f.closing, |f.header|);
  }

  lemma NoOccurrenceInPrefix(s: Bytes, pat: Bytes, n: nat)
    requires n <= |s| && pat != []
    requires Find(s, pat).None? || n < Find(s, pat).value + |pat|
    ensures Find(s[..n], pat) == None
  {
    var r := Find(s[..n], pat);
    if r.Some? {
      assert s[..n][r.value..r.value + |pat|] == s[r.value..r.value + |pat|];
      assert OccursAt(s, pat, r.value);
    }
  }

  /** The header line the encoder writes: `Content-Length: ` and the decimal length. */
  function EncodedHeader(n: nat): Bytes {
    CAPITALISED + [COLON, 32] + PrintDecimal(n)
  }

  function PrintDecimal(n: nat): (r: Bytes)
    ensures r != [] && forall i :: 0 <= i < |r| ==> IsDigit(r[i])
  {
    var d := Decimals.Digits(n);
    seq(|d|, i requires 0 <= i < |d| => 48 + d[i] as byte)
  }

  function EncodeFrame(payload: Bytes): Bytes {
    EncodedHeader(|payload|) + CRLFCRLF + payload
  }

  lemma ParsePrintedDecimal(n: nat)
    ensures ParseUsize(PrintDecimal(n)) == if n <= USIZE_MAX then Some(n) else None
  {
    Decimals.ValueOfDigits(n);
    assert DigitValues(PrintDecimal(n)) == Decimals.Digits(n);
  }

  /** Letters, a dash, the colon, a blank and digits: the bytes of an encoded header. */
  lemma EncodedHeaderBytes(n: nat)
    ensures var h := EncodedHeader(n);
      && |h| > 16 && h[..14] == CAPITALISED && h[14] == COLON && h[15..] == [32] + PrintDecimal(n)
      && IsDigit(h[|h| - 1])
      && forall i :: 0 <= i < |h| ==> 32 <= h[i] <= 0x7F && (h[i] == COLON ==> i == 14)
  {
    var h, digits := EncodedHeader(n), PrintDecimal(n);
    assert forall i :: 16 <= i < |h| ==> h[i] == digits[i - 16];
  }

  lemma CapitalisedNameMatches()
    ensures EqIgnoreAsciiCase(CAPITALISED, CONTENT_LENGTH)
  {
    var c := CONTENT_LENGTH;
    assert c[0] == 99 && c[8] == 108;
    assert forall i :: 0 <= i < |c| && i != 0 && i != 8 ==> CAPITALISED[i] == c[i];
  }

  /** Text that starts and ends with visible ASCII is trimmed already. */
  lemma VisibleEndsAreKept(s: Bytes)
    requires s != [] && 32 < s[0] <= 0x7F && 32 < s[|s| - 1] <= 0x7F
    ensures TrimText(s) == s
  {
  }

  lemma NamedLengthField(h: Bytes)
    requires |h| > 14 && h[..14] == CAPITALISED && h[14] == COLON && h[|h| - 1] != CR
    requires forall i :: 0 <= i < 14 ==> h[i] != COLON
    ensures LengthField(h) == Some(TrimText(h[15..]))
  {
    assert StripEnd(h, IsCarriageReturn) == h;
    IndexOfIs(h, COLON, 14);
    VisibleEndsAreKept(CAPITALISED);
    CapitalisedNameMatches();
  }

  lemma EncodedLengthField(n: nat)
    ensures LengthField(EncodedHeader(n)) == Some(PrintDecimal(n))
  {
    EncodedHeaderBytes(n);
    NamedLengthField(EncodedHeader(n));
    LeadingBlankIsStripped(PrintDecimal(n));
  }

  lemma EncodedLengthIsRead(n: nat)
    requires n <= USIZE_MAX
    ensures ContentLengthOf(EncodedHeader(n)) == Ok(n)
  {
    var h := EncodedHeader(n);
    EncodedLengthField(n);
    ParsePrintedDecimal(n);
    EncodedHeaderBytes(n);
    OneHeaderLine(h);
  }

  lemma OneHeaderLine(h: Bytes)
    requires h != [] && LF !in h
    ensures ContentLengthOf(h) == if LengthField(h).Some? then ReadLength(LengthField(h).value) else Err(MissingContentLength)
  {
    IndexOfNone(h, LF);
    assert HeaderLines(h) == [h];
    assert LengthFromLines([h][1..]) == Err(MissingContentLength);
  }

  lemma LeadingBlankIsStripped(digits: Bytes)
    requires digits != [] && forall i :: 0 <= i < |digits| ==> IsDigit(digits[i])
    ensures TrimText([32] + digits) == digits
  {
    var v := [32] + digits;
    assert TrimTextEnd(v) == v;
    assert BlankAtStart(v) == 1 && v[1..] == digits;
    VisibleEndsAreKept(digits);
  }

  /** Every frame the encoder writes is well formed. */
  lemma EncodedFramesAreWellFramed(payload: Bytes)
    requires |EncodeFrame(payload)| <= USIZE_MAX
    ensures WellFramed(Frame(EncodedHeader(|payload|), CRLFCRLF, payload))
    ensures LooksLikeContentLengthFrame(EncodedHeader(|payload|))
  {
    var h := EncodedHeader(|payload|);
    EncodedHeaderBytes(|payload|);
    EncodedLengthIsRead(|payload|);
    Utf8.AsciiIsValid(h);
    PlainHeaderEndsAtItsTerminator(h);
    CapitalisedNameMatches();
  }

  lemma PlainHeaderEndsAtItsTerminator(h: Bytes)
    requires forall i :: 0 <= i < |h| ==> h[i] != CR && h[i] != LF
    ensures Find(h + CRLFCRLF, CRLFCRLF) == Some(|h|) && Find(h + CRLFCRLF, LFLF) == None
  {
    var block := h + CRLFCRLF;
    assert OccursAt(block, CRLFCRLF, |h|);
    forall i: nat | i < |h|
      ensures !OccursAt(block, CRLFCRLF, i)
    {
      assert block[i..i + 4][0] == h[i];
    }
    FindIs(block, CRLFCRLF, |h|);
    forall i: nat
      ensures !OccursAt(block, LFLF, i)
    {
      if i + 2 <= |block| {
        assert block[i..i + 2][0] == block[i] && block[i..i + 2][1] == block[i + 1];
      }
    }
  }
}
