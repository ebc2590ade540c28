/** UTF-8 as a sequence of characters (section 3 of RFC 3629). */
module Utf8Laws {
  import opened Wire
  import opened Utf8

  /** The number a well-formed sequence of one to four bytes stands for. */
  function CodePoint(s: Bytes): int
    requires 1 <= |s| <= 4
  {
    if |s| == 1 then s[0] as int
    else if |s| == 2 then (s[0] as int - 0xC0) * 64 + (s[1] as int - 0x80)
    else if |s| == 3 then (s[0] as int - 0xE0) * 4096 + (s[1] as int - 0x80) * 64 + (s[2] as int - 0x80)
    else (s[0] as int - 0xF0) * 262144 + (s[1] as int - 0x80) * 4096 + (s[2] as int - 0x80) * 64 + (s[3] as int - 0x80)
  }

  /** One character: a lead byte for its length, continuation bytes, the shortest form, no surrogate and
      nothing beyond U+10FFFF. */
  predicate IsCharacter(s: Bytes) {
    && 1 <= |s| <= 4
    && (forall i :: 1 <= i < |s| ==> 0x80 <= s[i] < 0xC0)
    && var c := CodePoint(s);
       if |s| == 1 then c < 0x80
       else if |s| == 2 then 0xC0 <= s[0] < 0xE0 && 0x80 <= c < 0x800
       else if |s| == 3 then 0xE0 <= s[0] < 0xF0 && 0x800 <= c < 0x10000 && !(0xD800 <= c <= 0xDFFF)
       else 0xF0 <= s[0] < 0xF8 && 0x10000 <= c <= 0x10FFFF
  }

  function Concat(cs: seq<Bytes>): Bytes {
    if cs == [] then [] else cs[0] + Concat(cs[1..])
  }

  lemma FirstCharacter(c: Bytes, rest: Bytes)
    requires IsCharacter(c)
    ensures Valid(c + rest) <==> Valid(rest)
  {
    var s := c + rest;
    assert s[|c|..] == rest;
    assert forall i :: 0 <= i < |c| ==> s[i] == c[i];
    if |c| == 2 {
      assert TwoByte(s);
    } else if |c| == 3 {
      assert !TwoByte(s) && ThreeByte(s);
    } else if |c| == 4 {
      assert !TwoByte(s) && !ThreeByte(s) && FourByte(s);
    }
  }

  /** Characters one after another are valid text. */
  lemma {:induction false} CharactersAreValid(cs: seq<Bytes>)
    requires forall i :: 0 <= i < |cs| ==> IsCharacter(cs[i])
    ensures Valid(Concat(cs))
  {
    hide IsCharacter, Valid;
    if cs == [] {
      NothingIsValid();
    } else {
      CharactersAreValid(cs[1..]);
      FirstCharacter(cs[0], Concat(cs[1..]));
    }
  }

  lemma NothingIsValid()
    ensures Valid([])
  {
  }

  /** The first character of valid text. */
  lemma TakeCharacter(s: Bytes) returns (c: Bytes)
    requires Valid(s) && s != []
    ensures c != [] && c <= s && IsCharacter(c) && Valid(s[|c|..])
  {
    c := if s[0] <= 0x7F then s[..1] else if TwoByte(s) then s[..2] else if ThreeByte(s) then s[..3] else s[..4];
    assert forall i :: 0 <= i < |c| ==> c[i] == s[i];
  }

  /** And valid text is characters one after another. */
  lemma {:induction false} ValidIsCharacters(s: Bytes) returns (cs: seq<Bytes>)
    requires Valid(s)
    ensures (forall i :: 0 <= i < |cs| ==> IsCharacter(cs[i])) && Concat(cs) == s
    decreases |s|
  {
    hide IsCharacter, Valid;
    if s == [] {
      cs := [];
    } else {
      var c := TakeCharacter(s);
      var rest := ValidIsCharacters(s[|c|..]);
      cs := [c] + rest;
      assert cs[1..] == rest;
    }
  }
}

/** What a header block says, line by line (the header part of the Language Server Protocol base
    protocol), and what a bad one is answered with. */
module HeaderLaws {
  import opened Wrappers
  import opened Sequences
  import opened Wire
  import opened LineFraming
  import opened HeaderFraming
  import Utf8Laws

  /** `content-length`, in capitals, small letters or any mixture. */
  predicate IsLengthName(name: Bytes) {
    |name| == 14 && forall i :: 0 <= i < 14 ==>
      name[i] == CONTENT_LENGTH[i] || (65 <= name[i] <= 90 && name[i] + 32 == CONTENT_LENGTH[i])
  }

  lemma NameMatchesExactlyWhen(name: Bytes)
    ensures EqIgnoreAsciiCase(name, CONTENT_LENGTH) <==> IsLengthName(name)
  {
    assert forall i :: 0 <= i < 14 ==> CONTENT_LENGTH[i] == 45 || 97 <= CONTENT_LENGTH[i] <= 122;
  }

  /** A buffer is taken for a frame if and only if it begins with that name. */
  lemma LooksLikeAFrameExactlyWhen(buf: Bytes)
    ensures LooksLikeContentLengthFrame(buf) <==> |buf| >= 14 && IsLengthName(buf[..14])
  {
    if |buf| >= 14 { NameMatchesExactlyWhen(buf[..14]); }
  }

  // White space around names and values

  /** ASCII white space inside a line. */
  predicate IsPadding(w: Bytes) {
    forall i :: 0 <= i < |w| ==> IsBlank(w[i]) && w[i] != LF
  }

  /** Nonempty, with visible ASCII at both ends, and all on one line. */
  predicate IsVisible(v: Bytes) {
    v != [] && 32 < v[0] <= 0x7E && 32 < v[|v| - 1] <= 0x7E && LF !in v
  }

  lemma VisibleStart(v: Bytes)
    requires v != [] && 32 < v[0] <= 0x7E
    ensures TrimTextStart(v) == v
  {
    assert BlankAtStart(v) == 0;
  }

  lemma {:induction false} PaddingBefore(w: Bytes, v: Bytes)
    requires IsPadding(w) && IsVisible(v)
    ensures TrimTextStart(w + v) == v
    decreases |w|
  {
    if w == [] {
      VisibleStart(v);
      assert w + v == v;
    } else {
      assert (w + v)[0] == w[0] && (w + v)[1..] == w[1..] + v;
      PaddingBefore(w[1..], v);
    }
  }

  lemma {:induction false} PaddingAfter(v: Bytes, w: Bytes)
    requires IsPadding(w) && v != [] && 32 < v[|v| - 1] <= 0x7E
    ensures TrimTextEnd(v + w) == v
    decreases |w|
  {
    if w == [] {
      assert v + w == v;
    } else {
      var s := v + w;
      assert s[|s| - 1] == w[|w| - 1] && s[..|s| - 1] == v + w[..|w| - 1];
      PaddingAfter(v, w[..|w| - 1]);
    }
  }

  lemma PaddingIsTrimmed(a: Bytes, v: Bytes, b: Bytes)
    requires IsPadding(a) && IsPadding(b) && IsVisible(v)
    ensures TrimText(a + v + b) == v
  {
    hide TrimTextStart, TrimTextEnd;
    PaddingAfter(a + v, b);
    PaddingBefore(a, v);
  }

  // One line

  /** A line, its name and value padded, and the line feed that ends it. */
  datatype Field = Field(p1: Bytes, name: Bytes, p2: Bytes, p3: Bytes, value: Bytes, p4: Bytes)

  predicate IsField(f: Field) {
    && IsPadding(f.p1) && IsPadding(f.p2) && IsPadding(f.p3) && IsPadding(f.p4)
    && IsVisible(f.name) && IsVisible(f.value) && COLON !in f.name
  }

  function NamePart(f: Field): Bytes {
    f.p1 + f.name + f.p2
  }

  function FieldText(f: Field): Bytes {
    NamePart(f) + [COLON] + (f.p3 + f.value + f.p4)
  }

  /** The header's own text ends in visible bytes, so carriage returns are cut from its padding only. */
  lemma {:induction false} ReturnsAreCut(v: Bytes, w: Bytes) returns (w': Bytes)
    requires IsPadding(w) && v != [] && v[|v| - 1] != CR
    ensures IsPadding(w') && StripEnd(v + w, IsCarriageReturn) == v + w'
    decreases |w|
  {
    if w != [] && w[|w| - 1] == CR {
      assert (v + w)[..|v + w| - 1] == v + w[..|w| - 1];
      w' := ReturnsAreCut(v, w[..|w| - 1]);
    } else {
      w' := w;
      if w == [] { assert v + w == v; }
    }
  }

  lemma OneReturnIsCut(v: Bytes, w: Bytes) returns (w': Bytes)
    requires IsPadding(w) && v != [] && v[|v| - 1] != CR
    ensures IsPadding(w') && WithoutCarriageReturn(v + w) == v + w'
  {
    if w != [] && w[|w| - 1] == CR {
      w' := w[..|w| - 1];
      assert (v + w)[..|v + w| - 1] == v + w';
    } else {
      w' := w;
    }
  }

  lemma NamePartHasNoColon(f: Field)
    requires IsField(f)
    ensures COLON !in NamePart(f)
  {
  }

  /** The value of a field whose name is the length's. */
  lemma FieldIsRead(f: Field)
    requires IsField(f)
    ensures LengthField(WithoutCarriageReturn(FieldText(f)))
         == if IsLengthName(f.name) then Some(f.value) else None
  {
    hide TrimText, EqIgnoreAsciiCase, IsLengthName, StripEnd, IsPadding, NamePart, WithoutCarriageReturn;
    var w := ReturnsOfField(f);
    var name, value := NamePart(f), f.p3 + f.value + w;
    NamePartHasNoColon(f);
    CutAtColon(name, value);
    NameIsTrimmed(f);
    PaddingIsTrimmed(f.p3, f.value, w);
    NameMatchesExactlyWhen(f.name);
  }

  lemma NameIsTrimmed(f: Field)
    requires IsField(f)
    ensures TrimText(NamePart(f)) == f.name
  {
    hide TrimText;
    PaddingIsTrimmed(f.p1, f.name, f.p2);
  }

  lemma CutAtColon(name: Bytes, value: Bytes)
    requires COLON !in name
    ensures var line := name + [COLON] + value;
            IndexOf(line, COLON) == Some(|name|) && line[..|name|] == name && line[|name| + 1..] == value
  {
    IndexOfIs(name + [COLON] + value, COLON, |name|);
  }

  /** What is left of a field without its carriage returns. */
  lemma ReturnsOfField(f: Field) returns (w: Bytes)
    requires IsField(f)
    ensures IsPadding(w)
    ensures StripEnd(WithoutCarriageReturn(FieldText(f)), IsCarriageReturn)
         == NamePart(f) + [COLON] + (f.p3 + f.value + w)
  {
    hide StripEnd, IsPadding, NamePart, WithoutCarriageReturn;
    var core := NamePart(f) + [COLON] + (f.p3 + f.value);
    assert FieldText(f) == core + f.p4;
    assert core[|core| - 1] == f.value[|f.value| - 1];
    var once := OneReturnIsCut(core, f.p4);
    w := ReturnsAreCut(core, once);
    assert core + w == NamePart(f) + [COLON] + (f.p3 + f.value + w);
  }

  /** The line names no length: it has no colon, or another name before the first one. */
  ghost predicate OtherLine(l: Bytes) {
    LF !in l && (COLON !in l || exists f :: IsField(f) && FieldText(f) == l && !IsLengthName(f.name))
  }

  lemma OtherLineIsSkipped(l: Bytes)
    requires OtherLine(l)
    ensures LengthField(WithoutCarriageReturn(l)) == None && LengthField(l) == None
  {
    hide TrimText, EqIgnoreAsciiCase;
    if COLON !in l {
      NoColonNoField(l);
      NoColonNoField(WithoutCarriageReturn(l));
    } else {
      var f :| IsField(f) && FieldText(f) == l && !IsLengthName(f.name);
      FieldIsRead(f);
      StripEndAfterOne(l);
    }
  }

  lemma StripEndAfterOne(l: Bytes)
    ensures StripEnd(WithoutCarriageReturn(l), IsCarriageReturn) == StripEnd(l, IsCarriageReturn)
  {
  }

  lemma NoColonNoField(l: Bytes)
    requires COLON !in l
    ensures LengthField(l) == None
  {
    StripEndIsPrefix(l, IsCarriageReturn);
    var t := StripEnd(l, IsCarriageReturn);
    IndexOfNone(t, COLON);
  }

  // The whole header

  lemma LinesOfHeader(l: Bytes, rest: Bytes)
    requires LF !in l
    ensures ContentLengthOf(l + [LF] + rest)
         == var field := LengthField(WithoutCarriageReturn(l));
            if field.Some? then ReadLength(field.value) else ContentLengthOf(rest)
  {
    hide LengthField, ReadLength, WithoutCarriageReturn;
    var h := l + [LF] + rest;
    IndexOfIs(h, LF, |l|);
    assert h[..|l|] == l && h[|l| + 1..] == rest;
    assert HeaderLines(h)[1..] == HeaderLines(rest);
  }

  /** Lines that name no length are skipped. */
  lemma {:induction false} OtherLinesAreSkipped(before: seq<Bytes>, rest: Bytes)
    requires forall i :: 0 <= i < |before| ==> OtherLine(before[i])
    ensures ContentLengthOf(Unlines(before) + rest) == ContentLengthOf(rest)
  {
    hide ContentLengthOf, LengthField, OtherLine;
    if before == [] {
      assert Unlines(before) + rest == rest;
    } else {
      assert Unlines(before) + rest == before[0] + [LF] + (Unlines(before[1..]) + rest);
      OtherLineIsSkipped(before[0]);
      OtherLineHasNoFeed(before[0]);
      LinesOfHeader(before[0], Unlines(before[1..]) + rest);
      OtherLinesAreSkipped(before[1..], rest);
    }
  }

  lemma OtherLineHasNoFeed(l: Bytes)
    requires OtherLine(l)
    ensures LF !in l
  {
  }

  /** The length is read from the first line that names it, whatever the lines around it, the case of
      the name and the white space around name and value; a line feed ends a line, with or without a
      carriage return, and the last line may go without. */
  lemma LengthIsReadFromTheFirst(before: seq<Bytes>, f: Field, after: Bytes)
    requires forall i :: 0 <= i < |before| ==> OtherLine(before[i])
    requires IsField(f) && IsLengthName(f.name)
    ensures ContentLengthOf(Unlines(before) + (FieldText(f) + [LF] + after)) == ReadLength(f.value)
    ensures f.p4 == [] ==> ContentLengthOf(Unlines(before) + FieldText(f)) == ReadLength(f.value)
  {
    hide ContentLengthOf, ReadLength, LengthField, IsPadding, IsVisible;
    FieldHasNoFeed(f);
    OtherLinesAreSkipped(before, FieldText(f) + [LF] + after);
    OtherLinesAreSkipped(before, FieldText(f));
    FieldIsRead(f);
    LinesOfHeader(FieldText(f), after);
    if f.p4 == [] {
      OneHeaderLine(FieldText(f));
      UnpaddedEnd(f);
    }
  }

  lemma FieldHasNoFeed(f: Field)
    requires IsField(f)
    ensures LF !in FieldText(f) && FieldText(f) != []
  {
  }

  lemma UnpaddedEnd(f: Field)
    requires IsField(f) && f.p4 == []
    ensures WithoutCarriageReturn(FieldText(f)) == FieldText(f)
  {
    assert FieldText(f)[|FieldText(f)| - 1] == f.value[|f.value| - 1];
  }

  /** A decimal number of at most 64 bits is the length; any other value is reported. */
  lemma ValuesAreNumbers(n: nat, v: Bytes)
    ensures ReadLength(PrintDecimal(n)) == if n <= USIZE_MAX then Ok(n) else Err(InvalidContentLength(PrintDecimal(n)))
    ensures ReadLength([43] + PrintDecimal(n)) == if n <= USIZE_MAX then Ok(n) else Err(InvalidContentLength([43] + PrintDecimal(n)))
    ensures (exists i :: 0 < i < |v| && !IsDigit(v[i])) ==> ReadLength(v) == Err(InvalidContentLength(v))
    ensures v != [] && !IsDigit(v[0]) && v[0] != 43 ==> ReadLength(v) == Err(InvalidContentLength(v))
  {
    ParsePrintedDecimal(n);
    var signed := [43] + PrintDecimal(n);
    assert signed[1..] == PrintDecimal(n) && PrintDecimal(n)[0] != 43;
    if i :| 0 < i < |v| && !IsDigit(v[i]) { NotANumber(v, i); }
    if v != [] && !IsDigit(v[0]) && v[0] != 43 { NotANumber(v, 0); }
  }

  lemma NotANumber(v: Bytes, i: nat)
    requires i < |v| && !IsDigit(v[i]) && (i == 0 ==> v[0] != 43)
    ensures ParseUsize(v) == None
  {
    var d := if v[0] == 43 then v[1..] else v;
    assert d[if v[0] == 43 then i - 1 else i] == v[i];
    assert !AllDigits(d);
  }

  /** Without such a line the length is missing. */
  lemma MissingLengthIsReported(before: seq<Bytes>)
    requires forall i :: 0 <= i < |before| ==> OtherLine(before[i])
    ensures ContentLengthOf(Unlines(before)) == Err(MissingContentLength)
  {
    OtherLinesAreSkipped(before, []);
    assert Unlines(before) + [] == Unlines(before);
    assert HeaderLines([]) == [];
  }

  // Frames with a bad header

  /** The block is closed at its first blank line. */
  predicate Closes(header: Bytes, closing: Bytes, buf: Bytes) {
    && header + closing <= buf
    && ((closing == CRLFCRLF && Find(buf, CRLFCRLF) == Some(|header|))
        || (closing == LFLF && Find(buf, CRLFCRLF) == None && Find(buf, LFLF) == Some(|header|)))
  }

  /** A header that is not text, announces no length or announces one that is no number or too large is
      an error, and nothing is taken off the buffer, so every further call gives the same answer. */
  lemma BadHeaderIsReported<T>(header: Bytes, closing: Bytes, buf: Bytes, parse: Bytes -> Parsed<T>)
    requires Closes(header, closing, buf)
    ensures !Utf8.Valid(header) ==> FrameDecode(buf, parse) == FrameStep(Ready(Failure(InvalidHeaderFrame)), buf, false)
    ensures Utf8.Valid(header) ==>
      match ContentLengthOf(header)
      case Err(e) => FrameDecode(buf, parse) == FrameStep(Ready(Failure(e)), buf, false)
      case Ok(n) => |header| + |closing| + n > USIZE_MAX ==>
                      FrameDecode(buf, parse) == FrameStep(Ready(Failure(FrameLengthOverflow)), buf, false)
  {
    hide Find, Utf8.Valid, ContentLengthOf;
    assert buf[..|header|] == header;
  }

  // White space in text

  /** The characters with the White_Space property of Unicode. */
  predicate IsWhite(c: int) {
    || 9 <= c <= 13 || c == 32 || c == 0x85 || c == 0xA0 || c == 0x1680 || 0x2000 <= c <= 0x200A
    || c == 0x2028 || c == 0x2029 || c == 0x202F || c == 0x205F || c == 0x3000
  }

  /** Trimming takes off a character at either end exactly when it is white space. */
  lemma BlankExactlyWhen(c: Bytes, rest: Bytes)
    requires Utf8Laws.IsCharacter(c)
    ensures BlankAtStart(c + rest) == if IsWhite(Utf8Laws.CodePoint(c)) then |c| else 0
    ensures BlankAtEnd(rest + c) == if IsWhite(Utf8Laws.CodePoint(c)) then |c| else 0
  {
    var s, t := c + rest, rest + c;
    assert forall i :: 0 <= i < |c| ==> s[i] == c[i] && t[|rest| + i] == c[i];
  }
}
