/** The hook's scanner for one string field of a JSON document (section 7 of RFC 8259). */
module JsonField {
  import opened Wrappers
  import opened Sequences

  function Pattern(field: string): string {
    "\"" + field + "\":\""
  }

  /** The first quote that no backslash escapes. */
  function ClosingQuote(s: string): (r: Option<nat>)
    ensures r.Some? ==> r.value < |s| && s[r.value] == '"'
    decreases |s|
  {
    if s == "" then None
    else if s[0] == '\\' && |s| > 1 then
      match ClosingQuote(s[2..])
      case None => None
      case Some(k) => Some(k + 2)
    else if s[0] == '"' then Some(0)
    else
      match ClosingQuote(s[1..])
      case None => None
      case Some(k) => Some(k + 1)
  }

  /** Resolve escaped quotes and backslashes from left to right; other escapes stay as they are. */
  function Unescape(s: string): string
    decreases |s|
  {
    if s == "" then ""
    else if s[0] == '\\' && |s| > 1 then
      (if s[1] == '"' || s[1] == '\\' then [s[1]] else s[..2]) + Unescape(s[2..])
    else [s[0]] + Unescape(s[1..])
  }

  function Field(input: string, field: string): Option<string> {
    match Find(input, Pattern(field))
    case None => None
    case Some(at) =>
      var rest := input[at + |Pattern(field)|..];
      match ClosingQuote(rest)
      case None => None
      case Some(end) => Some(Unescape(rest[..end]))
  }

  /** Text between quotes: every backslash has its partner and no quote stands alone. */
  predicate WellEscaped(s: string)
    decreases |s|
  {
    if s == "" then true
    else if s[0] == '\\' then |s| > 1 && WellEscaped(s[2..])
    else s[0] != '"' && WellEscaped(s[1..])
  }

  lemma {:induction false} ScannedTextIsWellEscaped(s: string)
    requires ClosingQuote(s).Some?
    ensures WellEscaped(s[..ClosingQuote(s).value])
    decreases |s|
  {
    var end := ClosingQuote(s).value;
    if s[0] == '\\' && |s| > 1 {
      ScannedTextIsWellEscaped(s[2..]);
      assert s[..end][2..] == s[2..][..end - 2];
    } else if s[0] != '"' {
      ScannedTextIsWellEscaped(s[1..]);
      assert s[..end][1..] == s[1..][..end - 1];
    }
  }

  /** The source's two replacements: first escaped quotes, then escaped backslashes. */
  function TwoReplacements(s: string): string {
    Replace(Replace(s, "\\\"", "\""), "\\\\", "\\")
  }

  lemma ReplaceSkips(s: string, from: string, to: string)
    requires s != "" && |from| == 2 && s[0] != from[0]
    ensures Replace(s, from, to) == [s[0]] + Replace(s[1..], from, to)
  {
    if |s| >= 2 { assert s[..2][0] == s[0]; }
  }

  lemma ReplaceSkipsPair(s: string, from: string, to: string)
    requires |s| >= 2 && |from| == 2 && s[0] == from[0] && s[1] != from[1]
    ensures Replace(s, from, to) == [s[0]] + Replace(s[1..], from, to)
  {
    assert s[..2][1] == s[1];
  }

  lemma ReplaceHits(s: string, from: string, to: string)
    requires |s| >= 2 && |from| == 2 && s[..2] == from
    ensures Replace(s, from, to) == to + Replace(s[2..], from, to)
  {
  }

  /** On text a scan has accepted, the two global replacements in sequence are one pass. */
  lemma {:induction false} TwoReplacementsAreOnePass(s: string)
    requires WellEscaped(s)
    ensures TwoReplacements(s) == Unescape(s)
    decreases |s|
  {
    hide Replace;
    if s == "" {
      NothingToReplace("\\\"", "\"");
      NothingToReplace("\\\\", "\\");
    } else if s[0] != '\\' {
      TwoReplacementsAreOnePass(s[1..]);
      ReplaceSkips(s, "\\\"", "\"");
      var y := Replace(s[1..], "\\\"", "\"");
      assert ([s[0]] + y)[1..] == y;
      ReplaceSkips([s[0]] + y, "\\\\", "\\");
    } else {
      TwoReplacementsAreOnePass(s[2..]);
      EscapedPair(s);
    }
  }

  lemma NothingToReplace(from: string, to: string)
    requires from != ""
    ensures Replace("", from, to) == ""
  {
  }

  lemma EscapedPair(s: string)
    requires |s| > 1 && s[0] == '\\' && WellEscaped(s[2..])
    ensures TwoReplacements(s)
         == (if s[1] == '"' || s[1] == '\\' then [s[1]] else s[..2]) + TwoReplacements(s[2..])
  {
    hide Replace;
    var quote, backslash := "\\\"", "\\\\";
    var y := Replace(s[2..], quote, "\"");
    if s[1] == '"' {
      assert s[..2] == quote;
      ReplaceHits(s, quote, "\"");
      assert ("\"" + y)[1..] == y;
      ReplaceSkips("\"" + y, backslash, "\\");
    } else {
      ReplaceSkipsPair(s, quote, "\"");
      SecondOfPair(s, y);
      var t := s[..2] + y;
      assert t == [s[0]] + ([s[1]] + y);
      assert t[1..] == [s[1]] + y && t[2..] == y && t[1..][1..] == y;
      if s[1] == '\\' {
        assert t[..2] == backslash;
        ReplaceHits(t, backslash, "\\");
      } else {
        ReplaceSkipsPair(t, backslash, "\\");
        ReplaceSkips(t[1..], backslash, "\\");
        assert [s[0]] + ([s[1]] + Replace(y, backslash, "\\")) == s[..2] + Replace(y, backslash, "\\");
      }
    }
  }

  /** The second character of an escaped pair starts no escaped quote of its own. */
  lemma SecondOfPair(s: string, y: string)
    requires |s| > 1 && s[1] != '"' && WellEscaped(s[2..]) && y == Replace(s[2..], "\\\"", "\"")
    ensures Replace(s[1..], "\\\"", "\"") == [s[1]] + y
  {
    hide Replace;
    assert s[1..][1..] == s[2..];
    if s[1] != '\\' {
      ReplaceSkips(s[1..], "\\\"", "\"");
    } else if |s| > 2 {
      ReplaceSkipsPair(s[1..], "\\\"", "\"");
    } else {
      assert s[1..] == "\\" && s[2..] == "";
      OneCharacter();
    }
  }

  lemma OneCharacter()
    ensures Replace("\\", "\\\"", "\"") == "\\" && Replace("", "\\\"", "\"") == ""
  {
  }

  /** One step of the scan. */
  lemma ScanStep(rest: string, end: nat)
    requires end < |rest|
    ensures var here := ClosingQuote(rest[end..]);
            if rest[end] == '\\' && end + 1 < |rest| then here == Shifted(ClosingQuote(rest[end + 2..]), 2)
            else if rest[end] == '"' then here == Some(0)
            else here == Shifted(ClosingQuote(rest[end + 1..]), 1)
  {
    assert rest[end..][1..] == rest[end + 1..];
    if end + 1 < |rest| { assert rest[end..][2..] == rest[end + 2..]; }
  }

  /** `extract_json_field`: the loop finds the closing quote, the replacements unescape. */
  method ExtractJsonField(input: string, field: string) returns (r: Option<string>)
    ensures r == Field(input, field)
  {
    hide Replace, Unescape, Find, ClosingQuote, WellEscaped, TwoReplacements;
    var pattern := Pattern(field);
    var at := Find(input, pattern);
    if at.None? {
      return None;
    }
    var rest := input[at.value + |pattern|..];
    var end := 0;
    assert rest[0..] == rest;
    while end < |rest|
      invariant 0 <= end <= |rest|
      invariant ClosingQuote(rest) == Shifted(ClosingQuote(rest[end..]), end)
    {
      ScanStep(rest, end);
      if rest[end] == '\\' && end + 1 < |rest| {
        end := end + 2;
        continue;
      }
      if rest[end] == '"' {
        break;
      }
      end := end + 1;
    }
    if end >= |rest| {
      assert rest[end..] == "";
      NothingCloses();
      return None;
    }
    var raw := rest[..end];
    ScannedTextIsWellEscaped(rest);
    TwoReplacementsAreOnePass(raw);
    return Some(TwoReplacements(raw));
  }

  lemma NothingCloses()
    ensures ClosingQuote("") == None
  {
  }

  // Round trip

  /** Section 7 of RFC 8259: these characters may only be written as escapes. */
  predicate IsControl(c: char) {
    c < ' '
  }

  /** Text between quotes in which no quote and no backslash is escaped. */
  predicate Unresolved(s: string)
    decreases |s|
  {
    if s == "" then true
    else if s[0] == '\\' then |s| > 1 && s[1] != '"' && s[1] != '\\' && Unresolved(s[2..])
    else s[0] != '"' && Unresolved(s[1..])
  }

  /** One or more escapes that the scanner does not resolve: a letter or a number after a backslash,
      or a surrogate pair of numbers. */
  predicate IsCode(piece: string) {
    |piece| >= 2 && piece[0] == '\\' && Unresolved(piece)
  }

  /** How a writer may put a character: as itself, unless it is a quote or a backslash; a quote or
      backslash after a backslash; any as a code. Section 7 of RFC 8259 asks for a code at control
      characters; a writer that leaves them as they are is covered too. */
  ghost predicate IsWriter(enc: char -> string) {
    forall c ::
      || (enc(c) == [c] && c != '"' && c != '\\')
      || (enc(c) == ['\\', c] && (c == '"' || c == '\\'))
      || IsCode(enc(c))
  }

  function Write(s: string, enc: char -> string): string {
    if s == "" then "" else enc(s[0]) + Write(s[1..], enc)
  }

  /** No character of `s` is written as a code. */
  predicate CodeFree(s: string, enc: char -> string) {
    forall i :: 0 <= i < |s| ==> !IsCode(enc(s[i]))
  }

  function Resolved(c: char, enc: char -> string): string {
    if IsCode(enc(c)) then enc(c) else [c]
  }

  /** The scanner passes over a written character, and resolves it unless it is a code. */
  lemma ScansOneCharacter(c: char, enc: char -> string, rest: string)
    requires IsWriter(enc)
    ensures ClosingQuote(enc(c) + rest) == Shifted(ClosingQuote(rest), |enc(c)|)
    ensures Unescape(enc(c) + rest) == Resolved(c, enc) + Unescape(rest)
  {
    var piece := enc(c);
    if IsCode(piece) {
      ScansUnresolved(piece, rest);
    } else {
      ScansPlainOrPair(c, piece, rest);
    }
  }

  lemma ScansPlainOrPair(c: char, piece: string, rest: string)
    requires || (piece == [c] && c != '"' && c != '\\')
             || (piece == ['\\', c] && (c == '"' || c == '\\'))
    ensures ClosingQuote(piece + rest) == Shifted(ClosingQuote(rest), |piece|)
    ensures Unescape(piece + rest) == [c] + Unescape(rest)
  {
    var s := piece + rest;
    if piece == [c] {
      assert s[0] == c && s[1..] == rest;
    } else {
      assert s[0] == '\\' && s[1] == c && s[2..] == rest;
    }
  }

  lemma {:induction false} ScansUnresolved(piece: string, rest: string)
    requires Unresolved(piece)
    ensures ClosingQuote(piece + rest) == Shifted(ClosingQuote(rest), |piece|)
    ensures Unescape(piece + rest) == piece + Unescape(rest)
    decreases |piece|
  {
    hide ClosingQuote, Unescape;
    var s := piece + rest;
    if piece == "" {
      assert s == rest && piece + Unescape(rest) == Unescape(rest);
    } else if piece[0] == '\\' {
      assert s[2..] == piece[2..] + rest && s[..2] == piece[..2];
      EscapeUnfolds(s);
      ScansUnresolved(piece[2..], rest);
      assert piece == piece[..2] + piece[2..];
      Reassociate(piece[..2], piece[2..], Unescape(rest));
    } else {
      assert s[1..] == piece[1..] + rest;
      PlainUnfolds(s);
      ScansUnresolved(piece[1..], rest);
      assert piece == [piece[0]] + piece[1..];
      Reassociate([piece[0]], piece[1..], Unescape(rest));
    }
  }

  lemma PlainUnfolds(s: string)
    requires s != "" && s[0] != '\\' && s[0] != '"'
    ensures ClosingQuote(s) == Shifted(ClosingQuote(s[1..]), 1)
    ensures Unescape(s) == [s[0]] + Unescape(s[1..])
  {
  }

  lemma EscapeUnfolds(s: string)
    requires |s| > 1 && s[0] == '\\' && s[1] != '"' && s[1] != '\\'
    ensures ClosingQuote(s) == Shifted(ClosingQuote(s[2..]), 2)
    ensures Unescape(s) == s[..2] + Unescape(s[2..])
  {
  }

  lemma {:induction false} WrittenScans(s: string, enc: char -> string, after: string)
    requires IsWriter(enc)
    ensures ClosingQuote(Write(s, enc) + "\"" + after) == Some(|Write(s, enc)|)
  {
    hide IsWriter, ClosingQuote;
    if s == "" {
      QuoteCloses(after);
      assert Write(s, enc) + "\"" + after == "\"" + after;
    } else {
      var rest := Write(s[1..], enc) + "\"" + after;
      WrittenScans(s[1..], enc, after);
      assert Write(s, enc) + "\"" + after == enc(s[0]) + rest;
      ScansOneCharacter(s[0], enc, rest);
    }
  }

  lemma QuoteCloses(after: string)
    ensures ClosingQuote("\"" + after) == Some(0)
  {
  }

  /** What the scanner makes of written text: codes stay as they are. */
  function ReadBack(s: string, enc: char -> string): string {
    if s == "" then "" else Resolved(s[0], enc) + ReadBack(s[1..], enc)
  }

  lemma {:induction false} UnescapeReadsBack(s: string, enc: char -> string)
    requires IsWriter(enc)
    ensures Unescape(Write(s, enc)) == ReadBack(s, enc)
  {
    hide IsWriter, Resolved;
    if s != "" {
      UnescapeReadsBack(s[1..], enc);
      ScansOneCharacter(s[0], enc, Write(s[1..], enc));
    }
  }

  lemma {:induction false} ReadBackExactlyWhen(s: string, enc: char -> string)
    ensures |ReadBack(s, enc)| >= |s|
    ensures ReadBack(s, enc) == s <==> CodeFree(s, enc)
    ensures !CodeFree(s, enc) ==> |ReadBack(s, enc)| > |s|
  {
    if s != "" {
      ReadBackExactlyWhen(s[1..], enc);
      assert CodeFree(s, enc) <==> !IsCode(enc(s[0])) && CodeFree(s[1..], enc);
      assert s == [s[0]] + s[1..];
    }
  }

  /** White space between the tokens of a document: section 2 of RFC 8259. */
  predicate IsSpace(c: char) {
    c in {' ', '\t', '\n', '\r'}
  }

  predicate AllSpace(w: string) {
    forall i :: 0 <= i < |w| ==> IsSpace(w[i])
  }

  /** A document with the field, and white space before and after the field's colon. */
  function Document(
    before: string, field: string, w1: string, w2: string, s: string, enc: char -> string, after: string): string
  {
    before + "\"" + field + "\"" + w1 + ":" + w2 + "\"" + Write(s, enc) + "\"" + after
  }

  /** The field at `at` is the first text in the document that looks like the field, and the only one
      when there is white space at its colon. */
  ghost predicate StandsOut(doc: string, field: string, at: nat, compact: bool) {
    forall i: nat :: OccursAt(doc, Pattern(field), i) ==> if compact then at <= i else i == at
  }

  lemma CompactDocument(before: string, field: string, s: string, enc: char -> string, after: string)
    ensures var doc, n := Document(before, field, "", "", s, enc, after), |before| + |Pattern(field)|;
            && OccursAt(doc, Pattern(field), |before|)
            && n <= |doc| && doc[n..] == Write(s, enc) + "\"" + after
  {
    hide Write;
    var doc := Document(before, field, "", "", s, enc, after);
    assert doc == before + Pattern(field) + (Write(s, enc) + "\"" + after);
  }

  /** White space at the colon hides the field. */
  lemma SpaceHidesTheField(before: string, field: string, w1: string, w2: string, tail: string)
    requires AllSpace(w1) && AllSpace(w2) && (w1 != "" || w2 != "")
    ensures !OccursAt(before + "\"" + field + "\"" + w1 + ":" + w2 + "\"" + tail, Pattern(field), |before|)
  {
    var doc := before + "\"" + field + "\"" + w1 + ":" + w2 + "\"" + tail;
    var k := |before| + |field| + 2;
    assert doc[k] == (w1 + ":")[0];
    assert w1 == "" ==> doc[k + 1] == w2[0];
    EndOfPattern(doc, field, |before|);
  }

  lemma EndOfPattern(doc: string, field: string, i: nat)
    ensures OccursAt(doc, Pattern(field), i) ==>
              && var k := i + |field| + 2;
              && k + 1 < |doc| && doc[k] == ':' && doc[k + 1] == '"'
  {
    var pattern, n := Pattern(field), |field| + 2;
    if OccursAt(doc, pattern, i) {
      var found := doc[i..i + |pattern|];
      assert found[n] == doc[i + n] && found[n + 1] == doc[i + n + 1];
    }
    assert pattern[n] == ':' && pattern[n + 1] == '"';
  }

  /** Whatever a writer put at the field, the scanner returns the string that was written if and only
      if there is no white space at the field's colon and no character was written as a code; with
      white space there it finds no field at all. */
  lemma FieldReadsBackExactlyWhen(
    before: string, field: string, w1: string, w2: string, s: string, enc: char -> string, after: string)
    requires IsWriter(enc) && AllSpace(w1) && AllSpace(w2)
    requires StandsOut(Document(before, field, w1, w2, s, enc, after), field, |before|, w1 == "" && w2 == "")
    ensures Field(Document(before, field, w1, w2, s, enc, after), field)
         == if w1 == "" && w2 == "" then Some(ReadBack(s, enc)) else None
    ensures Field(Document(before, field, w1, w2, s, enc, after), field) == Some(s)
       <==> w1 == "" && w2 == "" && CodeFree(s, enc)
  {
    hide Find, Write, Unescape, ClosingQuote, ReadBack, CodeFree, IsWriter, OccursAt, Pattern;
    var doc := Document(before, field, w1, w2, s, enc, after);
    if w1 == "" && w2 == "" {
      CompactDocument(before, field, s, enc, after);
      FindIs(doc, Pattern(field), |before|);
      var rest := doc[|before| + |Pattern(field)|..];
      WrittenScans(s, enc, after);
      UnescapeReadsBack(s, enc);
      ReadBackExactlyWhen(s, enc);
      assert rest[..|Write(s, enc)|] == Write(s, enc);
    } else {
      SpaceHidesTheField(before, field, w1, w2, Write(s, enc) + "\"" + after);
      assert doc == before + "\"" + field + "\"" + w1 + ":" + w2 + "\"" + (Write(s, enc) + "\"" + after);
      assert Find(doc, Pattern(field)).None?;
    }
  }

  // The writer that uses codes for control characters only

  function HexDigit(n: nat): char
    requires n < 16
  {
    if n < 10 then '0' + n as char else 'a' + (n - 10) as char
  }

  function StandardPiece(c: char): string {
    if c == '"' || c == '\\' then ['\\', c]
    else if c == '\n' then "\\n"
    else if c == '\r' then "\\r"
    else if c == '\t' then "\\t"
    else if IsControl(c) then "\\u00" + [HexDigit(c as nat / 16), HexDigit(c as nat % 16)]
    else [c]
  }

  function StandardWriter(): char -> string {
    (c: char) => StandardPiece(c)
  }

  lemma StandardWriterIsAWriter()
    ensures IsWriter(StandardWriter())
    ensures forall c :: IsCode(StandardWriter()(c)) <==> IsControl(c)
  {
    forall c
      ensures IsCode(StandardPiece(c)) <==> IsControl(c)
    {
      StandardPieceIsACode(c);
    }
  }

  lemma {:induction false} PlainIsUnresolved(s: string)
    requires forall i :: 0 <= i < |s| ==> s[i] != '"' && s[i] != '\\'
    ensures Unresolved(s)
  {
    if s != "" { PlainIsUnresolved(s[1..]); }
  }

  lemma StandardPieceIsACode(c: char)
    ensures IsCode(StandardPiece(c)) <==> IsControl(c)
  {
    var piece := StandardPiece(c);
    if IsControl(c) {
      assert |piece| == 2 || |piece| == 6;
      PlainIsUnresolved(piece[2..]);
    } else {
      assert piece == [c] || piece[1] == c;
    }
  }

  /** A serializer that escapes what it must is read back exactly when it puts no white space at the
      colon and the string holds no control character. */
  lemma StandardFieldReadsBackExactlyWhen(
    before: string, field: string, w1: string, w2: string, s: string, after: string)
    requires AllSpace(w1) && AllSpace(w2)
    requires StandsOut(Document(before, field, w1, w2, s, StandardWriter(), after), field, |before|, w1 == "" && w2 == "")
    ensures Field(Document(before, field, w1, w2, s, StandardWriter(), after), field) == Some(s)
       <==> w1 == "" && w2 == "" && forall i :: 0 <= i < |s| ==> !IsControl(s[i])
  {
    hide Find, Field, Document, IsWriter, IsCode, StandsOut, AllSpace;
    StandardWriterIsAWriter();
    FieldReadsBackExactlyWhen(before, field, w1, w2, s, StandardWriter(), after);
  }

  lemma ALineFeedIsWritten()
    ensures Write("a\nb", StandardWriter()) == "a\\nb" && ReadBack("a\nb", StandardWriter()) == "a\\nb"
  {
    var s, enc := "a\nb", StandardWriter();
    StandardWriterIsAWriter();
    hide IsCode;
    assert s[1..] == "\nb" && s[1..][1..] == "b" && s[1..][1..][1..] == "";
    assert Write("b", enc) == "b" && Write("\nb", enc) == "\\nb";
    assert ReadBack("b", enc) == "b" && ReadBack("\nb", enc) == "\\nb";
  }

  /** A command of two lines comes back as one line with a backslash and an `n` in it. */
  lemma ALineFeedStaysEscaped()
    ensures Document("{", "command", "", "", "a\nb", StandardWriter(), "}") == "{\"command\":\"a\\nb\"}"
    ensures Field("{\"command\":\"a\\nb\"}", "command") == Some("a\\nb")
  {
    hide ClosingQuote, Unescape, Field, IsWriter, OccursAt, IsCode, Write, ReadBack;
    var enc, doc := StandardWriter(), "{\"command\":\"a\\nb\"}";
    ALineFeedIsWritten();
    assert Document("{", "command", "", "", "a\nb", enc, "}") == doc;
    NothingAtTheBrace(doc);
    StandardWriterIsAWriter();
    FieldReadsBackExactlyWhen("{", "command", "", "", "a\nb", enc, "}");
  }

  lemma NothingAtTheBrace(doc: string)
    requires |doc| > 0 && doc[0] == '{'
    ensures !OccursAt(doc, Pattern("command"), 0)
  {
    assert |Pattern("command")| <= |doc| ==> doc[0..|Pattern("command")|][0] == '{';
  }

  /** A blank after the colon, as many serializers write it, and the command is not found. */
  lemma ABlankHidesTheCommand()
    ensures Document("{", "command", "", " ", "ls", StandardWriter(), "}") == "{\"command\": \"ls\"}"
    ensures Field("{\"command\": \"ls\"}", "command") == None
  {
    hide ClosingQuote, Unescape, OccursAt, Find;
    var doc := "{\"command\": \"ls\"}";
    TwoPlainCharacters();
    assert Document("{", "command", "", " ", "ls", StandardWriter(), "}") == doc;
    forall i: nat
      ensures !OccursAt(doc, Pattern("command"), i)
    {
      NoColonQuote(doc, i);
    }
    assert Find(doc, Pattern("command")).None?;
  }

  lemma TwoPlainCharacters()
    ensures Write("ls", StandardWriter()) == "ls"
    ensures Write("rm", StandardWriter()) == "rm" && CodeFree("rm", StandardWriter())
  {
    assert "ls"[1..] == "s" && "s"[1..] == "" && "rm"[1..] == "m" && "m"[1..] == "";
    assert Write("s", StandardWriter()) == "s" && Write("m", StandardWriter()) == "m";
  }

  lemma NoColonQuote(doc: string, i: nat)
    requires doc == "{\"command\": \"ls\"}"
    ensures !OccursAt(doc, Pattern("command"), i)
  {
    EndOfPattern(doc, "command", i);
    assert |doc| == 17 && forall k :: 0 <= k < 16 && doc[k] == ':' ==> doc[k + 1] == ' ';
  }

  /** The same field in a nested object that comes first, and the scanner returns that one, whatever the
      string is. */
  lemma AnEarlierFieldIsTaken(s: string)
    ensures Field(Document("{\"x\":{\"command\":\"rm\"},", "command", "", "", s, StandardWriter(), "}"), "command")
         == Some("rm")
  {
    hide ClosingQuote, Unescape, Field, IsWriter, OccursAt, IsCode, Write, ReadBack, Pattern;
    var enc := StandardWriter();
    var after := "},\"command\":\"" + Write(s, enc) + "\"}";
    var doc := Document("{\"x\":{", "command", "", "", "rm", enc, after);
    TwoPlainCharacters();
    NestedDocument(Write(s, enc));
    assert doc[..6] == "{\"x\":{";
    NothingInTheOpening(doc);
    StandardWriterIsAWriter();
    FieldReadsBackExactlyWhen("{\"x\":{", "command", "", "", "rm", enc, after);
  }

  lemma NestedDocument(written: string)
    ensures "{\"x\":{" + "\"" + "command" + "\"" + "" + ":" + "" + "\"" + "rm" + "\""
            + ("},\"command\":\"" + written + "\"}")
         == "{\"x\":{\"command\":\"rm\"}," + "\"" + "command" + "\"" + "" + ":" + "" + "\"" + written + "\"" + "}"
  {
  }

  lemma NothingInTheOpening(doc: string)
    requires "{\"x\":{" <= doc
    ensures forall i: nat :: OccursAt(doc, Pattern("command"), i) ==> 6 <= i
  {
    forall i: nat | i < 6
      ensures !OccursAt(doc, Pattern("command"), i)
    {
      StartOfPattern(doc, i);
    }
  }

  lemma StartOfPattern(doc: string, i: nat)
    ensures OccursAt(doc, Pattern("command"), i) ==> i + 1 < |doc| && doc[i] == '"' && doc[i + 1] == 'c'
  {
    var pattern := Pattern("command");
    if OccursAt(doc, pattern, i) {
      var found := doc[i..i + |pattern|];
      assert found[0] == doc[i] && found[1] == doc[i + 1];
    }
    assert pattern[0] == '"' && pattern[1] == 'c';
  }
}
