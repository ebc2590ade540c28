/** Rewriting commutes with lexing, and rewriting twice changes nothing. */
module RewriteLaws {
  import opened Wrappers
  import opened Sequences
  import opened Text
  import opened CompoundLexer
  import opened LexerLaws
  import opened CommandRegistry
  import opened PosixQuoting
  import opened ShellRewrite

  // Joined segments lex back to themselves

  /** What joining appends to a result that does (`spaced`) or does not end in a blank. */
  function Suffix(segs: seq<Segment>, spaced: bool): string
    decreases |segs|
  {
    if segs == [] then ""
    else
      match segs[0]
      case Operator(op) => (if spaced then "" else " ") + op + " " + Suffix(segs[1..], true)
      case Command(cmd) => cmd + Suffix(segs[1..], false)
  }

  /** Operators and trimmed commands, no two commands next to each other. */
  predicate Alternates(segs: seq<Segment>)
    decreases |segs|
  {
    segs == [] ||
    match segs[0]
    case Operator(op) => IsOperator(op) && Alternates(segs[1..])
    case Command(cmd) => Trimmed(cmd) && (segs[1..] == [] || segs[1].Operator?) && Alternates(segs[1..])
  }

  lemma {:induction false} WellLexedAlternates(segs: seq<Segment>)
    requires WellLexed(segs)
    ensures Alternates(segs)
    decreases |segs|
  {
    hide Run;
    if segs != [] && segs[1..] != [] {
      if segs[0] == Operator("|") {
        assert segs[1..] == [segs[1]] && [segs[1]][1..] == [];
        assert Alternates([segs[1]]);
      } else {
        WellLexedAlternates(segs[1..]);
      }
    }
  }

  lemma {:induction false} JoinIsSuffix(segs: seq<Segment>, result: string)
    requires Alternates(segs)
    ensures Join(segs, result) == result + Suffix(segs, EndsSpaced(result))
    decreases |segs|
  {
    hide Suffix;
    if segs == [] {
      NoSegments(result);
    } else {
      JoinIsSuffix(segs[1..], Append(result, segs[0]));
      AppendIsSuffix(segs, result);
    }
  }

  lemma AppendIsSuffix(segs: seq<Segment>, result: string)
    requires segs != [] && (segs[0].Command? ==> Trimmed(segs[0].text))
    ensures var after := Append(result, segs[0]);
            after + Suffix(segs[1..], EndsSpaced(after)) == result + Suffix(segs, EndsSpaced(result))
  {
    hide Suffix;
    var after := Append(result, segs[0]);
    var rest := Suffix(segs[1..], EndsSpaced(after));
    match segs[0]
    case Operator(op) =>
      var lead := if EndsSpaced(result) then "" else " ";
      assert result + "" == result;
      assert after == result + lead + op + " ";
      assert EndsSpaced(after);
      OperatorSuffix(segs, EndsSpaced(result), lead, op);
      Regroup(result, lead, op, rest);
    case Command(cmd) =>
      assert after[|after| - 1] == cmd[|cmd| - 1];
      CommandSuffix(segs, EndsSpaced(result), cmd);
      assert result + cmd + rest == result + (cmd + rest);
  }

  lemma OperatorSuffix(segs: seq<Segment>, spaced: bool, lead: string, op: string)
    requires segs != [] && segs[0] == Operator(op) && lead == if spaced then "" else " "
    ensures Suffix(segs, spaced) == lead + op + " " + Suffix(segs[1..], true)
  {
  }

  lemma CommandSuffix(segs: seq<Segment>, spaced: bool, cmd: string)
    requires segs != [] && segs[0] == Command(cmd)
    ensures Suffix(segs, spaced) == cmd + Suffix(segs[1..], false)
  {
  }

  lemma Regroup(a: string, lead: string, op: string, rest: string)
    ensures a + lead + op + " " + rest == a + (lead + op + " " + rest)
    ensures a + (lead + op + " " + rest) == a + lead + op + (" " + rest)
  {
  }

  lemma NoSegments(result: string)
    ensures Join([], result) == result + Suffix([], EndsSpaced(result))
  {
    assert result + "" == result;
  }

  lemma OneCommand(cmd: string, result: string)
    ensures Join([Command(cmd)], result) == result + cmd
    ensures Suffix([Command(cmd)], true) == cmd && Suffix([Command(cmd)], false) == cmd
  {
    assert [Command(cmd)][1..] == [];
    assert cmd + "" == cmd;
  }

  /** A closed prefix is lexed apart from the operator that follows it. */
  lemma PiecesAtOperator(cur: string, op: string, rest: string)
    requires Run(Plain, cur) == Plain && IsOperator(op) && rest != [] && rest[0] == ' '
    ensures Pieces(cur + op + rest)
         == Flush(cur) + [Operator(op)] + (if op == "|" then Flush(rest) else Pieces(rest))
  {
    hide Run, Break, FirstOperator, Flush, Pieces;
    var s := cur + op + rest;
    assert s[..|cur|] == cur;
    assert s[|cur|..|cur| + |op|] == op;
    assert s[|cur| + |op|..] == rest;
    OperatorAt(s, |cur|, op);
    PiecesUnfold(s);
  }

  lemma {:induction false} JoinedSegmentsLexBack(segs: seq<Segment>, spaced: bool)
    requires WellLexed(segs)
    ensures Pieces(Suffix(segs, spaced)) == segs
    decreases |segs|
  {
    hide Run, Pieces, Trim, FirstOperator;
    if segs == [] {
      EmptyPieces();
    } else {
      match segs[0]
      case Operator(op) =>
        OperatorLexesBack("", segs, spaced);
        assert "" + Suffix(segs, spaced) == Suffix(segs, spaced) && [] + segs == segs;
      case Command(cmd) =>
        TrimIsTrimmed(cmd);
        if segs[1..] == [] {
          assert segs == [Command(cmd)];
          OneCommand(cmd, "");
          UnbrokenIsOnePiece(cmd);
        } else {
          OperatorLexesBack(cmd, segs[1..], false);
          assert segs == [Command(cmd)] + segs[1..];
        }
    }
  }

  lemma EmptyPieces()
    ensures Pieces("") == []
  {
    assert FirstOperator("").None?;
    assert Trim("") == [];
  }

  lemma {:induction false} OperatorLexesBack(cmd: string, segs: seq<Segment>, spaced: bool)
    requires WellLexed(segs) && segs != [] && segs[0].Operator?
    requires cmd == "" || (!spaced && Trimmed(cmd) && Closed(cmd))
    ensures Pieces(cmd + Suffix(segs, spaced)) == (if cmd == "" then [] else [Command(cmd)]) + segs
    decreases |segs|, 0
  {
    hide Run, Pieces, Trim, FirstOperator, Flush, Suffix, Trimmed, Closed;
    var op := segs[0].text;
    OperatorHead(cmd, segs, spaced);
    if op == "|" {
      PipeTailLexesBack(segs[1..]);
    } else {
      JoinedSegmentsLexBack(segs[1..], true);
    }
    assert segs == [segs[0]] + segs[1..];
  }

  /** A command, or nothing, is lexed apart from the operator joined to it. */
  lemma OperatorHead(cmd: string, segs: seq<Segment>, spaced: bool)
    requires segs != [] && segs[0].Operator? && IsOperator(segs[0].text)
    requires cmd == "" || (!spaced && Trimmed(cmd) && Closed(cmd))
    ensures var op, rest := segs[0].text, Suffix(segs[1..], true);
            Pieces(cmd + Suffix(segs, spaced))
            == (if cmd == "" then [] else [Command(cmd)]) + ([Operator(op)] + if op == "|" then Flush(rest) else Pieces(rest))
  {
    hide Run, Pieces, Trim, FirstOperator, Flush, Suffix, Trimmed;
    var op := segs[0].text;
    var lead := if spaced then "" else " ";
    var rest := Suffix(segs[1..], true);
    OperatorSuffix(segs, spaced, lead, op);
    Regroup(cmd, lead, op, rest);
    BlankRun();
    assert cmd == "" ==> cmd + lead == lead;
    PiecesAtOperator(cmd + lead, op, " " + rest);
    FlushLead(cmd, lead);
    assert [' '] + rest == " " + rest;
    FlushTrims(rest, ' ');
    LeadingBlankPiece(rest, ' ');
  }

  lemma PipeTailLexesBack(segs: seq<Segment>)
    requires segs == [] || (|segs| == 1 && segs[0].Command? && Trimmed(segs[0].text))
    ensures Flush(Suffix(segs, true)) == segs
  {
    hide Trim;
    TrimNothing();
    if segs != [] {
      assert segs == [segs[0]];
      OneCommand(segs[0].text, "");
      TrimIsTrimmed(segs[0].text);
    }
  }

  lemma BlankRun()
    ensures Run(Plain, "") == Plain && Run(Plain, " ") == Plain
  {
    assert " "[1..] == "";
  }

  lemma TrimNothing()
    ensures Trim("") == []
  {
  }

  lemma FlushLead(cmd: string, lead: string)
    requires cmd == "" || Trimmed(cmd)
    requires lead == "" || lead == " "
    ensures Flush(cmd + lead) == if cmd == "" then [] else [Command(cmd)]
  {
    hide Trim;
    TrimNothing();
    TrimIsTrimmed(cmd);
    if lead == "" {
      assert cmd + lead == cmd;
    } else {
      assert cmd + lead == cmd + [' '];
      FlushTrims(cmd, ' ');
    }
  }

  // Here-documents are not created by joining

  lemma HeredocFreeConcat(a: string, b: string)
    requires HeredocFree(a) && HeredocFree(b)
    requires a == "" || b == "" || b[0] !in {'<', '('} || a[|a| - 1] !in {'<', '$', '('}
    ensures HeredocFree(a + b)
  {
    HeredocFreeMeans(a);
    HeredocFreeMeans(b);
    HeredocFreeMeans(a + b);
    var s := a + b;
    forall i: nat
      ensures !OccursAt(s, "<<", i) && !OccursAt(s, "$((", i)
    {
      NoHeredocAt(a, b, i);
    }
  }

  lemma NoHeredocAt(a: string, b: string, i: nat)
    requires !OccursAt(a, "<<", i) && !OccursAt(a, "$((", i)
    requires i >= |a| ==> !OccursAt(b, "<<", i - |a|) && !OccursAt(b, "$((", i - |a|)
    requires a == "" || b == "" || b[0] !in {'<', '('} || a[|a| - 1] !in {'<', '$', '('}
    ensures !OccursAt(a + b, "<<", i) && !OccursAt(a + b, "$((", i)
  {
    hide *;
    var s := a + b;
    Pair(s, i);
    Triple(s, i);
    Pair(a, i);
    Triple(a, i);
    if i >= |a| {
      Pair(b, i - |a|);
      Triple(b, i - |a|);
    }
  }

  lemma ShortIsHeredocFree(s: string)
    requires forall i :: 0 <= i < |s| ==> s[i] != '<' && s[i] != '$'
    ensures HeredocFree(s)
  {
    HeredocFreeMeans(s);
    forall i: nat
      ensures !OccursAt(s, "<<", i) && !OccursAt(s, "$((", i)
    {
      Pair(s, i);
      Triple(s, i);
    }
  }

  lemma {:induction false} JoinIsHeredocFree(segs: seq<Segment>, spaced: bool)
    requires Alternates(segs) && AllHeredocFree(segs)
    ensures HeredocFree(Suffix(segs, spaced))
    decreases |segs|
  {
    hide ContainsHeredoc, Trimmed;
    if segs == [] {
      ShortIsHeredocFree("");
    } else {
      var rest := segs[1..];
      assert forall i :: 0 <= i < |rest| ==> rest[i] == segs[i + 1];
      match segs[0]
      case Operator(op) =>
        var head := (if spaced then "" else " ") + op + " ";
        ShortIsHeredocFree(head);
        JoinIsHeredocFree(rest, true);
        HeredocFreeConcat(head, Suffix(rest, true));
      case Command(cmd) =>
        assert HeredocFree(segs[0].text);
        JoinIsHeredocFree(rest, false);
        assert rest != [] ==> Suffix(rest, false)[0] == ' ';
        HeredocFreeConcat(cmd, Suffix(rest, false));
    }
  }

  // Wrapping

  /** A binary path that the lexer reads as plain text outside every quote. */
  predicate LexerPlain(binary: string) {
    binary != "" && !IsBlank(binary[0]) && Closed(binary) && HeredocFree(binary)
  }

  /** A command that can stand anywhere in a rewritten line. */
  predicate Splices(cmd: string) {
    Trimmed(cmd) && Closed(cmd) && HeredocFree(cmd)
  }

  lemma {:induction false} EscapedStaysQuoted(s: string)
    ensures Run(Single, EscapeQuotes(s)) == Single
    decreases |s|
  {
    if s != [] {
      var piece := if s[0] == '\'' then "'\\''" else [s[0]];
      EscapeStep(s, piece);
      RunAppend(Single, piece, EscapeQuotes(s[1..]));
      PieceStaysQuoted(s[0], piece);
      EscapedStaysQuoted(s[1..]);
    } else {
      assert EscapeQuotes(s) == "";
    }
  }

  lemma PieceStaysQuoted(c: char, piece: string)
    requires piece == if c == '\'' then "'\\''" else [c]
    ensures Run(Single, piece) == Single
  {
    EmptyRunStays(Single);
    hide Run;
    if c == '\'' {
      assert "" + ['\''] == "'" && "'" + ['\\'] == "'\\" && "'\\" + ['\''] == "'\\'" && "'\\'" + ['\''] == piece;
      RunPush(Single, "", '\'');
      RunPush(Single, "'", '\\');
      RunPush(Single, "'\\", '\'');
      RunPush(Single, "'\\'", '\'');
    } else {
      assert "" + [c] == piece;
      RunPush(Single, "", c);
    }
  }

  lemma EmptyRunStays(m: Mode)
    ensures Run(m, "") == m
  {
  }

  lemma {:induction false} EscapedIsHeredocFree(s: string)
    requires HeredocFree(s)
    ensures HeredocFree(EscapeQuotes(s))
    ensures EscapeQuotes(s) != [] ==> s != [] && EscapeQuotes(s)[0] == s[0]
    ensures s != [] && s[0] == '(' && |EscapeQuotes(s)| >= 2 && EscapeQuotes(s)[1] == '(' ==> |s| >= 2 && s[1] == '('
    decreases |s|
  {
    hide ContainsHeredoc, Find;
    if s == [] {
      ShortIsHeredocFree("");
      assert EscapeQuotes(s) == "";
    } else {
      var piece := if s[0] == '\'' then "'\\''" else [s[0]];
      var rest := s[1..];
      EscapeStep(s, piece);
      HeredocFreeSlice(s, 1, |s|);
      assert s[1..|s|] == rest;
      EscapedIsHeredocFree(rest);
      if s[0] == '\'' {
        ShortIsHeredocFree(piece);
        HeredocFreeConcat(piece, EscapeQuotes(rest));
      } else {
        PrependChar(s, EscapeQuotes(rest));
      }
    }
  }

  lemma PrependChar(s: string, escaped: string)
    requires s != [] && HeredocFree(s) && HeredocFree(escaped)
    requires escaped != [] ==> |s| > 1 && escaped[0] == s[1]
    requires |escaped| >= 2 && s[1] == '(' && escaped[1] == '(' ==> |s| > 2 && s[2] == '('
    ensures HeredocFree([s[0]] + escaped)
  {
    hide ContainsHeredoc, OccursAt;
    var t := [s[0]] + escaped;
    HeredocFreeMeans(s);
    HeredocFreeMeans(escaped);
    HeredocFreeMeans(t);
    assert !OccursAt(s, "<<", 0) && !OccursAt(s, "$((", 0);
    forall i: nat
      ensures !OccursAt(t, "<<", i) && !OccursAt(t, "$((", i)
    {
      if i == 0 {
        NoMarkFirst(s, escaped);
      } else {
        assert !OccursAt(escaped, "<<", i - 1) && !OccursAt(escaped, "$((", i - 1);
        NoMarkLater(s[0], escaped, i - 1);
      }
    }
  }

  lemma NoMarkFirst(s: string, escaped: string)
    requires s != [] && !OccursAt(s, "<<", 0) && !OccursAt(s, "$((", 0)
    requires escaped != [] ==> |s| > 1 && escaped[0] == s[1]
    requires |escaped| >= 2 && s[1] == '(' && escaped[1] == '(' ==> |s| > 2 && s[2] == '('
    ensures !OccursAt([s[0]] + escaped, "<<", 0) && !OccursAt([s[0]] + escaped, "$((", 0)
  {
    hide OccursAt;
    Pair(s, 0);
    Triple(s, 0);
    Pair([s[0]] + escaped, 0);
    Triple([s[0]] + escaped, 0);
  }

  lemma NoMarkLater(c: char, escaped: string, i: nat)
    requires !OccursAt(escaped, "<<", i) && !OccursAt(escaped, "$((", i)
    ensures !OccursAt([c] + escaped, "<<", i + 1) && !OccursAt([c] + escaped, "$((", i + 1)
  {
    hide OccursAt;
    Pair(escaped, i);
    Triple(escaped, i);
    Pair([c] + escaped, i + 1);
    Triple([c] + escaped, i + 1);
  }

  /** A wrapped command can stand anywhere, whatever quotes the command contains. */
  lemma WrappedSplices(cmd: string, binary: string)
    requires LexerPlain(binary) && HeredocFree(cmd)
    ensures Splices(WrapSingleCommand(cmd, binary))
  {
    hide Run, ContainsHeredoc, EscapeQuotes;
    var esc := EscapeQuotes(cmd);
    var w := WrapSingleCommand(cmd, binary);
    var opening := "-c '";
    OpeningQuote();
    EscapedStaysQuoted(cmd);
    RunPush(Single, esc, '\'');
    RunPush(Single, esc + "'", ' ');
    RunAppend(Plain, opening, esc + "'" + " ");
    assert opening + (esc + "'" + " ") == "-c '" + esc + "'" + " ";
    RunAppend(Plain, binary + " ", "-c '" + esc + "'" + " ");
    assert w + [' '] == (binary + " ") + ("-c '" + esc + "'" + " ");
    WrappedIsHeredocFree(cmd, binary);
    assert w[0] == binary[0] && w[|w| - 1] == '\'';
  }

  lemma WrappedIsHeredocFree(cmd: string, binary: string)
    requires HeredocFree(binary) && HeredocFree(cmd)
    ensures HeredocFree(WrapSingleCommand(cmd, binary))
  {
    hide ContainsHeredoc, EscapeQuotes;
    var esc := EscapeQuotes(cmd);
    EscapedIsHeredocFree(cmd);
    ShortIsHeredocFree(" -c '");
    ShortIsHeredocFree("'");
    HeredocFreeConcat(binary, " -c '");
    HeredocFreeConcat(binary + " -c '", esc);
    HeredocFreeConcat(binary + " -c '" + esc, "'");
  }

  lemma OpeningQuote()
    ensures Run(Plain, "-c '") == Single
  {
    hide Run;
    OrdinaryRun("-c ");
    RunPush(Plain, "-c ", '\'');
    assert "-c " + ['\''] == "-c '";
  }

  lemma ClosedIsUnbroken(cmd: string)
    requires Closed(cmd)
    ensures !Run(Plain, cmd).Broken?
  {
    RunAppend(Plain, cmd, " ");
    BrokenStaysBroken(" ");
  }

  // Commutation

  /** Rewriting before the first pipe keeps the shape of lexed segments. */
  lemma {:induction false} RewritingKeepsShape(segs: seq<Segment>, binary: string)
    requires WellLexed(segs) && AllHeredocFree(segs) && LexerPlain(binary)
    ensures var mapped := RewriteSegments(segs, SegmentRewriter(binary));
            && WellLexed(mapped) && AllHeredocFree(mapped) && |mapped| == |segs|
            && (segs != [] ==> mapped[0].Operator? == segs[0].Operator?)
    decreases |segs|
  {
    hide Run, ContainsHeredoc, WrapSingleCommand, LexerPlain, IsRewritable, AlreadyWrapped;
    var f := SegmentRewriter(binary);
    if segs != [] && segs[0] != Operator("|") {
      var rest := segs[1..];
      assert forall i :: 0 <= i < |rest| ==> rest[i] == segs[i + 1];
      assert segs[1..] == [] || WellLexed(rest);
      RewritingKeepsShape(rest, binary);
      var tail := RewriteSegments(rest, f);
      var head := RewriteSegments(segs, f)[0];
      assert RewriteSegments(segs, f) == [head] + tail;
      assert ([head] + tail)[1..] == tail;
      assert HeredocFree(segs[0].text);
      if segs[0].Command? && f(segs[0].text).Some? {
        WrappedSplices(segs[0].text, binary);
        ClosedIsUnbroken(head.text);
      }
    }
  }

  /** Rewriting commutes with lexing: the rewritten line lexes to the input's segments with the
      rewritable commands before the first pipe wrapped, and nothing else changed. */
  lemma RewritingCommutesWithLexing(input: string, binary: string)
    requires LexerPlain(binary) && BuildRewriteCompound(input, binary).Some?
    ensures Split(BuildRewriteCompound(input, binary).value)
         == RewriteSegments(Split(input), SegmentRewriter(binary))
  {
    hide Run, ContainsHeredoc, Pieces, Trim, RewriteSegments, Join, Suffix, WellLexed, AnyRewritten, Alternates;
    var f := SegmentRewriter(binary);
    var segs := Split(input);
    var mapped := RewriteSegments(segs, f);
    CompoundIsHeredocFree(input);
    RewritingKeepsShape(segs, binary);
    WellLexedAlternates(mapped);
    JoinIsSuffix(mapped, "");
    var joined := Suffix(mapped, true);
    assert "" + joined == joined;
    JoinedSegmentsLexBack(mapped, true);
    JoinIsHeredocFree(mapped, true);
    LexingOfTrimmed(joined);
    assert mapped != [];
  }

  lemma CompoundIsHeredocFree(input: string)
    requires |Split(input)| > 1
    ensures WellLexed(Split(input)) && AllHeredocFree(Split(input))
  {
    hide Pieces, Trim, ContainsHeredoc;
    PiecesAreWellLexed(Trim(input));
    PiecesHeredocFree(Trim(input));
  }

  lemma LexingOfTrimmed(s: string)
    requires HeredocFree(s)
    ensures Split(Trim(s)) == Pieces(s)
  {
    hide Pieces, ContainsHeredoc, StripStart, StripEnd;
    PiecesOfTrim(s);
    TrimIsTrimmed(s);
    TrimIsTrimmed(Trim(s));
    HeredocFreeTrim(s);
    EmptyPieces();
    TrimNothing();
  }

  // Commutation fails for every other path

  ghost predicate CommutesOn(input: string, binary: string) {
    BuildRewriteCompound(input, binary).Some? ==>
      Split(BuildRewriteCompound(input, binary).value) == RewriteSegments(Split(input), SegmentRewriter(binary))
  }

  /** A character that changes nothing outside quotes. */
  predicate Ordinary(c: char) {
    c !in {'\'', '"', '`', '$', '\\', '&', '|', ';'}
  }

  predicate AllOrdinary(s: string) {
    forall i :: 0 <= i < |s| ==> Ordinary(s[i])
  }

  lemma {:induction false} OrdinaryRun(s: string)
    requires AllOrdinary(s)
    ensures Run(Plain, s) == Plain
  {
    if s != "" { OrdinaryRun(s[1..]); }
  }

  /** Text that opens, closes and escapes nothing inside any kind of quote. */
  predicate Muted(s: string) {
    forall i :: 0 <= i < |s| ==> s[i] !in {'\'', '"', '`', '(', ')', '\\'}
  }

  lemma {:induction false} StaysInside(m: Mode, s: string)
    requires Muted(s) && (InsideQuote(m) || m.Broken?)
    ensures Run(m, s) == m
    decreases |s|
  {
    if s != "" { StaysInside(m, s[1..]); }
  }

  /** After a blank, the lexer is outside every quote or truly inside one. */
  predicate InsideQuote(m: Mode) {
    m.Single? || m.Double? || m.Backtick? || m.Subshell?
  }

  lemma AfterBlank(s: string)
    ensures var m := Run(Plain, s + " "); m.Plain? || m.Broken? || InsideQuote(m)
  {
    RunPush(Plain, s, ' ');
  }

  /** Text with one quoted word in it leaves every quote open that was open. */
  lemma QuotedWordStaysInside(m: Mode, before: string, word: string, after: string)
    requires InsideQuote(m) || m.Broken?
    requires Muted(before) && Muted(word) && Muted(after) && AllOrdinary(word)
    ensures Run(m, before + "'" + word + "'" + after) == m
  {
    EmptyRunStays(m);
    hide Run;
    StaysInside(m, before);
    RunPush(m, before, '\'');
    RunAppend(m, before + "'", word);
    if m.Single? { OrdinaryRun(word); } else { StaysInside(m, word); }
    RunPush(m, before + "'" + word, '\'');
    StaysInside(m, after);
    RunAppend(m, before + "'" + word + "'", after);
  }

  const PROBE := "git && git"

  /** If the lexer reads a wrapped command as one closed command, it reads the path as plain text. */
  lemma OnlyPlainPathsSplice(binary: string)
    requires Splices(WrapSingleCommand("git", binary))
    ensures LexerPlain(binary)
  {
    hide Run, ContainsHeredoc;
    var w := WrapSingleCommand("git", binary);
    var flag, word := "-c ", "git";
    assert EscapeQuotes("git") == "git" by { NothingToEscape("git"); }
    assert w == binary + " -c 'git'";
    assert w[0] == (binary + " ")[0];
    assert w[..|binary|] == binary && w[0..|binary|] == binary;
    HeredocFreeSlice(w, 0, |binary|);
    var m := Run(Plain, binary + " ");
    AfterBlank(binary);
    assert w + " " == (binary + " ") + (flag + "'" + word + "'" + " ");
    RunAppend(Plain, binary + " ", flag + "'" + word + "'" + " ");
    if m != Plain { QuotedWordStaysInside(m, flag, word, " "); }
  }

  /** Wrapped commands can stand anywhere if and only if the lexer reads the path as plain text. */
  lemma WrappedSplicesExactlyWhen(binary: string)
    ensures (forall cmd :: HeredocFree(cmd) ==> Splices(WrapSingleCommand(cmd, binary))) <==> LexerPlain(binary)
  {
    hide Splices, HeredocFree, LexerPlain, WrapSingleCommand;
    if LexerPlain(binary) {
      forall cmd | HeredocFree(cmd)
        ensures Splices(WrapSingleCommand(cmd, binary))
      {
        WrappedSplices(cmd, binary);
      }
    } else if Splices(WrapSingleCommand("git", binary)) {
      OnlyPlainPathsSplice(binary);
    } else {
      GitIsPlain();
    }
  }

  lemma {:induction false} NothingToEscape(s: string)
    requires '\'' !in s
    ensures EscapeQuotes(s) == s
  {
    if s != "" {
      EscapeStep(s, [s[0]]);
      NothingToEscape(s[1..]);
    }
  }

  lemma GitIsRewritten(binary: string)
    ensures RewriteSegment("git", binary) == Some(WrapSingleCommand("git", binary))
  {
    hide WrapSingleCommand;
    assert Matches("git", HOOK_COMMANDS[0]);
    assert (binary + " ")[|binary|] == ' ';
    assert "lean-ctx "[0] == 'l';
  }

  lemma GitIsPlain()
    ensures Trimmed("git") && Closed("git") && !Run(Plain, "git").Broken? && HeredocFree("git")
  {
    OrdinaryRun("git");
    OrdinaryRun("git" + " ");
    ShortIsHeredocFree("git");
  }

  /** A command, `&&`, and more. */
  function Chain(cmd: string, segs: seq<Segment>): seq<Segment> {
    [Command(cmd), Operator("&&")] + segs
  }

  lemma ChainIs(cmd: string, segs: seq<Segment>)
    ensures Suffix(Chain(cmd, segs), true) == cmd + " && " + Suffix(segs, true)
    ensures WellLexed(Chain(cmd, segs))
       <==> Trimmed(cmd) && Closed(cmd) && !Run(Plain, cmd).Broken? && WellLexed(segs)
  {
    hide Run, Trimmed, Closed;
    var chain := Chain(cmd, segs);
    assert chain[1..] == [Operator("&&")] + segs;
    assert chain[1..][1..] == segs;
    CommandSuffix(chain, true, cmd);
    OperatorSuffix(chain[1..], false, " ", "&&");
    assert cmd + (" " + "&&" + " " + Suffix(segs, true)) == cmd + " && " + Suffix(segs, true);
  }

  lemma OneCommandIs(cmd: string)
    ensures Suffix([Command(cmd)], true) == cmd
    ensures WellLexed([Command(cmd)]) <==> Trimmed(cmd) && !Run(Plain, cmd).Broken?
  {
    hide Run, Trimmed;
    OneCommand(cmd, "");
    assert [Command(cmd)][1..] == [];
  }

  lemma ProbeSegments()
    ensures Split(PROBE) == Chain("git", [Command("git")])
  {
    hide Run, Trim, ContainsHeredoc, Pieces, Suffix, WellLexed, Trimmed, Closed;
    GitIsPlain();
    OneCommandIs("git");
    ChainIs("git", [Command("git")]);
    JoinedSegmentsLexBack(Chain("git", [Command("git")]), true);
    assert PROBE == "git" + " && " + "git";
    ProbeIsTrimmed();
    LexingOfTrimmed(PROBE);
  }

  lemma ProbeIsTrimmed()
    ensures Trim(PROBE) == PROBE && HeredocFree(PROBE)
  {
    ShortIsHeredocFree(PROBE);
    TrimIsTrimmed(PROBE);
  }

  lemma ChainRewrites(cmd: string, segs: seq<Segment>, f: RewriteFn)
    ensures AnyRewritten(Chain(cmd, segs), f) <==> f(cmd).Some? || AnyRewritten(segs, f)
    ensures RewriteSegments(Chain(cmd, segs), f)
         == Chain(match f(cmd) case Some(w) => w case None => cmd, RewriteSegments(segs, f))
  {
    hide Chain;
    ChainTails(cmd, segs);
    var chain, rest := Chain(cmd, segs), [Operator("&&")] + segs;
    assert AnyRewritten(rest, f) == AnyRewritten(segs, f);
    assert RewriteSegments(rest, f) == [Operator("&&")] + RewriteSegments(segs, f);
    ChainTails(match f(cmd) case Some(w) => w case None => cmd, RewriteSegments(segs, f));
  }

  lemma ChainTails(cmd: string, segs: seq<Segment>)
    ensures var rest := [Operator("&&")] + segs;
            && Chain(cmd, segs) == [Command(cmd)] + rest && Chain(cmd, segs)[1..] == rest && rest[1..] == segs
  {
  }

  lemma OneRewrites(cmd: string, f: RewriteFn)
    ensures AnyRewritten([Command(cmd)], f) <==> f(cmd).Some?
    ensures RewriteSegments([Command(cmd)], f) == [Command(match f(cmd) case Some(w) => w case None => cmd)]
  {
    assert [Command(cmd)][1..] == [];
  }

  /** If rewriting commutes with lexing on `git && git`, the path is plain text to the lexer. */
  lemma ProbeDecides(binary: string)
    requires CommutesOn(PROBE, binary)
    ensures LexerPlain(binary)
  {
    hide Run, Trim, ContainsHeredoc, Pieces, WrapSingleCommand, Join, WellLexed, LexerPlain, Split;
    var f := SegmentRewriter(binary);
    var segs, w := Split(PROBE), WrapSingleCommand("git", binary);
    ProbeSegments();
    GitIsRewritten(binary);
    OneRewrites("git", f);
    ChainRewrites("git", [Command("git")], f);
    var mapped := Chain(w, [Command(w)]);
    var line := BuildRewriteCompound(PROBE, binary).value;
    assert Split(line) == mapped;
    CompoundIsHeredocFree(line);
    ChainIs(w, [Command(w)]);
    assert HeredocFree(mapped[0].text);
    OnlyPlainPathsSplice(binary);
  }

  /** Rewriting commutes with lexing on every input if and only if the lexer reads the path as plain
      text: no blank first, no operator or open quote, no mark of a here-document. */
  lemma CommutesExactlyWhen(binary: string)
    ensures (forall input :: CommutesOn(input, binary)) <==> LexerPlain(binary)
  {
    hide CommutesOn, LexerPlain;
    if LexerPlain(binary) {
      forall input
        ensures CommutesOn(input, binary)
      {
        if BuildRewriteCompound(input, binary).Some? { RewritingCommutesWithLexing(input, binary); }
        CommutesMeans(input, binary);
      }
    } else if CommutesOn(PROBE, binary) {
      ProbeDecides(binary);
    }
  }

  lemma CommutesMeans(input: string, binary: string)
    ensures CommutesOn(input, binary) <==>
              (BuildRewriteCompound(input, binary).Some? ==>
                 Split(BuildRewriteCompound(input, binary).value)
                 == RewriteSegments(Split(input), SegmentRewriter(binary)))
  {
    hide BuildRewriteCompound, Split, RewriteSegments;
  }

  /** A path with one apostrophe opens a quote that the wrapping closes. */
  lemma OneApostropheBreaksCommutation(head: string, tail: string)
    requires AllOrdinary(head) && Muted(tail)
    ensures Run(Plain, head + "'" + tail + " ") == Single
    ensures !CommutesOn(PROBE, head + "'" + tail)
  {
    hide CommutesOn, Run, ContainsHeredoc;
    var binary := head + "'" + tail;
    OrdinaryRun(head);
    RunPush(Plain, head, '\'');
    RunAppend(Plain, head + "'", tail);
    StaysInside(Single, tail);
    RunPush(Plain, binary, ' ');
    if CommutesOn(PROBE, binary) { ProbeDecides(binary); }
  }

  /** Such as the path of a program in a home directory. */
  lemma AnApostropheInThePath()
    ensures !CommutesOn("git && git", "/home/o'brien/nebu-ctx")
  {
    hide CommutesOn;
    OneApostropheBreaksCommutation("/home/o", "brien/nebu-ctx");
    assert "/home/o" + "'" + "brien/nebu-ctx" == "/home/o'brien/nebu-ctx";
  }
}
