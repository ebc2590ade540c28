/** The hook leaves its own output alone, for exactly which paths of the client binary. */
module RewriteOnce {
  import opened Wrappers
  import opened Sequences
  import opened Text
  import opened CompoundLexer
  import opened LexerLaws
  import opened CommandRegistry
  import opened PosixQuoting
  import opened ShellRewrite
  import opened RewriteLaws

  lemma {:induction false} RewrittenSegmentsAreLeftAlone(segs: seq<Segment>, binary: string)
    ensures !AnyRewritten(RewriteSegments(segs, SegmentRewriter(binary)), SegmentRewriter(binary))
    decreases |segs|
  {
    hide IsRewritable;
    var f := SegmentRewriter(binary);
    if segs != [] && segs[0] != Operator("|") {
      RewrittenSegmentsAreLeftAlone(segs[1..], binary);
      var r := RewriteSegments(segs, f);
      assert r[1..] == RewriteSegments(segs[1..], f);
      if segs[0].Command? && f(segs[0].text).Some? {
        WrappedIsWrapped(segs[0].text, binary);
      }
    }
  }

  lemma WrappedIsWrapped(cmd: string, binary: string)
    ensures AlreadyWrapped(WrapSingleCommand(cmd, binary), binary)
  {
    var w := WrapSingleCommand(cmd, binary);
    assert w[..|binary + " "|] == binary + " ";
  }

  /** A line led by a command that its rewriter leaves alone is wrapped already or not
      rewritable as a whole. */
  lemma LeadDecides(cmd: string, op: string, rest: string, binary: string)
    requires Trimmed(cmd) && IsOperator(op)
    requires RewriteSegment(cmd, binary).None?
    ensures var s := Trim(cmd + " " + op + rest);
            AlreadyWrapped(s, binary) || !IsRewritable(s)
  {
    hide IsRewritable, Trim;
    var more := LeadStays(cmd, op, rest);
    var t := cmd + " " + more;
    if IsRewritable(t) {
      RewritabilityIsSettledByTheFirstWord(cmd, more);
      assert AlreadyWrapped(cmd, binary);
      assert cmd <= t;
      PrefixOfPrefix(LEAN_PREFIX, cmd, t);
      PrefixOfPrefix(binary + " ", cmd, t);
    }
  }

  lemma LeadStays(cmd: string, op: string, rest: string) returns (more: string)
    requires Trimmed(cmd) && IsOperator(op)
    ensures Trim(cmd + " " + op + rest) == cmd + " " + more
  {
    hide StripEnd, StripStart;
    var lead := cmd + " ";
    var s := lead + op + rest;
    assert s[|lead|] == op[0];
    StripEndKeeps(s, |lead|);
    StripEndIsPrefix(s, IsBlank);
    var t := StripEnd(s, IsBlank);
    UnblankStart(t);
    assert t[..|lead|] == s[..|lead|] == lead;
    more := t[|lead|..];
  }

  lemma PrefixOfPrefix(a: string, b: string, c: string)
    requires b <= c
    ensures a <= b ==> a <= c
  {
  }

  lemma OperatorLeadsNothingRewritable(op: string, rest: string)
    requires IsOperator(op)
    ensures !IsRewritable(Trim(op + rest))
  {
    hide IsRewritable;
    var s := op + rest;
    StripEndKeeps(s, 0);
    assert Trim(s) == StripEnd(s, IsBlank);
    if IsRewritable(Trim(s)) {
      RewritableStartsPlain(Trim(s));
    }
  }

  lemma FirstSegmentDecides(segs: seq<Segment>, binary: string)
    requires Alternates(segs) && |segs| > 1 && !AnyRewritten(segs, SegmentRewriter(binary))
    ensures AlreadyWrapped(Trim(Suffix(segs, true)), binary) || !IsRewritable(Trim(Suffix(segs, true)))
  {
    hide IsRewritable, AlreadyWrapped, Trim, Suffix, RewriteSegment, Trimmed;
    if segs[0].Operator? {
      var op := segs[0].text;
      OperatorFirst(segs, op);
      OperatorLeadsNothingRewritable(op, " " + Suffix(segs[1..], true));
    } else {
      var cmd, op := segs[0].text, segs[1].text;
      CommandFirst(segs, cmd, op);
      LeadDecides(cmd, op, " " + Suffix(segs[2..], true), binary);
    }
  }

  lemma OperatorFirst(segs: seq<Segment>, op: string)
    requires segs != [] && segs[0] == Operator(op)
    ensures Suffix(segs, true) == op + (" " + Suffix(segs[1..], true))
  {
    hide Suffix;
    OperatorSuffix(segs, true, "", op);
    assert "" + op + " " + Suffix(segs[1..], true) == op + (" " + Suffix(segs[1..], true));
  }

  lemma CommandFirst(segs: seq<Segment>, cmd: string, op: string)
    requires |segs| > 1 && segs[0] == Command(cmd) && segs[1] == Operator(op)
    ensures Suffix(segs, true) == cmd + " " + op + (" " + Suffix(segs[2..], true))
  {
    hide Suffix;
    assert segs[1..][1..] == segs[2..];
    CommandSuffix(segs, true, cmd);
    OperatorSuffix(segs[1..], false, " ", op);
    Regroup(cmd, " ", op, Suffix(segs[2..], true));
  }

  // What the lexer makes of a path

  /** Text up to a blank, read from outside every quote: the commands the lexer cuts out of it are not
      rewritable, and unless it ends after a pipe it ends outside every quote; what follows the last cut
      does not lead a rewritable command either. The path itself leads one that is wrapped already. */
  predicate Settles(s: string, first: bool)
    decreases |s|
  {
    match FirstOperator(s)
    case None => Run(Plain, s) == Plain && (first || !IsRewritable(StripStart(s, IsBlank)))
    case Some(at) =>
      && !IsRewritable(Trim(s[..at.0]))
      && (at.1 == "|" || Settles(s[at.0 + |at.1|..], false))
  }

  predicate Quiet(s: string, binary: string) {
    !AnyRewritten(Pieces(s), SegmentRewriter(binary))
  }

  predicate QuietCommand(cmd: string, binary: string) {
    Trim(cmd) == "" || RewriteSegment(Trim(cmd), binary).None?
  }

  lemma FlushThen(cmd: string, op: string, tail: seq<Segment>, binary: string)
    ensures AnyRewritten(Flush(cmd) + [Operator(op)] + tail, SegmentRewriter(binary))
       <==> !QuietCommand(cmd, binary) || (op != "|" && AnyRewritten(tail, SegmentRewriter(binary)))
  {
    hide Trim, RewriteSegment;
    var segs := Flush(cmd) + [Operator(op)] + tail;
    assert ([Operator(op)] + tail)[1..] == tail;
    if Trim(cmd) == "" {
      assert segs == [Operator(op)] + tail;
    } else {
      assert segs[0] == Command(Trim(cmd));
      assert segs[1..] == [Operator(op)] + tail;
    }
  }

  lemma OneFlush(cmd: string, binary: string)
    ensures AnyRewritten(Flush(cmd), SegmentRewriter(binary)) <==> !QuietCommand(cmd, binary)
  {
    hide Trim, RewriteSegment;
    if Trim(cmd) != "" { OneRewrites(Trim(cmd), SegmentRewriter(binary)); }
  }

  /** Text closed before an operator is quiet when its own command and what follows are. */
  lemma AtOperator(cur: string, op: string, rest: string, binary: string)
    requires Run(Plain, cur) == Plain && IsOperator(op)
    ensures Quiet(cur + op + (" " + rest), binary)
       <==> QuietCommand(cur, binary) && (op == "|" || Quiet(rest, binary))
  {
    hide Run, Pieces, AnyRewritten, QuietCommand, Flush;
    PiecesAtOperator(cur, op, " " + rest);
    assert [' '] + rest == " " + rest;
    LeadingBlankPiece(rest, ' ');
    FlushThen(cur, op, if op == "|" then Flush(" " + rest) else Pieces(rest), binary);
  }

  lemma WithoutOperator(s: string, binary: string)
    requires !Run(Plain, s).Broken?
    ensures Quiet(s, binary) <==> QuietCommand(s, binary)
  {
    hide Run, Pieces, AnyRewritten, QuietCommand, Flush;
    UnbrokenIsOnePiece(s);
    OneFlush(s, binary);
  }

  /** What is appended after a blank does not change the first cut. */
  lemma SameFirstCut(s: string, x: string)
    requires s != "" && s[|s| - 1] == ' ' && FirstOperator(s).Some?
    ensures FirstOperator(s + x) == FirstOperator(s)
    ensures var (start, op) := FirstOperator(s).value;
            && start + |op| < |s| && s[start + |op|..][|s| - start - |op| - 1] == ' '
            && IsOperator(op)
  {
    hide Run, FirstOperator;
    BeforeOperatorIsOpen(s);
    var (start, op) := FirstOperator(s).value;
    assert s[start..start + |op|][|op| - 1] == s[start + |op| - 1];
    assert op[|op| - 1] != ' ';
    assert (s + x)[..start] == s[..start];
    assert (s + x)[start..start + |op|] == s[start..start + |op|];
    OperatorAt(s + x, start, op);
  }

  /** The first cut of text that ends in a blank, whatever is appended. */
  lemma AtFirstCut(s: string, x: string, binary: string)
    requires s != "" && s[|s| - 1] == ' ' && FirstOperator(s).Some?
    ensures var (start, op) := FirstOperator(s).value;
            && start + |op| < |s| && s[start + |op|..][|s| - start - |op| - 1] == ' '
            && (Quiet(s + x, binary)
                <==> QuietCommand(s[..start], binary) && (op == "|" || Quiet(s[start + |op|..] + x, binary)))
  {
    hide FirstOperator, Pieces, AnyRewritten, QuietCommand, Flush;
    SameFirstCut(s, x);
    var (start, op) := FirstOperator(s).value;
    PiecesUnfold(s + x);
    assert (s + x)[..start] == s[..start];
    assert (s + x)[start + |op|..] == s[start + |op|..] + x;
    var rest := s[start + |op|..] + x;
    FlushThen(s[..start], op, if op == "|" then Flush(rest) else Pieces(rest), binary);
  }

  lemma TrimOfPathCommand(s: string, x: string)
    requires x != "" && !IsBlank(x[0]) && !IsBlank(x[|x| - 1])
    ensures Trim(s + x) == StripStart(s, IsBlank) + x
  {
    hide *;
    var lead := StripStart(s, IsBlank);
    StripStartAppend(s, x);
    UnblankStart(x);
    TrimStripsStartFirst(s + x);
    UnblankEnd(lead + x);
    if lead == "" { assert lead + x == x; }
  }

  /** A command that begins with text up to a blank. */
  lemma PathCommand(s: string, x: string, binary: string)
    requires s != "" && s[|s| - 1] == ' '
    requires x != "" && x[0] == '-' && !IsBlank(x[|x| - 1])
    ensures Trim(s + x) == StripStart(s, IsBlank) + x && QuietCommand(s + x + " ", binary) == QuietCommand(s + x, binary)
    ensures QuietCommand(s + x, binary)
       <==> AlreadyWrapped(StripStart(s, IsBlank) + x, binary) || !IsRewritable(StripStart(s, IsBlank))
  {
    hide StripStart, Trim, AlreadyWrapped, IsRewritable;
    var lead := StripStart(s, IsBlank);
    TrimOfPathCommand(s, x);
    TrimDropsOuterBlank(s + x, ' ');
    NothingRewritable(x);
    if lead == "" {
      assert lead + x == x;
    } else {
      StripStartIsSuffix(s, IsBlank);
      assert lead[|lead| - 1] == ' ';
      RewritabilityIsSettledByTheFirstBlank(lead, x);
    }
  }

  lemma UnblankEnd(s: string)
    requires s != "" && !IsBlank(s[|s| - 1])
    ensures StripEnd(s, IsBlank) == s
  {
  }

  lemma NothingRewritable(x: string)
    requires x != "" && x[0] == '-'
    ensures !IsRewritable(x) && !IsRewritable("")
  {
    hide IsRewritable;
    if IsRewritable(x) { RewritableStartsPlain(x); }
    if IsRewritable("") { RewritableStartsPlain(""); }
  }

  // A path that settles keeps every line quiet

  /** What wrapping puts after the path and a blank. */
  function Flag(cmd: string): string {
    "-c '" + EscapeQuotes(cmd) + "'"
  }

  lemma FlagCloses(s: string, cmd: string)
    requires Run(Plain, s) == Plain
    ensures Run(Plain, s + Flag(cmd)) == Plain && Run(Plain, s + Flag(cmd) + " ") == Plain
  {
    hide Run, EscapeQuotes;
    var opening, escaped := "-c '", EscapeQuotes(cmd);
    OpeningQuote();
    EscapedStaysQuoted(cmd);
    RunAppend(Plain, s, opening);
    RunAppend(Plain, s + opening, escaped);
    RunPush(Plain, s + opening + escaped, '\'');
    assert s + opening + escaped + "'" == s + Flag(cmd);
    RunPush(Plain, s + Flag(cmd), ' ');
  }

  /** An operator and more text, or the end of the line. */
  function After(op: string, rest: string): string {
    if op == "" then "" else " " + op + " " + rest
  }

  predicate QuietAfter(op: string, rest: string, binary: string) {
    op == "" || (IsOperator(op) && (op == "|" || Quiet(rest, binary)))
  }

  predicate StartsWithText(binary: string) {
    binary != "" && !IsBlank(binary[0])
  }

  /** A command whose text is closed, at the end of the line or before an operator. */
  lemma ClosedCommand(cur: string, op: string, rest: string, binary: string)
    requires Run(Plain, cur + " ") == Plain && !Run(Plain, cur).Broken?
    requires QuietCommand(cur + " ", binary) == QuietCommand(cur, binary) && (op == "" || IsOperator(op))
    ensures Quiet(cur + After(op, rest), binary) <==> QuietCommand(cur, binary) && QuietAfter(op, rest, binary)
  {
    hide Run, Quiet, QuietCommand;
    if op == "" {
      assert cur + "" == cur;
      WithoutOperator(cur, binary);
    } else {
      assert cur + After(op, rest) == (cur + " ") + op + (" " + rest);
      AtOperator(cur + " ", op, rest, binary);
    }
  }

  lemma {:induction false} SettledPathIsQuiet(
    s: string, first: bool, cmd: string, op: string, rest: string, binary: string)
    requires s != "" && s[|s| - 1] == ' ' && Settles(s, first) && QuietAfter(op, rest, binary)
    requires first ==> s == binary + " " && StartsWithText(binary)
    ensures Quiet(s + (Flag(cmd) + After(op, rest)), binary)
    decreases |s|
  {
    hide Run, Quiet, QuietCommand, QuietAfter, EscapeQuotes, FirstOperator, IsRewritable, After;
    var x := Flag(cmd) + After(op, rest);
    match FirstOperator(s)
    case Some(at) =>
      AtFirstCut(s, x, binary);
      NotRewritableIsQuiet(s[..at.0], binary);
      if at.1 != "|" {
        SettledPathIsQuiet(s[at.0 + |at.1|..], false, cmd, op, rest, binary);
      }
    case None =>
      FlagCloses(s, cmd);
      PathCommand(s, Flag(cmd), binary);
      if first {
        UnblankStart(s);
        assert binary + " " <= s + Flag(cmd);
      }
      QuietAfterIsOperator(op, rest, binary);
      ClosedCommand(s + Flag(cmd), op, rest, binary);
      assert s + (Flag(cmd) + After(op, rest)) == s + Flag(cmd) + After(op, rest);
  }

  lemma QuietAfterIsOperator(op: string, rest: string, binary: string)
    requires QuietAfter(op, rest, binary)
    ensures op == "" || IsOperator(op)
  {
  }

  lemma NotRewritableIsQuiet(cmd: string, binary: string)
    ensures !IsRewritable(Trim(cmd)) ==> QuietCommand(cmd, binary)
  {
  }

  lemma QuietMeans(s: string, binary: string)
    ensures Quiet(s, binary) <==> !AnyRewritten(Pieces(s), SegmentRewriter(binary))
  {
  }

  function Out(cmd: string, binary: string): string {
    match RewriteSegment(cmd, binary) case Some(w) => w case None => cmd
  }

  lemma FirstCommandRewrites(segs: seq<Segment>, spaced: bool, binary: string)
    requires segs != [] && segs[0].Command?
    ensures var f := SegmentRewriter(binary);
            Suffix(RewriteSegments(segs, f), spaced)
            == Out(segs[0].text, binary) + Suffix(RewriteSegments(segs[1..], f), false)
  {
    hide Suffix, RewriteSegment;
    var f, cmd := SegmentRewriter(binary), segs[0].text;
    var mapped := RewriteSegments(segs, f);
    assert mapped == [Command(Out(cmd, binary))] + RewriteSegments(segs[1..], f);
    assert mapped[1..] == RewriteSegments(segs[1..], f);
    CommandSuffix(mapped, spaced, Out(cmd, binary));
  }

  lemma OutOfRewritable(cmd: string, more: string, binary: string)
    requires RewriteSegment(cmd, binary).Some?
    ensures Out(cmd, binary) + more == (binary + " ") + (Flag(cmd) + more)
  {
    hide EscapeQuotes, IsRewritable;
    assert binary + " -c '" + EscapeQuotes(cmd) + "'" == (binary + " ") + Flag(cmd);
  }

  /** A command left as it is, at the end of the line or before an operator. */
  lemma PlainCommandIsQuiet(cmd: string, op: string, rest: string, binary: string)
    requires Trimmed(cmd) && !Run(Plain, cmd).Broken? && RewriteSegment(cmd, binary).None?
    requires (op != "" ==> Closed(cmd)) && QuietAfter(op, rest, binary)
    ensures Quiet(cmd + After(op, rest), binary)
  {
    hide Run, Quiet, RewriteSegment, Trim, QuietAfter;
    TrimIsTrimmed(cmd);
    TrimDropsOuterBlank(cmd, ' ');
    QuietAfterIsOperator(op, rest, binary);
    if op == "" {
      assert cmd + "" == cmd;
      WithoutOperator(cmd, binary);
    } else {
      ClosedCommand(cmd, op, rest, binary);
    }
  }

  lemma OperatorLineIsQuiet(lead: string, op: string, rest: string, binary: string)
    requires (lead == "" || lead == " ") && op != "" && QuietAfter(op, rest, binary)
    ensures Quiet(lead + op + " " + rest, binary)
  {
    hide Run, Quiet;
    BlankRun();
    TrimNothing();
    TrimDropsOuterBlank("", ' ');
    assert "" + [' '] == " ";
    AtOperator(lead, op, rest, binary);
    assert lead + op + (" " + rest) == lead + op + " " + rest;
  }

  /** Every rewritten line is quiet, from any of its segments on. */
  lemma {:induction false} RewrittenLineIsQuiet(segs: seq<Segment>, spaced: bool, binary: string)
    requires WellLexed(segs) && StartsWithText(binary) && Settles(binary + " ", true)
    ensures Quiet(Suffix(RewriteSegments(segs, SegmentRewriter(binary)), spaced), binary)
    decreases |segs|, 1
  {
    hide Run, Quiet, QuietAfter, Suffix, Settles, RewriteSegment, RewriteSegments, Trimmed, Closed, Out;
    var f := SegmentRewriter(binary);
    if segs == [] {
      NothingIsQuiet(spaced, binary);
    } else if segs[0].Operator? {
      var tail := RewrittenRestIsQuiet(segs, binary);
      OperatorLineIsQuiet(if spaced then "" else " ", segs[0].text, tail, binary);
    } else {
      var cmd, rest := segs[0].text, segs[1..];
      var op, tail := "", "";
      if rest == [] {
        NothingIsQuiet(false, binary);
      } else {
        tail := RewrittenRestIsQuiet(rest, binary);
        op := rest[0].text;
      }
      FirstCommandRewrites(segs, spaced, binary);
      NothingAfter(op, tail, binary);
      CommandLineIsQuiet(cmd, op, tail, binary);
    }
  }

  lemma NothingIsQuiet(spaced: bool, binary: string)
    ensures Quiet(Suffix(RewriteSegments([], SegmentRewriter(binary)), spaced), binary)
    ensures Suffix(RewriteSegments([], SegmentRewriter(binary)), spaced) == ""
  {
    EmptyPieces();
  }

  lemma NothingAfter(op: string, tail: string, binary: string)
    ensures op == "" ==> After(op, tail) == "" && QuietAfter(op, tail, binary)
  {
  }

  lemma CommandLineIsQuiet(cmd: string, op: string, tail: string, binary: string)
    requires Trimmed(cmd) && !Run(Plain, cmd).Broken? && (op != "" ==> Closed(cmd)) && QuietAfter(op, tail, binary)
    requires StartsWithText(binary) && Settles(binary + " ", true)
    ensures Quiet(Out(cmd, binary) + After(op, tail), binary)
  {
    hide Run, Quiet, QuietAfter, Settles, RewriteSegment, Trimmed, Closed, After, Flag;
    if RewriteSegment(cmd, binary).Some? {
      OutOfRewritable(cmd, After(op, tail), binary);
      SettledPathIsQuiet(binary + " ", true, cmd, op, tail, binary);
    } else {
      PlainCommandIsQuiet(cmd, op, tail, binary);
    }
  }

  lemma {:induction false} RewrittenRestIsQuiet(segs: seq<Segment>, binary: string) returns (tail: string)
    requires WellLexed(segs) && StartsWithText(binary) && Settles(binary + " ", true)
    requires segs != [] && segs[0].Operator?
    ensures QuietAfter(segs[0].text, tail, binary) && segs[0].text != ""
    ensures var mapped, op := RewriteSegments(segs, SegmentRewriter(binary)), segs[0].text;
            Suffix(mapped, false) == After(op, tail) && Suffix(mapped, true) == "" + op + " " + tail
    decreases |segs|, 0
  {
    hide Run, Quiet, Suffix, Settles, RewriteSegment;
    var f, op := SegmentRewriter(binary), segs[0].text;
    var mapped := RewriteSegments(segs, f);
    tail := Suffix(mapped[1..], true);
    OperatorSuffix(mapped, false, " ", op);
    OperatorSuffix(mapped, true, "", op);
    if op != "|" {
      assert mapped[1..] == RewriteSegments(segs[1..], f);
      RewrittenLineIsQuiet(segs[1..], true, binary);
    }
  }

  // What a rewriting puts out

  ghost predicate IdempotentOn(cmd: string, binary: string) {
    RewriteCandidate(cmd, binary).Some? ==> RewriteCandidate(RewriteCandidate(cmd, binary).value, binary) == None
  }

  lemma {:induction false} RewritingAlternates(segs: seq<Segment>, binary: string)
    requires Alternates(segs) && StartsWithText(binary)
    ensures var mapped := RewriteSegments(segs, SegmentRewriter(binary));
            Alternates(mapped) && |mapped| == |segs| && (segs != [] ==> mapped[0].Operator? == segs[0].Operator?)
    decreases |segs|
  {
    hide RewriteSegment;
    var f := SegmentRewriter(binary);
    if segs != [] && segs[0] != Operator("|") {
      RewritingAlternates(segs[1..], binary);
      var mapped := RewriteSegments(segs, f);
      assert mapped[1..] == RewriteSegments(segs[1..], f);
      if segs[0].Command? { OutIsTrimmed(segs[0].text, binary); }
    }
  }

  lemma OutIsTrimmed(cmd: string, binary: string)
    requires Trimmed(cmd) && StartsWithText(binary)
    ensures Trimmed(Out(cmd, binary))
  {
    hide EscapeQuotes, IsRewritable;
    var w := WrapSingleCommand(cmd, binary);
    assert w[0] == binary[0] && w[|w| - 1] == '\'';
  }

  lemma {:induction false} RewritingIsHeredocFree(segs: seq<Segment>, binary: string)
    requires AllHeredocFree(segs) && HeredocFree(binary)
    ensures AllHeredocFree(RewriteSegments(segs, SegmentRewriter(binary)))
    decreases |segs|
  {
    hide ContainsHeredoc, WrapSingleCommand, IsRewritable, AlreadyWrapped;
    var f := SegmentRewriter(binary);
    if segs != [] && segs[0] != Operator("|") {
      assert forall i :: 0 <= i < |segs[1..]| ==> segs[1..][i] == segs[i + 1];
      RewritingIsHeredocFree(segs[1..], binary);
      var mapped := RewriteSegments(segs, f);
      assert forall i :: 0 < i < |mapped| ==> mapped[i] == RewriteSegments(segs[1..], f)[i - 1];
      assert HeredocFree(segs[0].text);
      if segs[0].Command? && f(segs[0].text).Some? { WrappedIsHeredocFree(segs[0].text, binary); }
    }
  }

  /** The rewritten line as text, and as a whole it is nothing to rewrite. */
  lemma OutputOf(cmd: string, binary: string)
    requires StartsWithText(binary) && BuildRewriteCompound(cmd, binary).Some?
    ensures var segs := Split(cmd); var mapped := RewriteSegments(segs, SegmentRewriter(binary));
            var r := BuildRewriteCompound(cmd, binary).value;
            && WellLexed(segs) && AllHeredocFree(segs) && AnyRewritten(segs, SegmentRewriter(binary))
            && Alternates(mapped) && r == Trim(Suffix(mapped, true))
            && (AlreadyWrapped(r, binary) || !IsRewritable(r))
  {
    hide Split, Run, ContainsHeredoc, Trim, IsRewritable, AlreadyWrapped, WellLexed, Alternates, AnyRewritten,
         Join, Suffix, RewriteSegment, RewriteSegments;
    var f, segs := SegmentRewriter(binary), Split(cmd);
    var mapped := RewriteSegments(segs, f);
    CompoundIsHeredocFree(cmd);
    WellLexedAlternates(segs);
    RewritingAlternates(segs, binary);
    JoinIsSuffix(mapped, "");
    assert "" + Suffix(mapped, true) == Suffix(mapped, true);
    RewrittenSegmentsAreLeftAlone(segs, binary);
    FirstSegmentDecides(mapped, binary);
  }

  lemma LeftAlone(r: string, binary: string)
    requires BuildRewriteCompound(r, binary).None? && (AlreadyWrapped(r, binary) || !IsRewritable(r))
    ensures RewriteCandidate(r, binary) == None
  {
    hide BuildRewriteCompound, AlreadyWrapped, IsRewritable, Contains;
  }

  // A path with the mark of a here-document is kept from everything

  lemma {:induction false} MarksSurviveStripEnd(s: string)
    ensures HeredocFree(StripEnd(s, IsBlank)) ==> HeredocFree(s)
  {
    hide ContainsHeredoc;
    if s != "" && IsBlank(s[|s| - 1]) {
      var init, b := s[..|s| - 1], s[|s| - 1];
      MarksSurviveStripEnd(init);
      ShortIsHeredocFree([b]);
      assert s == init + [b];
      if HeredocFree(init) { HeredocFreeConcat(init, [b]); }
    }
  }

  lemma {:induction false} MarksSurviveStripStart(s: string)
    ensures HeredocFree(StripStart(s, IsBlank)) ==> HeredocFree(s)
  {
    hide ContainsHeredoc;
    if s != "" && IsBlank(s[0]) {
      MarksSurviveStripStart(s[1..]);
      ShortIsHeredocFree([s[0]]);
      assert s == [s[0]] + s[1..];
      if HeredocFree(s[1..]) { HeredocFreeConcat([s[0]], s[1..]); }
    }
  }

  /** A rewritten line holds a wrapped command. */
  lemma {:induction false} WrappedIsThere(segs: seq<Segment>, spaced: bool, binary: string)
    requires AnyRewritten(segs, SegmentRewriter(binary)) && !HeredocFree(binary)
    ensures !HeredocFree(Suffix(RewriteSegments(segs, SegmentRewriter(binary)), spaced))
    decreases |segs|
  {
    hide ContainsHeredoc, Suffix, RewriteSegment;
    var f := SegmentRewriter(binary);
    var mapped := RewriteSegments(segs, f);
    assert mapped[1..] == RewriteSegments(segs[1..], f);
    var tail := Suffix(mapped[1..], segs[0].Operator?);
    match segs[0]
    case Operator(op) =>
      var lead := if spaced then "" else " ";
      OperatorSuffix(mapped, spaced, lead, op);
      WrappedIsThere(segs[1..], true, binary);
      MarksStayInside(lead + op + " ", tail);
    case Command(cmd) =>
      CommandSuffix(mapped, spaced, Out(cmd, binary));
      if f(cmd).Some? {
        OutOfRewritable(cmd, tail, binary);
        assert Out(cmd, binary) + tail == binary + (" " + (Flag(cmd) + tail));
        MarksStayInside(binary, " " + (Flag(cmd) + tail));
      } else {
        WrappedIsThere(segs[1..], false, binary);
        MarksStayInside(Out(cmd, binary), tail);
      }
  }

  lemma MarksStayInside(a: string, b: string)
    ensures HeredocFree(a + b) ==> HeredocFree(a) && HeredocFree(b)
  {
    hide ContainsHeredoc;
    if HeredocFree(a + b) {
      HeredocFreeSlice(a + b, 0, |a|);
      HeredocFreeSlice(a + b, |a|, |a + b|);
      assert (a + b)[0..|a|] == a && (a + b)[|a|..|a + b|] == b;
    }
  }

  lemma MarksSurviveTrim(s: string)
    ensures HeredocFree(Trim(s)) ==> HeredocFree(s)
  {
    hide ContainsHeredoc, StripStart, StripEnd;
    MarksSurviveStripEnd(s);
    MarksSurviveStripStart(StripEnd(s, IsBlank));
  }

  lemma MarkedLineIsOnePiece(line: string, binary: string)
    requires !HeredocFree(line)
    ensures BuildRewriteCompound(Trim(line), binary) == None
  {
    hide ContainsHeredoc, Trim, Pieces, AnyRewritten, RewriteSegments, Join;
    MarksSurviveTrim(line);
    ShortIsHeredocFree("");
    TrimIsTrimmed(line);
    TrimIsTrimmed(Trim(line));
  }

  // Sufficiency

  /** The hook never rewrites its own output when the path settles, or holds the mark of a
      here-document. */
  lemma RewritingIsIdempotent(cmd: string, binary: string)
    requires StartsWithText(binary) && (ContainsHeredoc(binary) || Settles(binary + " ", true))
    ensures IdempotentOn(cmd, binary)
  {
    hide IsRewritable, Rewritten, AlreadyWrapped, WrapSingleCommand, Settles, ContainsHeredoc;
    if BuildRewriteCompound(cmd, binary).Some? {
      RewrittenLineIsLeftAlone(cmd, binary);
    } else {
      WrappedIsWrapped(cmd, binary);
    }
  }

  lemma RewrittenLineIsLeftAlone(cmd: string, binary: string)
    requires StartsWithText(binary) && (ContainsHeredoc(binary) || Settles(binary + " ", true))
    requires BuildRewriteCompound(cmd, binary).Some?
    ensures RewriteCandidate(BuildRewriteCompound(cmd, binary).value, binary) == None
  {
    hide Split, Run, ContainsHeredoc, Trim, IsRewritable, AlreadyWrapped, WellLexed, Alternates, AnyRewritten,
         Suffix, RewriteSegment, RewriteSegments, Settles, BuildRewriteCompound, RewriteCandidate;
    var f, segs := SegmentRewriter(binary), Split(cmd);
    var line := Suffix(RewriteSegments(segs, f), true);
    OutputOf(cmd, binary);
    if ContainsHeredoc(binary) {
      WrappedIsThere(segs, true, binary);
      MarkedLineIsOnePiece(line, binary);
    } else {
      RewritingIsHeredocFree(segs, binary);
      JoinIsHeredocFree(RewriteSegments(segs, f), true);
      RewrittenLineIsQuiet(segs, true, binary);
      QuietLineIsLeftAlone(line, binary);
    }
    LeftAlone(BuildRewriteCompound(cmd, binary).value, binary);
  }

  lemma QuietLineIsLeftAlone(line: string, binary: string)
    requires HeredocFree(line) && Quiet(line, binary)
    ensures BuildRewriteCompound(Trim(line), binary) == None
  {
    hide ContainsHeredoc, Pieces, Trim, AnyRewritten, RewriteSegment;
    LexingOfTrimmed(line);
  }

  // Necessity: lines that expose a path

  /** A command that no hook rewrites and that does not begin like the path. */
  function LeadWord(binary: string): string
    requires binary != ""
  {
    if binary[0] == 'l' then "echo" else "ls"
  }

  lemma LeadWordIsPlain(binary: string)
    requires StartsWithText(binary)
    ensures var word := LeadWord(binary);
            && word != "" && Trimmed(word) && Closed(word) && !Run(Plain, word).Broken? && HeredocFree(word)
            && Run(Plain, word + " ") == Plain && RewriteSegment(word, binary) == None
  {
    var word := LeadWord(binary);
    OrdinaryRun(word);
    OrdinaryRun(word + " ");
    ShortIsHeredocFree(word);
    hide IsRewritable;
    SomeAreNotRewritable();
  }

  /** A line that begins with the lead word is not taken for a wrapped one. */
  lemma LeadWordIsNoPath(rest: string, binary: string)
    requires StartsWithText(binary)
    ensures var line := LeadWord(binary) + " && " + rest;
            LeadWord(binary) <= Trim(line) && !AlreadyWrapped(Trim(line), binary)
  {
    var word := LeadWord(binary);
    var line := word + " && " + rest;
    StripEndKeeps(line, |word| - 1);
    StripEndIsPrefix(line, IsBlank);
    var t := StripEnd(line, IsBlank);
    UnblankStart(t);
    assert t[..|word|] == line[..|word|] == word;
    assert LEAN_PREFIX[0] == 'l' && LEAN_PREFIX[1] == 'e';
    assert (binary + " ")[0] == binary[0];
  }

  /** If wrapping `tail` makes text that is not quiet, then a line that ends in `tail` is rewritten
      twice. */
  lemma Exposed(tail: seq<Segment>, binary: string)
    requires StartsWithText(binary) && HeredocFree(binary)
    requires WellLexed(tail) && AllHeredocFree(tail) && AnyRewritten(tail, SegmentRewriter(binary))
    requires !Quiet(Suffix(RewriteSegments(tail, SegmentRewriter(binary)), true), binary)
    ensures !IdempotentOn(Trim(LeadWord(binary) + " && " + Suffix(tail, true)), binary)
  {
    hide Run, ContainsHeredoc, Trim, IsRewritable, AlreadyWrapped, WellLexed, Alternates, AnyRewritten, Pieces,
         Suffix, RewriteSegment, RewriteSegments, Quiet, Trimmed, Closed, BuildRewriteCompound, Split;
    var f, word := SegmentRewriter(binary), LeadWord(binary);
    var segs, mapped := Chain(word, tail), Chain(word, RewriteSegments(tail, f));
    var input := Trim(Suffix(segs, true));
    LeadWordIsPlain(binary);
    ChainIs(word, tail);
    ChainIs(word, RewriteSegments(tail, f));
    ChainRewrites(word, tail, f);
    ChainIsHeredocFree(word, tail);
    LineLexesBack(segs);
    LeadWordIsNoPath(Suffix(tail, true), binary);
    LeadWordIsNoPath(Suffix(RewriteSegments(tail, f), true), binary);
    RewritesTo(input, segs, binary);
    RewritingIsHeredocFree(segs, binary);
    WellLexedAlternates(segs);
    RewritingAlternates(segs, binary);
    JoinIsHeredocFree(mapped, true);
    LoudLineIsRewritten(word, Suffix(RewriteSegments(tail, f), true), binary);
  }

  lemma LineLexesBack(segs: seq<Segment>)
    requires WellLexed(segs) && AllHeredocFree(segs)
    ensures HeredocFree(Suffix(segs, true)) && Split(Trim(Suffix(segs, true))) == segs
  {
    hide Run, ContainsHeredoc, Trim, WellLexed, Alternates, Pieces, Suffix, Split;
    WellLexedAlternates(segs);
    JoinedSegmentsLexBack(segs, true);
    JoinIsHeredocFree(segs, true);
    LexingOfTrimmed(Suffix(segs, true));
  }

  lemma ChainIsHeredocFree(cmd: string, segs: seq<Segment>)
    requires HeredocFree(cmd) && AllHeredocFree(segs)
    ensures AllHeredocFree(Chain(cmd, segs))
  {
    hide ContainsHeredoc;
    ShortIsHeredocFree("&&");
  }

  lemma NoMarks(s: string)
    requires HeredocFree(s)
    ensures !Contains(s, "<<")
  {
    hide Find;
  }

  lemma RewritesTo(input: string, segs: seq<Segment>, binary: string)
    requires StartsWithText(binary) && Split(input) == segs && |segs| > 1 && AnyRewritten(segs, SegmentRewriter(binary))
    requires !AlreadyWrapped(input, binary) && AllHeredocFree(segs)
    requires exists line :: HeredocFree(line) && input == Trim(line)
    ensures RewriteCandidate(input, binary)
         == Some(Trim(Suffix(RewriteSegments(segs, SegmentRewriter(binary)), true)))
  {
    hide Run, ContainsHeredoc, Trim, IsRewritable, AlreadyWrapped, Alternates, AnyRewritten, Suffix, Join,
         RewriteSegment, RewriteSegments, Split, Contains, WellLexed;
    var line :| HeredocFree(line) && input == Trim(line);
    HeredocFreeTrim(line);
    NoMarks(input);
    OutputOf(input, binary);
  }

  lemma LoudLineIsRewritten(word: string, rest: string, binary: string)
    requires StartsWithText(binary) && word == LeadWord(binary)
    requires HeredocFree(word + " && " + rest) && !Quiet(rest, binary)
    ensures RewriteCandidate(Trim(word + " && " + rest), binary).Some?
  {
    hide Run, ContainsHeredoc, Trim, IsRewritable, AlreadyWrapped, AnyRewritten, RewriteSegments, Join, Pieces, Flush,
         RewriteSegment, Contains, Quiet, QuietCommand, Trimmed, Closed, LeadWord, Split;
    var line := word + " && " + rest;
    LeadWordIsPlain(binary);
    LeadWordIsNoPath(rest, binary);
    HeredocFreeTrim(line);
    NoMarks(Trim(line));
    LexingOfTrimmed(line);
    assert line == (word + " ") + "&&" + (" " + rest);
    AtOperator(word + " ", "&&", rest, binary);
    PiecesAtOperator(word + " ", "&&", " " + rest);
    FlushLead(word, " ");
    QuietMeans(line, binary);
    LoudLineQualifies(line, binary);
  }

  lemma LoudLineQualifies(line: string, binary: string)
    requires |Split(Trim(line))| > 1 && AnyRewritten(Split(Trim(line)), SegmentRewriter(binary))
    requires !AlreadyWrapped(Trim(line), binary) && !Contains(Trim(line), "<<")
    ensures RewriteCandidate(Trim(line), binary).Some?
  {
    hide Split, AnyRewritten, Trim, AlreadyWrapped, Contains, RewriteSegments, Join;
  }

  lemma LeanIsNotRewritable(cmd: string)
    ensures StartsWith(cmd, LEAN_PREFIX) ==> !IsRewritable(cmd)
  {
    hide IsRewritable;
    if StartsWith(cmd, LEAN_PREFIX) {
      assert cmd == LEAN_PREFIX + cmd[|LEAN_PREFIX|..];
      SomeAreNotRewritable();
      RewritabilityIsSettledByTheFirstBlank(LEAN_PREFIX, cmd[|LEAN_PREFIX|..]);
    }
  }

  lemma RewritableUnlessWrapped(cmd: string, binary: string)
    requires IsRewritable(cmd) && !(binary + " " <= cmd)
    ensures RewriteSegment(cmd, binary).Some?
  {
    hide IsRewritable;
    LeanIsNotRewritable(cmd);
  }

  /** A rewritable command cut out of the path is rewritten. */
  lemma CutCommandIsLoud(cmd: string, binary: string)
    requires IsRewritable(Trim(cmd)) && |cmd| <= |binary|
    ensures !QuietCommand(cmd, binary)
  {
    hide IsRewritable, RewriteSegment, Trim;
    StripMeets(cmd, IsBlank);
    assert |Trim(cmd)| <= |cmd| by { TrimIsShort(cmd); }
    NothingRewritable("-");
    RewritableUnlessWrapped(Trim(cmd), binary);
  }

  lemma TrimIsShort(s: string)
    ensures |Trim(s)| <= |s|
  {
    StripMeets(s, IsBlank);
  }

  /** So is one that begins after the last cut. */
  lemma LastCommandIsLoud(s: string, binary: string)
    requires s != "" && s[|s| - 1] == ' ' && Run(Plain, s) == Plain && IsRewritable(StripStart(s, IsBlank))
    requires Run(Plain, binary + " ").Broken?
    ensures !Quiet(s + Flag("git"), binary)
  {
    hide Run, IsRewritable, StripStart, Quiet, QuietCommand, EscapeQuotes, AlreadyWrapped, Trim;
    var lead, x := StripStart(s, IsBlank), Flag("git");
    FlagCloses(s, "git");
    WithoutOperator(s + x, binary);
    PathCommand(s, x, binary);
    UnbrokenTrim(s + x);
    if binary + " " <= lead + x { PrefixOfUnbroken(binary + " ", lead + x); }
    if lead == "" { NothingRewritable("-"); }
    StripStartIsSuffix(s, IsBlank);
    RewritabilityIsSettledByTheFirstBlank(lead, x);
    LeanIsNotRewritable(lead + x);
    NotWrapped(lead + x, binary);
  }

  lemma PrefixOfUnbroken(a: string, s: string)
    requires a <= s
    ensures Run(Plain, a).Broken? ==> Run(Plain, s).Broken?
  {
    hide Run;
    assert s == a + s[|a|..];
    if !Run(Plain, s).Broken? { UnbrokenPrefix(a, s[|a|..]); }
  }

  lemma NotWrapped(cmd: string, binary: string)
    requires !StartsWith(cmd, LEAN_PREFIX) && !(binary + " " <= cmd)
    ensures !AlreadyWrapped(cmd, binary)
  {
  }

  // A path that ends inside a quote

  /** What closes a quote that a single quote does not close. */
  function Closers(m: Mode): string {
    match m
    case Double => "\""
    case Backtick => "`"
    case Subshell(depth) => if depth == 0 then ")" else seq(depth, _ => ')')
    case _ => ""
  }

  lemma {:induction false} ClosersCloseSubshell(n: nat)
    requires n > 0
    ensures Run(Subshell(n), seq(n, _ => ')')) == Plain
  {
    var s := seq(n, _ => ')');
    assert s[1..] == seq((n - 1) as nat, _ => ')');
    if n > 1 { ClosersCloseSubshell(n - 1); }
  }

  lemma ClosersClose(m: Mode)
    requires InsideQuote(m) && !m.Single?
    ensures Run(m, Closers(m)) == Plain
  {
    EmptyRunStays(Plain);
    match m
    case Double => assert "\""[1..] == "";
    case Backtick => assert "`"[1..] == "";
    case Subshell(depth) => if depth == 0 { assert ")"[1..] == ""; } else { ClosersCloseSubshell(depth); }
  }

  lemma ClosersAre(m: Mode)
    ensures forall i :: 0 <= i < |Closers(m)| ==> Closers(m)[i] in {'"', '`', ')'}
  {
  }

  /** A command that closes the quote and then holds what looks like another command. */
  function Revealing(m: Mode): string {
    "echo '" + Closers(m) + " && git y'"
  }

  lemma {:induction false} SingleStays(s: string)
    requires '\'' !in s
    ensures Run(Single, s) == Single
  {
    if s != "" { SingleStays(s[1..]); }
  }

  lemma RevealingIsOneCommand(m: Mode, binary: string)
    ensures var cmd := Revealing(m);
            Trimmed(cmd) && !Run(Plain, cmd).Broken? && HeredocFree(cmd) && RewriteSegment(cmd, binary).None?
  {
    hide Run, ContainsHeredoc, RewriteSegment, Closers, Revealing;
    var quoted := Closers(m) + " && git y";
    RevealingIs(m);
    EchoIsOpen(quoted);
    EchoIsLeftAlone("'" + quoted + "'", binary);
  }

  lemma RevealingIs(m: Mode)
    ensures var quoted := Closers(m) + " && git y";
            && Revealing(m) == "echo " + "'" + quoted + "'" && Revealing(m) == "echo " + ("'" + quoted + "'")
            && forall i :: 0 <= i < |quoted| ==> quoted[i] !in {'\'', '<', '$'}
  {
    hide Closers;
    var closers := Closers(m);
    ClosersAre(m);
    HarmlessQuoted(closers);
    EchoPieces(closers);
  }

  lemma HarmlessQuoted(closers: string)
    requires forall i :: 0 <= i < |closers| ==> closers[i] in {'"', '`', ')'}
    ensures forall i :: 0 <= i < |closers + " && git y"| ==> (closers + " && git y")[i] !in {'\'', '<', '$'}
  {
  }

  lemma EchoPieces(closers: string)
    ensures "echo '" + closers + " && git y'" == "echo " + "'" + (closers + " && git y") + "'"
    ensures "echo '" + closers + " && git y'" == "echo " + ("'" + (closers + " && git y") + "'")
  {
  }

  lemma EchoIsOpen(quoted: string)
    requires forall i :: 0 <= i < |quoted| ==> quoted[i] !in {'\'', '<', '$'}
    ensures var cmd := "echo " + "'" + quoted + "'";
            Trimmed(cmd) && !Run(Plain, cmd).Broken? && HeredocFree(cmd)
  {
    hide Run, ContainsHeredoc;
    var cmd := "echo " + "'" + quoted + "'";
    OrdinaryRun("echo ");
    RunPush(Plain, "echo ", '\'');
    SingleStays(quoted);
    RunAppend(Plain, "echo " + "'", quoted);
    RunPush(Plain, "echo " + "'" + quoted, '\'');
    ShortIsHeredocFree(cmd);
  }

  lemma EchoIsLeftAlone(more: string, binary: string)
    ensures RewriteSegment("echo " + more, binary).None?
  {
    hide IsRewritable;
    SomeAreNotRewritable();
    RewritabilityIsSettledByTheFirstBlank("echo ", more);
  }

  /** The last words of that command, once the quote is closed. */
  lemma HiddenCommandIsLoud(binary: string)
    requires binary != "git"
    ensures !Quiet("git y'", binary)
  {
    hide Run, IsRewritable, Quiet, QuietCommand, RewriteSegment;
    HiddenCommandIsOpen();
    WithoutOperator("git y'", binary);
    TrimIsTrimmed("git y'");
    HiddenCommandIsRewritable();
    OnlyGitLeads(binary);
    RewritableUnlessWrapped("git y'", binary);
    LoudCommand("git y'", binary);
  }

  lemma HiddenCommandIsOpen()
    ensures !Run(Plain, "git y'").Broken?
  {
    hide Run;
    OrdinaryRun("git y");
    RunPush(Plain, "git y", '\'');
    assert "git y" + ['\''] == "git y'";
  }

  lemma HiddenCommandIsRewritable()
    ensures IsRewritable("git y'")
  {
    assert IsRewritable("git ") by { assert Matches("git ", HOOK_COMMANDS[0]); }
    hide IsRewritable;
    RewritabilityIsSettledByTheFirstBlank("git ", "y'");
    assert "git " + "y'" == "git y'";
  }

  lemma OnlyGitLeads(binary: string)
    ensures binary + " " <= "git y'" ==> binary == "git"
  {
    if binary + " " <= "git y'" {
      assert "git y'"[|binary|] == ' ';
      assert binary == "git y'"[..3];
    }
  }

  lemma LoudCommand(cmd: string, binary: string)
    requires Trim(cmd) == cmd && cmd != "" && RewriteSegment(cmd, binary).Some?
    ensures !QuietCommand(cmd, binary)
  {
  }

  /** Text that leaves the quote open, a single quote, what closes the quote, and a blank. */
  lemma QuoteIsClosed(s: string, m: Mode, between: string)
    requires Run(Plain, s) == m && InsideQuote(m) && Run(m, between) == m
    ensures Run(Plain, s + between + "'" + Closers(m) + " ") == Plain
  {
    hide Run, Closers;
    RunAppend(Plain, s, between);
    RunPush(Plain, s + between, '\'');
    RunAppend(Plain, s + between + "'", Closers(m));
    if m.Single? {
      EmptyRunStays(Plain);
      NothingClosesSingle();
    } else {
      ClosersClose(m);
    }
    RunPush(Plain, s + between + "'" + Closers(m), ' ');
  }

  lemma NothingClosesSingle()
    ensures Closers(Single) == ""
  {
  }

  lemma OpenQuoteIsLoud(s: string, m: Mode, binary: string)
    requires Run(Plain, s) == m && InsideQuote(m) && binary != "git"
    ensures !Quiet(s + (Flag("git") + After("&&", Revealing(m))), binary)
  {
    hide Run, Quiet, QuietCommand, Flag, After, Revealing, Closers;
    var between := "-c " + "'" + "git" + "'" + " && echo ";
    var cur := s + between + "'" + Closers(m) + " ";
    QuotedWordStaysInside(m, "-c ", "git", " && echo ");
    QuoteIsClosed(s, m, between);
    AtOperator(cur, "&&", "git y'", binary);
    HiddenCommandIsLoud(binary);
    RevealedLine(s, m);
  }

  lemma RevealedLine(s: string, m: Mode)
    ensures s + ("-c " + "'" + "git" + "'" + " && echo ") + "'" + Closers(m) + " " + "&&" + (" " + "git y'")
         == s + (Flag("git") + After("&&", Revealing(m)))
  {
    hide Closers;
    NothingToEscape("git");
    var closers := Closers(m);
    FlagAndAfter(closers);
    hide *;
    TextPieces(s, closers);
  }

  lemma FlagAndAfter(closers: string)
    ensures EscapeQuotes("git") == "git" ==> Flag("git") == "-c 'git'"
    ensures After("&&", "echo '" + closers + " && git y'") == " && echo '" + closers + " && git y'"
  {
    hide EscapeQuotes;
  }

  lemma TextPieces(s: string, closers: string)
    ensures s + ("-c " + "'" + "git" + "'" + " && echo ") + "'" + closers + " " + "&&" + (" " + "git y'")
         == s + ("-c 'git'" + (" && echo '" + closers + " && git y'"))
  {
  }

  // The theorem

  /** A path that does not settle shows in one of two lines. */
  lemma {:induction false} UnsettledPathIsLoud(s: string, first: bool, binary: string) returns (m: Mode)
    requires s != "" && s[|s| - 1] == ' ' && |s| <= |binary| + 1 && !Settles(s, first) && binary != "git"
    requires if first then s == binary + " " else Run(Plain, binary + " ").Broken?
    ensures !Quiet(s + Flag("git"), binary) || !Quiet(s + (Flag("git") + After("&&", Revealing(m))), binary)
    decreases |s|
  {
    hide Run, Quiet, QuietCommand, Flag, FirstOperator, IsRewritable, After, Revealing, StripStart, Trim;
    m := Double;
    match FirstOperator(s)
    case Some(at) =>
      AtFirstCut(s, Flag("git"), binary);
      if IsRewritable(Trim(s[..at.0])) {
        CutCommandIsLoud(s[..at.0], binary);
      } else {
        if first { CutPathIsBroken(s); }
        var rest := s[at.0 + |at.1|..];
        m := UnsettledPathIsLoud(rest, false, binary);
        AtFirstCut(s, Flag("git") + After("&&", Revealing(m)), binary);
      }
    case None =>
      AmpersandNeverComesFirst(s);
      assert s == s[..|s| - 1] + " ";
      AfterBlank(s[..|s| - 1]);
      if Run(Plain, s) == Plain {
        LastCommandIsLoud(s, binary);
      } else {
        m := Run(Plain, s);
        OpenQuoteIsLoud(s, m, binary);
      }
  }

  lemma CutPathIsBroken(s: string)
    requires FirstOperator(s).Some?
    ensures Run(Plain, s).Broken?
  {
    BrokenRun(s);
  }

  lemma GitItselfSettles()
    ensures Settles("git" + " ", true)
  {
    hide Run;
    OrdinaryRun("git ");
    UnbrokenIsOnePiece("git ");
    assert "git" + " " == "git ";
  }

  /** The two lines, as segments after the lead word. */
  lemma ExposingLines(binary: string, m: Mode)
    requires StartsWithText(binary) && HeredocFree(binary)
    ensures !Quiet(binary + " " + Flag("git"), binary) ==>
              !IdempotentOn(Trim(LeadWord(binary) + " && " + "git"), binary)
    ensures !Quiet(binary + " " + (Flag("git") + After("&&", Revealing(m))), binary) ==>
              !IdempotentOn(Trim(LeadWord(binary) + " && " + ("git && " + Revealing(m))), binary)
  {
    hide Run, ContainsHeredoc, Quiet, Revealing, WrapSingleCommand, RewriteSegment, Trimmed, Closed, Trim, LeadWord,
         IdempotentOn, AnyRewritten, WellLexed, Suffix, RewriteSegments, Flag;
    var f, last := SegmentRewriter(binary), Revealing(m);
    var one, two := [Command("git")], Chain("git", [Command(last)]);
    GitIsPlain();
    GitIsRewritten(binary);
    var w := WrapSingleCommand("git", binary);
    RevealingIsOneCommand(m, binary);
    OneCommandIs("git");
    OneCommandIs(w);
    OneCommandIs(last);
    OneRewrites("git", f);
    OneRewrites(last, f);
    ChainIs("git", [Command(last)]);
    ChainIs(w, [Command(last)]);
    ChainRewrites("git", [Command(last)], f);
    ChainIsHeredocFree("git", [Command(last)]);
    OutOfGit(binary, last);
    if !Quiet(binary + " " + Flag("git"), binary) {
      Exposed(one, binary);
    }
    if !Quiet(binary + " " + (Flag("git") + After("&&", last)), binary) {
      Exposed(two, binary);
    }
  }

  lemma OutOfGit(binary: string, last: string)
    ensures WrapSingleCommand("git", binary) == binary + " " + Flag("git")
    ensures WrapSingleCommand("git", binary) + " && " + last == binary + " " + (Flag("git") + After("&&", last))
    ensures "git" + " && " + last == "git && " + last
  {
    hide EscapeQuotes;
  }

  /** The hook never rewrites its own output if and only if the path settles or holds the mark of a
      here-document. */
  lemma IdempotentExactlyWhen(binary: string)
    requires StartsWithText(binary)
    ensures (forall cmd :: IdempotentOn(cmd, binary)) <==> ContainsHeredoc(binary) || Settles(binary + " ", true)
  {
    hide IdempotentOn, Settles, ContainsHeredoc, Quiet, Revealing, Flag, Trim;
    if ContainsHeredoc(binary) || Settles(binary + " ", true) {
      forall cmd
        ensures IdempotentOn(cmd, binary)
      {
        RewritingIsIdempotent(cmd, binary);
      }
    } else {
      GitItselfSettles();
      var m := UnsettledPathIsLoud(binary + " ", true, binary);
      ExposingLines(binary, m);
    }
  }

  /** The plain paths settle. */
  lemma PlainPathsSettle(binary: string)
    requires LexerPlain(binary)
    ensures StartsWithText(binary) && Settles(binary + " ", true) && !ContainsHeredoc(binary)
  {
    hide Run, ContainsHeredoc;
    UnbrokenIsOnePiece(binary + " ");
  }

  lemma SemicolonIsLoud(s: string, rest: string, binary: string)
    requires s == "a;" + rest && rest == "git " && Run(Plain, binary + " ").Broken?
    ensures !Quiet(s + Flag("git"), binary)
  {
    hide Run, Quiet, Flag, QuietCommand, IsRewritable, FirstOperator;
    FirstCutAtSemicolon(s, rest);
    AtFirstCut(s, Flag("git"), binary);
    OrdinaryRun(rest);
    GitStartsWithText();
    LastCommandIsLoud(rest, binary);
  }

  lemma FirstCutAtSemicolon(s: string, rest: string)
    requires s == "a;" + rest
    ensures FirstOperator(s) == Some((1, ";")) && s[1 + |";"|..] == rest
  {
    hide Run, FirstOperator;
    OrdinaryRun("a");
    assert s[..1] == "a" && s[1..2] == ";";
    OperatorAt(s, 1, ";");
  }

  /** A semicolon in the path cuts a second command out of it, and that one is rewritten again. */
  lemma ASemicolonInThePath()
    ensures !IdempotentOn("ls && git", "a;git")
  {
    hide Run, Quiet, IdempotentOn, ContainsHeredoc, Flag, Trim, FirstOperator;
    assert "a;" + "git " == "a;git" + " ";
    FirstCutAtSemicolon("a;git" + " ", "git ");
    CutPathIsBroken("a;git" + " ");
    SemicolonIsLoud("a;git" + " ", "git ", "a;git");
    ShortIsHeredocFree("a;git");
    ExposingLines("a;git", Double);
    assert "ls" + " && " + "git" == "ls && git";
    TrimIsTrimmed("ls && git");
  }

  lemma GitStartsWithText()
    ensures StripStart("git ", IsBlank) == "git " && IsRewritable("git ")
  {
    assert Matches("git ", HOOK_COMMANDS[0]);
  }

  /** An apostrophe in the path leaves a quote open, and the hook rewrites what another command
      quoted. */
  lemma AnApostropheRewritesTwice()
    ensures !IdempotentOn("ls && git && echo ' && git y'", "/home/o'brien/nebu-ctx")
  {
    hide Run, Quiet, IdempotentOn, ContainsHeredoc, Flag, After, Revealing, Trim, CommutesOn;
    var binary := "/home/o'brien/nebu-ctx";
    OneApostropheBreaksCommutation("/home/o", "brien/nebu-ctx");
    assert "/home/o" + "'" + "brien/nebu-ctx" + " " == binary + " ";
    OpenQuoteIsLoud(binary + " ", Single, binary);
    ShortIsHeredocFree(binary);
    ExposingLines(binary, Single);
    RevealingSingle();
    TrimIsTrimmed("ls && git && echo ' && git y'");
  }

  lemma RevealingSingle()
    ensures "ls" + " && " + ("git && " + Revealing(Single)) == "ls && git && echo ' && git y'"
  {
  }
}
