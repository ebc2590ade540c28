/** Laws of the lexer: it loses nothing but white space, its commands are its own fixed points,
    and joining its segments back with blanks lexes to the same segments. */
module LexerLaws {
  import opened Wrappers
  import opened Sequences
  import opened Text
  import opened CompoundLexer

  // Lossless lexing

  /** The segment texts are consecutive slices of `s`, with only white space between them. */
  predicate Covers(segs: seq<Segment>, s: string)
    decreases |segs|
  {
    var t := StripStart(s, IsBlank);
    if segs == [] then t == []
    else segs[0].text != [] && segs[0].text <= t && Covers(segs[1..], t[|segs[0].text|..])
  }

  lemma {:induction false} StripStartAppend(a: string, b: string)
    ensures StripStart(a + b, IsBlank)
         == if StripStart(a, IsBlank) == [] then StripStart(b, IsBlank) else StripStart(a, IsBlank) + b
  {
    if a == [] {
      assert a + b == b;
    } else {
      assert (a + b)[1..] == a[1..] + b;
      if IsBlank(a[0]) { StripStartAppend(a[1..], b); }
    }
  }

  /** Trimming at the end first or last comes to the same. */
  lemma {:induction false} TrimStripsStartFirst(s: string)
    ensures Trim(s) == StripEnd(StripStart(s, IsBlank), IsBlank)
    decreases |s|
  {
    if s != [] && IsBlank(s[0]) {
      TrimStripsStartFirst(s[1..]);
      assert s == [s[0]] + s[1..];
      TrimDropsOuterBlank(s[1..], s[0]);
    } else if s != [] {
      StripEndKeeps(s, 0);
      assert StripEnd(s, IsBlank)[0] == s[0];
    }
  }

  lemma StripEndKeeps(s: string, i: nat)
    requires i < |s| && !IsBlank(s[i])
    ensures |StripEnd(s, IsBlank)| > i && StripEnd(s, IsBlank)[i] == s[i]
  {
    StripEndIsPrefix(s, IsBlank);
  }

  /** After the trimmed text only white space is left. */
  lemma TrimThenSpace(s: string)
    ensures Trim(s) == [] <==> StripStart(s, IsBlank) == []
    ensures Trim(s) <= StripStart(s, IsBlank)
    ensures forall i :: |Trim(s)| <= i < |StripStart(s, IsBlank)| ==> IsBlank(StripStart(s, IsBlank)[i])
    ensures StripStart(StripStart(s, IsBlank)[|Trim(s)|..], IsBlank) == []
  {
    hide StripStart, StripEnd, Trim;
    TrimStripsStartFirst(s);
    var t := StripStart(s, IsBlank);
    StripEndIsPrefix(t, IsBlank);
    BlanksStripToNothing(t[|Trim(s)|..]);
  }

  lemma {:induction false} BlanksStripToNothing(w: string)
    requires forall i :: 0 <= i < |w| ==> IsBlank(w[i])
    ensures StripStart(w, IsBlank) == []
  {
    if w != [] { BlanksStripToNothing(w[1..]); }
  }

  /** A blank-free remainder is covered after the pending command. */
  lemma CoversFlush(cmd: string, rest: string, segs: seq<Segment>)
    requires Covers(segs, rest) && (rest != [] ==> !IsBlank(rest[0]))
    ensures Covers(Flush(cmd) + segs, cmd + rest)
  {
    hide StripStart, Trim;
    StripStartAppend(cmd, rest);
    TrimThenSpace(cmd);
    UnblankStart(rest);
    var t := StripStart(cmd, IsBlank);
    if t == [] {
      assert Flush(cmd) + segs == segs;
      CoversSkipsBlanks(segs, cmd + rest, rest);
    } else {
      assert (Flush(cmd) + segs)[1..] == segs;
      assert (t + rest)[|Trim(cmd)|..] == t[|Trim(cmd)|..] + rest;
      StripStartAppend(t[|Trim(cmd)|..], rest);
      CoversSkipsBlanks(segs, t[|Trim(cmd)|..] + rest, rest);
    }
  }

  lemma UnblankStart(s: string)
    requires s != [] ==> !IsBlank(s[0])
    ensures StripStart(s, IsBlank) == s
  {
  }

  lemma CoversSkipsBlanks(segs: seq<Segment>, a: string, b: string)
    requires StripStart(a, IsBlank) == StripStart(b, IsBlank)
    ensures Covers(segs, a) == Covers(segs, b)
  {
  }

  lemma {:induction false} PiecesCover(s: string)
    ensures Covers(Pieces(s), s)
    decreases |s|
  {
    hide StripStart, Trim, FirstOperator, Flush, Covers, Pieces;
    PiecesUnfold(s);
    match FirstOperator(s)
    case None => FlushCovers(s);
    case Some((start, op)) =>
      BeforeOperatorIsOpen(s);
      var rest := s[start + |op|..];
      if op == "|" { FlushCovers(rest); } else { PiecesCover(rest); }
      var tail := if op == "|" then Flush(rest) else Pieces(rest);
      OperatorCovers(s, start, op, tail);
      assert Flush(s[..start]) + ([Operator(op)] + tail) == Pieces(s);
  }

  lemma FlushCovers(s: string)
    ensures Covers(Flush(s), s)
  {
    hide StripStart, Trim, Flush, Covers;
    CoversNothing();
    CoversFlush(s, [], []);
    assert s + [] == s && Flush(s) + [] == Flush(s);
  }

  lemma OperatorCovers(s: string, start: nat, op: string, tail: seq<Segment>)
    requires OccursAt(s, op, start) && IsOperator(op) && Covers(tail, s[start + |op|..])
    ensures Covers(Flush(s[..start]) + ([Operator(op)] + tail), s)
  {
    hide StripStart, Trim, Flush, Covers;
    assert s[start..] == op + s[start + |op|..];
    CoversOperator(op, tail, s[start + |op|..]);
    CoversFlush(s[..start], s[start..], [Operator(op)] + tail);
    assert s == s[..start] + s[start..];
  }

  lemma CoversNothing()
    ensures Covers([], [])
  {
  }

  lemma CoversOperator(op: string, segs: seq<Segment>, rest: string)
    requires IsOperator(op) && Covers(segs, rest)
    ensures Covers([Operator(op)] + segs, op + rest)
  {
    hide StripStart;
    UnblankStart(op + rest);
    assert ([Operator(op)] + segs)[1..] == segs && (op + rest)[|op|..] == rest;
  }

  lemma PiecesUnfold(s: string)
    ensures match FirstOperator(s)
            case None => Pieces(s) == Flush(s)
            case Some(at) =>
              var rest := s[at.0 + |at.1|..];
              && |rest| < |s|
              && Pieces(s) == Flush(s[..at.0]) + [Operator(at.1)] + (if at.1 == "|" then Flush(rest) else Pieces(rest))
  {
    hide FirstOperator, Flush;
  }

  /** Lexing loses nothing: the segments are consecutive slices of the trimmed input, separated
      by nothing but white space. */
  lemma LexingLosesNothing(input: string)
    ensures Covers(Split(input), Trim(input))
  {
    hide Pieces, ContainsHeredoc, StripStart, StripEnd;
    var s := Trim(input);
    TrimIsTrimmed(input);
    PiecesCover(s);
    CoversNothing();
    UnblankStart(s);
    assert [Command(s)][1..] == [] && s[|s|..] == [];
  }

  // White space around a piece

  lemma FlushTrims(s: string, b: char)
    requires IsBlank(b)
    ensures Flush(s + [b]) == Flush(s) && Flush([b] + s) == Flush(s)
  {
    TrimDropsOuterBlank(s, b);
  }

  lemma BlankBreaksNothing(m: Mode, b: char)
    requires IsBlank(b) && !m.Broken?
    ensures !Next(m, b).Broken? && (Open(m) ==> Next(m, b) == Plain)
  {
  }

  lemma OperatorAfterBlank(s: string, b: char)
    requires IsBlank(b)
    ensures match FirstOperator(s)
            case None => FirstOperator([b] + s) == None
            case Some(at) => FirstOperator([b] + s) == Some((at.0 + 1, at.1))
  {
    var t := [b] + s;
    assert t[1..] == s;
    BlankBreaksNothing(Plain, b);
    assert Break(Plain, t) == Shifted(Break(Plain, s), 1);
    BreakMeans(Plain, s);
    hide Break, Run;
    assert s[..0] == [];
    EmptyRun();
  }

  lemma EmptyRun()
    ensures Run(Plain, []) == Plain
  {
  }

  lemma LeadingBlankPiece(s: string, b: char)
    requires IsBlank(b)
    ensures Pieces([b] + s) == Pieces(s)
  {
    hide Pieces, Flush, FirstOperator;
    var t := [b] + s;
    OperatorAfterBlank(s, b);
    PiecesUnfold(s);
    PiecesUnfold(t);
    FlushTrims(s, b);
    match FirstOperator(s)
    case None =>
    case Some(at) =>
      assert t[..at.0 + 1] == [b] + s[..at.0];
      assert t[at.0 + 1 + |at.1|..] == s[at.0 + |at.1|..];
      FlushTrims(s[..at.0], b);
  }

  lemma {:induction false} BreakBeforeBlank(m: Mode, s: string, b: char)
    requires IsBlank(b) && !m.Broken?
    ensures Break(m, s + [b]) == Break(m, s)
    decreases |s|
  {
    if s == [] {
      BlankBreaksNothing(m, b);
      assert ([] + [b])[1..] == [];
    } else {
      assert (s + [b])[1..] == s[1..] + [b];
      if !Next(m, s[0]).Broken? { BreakBeforeBlank(Next(m, s[0]), s[1..], b); }
    }
  }

  lemma OperatorBeforeBlank(s: string, b: char)
    requires IsBlank(b)
    ensures FirstOperator(s + [b]) == FirstOperator(s)
  {
    hide Break;
    BreakBeforeBlank(Plain, s, b);
  }

  lemma {:induction false} TrailingBlankPiece(s: string, b: char)
    requires IsBlank(b)
    ensures Pieces(s + [b]) == Pieces(s)
    decreases |s|
  {
    hide Pieces, Flush, FirstOperator;
    var t := s + [b];
    OperatorBeforeBlank(s, b);
    PiecesUnfold(s);
    PiecesUnfold(t);
    FlushTrims(s, b);
    match FirstOperator(s)
    case None =>
    case Some(at) =>
      var rest := s[at.0 + |at.1|..];
      assert t[..at.0] == s[..at.0] && t[at.0 + |at.1|..] == rest + [b];
      FlushTrims(rest, b);
      TrailingBlankPiece(rest, b);
  }

  /** Trimming the input does not change its pieces. */
  lemma PiecesOfTrim(s: string)
    ensures Pieces(Trim(s)) == Pieces(s)
  {
    PiecesOfStripEnd(s);
    PiecesOfStripStart(StripEnd(s, IsBlank));
  }

  lemma {:induction false} PiecesOfStripEnd(s: string)
    ensures Pieces(StripEnd(s, IsBlank)) == Pieces(s)
  {
    hide Pieces;
    if s != [] && IsBlank(s[|s| - 1]) {
      PiecesOfStripEnd(s[..|s| - 1]);
      TrailingBlankPiece(s[..|s| - 1], s[|s| - 1]);
      assert s == s[..|s| - 1] + [s[|s| - 1]];
    }
  }

  lemma {:induction false} PiecesOfStripStart(s: string)
    ensures Pieces(StripStart(s, IsBlank)) == Pieces(s)
  {
    hide Pieces;
    if s != [] && IsBlank(s[0]) {
      PiecesOfStripStart(s[1..]);
      LeadingBlankPiece(s[1..], s[0]);
      assert s == [s[0]] + s[1..];
    }
  }

  // Well-lexed segments

  predicate IsOperator(op: string) {
    op in {"&&", "||", ";", "|"}
  }

  /** After the command and a blank the lexer is outside every quote. */
  predicate Closed(cmd: string) {
    Run(Plain, cmd + " ") == Plain
  }

  /** What the lexer's output looks like: trimmed commands without operators, closed when an
      operator follows, and at most one command after the first pipe. */
  predicate WellLexed(segs: seq<Segment>)
    decreases |segs|
  {
    segs == [] ||
    match segs[0]
    case Operator(op) =>
      && IsOperator(op)
      && (if op == "|"
          then segs[1..] == [] || (|segs| == 2 && segs[1].Command? && Trimmed(segs[1].text))
          else WellLexed(segs[1..]))
    case Command(cmd) =>
      && Trimmed(cmd) && !Run(Plain, cmd).Broken?
      && (segs[1..] == [] || (segs[1].Operator? && Closed(cmd) && WellLexed(segs[1..])))
  }

  lemma {:induction false} RunOfStripStart(s: string)
    ensures Run(Plain, StripStart(s, IsBlank)) == Run(Plain, s)
  {
    if s != [] && IsBlank(s[0]) {
      RunOfStripStart(s[1..]);
      BlankBreaksNothing(Plain, s[0]);
    }
  }

  lemma {:induction false} RunOfStripEnd(s: string)
    requires !Run(Plain, s).Broken?
    ensures !Run(Plain, StripEnd(s, IsBlank)).Broken?
    ensures Open(Run(Plain, s)) ==> Closed(StripEnd(s, IsBlank))
    decreases |s|
  {
    if s != [] && IsBlank(s[|s| - 1]) {
      var init, b := s[..|s| - 1], s[|s| - 1];
      assert s == init + [b];
      UnbrokenPrefix(init, [b]);
      RunPush(Plain, init, b);
      RunOfStripEnd(init);
      if Run(Plain, init).Escape? {
        EscapeEndsUnblank(init);
        RunPush(Plain, init, ' ');
      }
    } else {
      RunPush(Plain, s, ' ');
    }
  }

  /** A text that ends in a pending escape ends in a backslash, which no trimming removes. */
  lemma EscapeEndsUnblank(s: string)
    requires Run(Plain, s).Escape?
    ensures StripEnd(s, IsBlank) == s
  {
    hide Run;
    EmptyRun();
    if s != [] {
      var init, c := s[..|s| - 1], s[|s| - 1];
      assert s == init + [c];
      RunPush(Plain, init, c);
    }
  }

  lemma UnbrokenTrim(s: string)
    requires !Run(Plain, s).Broken?
    ensures !Run(Plain, Trim(s)).Broken?
    ensures Open(Run(Plain, s)) ==> Closed(Trim(s))
  {
    hide Run;
    var t := StripEnd(s, IsBlank);
    RunOfStripEnd(s);
    RunOfStripStart(t);
    RunPush(Plain, t, ' ');
    RunPush(Plain, Trim(s), ' ');
  }

  lemma FlushedCommand(cmd: string, segs: seq<Segment>)
    requires Open(Run(Plain, cmd)) && segs != [] && segs[0].Operator? && WellLexed(segs)
    ensures WellLexed(Flush(cmd) + segs)
  {
    hide Run, Trim;
    UnbrokenTrim(cmd);
    TrimIsTrimmed(cmd);
    if Trim(cmd) == [] {
      assert Flush(cmd) + segs == segs;
    } else {
      assert (Flush(cmd) + segs)[1..] == segs;
    }
  }

  /** The lexer's output is well lexed. */
  lemma {:induction false} PiecesAreWellLexed(s: string)
    ensures WellLexed(Pieces(s))
    decreases |s|
  {
    hide Run, Break, FirstOperator, Pieces, Trim;
    PiecesUnfold(s);
    TrimIsTrimmed(s);
    match FirstOperator(s)
    case None =>
      AmpersandNeverComesFirst(s);
      UnbrokenTrim(s);
    case Some((start, op)) =>
      BeforeOperatorIsOpen(s);
      var rest := s[start + |op|..];
      if op != "|" { PiecesAreWellLexed(rest); }
      WellLexedAtOperator(s[..start], op, rest, if op == "|" then Flush(rest) else Pieces(rest));
  }

  lemma WellLexedAtOperator(cmd: string, op: string, rest: string, tail: seq<Segment>)
    requires Open(Run(Plain, cmd)) && IsOperator(op) && if op == "|" then tail == Flush(rest) else WellLexed(tail)
    ensures WellLexed(Flush(cmd) + [Operator(op)] + tail)
  {
    hide Run, Flush, WellLexed;
    WellLexedAfterOperator(op, rest, tail);
    FlushedCommand(cmd, [Operator(op)] + tail);
    assert Flush(cmd) + ([Operator(op)] + tail) == Flush(cmd) + [Operator(op)] + tail;
  }

  lemma WellLexedAfterOperator(op: string, rest: string, tail: seq<Segment>)
    requires IsOperator(op) && if op == "|" then tail == Flush(rest) else WellLexed(tail)
    ensures WellLexed([Operator(op)] + tail)
  {
    hide Run, Trim;
    assert ([Operator(op)] + tail)[1..] == tail;
    TrimIsTrimmed(rest);
  }

  // Here-documents

  predicate HeredocFree(s: string) {
    !ContainsHeredoc(s)
  }

  lemma HeredocFreeMeans(s: string)
    ensures HeredocFree(s) <==> forall i: nat :: !OccursAt(s, "<<", i) && !OccursAt(s, "$((", i)
  {
  }

  lemma Pair(s: string, i: nat)
    ensures OccursAt(s, "<<", i) <==> i + 1 < |s| && s[i] == '<' && s[i + 1] == '<'
  {
    if i + 2 <= |s| { assert s[i..i + 2] == [s[i], s[i + 1]]; }
  }

  lemma Triple(s: string, i: nat)
    ensures OccursAt(s, "$((", i) <==> i + 2 < |s| && s[i] == '$' && s[i + 1] == '(' && s[i + 2] == '('
  {
    if i + 3 <= |s| { assert s[i..i + 3] == [s[i], s[i + 1], s[i + 2]]; }
  }

  lemma HeredocFreeSlice(s: string, i: nat, j: nat)
    requires HeredocFree(s) && i <= j <= |s|
    ensures HeredocFree(s[i..j])
  {
    hide OccursAt, ContainsHeredoc;
    HeredocFreeMeans(s);
    HeredocFreeMeans(s[i..j]);
    forall k: nat
      ensures !OccursAt(s[i..j], "<<", k) && !OccursAt(s[i..j], "$((", k)
    {
      Pair(s, i + k);
      Triple(s, i + k);
      Pair(s[i..j], k);
      Triple(s[i..j], k);
      assert !OccursAt(s, "<<", i + k) && !OccursAt(s, "$((", i + k);
    }
  }

  lemma HeredocFreeTrim(s: string)
    requires HeredocFree(s)
    ensures HeredocFree(Trim(s))
  {
    hide Find, ContainsHeredoc;
    var t := StripEnd(s, IsBlank);
    StripEndIsPrefix(s, IsBlank);
    HeredocFreeSlice(s, 0, |t|);
    assert s[0..|t|] == t;
    var u := StripStart(t, IsBlank);
    StripStartIsSuffix(t, IsBlank);
    HeredocFreeSlice(t, |t| - |u|, |t|);
    assert t[|t| - |u|..] == u;
    assert t[|t| - |u|..|t|] == t[|t| - |u|..];
  }

  predicate AllHeredocFree(segs: seq<Segment>) {
    forall i :: 0 <= i < |segs| ==> HeredocFree(segs[i].text)
  }

  lemma {:induction false} PiecesHeredocFree(s: string)
    requires HeredocFree(s)
    ensures AllHeredocFree(Pieces(s))
    decreases |s|
  {
    hide FirstOperator, Pieces, Trim, ContainsHeredoc;
    PiecesUnfold(s);
    HeredocFreeTrim(s);
    match FirstOperator(s)
    case None =>
    case Some((start, op)) =>
      var rest := s[start + |op|..];
      HeredocFreeSlice(s, start + |op|, |s|);
      HeredocFreeSlice(s, 0, start);
      HeredocFreeSlice(s, start, start + |op|);
      BeforeOperatorIsOpen(s);
      assert s[0..start] == s[..start] && s[start + |op|..|s|] == rest;
      HeredocFreeTrim(s[..start]);
      HeredocFreeTrim(rest);
      if op != "|" { PiecesHeredocFree(rest); }
  }

  // Fixed points

  predicate BeforeFirstPipe(segs: seq<Segment>, k: nat) {
    k < |segs| && forall j :: 0 <= j < k ==> segs[j] != Operator("|")
  }

  lemma {:induction false} WellLexedCommand(segs: seq<Segment>, k: nat)
    requires WellLexed(segs) && BeforeFirstPipe(segs, k) && segs[k].Command?
    ensures Trimmed(segs[k].text) && !Run(Plain, segs[k].text).Broken?
  {
    if k > 0 {
      assert segs[0] != Operator("|");
      assert segs[1..][k - 1] == segs[k];
      assert forall j :: 0 <= j < k - 1 ==> segs[1..][j] == segs[j + 1];
      WellLexedCommand(segs[1..], k - 1);
    }
  }

  /** Every command segment before a pipe lexes to itself. */
  lemma CommandsAreFixedPoints(input: string, k: nat)
    requires BeforeFirstPipe(Split(input), k) && Split(input)[k].Command?
    ensures Split(Split(input)[k].text) == [Split(input)[k]]
  {
    hide Run, Pieces, Trim, ContainsHeredoc, FirstOperator;
    var s := Trim(input);
    TrimIsTrimmed(input);
    var c := Split(input)[k].text;
    if ContainsHeredoc(s) {
      TrimIsTrimmed(s);
    } else {
      PiecesAreWellLexed(s);
      PiecesHeredocFree(s);
      assert Split(input) == Pieces(s);
      WellLexedCommand(Pieces(s), k);
      TrimIsTrimmed(c);
      assert HeredocFree(c);
      UnbrokenIsOnePiece(c);
    }
  }
}
