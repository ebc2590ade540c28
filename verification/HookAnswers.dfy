/** When the hook answers, and with what. */
module HookAnswers {
  import opened Wrappers
  import opened Sequences
  import opened Text
  import opened CompoundLexer
  import opened LexerLaws
  import opened CommandRegistry
  import opened PosixQuoting
  import opened ShellRewrite
  import opened RewriteLaws
  import opened WrappedCommands

  /** The command is led by a prefix under which it runs through the client already. */
  ghost predicate RunsThroughClient(cmd: string, binary: string) {
    exists rest: string :: cmd == "lean-ctx " + rest || cmd == binary + " " + rest
  }

  /** The hook has something to do for this command, taken by itself. */
  ghost predicate Wants(cmd: string, binary: string) {
    IsRewritable(cmd) && !RunsThroughClient(cmd, binary)
  }

  /** Some command before the first pipe of a line of several segments. */
  ghost predicate WantsPartOf(cmd: string, binary: string) {
    var segs := Split(cmd);
    |segs| > 1 && exists k: nat :: BeforeFirstPipe(segs, k) && segs[k].Command? && Wants(segs[k].text, binary)
  }

  ghost predicate HasHeredoc(cmd: string) {
    exists i: nat :: OccursAt(cmd, "<<", i)
  }

  lemma WrappedMeans(cmd: string, binary: string)
    ensures AlreadyWrapped(cmd, binary) <==> RunsThroughClient(cmd, binary)
  {
    if StartsWith(cmd, LEAN_PREFIX) {
      assert cmd == "lean-ctx " + cmd[|LEAN_PREFIX|..];
    }
    if StartsWith(cmd, binary + " ") {
      assert cmd == binary + " " + cmd[|binary + " "|..];
    }
  }

  lemma SegmentIsRewrittenWhen(cmd: string, binary: string)
    ensures RewriteSegment(cmd, binary).Some? <==> Wants(cmd, binary)
  {
    hide IsRewritable, AlreadyWrapped, RunsThroughClient;
    WrappedMeans(cmd, binary);
  }

  /** What rewriting does to each segment. */
  ghost predicate RewrittenAt(segs: seq<Segment>, mapped: seq<Segment>, binary: string, k: nat)
    requires k < |segs| == |mapped|
  {
    if BeforeFirstPipe(segs, k) && segs[k].Command? && Wants(segs[k].text, binary)
    then mapped[k] == Command(WrapSingleCommand(segs[k].text, binary))
    else mapped[k] == segs[k]
  }

  lemma BeforeFirstPipeOfRest(segs: seq<Segment>, k: nat)
    requires segs != [] && k > 0
    ensures BeforeFirstPipe(segs, k) <==> segs[0] != Operator("|") && BeforeFirstPipe(segs[1..], k - 1)
  {
    assert forall j :: 0 <= j < |segs| - 1 ==> segs[1..][j] == segs[j + 1];
    if segs[0] != Operator("|") && BeforeFirstPipe(segs[1..], k - 1) {
      forall j | 0 <= j < k
        ensures segs[j] != Operator("|")
      {
        assert j > 0 ==> segs[1..][j - 1] != Operator("|");
      }
    }
  }

  lemma {:induction false} SegmentsAreRewritten(segs: seq<Segment>, binary: string)
    ensures var mapped := RewriteSegments(segs, SegmentRewriter(binary));
            |mapped| == |segs| && forall k: nat :: k < |segs| ==> RewrittenAt(segs, mapped, binary, k)
    decreases |segs|
  {
    hide RewriteSegment, WrapSingleCommand, Wants;
    var f := SegmentRewriter(binary);
    var mapped := RewriteSegments(segs, f);
    if segs == [] {
    } else if segs[0] == Operator("|") {
      assert forall k: nat :: k < |segs| && BeforeFirstPipe(segs, k) ==> k == 0;
    } else {
      SegmentsAreRewritten(segs[1..], binary);
      FirstIsRewritten(segs, binary);
      forall k: nat | k < |segs|
        ensures RewrittenAt(segs, mapped, binary, k)
      {
        if k > 0 {
          BeforeFirstPipeOfRest(segs, k);
          assert RewrittenAt(segs[1..], mapped[1..], binary, k - 1);
        }
      }
    }
  }

  lemma FirstIsRewritten(segs: seq<Segment>, binary: string)
    requires segs != [] && segs[0] != Operator("|")
    ensures var mapped := RewriteSegments(segs, SegmentRewriter(binary));
            && mapped != [] && mapped[1..] == RewriteSegments(segs[1..], SegmentRewriter(binary))
            && |mapped| == 1 + |mapped[1..]|
            && (mapped[0] == if segs[0].Command? && Wants(segs[0].text, binary)
                             then Command(WrapSingleCommand(segs[0].text, binary)) else segs[0])
  {
    hide IsRewritable, AlreadyWrapped, Wants, WrapSingleCommand;
    if segs[0].Command? {
      SegmentIsRewrittenWhen(segs[0].text, binary);
    }
  }

  lemma {:induction false} AnyRewrittenWhen(segs: seq<Segment>, binary: string)
    ensures AnyRewritten(segs, SegmentRewriter(binary))
       <==> exists k: nat :: BeforeFirstPipe(segs, k) && segs[k].Command? && Wants(segs[k].text, binary)
    decreases |segs|
  {
    hide RewriteSegment, Wants;
    if segs != [] {
      var rest := segs[1..];
      AnyRewrittenWhen(rest, binary);
      if segs[0].Command? { SegmentIsRewrittenWhen(segs[0].text, binary); }
      forall k: nat | k > 0
        ensures BeforeFirstPipe(segs, k) <==> segs[0] != Operator("|") && BeforeFirstPipe(rest, k - 1)
      {
        BeforeFirstPipeOfRest(segs, k);
      }
      if segs[0] != Operator("|") {
        if k: nat :| BeforeFirstPipe(rest, k) && rest[k].Command? && Wants(rest[k].text, binary) {
          assert BeforeFirstPipe(segs, k + 1) && segs[k + 1] == rest[k];
        }
        if k: nat :| BeforeFirstPipe(segs, k) && segs[k].Command? && Wants(segs[k].text, binary) {
          if k > 0 {
            assert BeforeFirstPipe(rest, k - 1) && rest[k - 1] == segs[k];
          } else {
            assert segs[0].Command?;
          }
        }
        if segs[0].Command? && Wants(segs[0].text, binary) { assert BeforeFirstPipe(segs, 0); }
      } else {
        assert forall k: nat :: BeforeFirstPipe(segs, k) ==> k == 0;
      }
    }
  }

  lemma CompoundAnswersWhen(cmd: string, binary: string)
    ensures BuildRewriteCompound(cmd, binary).Some? <==> WantsPartOf(cmd, binary)
  {
    hide Split, AnyRewritten, RewriteSegments, Wants, Trim, Join;
    AnyRewrittenWhen(Split(cmd), binary);
  }

  /** The hook answers if and only if the command holds no here-document, does not run through the
      client already, and is rewritable as a whole or in a part before its first pipe. */
  lemma AnswersExactlyWhen(cmd: string, binary: string)
    ensures RewriteCandidate(cmd, binary).Some?
       <==> !HasHeredoc(cmd) && !RunsThroughClient(cmd, binary) && (IsRewritable(cmd) || WantsPartOf(cmd, binary))
  {
    hide IsRewritable, AlreadyWrapped, RunsThroughClient, WantsPartOf, BuildRewriteCompound, WrapSingleCommand;
    WrappedMeans(cmd, binary);
    CompoundAnswersWhen(cmd, binary);
  }

  /** A command of which no part is rewritable by itself is read by the shell as one argument of the
      client. */
  lemma WholeCommandIsWrapped(cmd: string, binary: string)
    requires RewriteCandidate(cmd, binary).Some? && !WantsPartOf(cmd, binary) && Tokenise(binary).Some?
    ensures Tokenise(RewriteCandidate(cmd, binary).value) == Some(Tokenise(binary).value + ["-c", cmd])
  {
    hide IsRewritable, AlreadyWrapped, WantsPartOf, BuildRewriteCompound, WrapSingleCommand, Tokenise;
    CompoundAnswersWhen(cmd, binary);
    WrappedCommandReadsBack(cmd, binary);
  }

  /** What the shell reads of each segment of the answer. */
  ghost predicate AnsweredAt(before: seq<Segment>, after: seq<Segment>, binary: string, k: nat)
    requires k < |before| == |after|
  {
    if BeforeFirstPipe(before, k) && before[k].Command? && Wants(before[k].text, binary)
    then after[k].Command? && Tokenise(after[k].text) == Some(Tokenise(binary).GetOr([]) + ["-c", before[k].text])
    else after[k] == before[k]
  }

  /** Otherwise the answer lexes to as many segments as the command; those to be rewritten are read by
      the shell as one argument of the client, and all the others are as they were. */
  lemma PartsAreWrapped(cmd: string, binary: string)
    requires RewriteCandidate(cmd, binary).Some? && WantsPartOf(cmd, binary)
    requires LexerPlain(binary) && Tokenise(binary).Some?
    ensures var before, after := Split(cmd), Split(RewriteCandidate(cmd, binary).value);
            |after| == |before| && forall k: nat :: k < |before| ==> AnsweredAt(before, after, binary, k)
  {
    hide IsRewritable, AlreadyWrapped, WantsPartOf, BuildRewriteCompound, WrapSingleCommand, Tokenise, Split,
         RewriteSegments, LexerPlain, Wants;
    var before := Split(cmd);
    CompoundAnswersWhen(cmd, binary);
    RewritingCommutesWithLexing(cmd, binary);
    var after := RewriteSegments(before, SegmentRewriter(binary));
    SegmentsAreRewritten(before, binary);
    forall k: nat | k < |before|
      ensures AnsweredAt(before, after, binary, k)
    {
      assert RewrittenAt(before, after, binary, k);
      WrappedCommandReadsBack(before[k].text, binary);
    }
  }
}
