/** Rewriting a shell command so that its rewritable parts run through the client binary. */
module ShellRewrite {
  import opened Wrappers
  import opened Sequences
  import opened Text
  import opened CompoundLexer
  import opened CommandRegistry
  import opened PosixQuoting

  type RewriteFn = string -> Option<string>

  // Joining

  predicate EndsSpaced(s: string) {
    s == [] || s[|s| - 1] == ' '
  }

  /** What one segment adds to the result of the joining loop. */
  function Append(result: string, seg: Segment): string {
    match seg
    case Operator(op) => (if EndsSpaced(result) then result else result + " ") + op + " "
    case Command(cmd) => result + cmd
  }

  function Join(segs: seq<Segment>, result: string): string
    decreases |segs|
  {
    if segs == [] then result else Join(segs[1..], Append(result, segs[0]))
  }

  /** The commands before the first pipe, rewritten where `f` rewrites them; everything else
      as it was. */
  function RewriteSegments(segs: seq<Segment>, f: RewriteFn): seq<Segment>
    decreases |segs|
  {
    if segs == [] then []
    else
      match segs[0]
      case Operator(op) => if op == "|" then segs else [segs[0]] + RewriteSegments(segs[1..], f)
      case Command(cmd) =>
        [Command(match f(cmd) case Some(w) => w case None => cmd)] + RewriteSegments(segs[1..], f)
  }

  predicate AnyRewritten(segs: seq<Segment>, f: RewriteFn)
    decreases |segs|
  {
    && segs != []
    && match segs[0]
       case Operator(op) => op != "|" && AnyRewritten(segs[1..], f)
       case Command(cmd) => f(cmd).Some? || AnyRewritten(segs[1..], f)
  }

  function Rewritten(input: string, f: RewriteFn): Option<string> {
    var segs := Split(input);
    if |segs| <= 1 || !AnyRewritten(segs, f) then None
    else Some(Trim(Join(RewriteSegments(segs, f), "")))
  }

  /** The loop of `rewrite_compound`. */
  method RewriteCompound(input: string, f: RewriteFn) returns (r: Option<string>)
    ensures r == Rewritten(input, f)
  {
    hide Split, Trim, Append;
    var segments := SplitCompound(input);
    if |segments| <= 1 {
      return None;
    }
    var anyRewritten := false;
    var result := "";
    var afterPipe := false;
    var i := 0;
    assert segments[0..] == segments;
    while i < |segments|
      invariant 0 <= i <= |segments|
      invariant AnyRewritten(segments, f) == (anyRewritten || (!afterPipe && AnyRewritten(segments[i..], f)))
      invariant Join(RewriteSegments(segments, f), "")
             == Join(if afterPipe then segments[i..] else RewriteSegments(segments[i..], f), result)
    {
      var seg := segments[i];
      assert segments[i..][1..] == segments[i + 1..];
      OneMore(segments[i..], f, result);
      match seg {
        case Operator(op) =>
          if op == "|" {
            afterPipe := true;
          }
          result := Append(result, seg);
        case Command(cmd) =>
          if afterPipe {
            result := Append(result, seg);
          } else {
            var rewritten := f(cmd);
            if rewritten.Some? {
              anyRewritten := true;
              result := Append(result, Command(rewritten.value));
            } else {
              result := Append(result, seg);
            }
          }
      }
      i := i + 1;
    }
    return if anyRewritten then Some(Trim(result)) else None;
  }

  lemma OneMore(segs: seq<Segment>, f: RewriteFn, result: string)
    requires segs != []
    ensures Join(segs, result) == Join(segs[1..], Append(result, segs[0]))
    ensures segs[0] == Operator("|") ==> RewriteSegments(segs, f) == segs
    ensures segs[0] != Operator("|") ==>
      && var mapped := RewriteSegments(segs[..1], f)[0];
      && Join(RewriteSegments(segs, f), result) == Join(RewriteSegments(segs[1..], f), Append(result, mapped))
      && mapped == (match segs[0]
                    case Operator(op) => segs[0]
                    case Command(cmd) => Command(match f(cmd) case Some(w) => w case None => cmd))
  {
    if segs[0] != Operator("|") {
      var r := RewriteSegments(segs, f);
      assert r[1..] == RewriteSegments(segs[1..], f);
    }
  }

  // What the hook rewrites

  const LEAN_PREFIX := "lean-ctx "

  function WrapSingleCommand(cmd: string, binary: string): string {
    binary + " -c '" + EscapeQuotes(cmd) + "'"
  }

  predicate AlreadyWrapped(cmd: string, binary: string) {
    StartsWith(cmd, LEAN_PREFIX) || StartsWith(cmd, binary + " ")
  }

  function RewriteSegment(cmd: string, binary: string): Option<string> {
    if AlreadyWrapped(cmd, binary) then None
    else if IsRewritable(cmd) then Some(WrapSingleCommand(cmd, binary))
    else None
  }

  function SegmentRewriter(binary: string): RewriteFn {
    (segment: string) => RewriteSegment(segment, binary)
  }

  function BuildRewriteCompound(cmd: string, binary: string): Option<string> {
    Rewritten(cmd, SegmentRewriter(binary))
  }

  function RewriteCandidate(cmd: string, binary: string): Option<string> {
    if AlreadyWrapped(cmd, binary) || Contains(cmd, "<<") then None
    else if BuildRewriteCompound(cmd, binary).Some? then BuildRewriteCompound(cmd, binary)
    else if IsRewritable(cmd) then Some(WrapSingleCommand(cmd, binary))
    else None
  }
}
