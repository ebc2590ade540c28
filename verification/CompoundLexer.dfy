/** The lexer that splits a compound shell command at `&&`, `||`, `;` and `|`. */
module CompoundLexer {
  import opened Wrappers
  import opened Sequences
  import opened Text

  datatype Segment = Command(text: string) | Operator(text: string)

  /** The reference: what the lexer is inside of after reading some characters. `Dollar` and
      `Ampersand` remember a character whose meaning the next one settles; `Broken` means an
      operator has been met outside every quote. */
  datatype Mode =
    | Plain | Dollar | Ampersand | Escape
    | Single | Double | DoubleEscape | Backtick | Subshell(depth: nat)
    | Broken

  predicate Open(m: Mode) {
    m.Plain? || m.Dollar? || m.Ampersand?
  }

  function Next(m: Mode, c: char): Mode {
    match m
    case Single => if c == '\'' then Plain else Single
    case Double => if c == '"' then Plain else if c == '\\' then DoubleEscape else Double
    case DoubleEscape => Double
    case Backtick => if c == '`' then Plain else Backtick
    case Subshell(depth) =>
      if c == '(' then Subshell(depth + 1)
      else if c == ')' then (if depth <= 1 then Plain else Subshell(depth - 1))
      else m
    case Escape => Plain
    case Broken => Broken
    case _ =>
      if m.Dollar? && c == '(' then Subshell(1)
      else if m.Ampersand? && c == '&' then Broken
      else if c == '\'' then Single
      else if c == '"' then Double
      else if c == '`' then Backtick
      else if c == '$' then Dollar
      else if c == '\\' then Escape
      else if c == '&' then Ampersand
      else if c == '|' || c == ';' then Broken
      else Plain
  }

  function Run(m: Mode, s: string): Mode
    decreases |s|
  {
    if s == [] then m else Run(Next(m, s[0]), s[1..])
  }

  /** Where the first operator outside quotes is recognised. */
  function Break(m: Mode, s: string): (r: Option<nat>)
    ensures r.Some? ==> r.value < |s|
    decreases |s|
  {
    if s == [] then None
    else if Next(m, s[0]).Broken? then Some(0)
    else
      match Break(Next(m, s[0]), s[1..])
      case None => None
      case Some(k) => Some(k + 1)
  }

  /** The first operator outside quotes, with its position. */
  function FirstOperator(s: string): (r: Option<(nat, string)>)
    ensures r.Some? ==> r.value.0 + |r.value.1| <= |s| && r.value.1 != []
  {
    match Break(Plain, s)
    case None => None
    case Some(k) =>
      if s[k] == '&' then (if k == 0 then None else Some((k - 1, "&&")))
      else if s[k] == ';' then Some((k, ";"))
      else if k + 1 < |s| && s[k + 1] == '|' then Some((k, "||"))
      else Some((k, "|"))
  }

  /** A command segment, unless it is blank. */
  function Flush(cmd: string): seq<Segment> {
    if Trim(cmd) == [] then [] else [Command(Trim(cmd))]
  }

  function Pieces(s: string): seq<Segment>
    decreases |s|
  {
    match FirstOperator(s)
    case None => Flush(s)
    case Some((start, op)) =>
      var rest := s[start + |op|..];
      Flush(s[..start]) + [Operator(op)] + (if op == "|" then Flush(rest) else Pieces(rest))
  }

  predicate ContainsHeredoc(s: string) {
    Contains(s, "<<") || Contains(s, "$((")
  }

  /** The meaning of `split_compound`: cut at every operator outside quotes, up to the first
      pipe; keep text that looks like a here-document whole. */
  function Split(input: string): seq<Segment> {
    var s := Trim(input);
    if s == [] then []
    else if ContainsHeredoc(s) then [Command(s)]
    else Pieces(s)
  }

  // The reference, one character at a time

  lemma {:induction false} RunAppend(m: Mode, a: string, b: string)
    ensures Run(m, a + b) == Run(Run(m, a), b)
    decreases |a|
  {
    if a == [] {
      assert a + b == b;
    } else {
      assert (a + b)[1..] == a[1..] + b;
      RunAppend(Next(m, a[0]), a[1..], b);
    }
  }

  lemma RunPush(m: Mode, a: string, c: char)
    ensures Run(m, a + [c]) == Next(Run(m, a), c)
  {
    RunAppend(m, a, [c]);
    assert [c][1..] == [];
  }

  lemma {:induction false} BrokenStaysBroken(s: string)
    ensures Run(Broken, s) == Broken
  {
    if s != [] { BrokenStaysBroken(s[1..]); }
  }

  lemma UnbrokenPrefix(a: string, b: string)
    requires !Run(Plain, a + b).Broken?
    ensures !Run(Plain, a).Broken?
  {
    RunAppend(Plain, a, b);
    BrokenStaysBroken(b);
  }

  /** `Break` finds the place where the run breaks. */
  lemma {:induction false} BreakMeans(m: Mode, s: string)
    requires !m.Broken?
    ensures match Break(m, s)
            case None => !Run(m, s).Broken?
            case Some(k) => !Run(m, s[..k]).Broken? && Next(Run(m, s[..k]), s[k]).Broken?
    decreases |s|
  {
    if s != [] {
      var n := Next(m, s[0]);
      if n.Broken? {
        assert s[..0] == [];
      } else {
        BreakMeans(n, s[1..]);
        match Break(n, s[1..])
        case None =>
        case Some(k) => assert s[..k + 1][1..] == s[1..][..k];
      }
    }
  }

  lemma {:induction false} BreakIs(m: Mode, s: string, k: nat)
    requires k < |s| && !Run(m, s[..k]).Broken? && Next(Run(m, s[..k]), s[k]).Broken?
    ensures Break(m, s) == Some(k)
    decreases k
  {
    if k == 0 {
      assert s[..0] == [];
    } else {
      assert s[..k][0] == s[0] && s[..k][1..] == s[1..][..k - 1];
      if Next(m, s[0]).Broken? { BrokenStaysBroken(s[1..][..k - 1]); }
      BreakIs(Next(m, s[0]), s[1..], k - 1);
    }
  }

  /** In an open mode, the characters of an operator are that operator. */
  lemma OperatorAt(s: string, k: nat, op: string)
    requires op in {"&&", "||", ";", "|"} && OccursAt(s, op, k)
    requires Open(Run(Plain, s[..k])) && (op == "&&" ==> !Run(Plain, s[..k]).Ampersand?)
    requires op == "|" ==> k + 1 == |s| || s[k + 1] != '|'
    ensures FirstOperator(s) == Some((k, op))
  {
    assert s[k..k + |op|][0] == s[k];
    if op == "&&" {
      assert s[k..k + 2][1] == s[k + 1];
      assert s[..k + 1] == s[..k] + [s[k]];
      RunPush(Plain, s[..k], s[k]);
      BreakIs(Plain, s, k + 1);
    } else {
      if op == "||" { assert s[k..k + 2][1] == s[k + 1]; }
      BreakIs(Plain, s, k);
    }
  }

  /** Before an operator the lexer is outside every quote. */
  lemma BeforeOperatorIsOpen(s: string)
    requires FirstOperator(s).Some?
    ensures var (start, op) := FirstOperator(s).value;
            && op in {"&&", "||", ";", "|"} && OccursAt(s, op, start) && Open(Run(Plain, s[..start]))
            && (op == "&&" ==> !Run(Plain, s[..start]).Ampersand?)
            && (op == "|" ==> start + 1 == |s| || s[start + 1] != '|')
  {
    BreakMeans(Plain, s);
    var k := Break(Plain, s).value;
    hide Run, Break, Next, Open, OccursAt;
    if s[k] == '&' {
      BeforeAnd(s, k);
    } else {
      BeforeOther(s, k);
    }
  }

  /** Any other character that breaks the run is an operator of its own, or half of a double pipe. */
  lemma BeforeOther(s: string, k: nat)
    requires k < |s| && s[k] != '&'
    requires !Run(Plain, s[..k]).Broken? && Next(Run(Plain, s[..k]), s[k]).Broken?
    ensures Open(Run(Plain, s[..k])) && (s[k] == ';' || s[k] == '|')
    ensures s[k] == ';' ==> OccursAt(s, ";", k)
    ensures s[k] == '|' ==> OccursAt(s, "|", k) && (k + 1 < |s| && s[k + 1] == '|' ==> OccursAt(s, "||", k))
  {
    hide Run;
    SliceIs(s, k);
  }

  lemma SliceIs(s: string, k: nat)
    requires k < |s|
    ensures s[k..k + 1] == [s[k]] && (k + 1 < |s| ==> s[k..k + 2] == [s[k], s[k + 1]])
  {
  }

  /** The second ampersand breaks the run, so the first is read outside every quote and is not itself
      a second one. */
  lemma BeforeAnd(s: string, k: nat)
    requires 0 < k < |s| && s[k] == '&'
    requires !Run(Plain, s[..k]).Broken? && Next(Run(Plain, s[..k]), s[k]).Broken?
    ensures OccursAt(s, "&&", k - 1) && Open(Run(Plain, s[..k - 1])) && !Run(Plain, s[..k - 1]).Ampersand?
  {
    hide Run;
    LastStep(s, k);
    SliceIs(s, k - 1);
  }

  lemma LastStep(s: string, k: nat)
    requires 0 < k <= |s|
    ensures Run(Plain, s[..k]) == Next(Run(Plain, s[..k - 1]), s[k - 1])
  {
    hide Run, Next;
    assert s[..k] == s[..k - 1] + [s[k - 1]];
    RunPush(Plain, s[..k - 1], s[k - 1]);
  }

  lemma AmpersandNeverComesFirst(s: string)
    requires FirstOperator(s).None?
    ensures !Run(Plain, s).Broken?
  {
    BreakMeans(Plain, s);
    assert s[..0] == [];
  }

  // The loop

  /** The outer loop is between two units of the input: `current` is what has been read since
      the last operator, and no character read so far waits for the next one. */
  ghost predicate BetweenUnits(s: string, start: nat, i: nat, current: string) {
    && start <= i <= |s| && current == s[start..i]
    && !Run(Plain, current).Broken?
    && (i < |s| ==> && Open(Run(Plain, current))
                    && (Run(Plain, current).Ampersand? ==> s[i] != '&')
                    && (Run(Plain, current).Dollar? ==> s[i] != '('))
  }

  /** Inside a quote, between two characters. */
  ghost predicate Inside(s: string, start: nat, i: nat, current: string, m: Mode) {
    start <= i <= |s| && current == s[start..i] && Run(Plain, current) == m
  }

  lemma ReadOne(s: string, start: nat, i: nat, current: string)
    requires start <= i < |s| && current == s[start..i]
    ensures s[start..i + 1] == current + [s[i]]
    ensures Run(Plain, current + [s[i]]) == Next(Run(Plain, current), s[i])
  {
    RunPush(Plain, current, s[i]);
  }

  lemma ReadEscape(s: string, start: nat, i: nat, current: string)
    requires BetweenUnits(s, start, i, current) && i + 1 < |s| && s[i] == '\\'
    ensures BetweenUnits(s, start, i + 2, current + [s[i]] + [s[i + 1]])
  {
    hide Run;
    ReadOne(s, start, i, current);
    ReadOne(s, start, i + 1, current + [s[i]]);
  }

  /** A character with no special meaning here: not a quote, and neither the start of an
      operator nor of a subshell nor an escape with something to escape. */
  lemma ReadOrdinary(s: string, start: nat, i: nat, current: string)
    requires BetweenUnits(s, start, i, current) && i < |s|
    requires s[i] !in {'\'', '"', '`', '|', ';'}
    requires i + 1 < |s| ==> && s[i] != '\\' && !(s[i] == '$' && s[i + 1] == '(')
                              && !(s[i] == '&' && s[i + 1] == '&')
    ensures BetweenUnits(s, start, i + 1, current + [s[i]])
  {
    hide Run;
    ReadOne(s, start, i, current);
  }

  /** What the loop has put out so far and the pieces of the rest are the pieces of the whole. */
  ghost predicate Accounts(s: string, segments: seq<Segment>, start: nat) {
    start <= |s| && Pieces(s) == segments + Pieces(s[start..])
  }

  lemma SlicesFrom(s: string, start: nat, i: nat, n: nat)
    requires start <= i && i + n <= |s|
    ensures s[start..][..i - start] == s[start..i]
    ensures s[start..][i - start..i - start + n] == s[i..i + n]
    ensures s[start..][i - start + n..] == s[i + n..]
  {
  }

  /** The operator at `i` is the first one of what is left. */
  lemma NextOperator(s: string, start: nat, i: nat, current: string, op: string)
    requires BetweenUnits(s, start, i, current) && op in {"&&", "||", ";", "|"} && StandsAt(s, op, i)
    requires op == "|" ==> i + 1 == |s| || s[i + 1] != '|'
    ensures i + |op| <= |s| && FirstOperator(s[start..]) == Some((i - start, op))
    ensures s[start..][..i - start] == current && s[start..][i - start + |op|..] == s[i + |op|..]
  {
    hide Run, FirstOperator;
    SlicesFrom(s, start, i, |op|);
    OperatorAt(s[start..], i - start, op);
  }

  /** At an operator the pending command and the operator are put out, and the rest is lexed anew, or
      taken whole after a pipe. */
  lemma CutAtOperator(s: string, start: nat, i: nat, current: string, op: string, before: seq<Segment>)
    requires BetweenUnits(s, start, i, current) && op in {"&&", "||", ";", "|"} && StandsAt(s, op, i)
    requires op == "|" ==> i + 1 == |s| || s[i + 1] != '|'
    requires Accounts(s, before, start)
    ensures i + |op| <= |s|
    ensures var out := before + Flush(current) + [Operator(op)];
            if op == "|" then Pieces(s) == out + Flush(s[i + 1..]) else Accounts(s, out, i + |op|)
  {
    hide Run, Flush, FirstOperator, BetweenUnits, StandsAt;
    NextOperator(s, start, i, current, op);
    var tail := if op == "|" then Flush(s[i + |op|..]) else Pieces(s[i + |op|..]);
    assert Pieces(s[start..]) == Flush(current) + [Operator(op)] + tail;
    Reassociate(before, Flush(current) + [Operator(op)], tail);
    Reassociate(before, Flush(current), [Operator(op)]);
  }

  /** The operator's one or two characters stand at position `i`. */
  predicate StandsAt(s: string, op: string, i: nat) {
    if |op| == 1 then i < |s| && [s[i]] == op else i + 1 < |s| && [s[i], s[i + 1]] == op
  }

  lemma EndOfInput(s: string, start: nat, current: string)
    requires BetweenUnits(s, start, |s|, current)
    ensures start <= |s| && s[start..] == current && !Run(Plain, current).Broken?
  {
    hide Run;
  }

  method PushCommand(segments: seq<Segment>, cmd: string) returns (r: seq<Segment>)
    ensures r == segments + Flush(cmd)
  {
    var trimmed := Trim(cmd);
    if trimmed != [] {
      return segments + [Command(trimmed)];
    }
    return segments;
  }

  method PushOperator(segments: seq<Segment>, cmd: string, op: string) returns (r: seq<Segment>)
    ensures r == segments + Flush(cmd) + [Operator(op)]
  {
    r := PushCommand(segments, cmd);
    r := r + [Operator(op)];
  }

  method SkipQuote(s: string, ghost start: nat, i0: nat, current0: string, quote: char, ghost m: Mode)
    returns (i: nat, current: string)
    requires i0 < |s| && s[i0] == quote && BetweenUnits(s, start, i0, current0)
    requires (quote == '\'' && m == Single) || (quote == '`' && m == Backtick)
    ensures start <= i0 < i <= |s| && BetweenUnits(s, start, i, current)
  {
    hide Run;
    ReadOne(s, start, i0, current0);
    current := current0 + [quote];
    i := i0 + 1;
    while i < |s| && s[i] != quote
      invariant i0 < i && Inside(s, start, i, current, m)
    {
      ReadOne(s, start, i, current);
      current := current + [s[i]];
      i := i + 1;
    }
    if i < |s| {
      ReadOne(s, start, i, current);
      current := current + [quote];
      i := i + 1;
    }
  }

  method SkipDoubleQuote(s: string, ghost start: nat, i0: nat, current0: string)
    returns (i: nat, current: string)
    requires i0 < |s| && s[i0] == '"' && BetweenUnits(s, start, i0, current0)
    ensures start <= i0 < i <= |s| && BetweenUnits(s, start, i, current)
  {
    hide Run;
    ReadOne(s, start, i0, current0);
    current := current0 + ['"'];
    i := i0 + 1;
    while i < |s| && s[i] != '"'
      invariant i0 < i && (Inside(s, start, i, current, Double) || (i == |s| && Inside(s, start, i, current, DoubleEscape)))
    {
      ReadOne(s, start, i, current);
      if s[i] == '\\' && i + 1 < |s| {
        ReadOne(s, start, i + 1, current + ['\\']);
        current := current + ['\\'] + [s[i + 1]];
        i := i + 2;
      } else {
        current := current + [s[i]];
        i := i + 1;
      }
    }
    if i < |s| {
      ReadOne(s, start, i, current);
      current := current + ['"'];
      i := i + 1;
    }
  }

  method SkipSubshell(s: string, ghost start: nat, i0: nat, current0: string)
    returns (i: nat, current: string)
    requires i0 + 1 < |s| && s[i0] == '$' && s[i0 + 1] == '(' && BetweenUnits(s, start, i0, current0)
    ensures start <= i0 < i <= |s| && BetweenUnits(s, start, i, current)
  {
    hide Run;
    ReadOne(s, start, i0, current0);
    ReadOne(s, start, i0 + 1, current0 + ['$']);
    i := i0 + 2;
    var depth := 1;
    while i < |s| && depth > 0
      invariant i0 < i && depth >= 0
      invariant i <= |s| && Inside(s, start, i, s[start..i], if depth > 0 then Subshell(depth) else Plain)
    {
      ReadOne(s, start, i, s[start..i]);
      if s[i] == '(' {
        depth := depth + 1;
      } else if s[i] == ')' {
        depth := depth - 1;
      }
      i := i + 1;
    }
    current := current0 + s[i0..i];
    assert current == s[start..i];
  }

  /** `split_compound` computes `Split`. */
  method SplitCompound(input: string) returns (segments: seq<Segment>)
    ensures segments == Split(input)
  {
    hide Run, Break, FirstOperator, Pieces, Flush, Find, Trim, Next, Open, BetweenUnits, Accounts;
    var s := Trim(input);
    if s == [] {
      return [];
    }
    if ContainsHeredoc(s) {
      return [Command(s)];
    }
    segments := [];
    var current := "";
    var i := 0;
    ghost var start := 0;
    NothingRead(s, 0);
    NothingPutOut(s);
    while i < |s|
      invariant start <= i <= |s| && BetweenUnits(s, start, i, current)
      invariant Accounts(s, segments, start)
    {
      var ch := s[i];
      if ch == '\'' {
        i, current := SkipQuote(s, start, i, current, '\'', Single);
      } else if ch == '"' {
        i, current := SkipDoubleQuote(s, start, i, current);
      } else if ch == '`' {
        i, current := SkipQuote(s, start, i, current, '`', Backtick);
      } else if ch == '$' && i + 1 < |s| && s[i + 1] == '(' {
        i, current := SkipSubshell(s, start, i, current);
      } else if ch == '\\' && i + 1 < |s| {
        ReadEscape(s, start, i, current);
        current := current + [ch] + [s[i + 1]];
        i := i + 2;
      } else if ch == '&' && i + 1 < |s| && s[i + 1] == '&' {
        CutAtOperator(s, start, i, current, "&&", segments);
        segments := PushOperator(segments, current, "&&");
        current, i := "", i + 2;
        start := i;
        NothingRead(s, i);
      } else if ch == '|' && i + 1 < |s| && s[i + 1] == '|' {
        CutAtOperator(s, start, i, current, "||", segments);
        segments := PushOperator(segments, current, "||");
        current, i := "", i + 2;
        start := i;
        NothingRead(s, i);
      } else if ch == '|' {
        CutAtOperator(s, start, i, current, "|", segments);
        segments := PushOperator(segments, current, "|");
        segments := PushCommand(segments, s[i + 1..]);
        return;
      } else if ch == ';' {
        CutAtOperator(s, start, i, current, ";", segments);
        segments := PushOperator(segments, current, ";");
        current, i := "", i + 1;
        start := i;
        NothingRead(s, i);
      } else {
        ReadOrdinary(s, start, i, current);
        current := current + [ch];
        i := i + 1;
      }
    }
    AllPutOut(s, segments, start, current);
    segments := PushCommand(segments, current);
  }

  lemma NothingPutOut(s: string)
    ensures Accounts(s, [], 0)
  {
    hide Pieces;
    assert s[0..] == s;
  }

  lemma AllPutOut(s: string, segments: seq<Segment>, start: nat, current: string)
    requires BetweenUnits(s, start, |s|, current) && Accounts(s, segments, start)
    ensures Pieces(s) == segments + Flush(current)
  {
    hide Run, Pieces, Flush, BetweenUnits;
    EndOfInput(s, start, current);
    UnbrokenIsOnePiece(current);
  }

  lemma NothingRead(s: string, i: nat)
    requires i <= |s|
    ensures BetweenUnits(s, i, i, "")
  {
    assert s[i..i] == "";
  }

  lemma UnbrokenIsOnePiece(s: string)
    requires !Run(Plain, s).Broken?
    ensures FirstOperator(s) == None && Pieces(s) == Flush(s)
  {
    hide Flush;
    if FirstOperator(s).Some? {
      BeforeOperatorIsOpen(s);
      BrokenRun(s);
    }
  }

  lemma BrokenRun(s: string)
    requires Break(Plain, s).Some?
    ensures Run(Plain, s).Broken?
  {
    BreakMeans(Plain, s);
    var k := Break(Plain, s).value;
    assert s == s[..k] + ([s[k]] + s[k + 1..]);
    RunAppend(Plain, s[..k], [s[k]] + s[k + 1..]);
    RunAppend(Run(Plain, s[..k]), [s[k]], s[k + 1..]);
    assert [s[k]][1..] == [];
    BrokenStaysBroken(s[k + 1..]);
  }
}
