/** A grammar of command lines that says what `split_compound` reads, without saying how: quoted text,
    escapes and substitutions are units, and a line is cut at the operators between units. */
module LexerGrammar {
  import opened Wrappers
  import opened Sequences
  import opened Text
  import opened CompoundLexer
  import opened LexerLaws
  import opened RewriteLaws

  datatype Unit =
    | Letter(c: char)
    | Escaped(c: char)
    | SingleQuoted(body: string)
    | DoubleQuoted(body: string)
    | BackQuoted(body: string)
    | Substitution(body: string)

  /** What a line may end in the middle of. */
  datatype OpenEnd =
    | Nothing
    | LoneBackslash
    | OpenSingle(body: string)
    | OpenDouble(body: string)
    | OpenBack(body: string)
    | OpenSubstitution(body: string)

  /** A line: commands with operators between them; what follows the first pipe is taken whole. */
  datatype Line =
    | Last(cmd: seq<Unit>, end: OpenEnd)
    | Piped(cmd: seq<Unit>, rest: string)
    | Cut(cmd: seq<Unit>, op: string, more: Line)

  /** Every backslash has its partner and every quote is escaped. */
  predicate QuotesEscaped(body: string)
    decreases |body|
  {
    if body == "" then true
    else if body[0] == '\\' then |body| > 1 && QuotesEscaped(body[2..])
    else body[0] != '"' && QuotesEscaped(body[1..])
  }

  /** The same, except that the last backslash may have no partner. */
  predicate NeverQuoted(body: string)
    decreases |body|
  {
    if body == "" then true
    else if body[0] == '\\' then |body| == 1 || NeverQuoted(body[2..])
    else body[0] != '"' && NeverQuoted(body[1..])
  }

  /** How many parentheses are left open, if none is closed too often. */
  function OpenParens(body: string, open: nat): Option<nat>
    decreases |body|
  {
    if body == "" then Some(open)
    else if body[0] == '(' then OpenParens(body[1..], open + 1)
    else if body[0] == ')' then (if open == 0 then None else OpenParens(body[1..], open - 1))
    else OpenParens(body[1..], open)
  }

  /** A character that stands for itself; `$` and `&` do unless what follows makes them more. */
  predicate IsLetter(c: char) {
    c !in {'\'', '"', '`', '\\', '|', ';'}
  }

  predicate IsUnit(u: Unit) {
    match u
    case Letter(c) => IsLetter(c)
    case Escaped(_) => true
    case SingleQuoted(body) => '\'' !in body
    case DoubleQuoted(body) => QuotesEscaped(body)
    case BackQuoted(body) => '`' !in body
    case Substitution(body) => OpenParens(body, 0) == Some(0)
  }

  predicate IsOpenEnd(end: OpenEnd) {
    match end
    case Nothing => true
    case LoneBackslash => true
    case OpenSingle(body) => '\'' !in body
    case OpenDouble(body) => NeverQuoted(body)
    case OpenBack(body) => '`' !in body
    case OpenSubstitution(body) => OpenParens(body, 0).Some?
  }

  function UnitText(u: Unit): string {
    match u
    case Letter(c) => [c]
    case Escaped(c) => ['\\', c]
    case SingleQuoted(body) => "'" + body + "'"
    case DoubleQuoted(body) => "\"" + body + "\""
    case BackQuoted(body) => "`" + body + "`"
    case Substitution(body) => "$(" + body + ")"
  }

  function OpenText(end: OpenEnd): string {
    match end
    case Nothing => ""
    case LoneBackslash => "\\"
    case OpenSingle(body) => "'" + body
    case OpenDouble(body) => "\"" + body
    case OpenBack(body) => "`" + body
    case OpenSubstitution(body) => "$(" + body
  }

  function CommandText(cmd: seq<Unit>): string {
    if cmd == [] then "" else UnitText(cmd[0]) + CommandText(cmd[1..])
  }

  function LineText(line: Line): string {
    match line
    case Last(cmd, end) => CommandText(cmd) + OpenText(end)
    case Piped(cmd, rest) => CommandText(cmd) + "|" + rest
    case Cut(cmd, op, more) => CommandText(cmd) + op + LineText(more)
  }

  /** Two letters that would be read as something else together. */
  predicate Merge(u: Unit, v: Unit) {
    (u == Letter('$') && v == Letter('(')) || (u == Letter('&') && v == Letter('&'))
  }

  predicate IsCommand(cmd: seq<Unit>) {
    && (forall i :: 0 <= i < |cmd| ==> IsUnit(cmd[i]))
    && (forall i :: 0 <= i < |cmd| - 1 ==> !Merge(cmd[i], cmd[i + 1]))
  }

  predicate IsLine(line: Line) {
    match line
    case Last(cmd, end) => IsCommand(cmd) && IsOpenEnd(end)
    case Piped(cmd, rest) => IsCommand(cmd) && (rest == "" || rest[0] != '|')
    case Cut(cmd, op, more) =>
      && IsCommand(cmd) && op in {"&&", "||", ";"} && IsLine(more)
      && (op == "&&" ==> cmd == [] || cmd[|cmd| - 1] != Letter('&'))
  }

  /** A command's text without the white space around it, unless it is blank. */
  function AsCommand(text: string): seq<Segment> {
    if Trim(text) == "" then [] else [Command(Trim(text))]
  }

  function LineSegments(line: Line): seq<Segment> {
    match line
    case Last(cmd, end) => AsCommand(CommandText(cmd) + OpenText(end))
    case Piped(cmd, rest) => AsCommand(CommandText(cmd)) + [Operator("|")] + AsCommand(rest)
    case Cut(cmd, op, more) => AsCommand(CommandText(cmd)) + [Operator(op)] + LineSegments(more)
  }

  // What the automaton makes of units

  lemma {:induction false} ThroughSingle(body: string)
    requires '\'' !in body
    ensures Run(Single, body) == Single
  {
    if body != "" { ThroughSingle(body[1..]); }
  }

  lemma {:induction false} ThroughBack(body: string)
    requires '`' !in body
    ensures Run(Backtick, body) == Backtick
  {
    if body != "" { ThroughBack(body[1..]); }
  }

  lemma {:induction false} ThroughDouble(body: string)
    requires NeverQuoted(body)
    ensures Run(Double, body).Double? || Run(Double, body).DoubleEscape?
    ensures QuotesEscaped(body) ==> Run(Double, body) == Double
    decreases |body|
  {
    if body == "" {
    } else if body[0] == '\\' {
      if |body| > 1 {
        assert body[1..][1..] == body[2..];
        assert Run(Double, body) == Run(DoubleEscape, body[1..]) == Run(Double, body[2..]);
        ThroughDouble(body[2..]);
      } else {
        assert body[1..] == "";
      }
    } else {
      ThroughDouble(body[1..]);
    }
  }

  lemma {:induction false} EscapedIsNeverQuoted(body: string)
    requires QuotesEscaped(body)
    ensures NeverQuoted(body)
    decreases |body|
  {
    if body == "" {
    } else if body[0] == '\\' {
      EscapedIsNeverQuoted(body[2..]);
    } else {
      EscapedIsNeverQuoted(body[1..]);
    }
  }

  lemma {:induction false} ThroughSubstitution(body: string, open: nat)
    requires OpenParens(body, open).Some?
    ensures Run(Subshell(open + 1), body) == Subshell(OpenParens(body, open).value + 1)
    decreases |body|
  {
    if body == "" {
    } else if body[0] == '(' {
      ThroughSubstitution(body[1..], open + 1);
    } else if body[0] == ')' {
      ThroughSubstitution(body[1..], open - 1);
    } else {
      ThroughSubstitution(body[1..], open);
    }
  }

  /** A mark, a body and the closing mark. */
  lemma RunQuoted(m: Mode, mark: char, body: string, close: char)
    ensures Run(m, [mark] + body) == Run(Next(m, mark), body)
    ensures Run(m, [mark] + body + [close]) == Next(Run(Next(m, mark), body), close)
  {
    assert ([mark] + body)[1..] == body;
    hide Next;
    assert Run(m, [mark] + body) == Run(Next(m, mark), body);
    hide Run;
    RunPushFrom(m, [mark] + body, close);
  }

  lemma RunPushFrom(m: Mode, a: string, c: char)
    ensures Run(m, a + [c]) == Next(Run(m, a), c)
  {
    RunAppend(m, a, [c]);
    assert [c][1..] == [];
  }

  lemma RunTwo(m: Mode, c: char, d: char)
    ensures Run(m, [c, d]) == Next(Next(m, c), d)
  {
    hide Next;
    assert [c, d][1..] == [d] && [d][1..] == [];
    assert Run(Next(m, c), [d]) == Run(Next(Next(m, c), d), []);
  }

  lemma RunSubstitution(m: Mode, body: string)
    requires Open(m) && OpenParens(body, 0).Some?
    ensures Run(m, "$(" + body).Subshell?
    ensures OpenParens(body, 0) == Some(0) ==> Run(m, "$(" + body + ")") == Plain
  {
    RunTwo(m, '$', '(');
    ThroughSubstitution(body, 0);
    SubstitutionSteps(m);
    var inside := Run(m, "$(" + body);
    assert "$(" == ['$', '('] && "$(" + body + ")" == ("$(" + body) + [')'];
    RunAppend(m, "$(", body);
    assert inside == Run(Subshell(1), body);
    RunPushFrom(m, "$(" + body, ')');
    assert Run(m, "$(" + body + ")") == Next(inside, ')');
  }

  lemma SubstitutionSteps(m: Mode)
    requires Open(m)
    ensures Next(Next(m, '$'), '(') == Subshell(1) && Next(Subshell(1), ')') == Plain
  {
  }

  /** Outside every quote a unit is read whole, and the lexer is outside every quote again. */
  lemma UnitIsRead(m: Mode, u: Unit)
    requires Open(m) && IsUnit(u)
    requires (m.Dollar? ==> u != Letter('(')) && (m.Ampersand? ==> u != Letter('&'))
    ensures var n := Run(m, UnitText(u));
            Open(n) && (n.Dollar? <==> u == Letter('$')) && (n.Ampersand? <==> u == Letter('&'))
  {
    match u
    case Letter(c) => RunPushFrom(m, "", c); assert "" + [c] == [c];
    case Escaped(c) => RunTwo(m, '\\', c);
    case SingleQuoted(body) => RunQuoted(m, '\'', body, '\''); ThroughSingle(body);
    case DoubleQuoted(body) =>
      RunQuoted(m, '"', body, '"');
      EscapedIsNeverQuoted(body);
      ThroughDouble(body);
    case BackQuoted(body) => RunQuoted(m, '`', body, '`'); ThroughBack(body);
    case Substitution(body) => RunSubstitution(m, body);
  }

  predicate Clashes(m: Mode, cmd: seq<Unit>) {
    cmd != [] && ((m.Dollar? && cmd[0] == Letter('(')) || (m.Ampersand? && cmd[0] == Letter('&')))
  }

  lemma {:induction false} CommandIsRead(m: Mode, cmd: seq<Unit>)
    requires Open(m) && IsCommand(cmd) && !Clashes(m, cmd)
    ensures var n := Run(m, CommandText(cmd));
            Open(n) && (n.Ampersand? ==> if cmd == [] then m.Ampersand? else cmd[|cmd| - 1] == Letter('&'))
    decreases |cmd|
  {
    hide Run, Next, UnitText, IsUnit;
    if cmd == [] {
      EmptyRunStays(m);
    } else {
      UnitIsRead(m, cmd[0]);
      RunAppend(m, UnitText(cmd[0]), CommandText(cmd[1..]));
      assert |cmd| > 1 ==> !Merge(cmd[0], cmd[1]);
      assert IsCommand(cmd[1..]) by { TailIsCommand(cmd); }
      CommandIsRead(Run(m, UnitText(cmd[0])), cmd[1..]);
    }
  }

  lemma TailIsCommand(cmd: seq<Unit>)
    requires cmd != [] && IsCommand(cmd)
    ensures IsCommand(cmd[1..])
  {
    hide IsUnit, Merge;
    assert forall i :: 0 <= i < |cmd[1..]| ==> cmd[1..][i] == cmd[i + 1];
    forall i | 0 <= i < |cmd[1..]| - 1
      ensures !Merge(cmd[1..][i], cmd[1..][i + 1])
    {
      assert !Merge(cmd[i + 1], cmd[i + 2]);
    }
  }

  /** Text that ends in the middle of something is not cut. */
  lemma OpenEndIsRead(m: Mode, end: OpenEnd)
    requires Open(m) && IsOpenEnd(end)
    ensures !Run(m, OpenText(end)).Broken?
  {
    match end
    case Nothing => EmptyRunStays(m);
    case LoneBackslash => RunPushFrom(m, "", '\\'); assert "" + ['\\'] == "\\"; EmptyRunStays(m);
    case OpenSingle(body) => RunQuoted(m, '\'', body, '\''); ThroughSingle(body);
    case OpenDouble(body) => RunQuoted(m, '"', body, '"'); ThroughDouble(body);
    case OpenBack(body) => RunQuoted(m, '`', body, '`'); ThroughBack(body);
    case OpenSubstitution(body) => RunSubstitution(m, body);
  }

  // The lexer reads the grammar

  lemma CommandBeforeOperator(cmd: seq<Unit>, op: string, rest: string)
    requires IsCommand(cmd) && IsOperator(op)
    requires op == "&&" ==> cmd == [] || cmd[|cmd| - 1] != Letter('&')
    requires op == "|" ==> rest == "" || rest[0] != '|'
    ensures Pieces(CommandText(cmd) + op + rest)
         == AsCommand(CommandText(cmd)) + [Operator(op)] + (if op == "|" then AsCommand(rest) else Pieces(rest))
  {
    hide Run, Break, FirstOperator, Pieces, Trim, IsCommand, CommandText;
    var text := CommandText(cmd);
    var s := text + op + rest;
    EmptyRunStays(Plain);
    CommandIsRead(Plain, cmd);
    assert s[..|text|] == text;
    assert s[|text|..|text| + |op|] == op;
    assert s[|text| + |op|..] == rest;
    OperatorAt(s, |text|, op);
    PiecesUnfold(s);
  }

  lemma LastCommandIsOnePiece(cmd: seq<Unit>, end: OpenEnd)
    requires IsCommand(cmd) && IsOpenEnd(end)
    ensures Pieces(CommandText(cmd) + OpenText(end)) == AsCommand(CommandText(cmd) + OpenText(end))
  {
    hide Run, Pieces, Trim, IsCommand, CommandText, OpenText, IsOpenEnd;
    CommandIsRead(Plain, cmd);
    RunAppend(Plain, CommandText(cmd), OpenText(end));
    OpenEndIsRead(Run(Plain, CommandText(cmd)), end);
    UnbrokenIsOnePiece(CommandText(cmd) + OpenText(end));
  }

  lemma {:induction false} PiecesOfLine(line: Line)
    requires IsLine(line)
    ensures Pieces(LineText(line)) == LineSegments(line)
  {
    hide Pieces, Trim, IsCommand, CommandText, IsOpenEnd, OpenText, AsCommand;
    match line
    case Last(cmd, end) => LastCommandIsOnePiece(cmd, end);
    case Piped(cmd, rest) => CommandBeforeOperator(cmd, "|", rest);
    case Cut(cmd, op, more) =>
      CommandBeforeOperator(cmd, op, LineText(more));
      PiecesOfLine(more);
  }

  /** The marks for which the lexer leaves a line whole. */
  ghost predicate Marked(s: string) {
    exists i: nat :: OccursAt(s, "<<", i) || OccursAt(s, "$((", i)
  }

  /** The lexer reads every line of the grammar as its segments, and leaves a marked line whole. */
  lemma SplitReadsTheGrammar(line: Line)
    requires IsLine(line)
    ensures !Marked(Trim(LineText(line))) ==> Split(LineText(line)) == LineSegments(line)
    ensures Marked(Trim(LineText(line))) ==> Split(LineText(line)) == AsCommand(LineText(line))
  {
    hide Pieces, Trim, LineText, LineSegments, IsLine, ContainsHeredoc;
    var s := LineText(line);
    PiecesOfLine(line);
    PiecesOfTrim(s);
    TrimIsTrimmed(s);
    EmptyPieces();
    MarkedMeans(Trim(s));
    MarkedIsNotBlank();
  }

  lemma MarkedMeans(s: string)
    ensures Marked(s) <==> ContainsHeredoc(s)
  {
    HeredocFreeMeans(s);
  }

  lemma MarkedIsNotBlank()
    ensures !Marked("")
  {
  }

  // Every input is a line of the grammar

  lemma SplitAt(s: string, k: nat)
    requires k < |s|
    ensures s == s[..k] + [s[k]] + s[k + 1..]
  {
  }

  /** Text after a double quote: up to the closing quote, or to the end of the input. */
  lemma {:induction false} ReadDouble(s: string) returns (body: string, rest: Option<string>)
    ensures match rest
            case Some(after) => QuotesEscaped(body) && s == body + "\"" + after
            case None => NeverQuoted(body) && s == body
    decreases |s|
  {
    if s == "" || s == "\\" {
      body, rest := s, None;
    } else if s[0] == '"' {
      body, rest := "", Some(s[1..]);
      assert s == "" + "\"" + s[1..];
    } else {
      var n := if s[0] == '\\' then 2 else 1;
      var b, r := ReadDouble(s[n..]);
      body, rest := s[..n] + b, r;
      assert s == s[..n] + s[n..] && body[n..] == b && body[0] == s[0];
    }
  }

  /** Text after `$(`: up to the matching parenthesis, or to the end of the input. */
  lemma {:induction false} ReadSubstitution(s: string, open: nat) returns (body: string, rest: Option<string>)
    ensures match rest
            case Some(after) => OpenParens(body, open) == Some(0) && s == body + ")" + after
            case None => OpenParens(body, open).Some? && s == body
    decreases |s|
  {
    if s == "" {
      body, rest := s, None;
    } else if s[0] == ')' && open == 0 {
      body, rest := "", Some(s[1..]);
      assert s == "" + ")" + s[1..];
    } else {
      var b, r := ReadSubstitution(s[1..], if s[0] == '(' then open + 1 else if s[0] == ')' then open - 1 else open);
      body, rest := [s[0]] + b, r;
      assert s == [s[0]] + s[1..] && body[1..] == b;
    }
  }

  lemma ReadUntil(s: string, mark: char) returns (body: string, rest: Option<string>)
    ensures mark !in body
    ensures match rest case Some(after) => s == body + [mark] + after case None => s == body
  {
    match IndexOf(s, mark)
    case None => body, rest := s, None;
    case Some(k) =>
      body, rest := s[..k], Some(s[k + 1..]);
      SplitAt(s, k);
      assert forall i :: 0 <= i < k ==> s[..k][i] == s[i];
  }

  function Prepend(u: Unit, line: Line): Line {
    match line
    case Last(cmd, end) => Last([u] + cmd, end)
    case Piped(cmd, rest) => Piped([u] + cmd, rest)
    case Cut(cmd, op, more) => Cut([u] + cmd, op, more)
  }

  lemma PrependedText(u: Unit, line: Line)
    ensures LineText(Prepend(u, line)) == UnitText(u) + LineText(line)
  {
    hide UnitText, CommandText;
    var cmd := line.cmd;
    PrependedCommand(u, cmd);
    match line
    case Last(_, end) => Reassociate(UnitText(u), CommandText(cmd), OpenText(end));
    case Piped(_, rest) => FourParts(UnitText(u), CommandText(cmd), "|", rest);
    case Cut(_, op, more) => FourParts(UnitText(u), CommandText(cmd), op, LineText(more));
  }

  lemma PrependedCommand(u: Unit, cmd: seq<Unit>)
    ensures CommandText([u] + cmd) == UnitText(u) + CommandText(cmd)
  {
    assert ([u] + cmd)[1..] == cmd;
  }

  lemma FourParts(a: string, b: string, c: string, d: string)
    ensures a + b + c + d == a + (b + c + d)
  {
  }

  /** A letter that what follows would make more than a letter. */
  predicate MeetsPartner(u: Unit, text: string) {
    text != "" && ((u == Letter('$') && text[0] == '(') || (u == Letter('&') && text[0] == '&'))
  }

  lemma FirstOfCommand(cmd: seq<Unit>)
    requires cmd != [] && IsUnit(cmd[0])
    ensures CommandText(cmd) != "" && (cmd[0].Letter? ==> CommandText(cmd)[0] == cmd[0].c)
  {
  }

  lemma PrependedIsCommand(u: Unit, cmd: seq<Unit>, rest: string)
    requires IsUnit(u) && IsCommand(cmd) && !MeetsPartner(u, CommandText(cmd) + rest)
    ensures IsCommand([u] + cmd)
  {
    hide IsUnit, CommandText;
    var all := [u] + cmd;
    if cmd != [] { FirstOfCommand(cmd); }
    forall i | 0 <= i < |all| - 1
      ensures !Merge(all[i], all[i + 1])
    {
      assert i > 0 ==> !Merge(cmd[i - 1], cmd[i]);
    }
  }

  lemma PrependedIsLine(u: Unit, line: Line)
    requires IsUnit(u) && IsLine(line) && !MeetsPartner(u, LineText(line))
    ensures IsLine(Prepend(u, line))
  {
    hide IsUnit, IsCommand, IsOpenEnd, CommandText, MeetsPartner;
    var cmd := line.cmd;
    match line
    case Last(_, end) => PrependedIsCommand(u, cmd, OpenText(end));
    case Piped(_, rest) =>
      Reassociate(CommandText(cmd), "|", rest);
      PrependedIsCommand(u, cmd, "|" + rest);
    case Cut(_, op, more) =>
      Reassociate(CommandText(cmd), op, LineText(more));
      PrependedIsCommand(u, cmd, op + LineText(more));
      LastOfPrepended(u, cmd, op, LineText(more));
  }

  lemma LastOfPrepended(u: Unit, cmd: seq<Unit>, op: string, rest: string)
    requires !MeetsPartner(u, CommandText(cmd) + op + rest) && op in {"&&", "||", ";"}
    requires op == "&&" ==> cmd == [] || cmd[|cmd| - 1] != Letter('&')
    ensures op == "&&" ==> ([u] + cmd)[|cmd|] != Letter('&')
  {
    if cmd == [] { assert (CommandText(cmd) + op + rest)[0] == op[0]; }
  }

  lemma Extend(u: Unit, rest: string, more: Line) returns (line: Line)
    requires IsUnit(u) && !MeetsPartner(u, rest) && IsLine(more) && LineText(more) == rest
    ensures IsLine(line) && LineText(line) == UnitText(u) + rest
  {
    line := Prepend(u, more);
    PrependedText(u, more);
    PrependedIsLine(u, more);
  }

  lemma NothingButTheEnd(end: OpenEnd)
    requires IsOpenEnd(end)
    ensures IsLine(Last([], end)) && LineText(Last([], end)) == OpenText(end)
  {
    assert "" + OpenText(end) == OpenText(end);
  }

  lemma CutFirst(op: string, rest: string, more: Line) returns (line: Line)
    requires op in {"&&", "||", ";"} && IsLine(more) && LineText(more) == rest
    ensures IsLine(line) && LineText(line) == op + rest
  {
    line := Cut([], op, more);
    EmptyCommand(op);
    hide CommandText, IsCommand;
  }

  lemma EmptyCommand(text: string)
    ensures IsCommand([]) && CommandText([]) + text == text
  {
  }

  /** Every input is the text of a line, so the grammar settles what the lexer does on all of them. */
  lemma {:induction false} EveryInputIsALine(s: string) returns (line: Line)
    ensures IsLine(line) && LineText(line) == s
    decreases |s|
  {
    hide IsLine, LineText, UnitText, IsOpenEnd, OpenText, QuotesEscaped, NeverQuoted, OpenParens;
    var start := StartOf(s);
    match start
    case TheEnd(end) =>
      NothingButTheEnd(end);
      line := Last([], end);
    case AUnit(u, rest) =>
      var more := EveryInputIsALine(rest);
      line := Extend(u, rest, more);
    case AnOperator(op, rest) =>
      var more := EveryInputIsALine(rest);
      line := CutFirst(op, rest, more);
    case APipe(rest) =>
      line := Piped([], rest);
      PipeFirst(rest);
  }

  lemma PipeFirst(rest: string)
    requires rest == "" || rest[0] != '|'
    ensures IsLine(Piped([], rest)) && LineText(Piped([], rest)) == "|" + rest
  {
    assert "" + "|" + rest == "|" + rest;
  }

  /** What an input starts with. */
  datatype Start =
    | TheEnd(end: OpenEnd)
    | AUnit(unit: Unit, rest: string)
    | AnOperator(op: string, rest: string)
    | APipe(rest: string)

  predicate Begins(start: Start, s: string) {
    match start
    case TheEnd(end) => IsOpenEnd(end) && OpenText(end) == s
    case AUnit(u, rest) => IsUnit(u) && !MeetsPartner(u, rest) && UnitText(u) + rest == s && |rest| < |s|
    case AnOperator(op, rest) => op in {"&&", "||", ";"} && op + rest == s && |rest| < |s|
    case APipe(rest) => "|" + rest == s && (rest == "" || rest[0] != '|')
  }

  lemma StartOf(s: string) returns (start: Start)
    ensures Begins(start, s)
  {
    if s == "" {
      start := TheEnd(Nothing);
    } else if s[0] in {'\'', '"', '`'} || (|s| > 1 && s[0] == '$' && s[1] == '(') {
      start := StartOfQuote(s);
    } else if s[0] == '\\' {
      if |s| == 1 {
        assert s == "\\";
        start := TheEnd(LoneBackslash);
      } else {
        assert s == ['\\', s[1]] + s[2..];
        start := AUnit(Escaped(s[1]), s[2..]);
      }
    } else if |s| > 1 && ((s[0] == '&' && s[1] == '&') || (s[0] == '|' && s[1] == '|')) {
      assert s == s[..2] + s[2..];
      assert s[..2] == if s[0] == '&' then "&&" else "||";
      start := AnOperator(s[..2], s[2..]);
    } else if s[0] == ';' {
      assert s == ";" + s[1..];
      start := AnOperator(";", s[1..]);
    } else if s[0] == '|' {
      assert s == "|" + s[1..];
      start := APipe(s[1..]);
    } else {
      assert s == [s[0]] + s[1..];
      start := AUnit(Letter(s[0]), s[1..]);
    }
  }

  lemma StartOfQuote(s: string) returns (start: Start)
    requires s != ""
    requires s[0] in {'\'', '"', '`'} || (|s| > 1 && s[0] == '$' && s[1] == '(')
    ensures Begins(start, s)
  {
    hide QuotesEscaped, NeverQuoted, OpenParens, Begins;
    assert s == [s[0]] + s[1..];
    if s[0] == '\'' {
      var body, rest := ReadUntil(s[1..], '\'');
      if rest.Some? { start := ClosedUnit(s, SingleQuoted(body), rest.value); } else { start := OpenUnit(s, OpenSingle(body)); }
    } else if s[0] == '"' {
      var body, rest := ReadDouble(s[1..]);
      if rest.Some? { start := ClosedUnit(s, DoubleQuoted(body), rest.value); } else { start := OpenUnit(s, OpenDouble(body)); }
    } else if s[0] == '`' {
      var body, rest := ReadUntil(s[1..], '`');
      if rest.Some? { start := ClosedUnit(s, BackQuoted(body), rest.value); } else { start := OpenUnit(s, OpenBack(body)); }
    } else {
      assert s == "$(" + s[2..];
      var body, rest := ReadSubstitution(s[2..], 0);
      if rest.Some? { start := ClosedUnit(s, Substitution(body), rest.value); } else { start := OpenUnit(s, OpenSubstitution(body)); }
    }
  }

  lemma ClosedUnit(s: string, u: Unit, rest: string) returns (start: Start)
    requires IsUnit(u) && !u.Letter? && s == UnitText(u) + rest
    ensures Begins(start, s)
  {
    hide IsUnit;
    start := AUnit(u, rest);
  }

  lemma OpenUnit(s: string, end: OpenEnd) returns (start: Start)
    requires IsOpenEnd(end) && s == OpenText(end)
    ensures Begins(start, s)
  {
    hide IsOpenEnd, OpenText;
    start := TheEnd(end);
  }

  // Quotes hide operators

  function Letters(s: string): seq<Unit> {
    seq(|s|, i requires 0 <= i < |s| => Letter(s[i]))
  }

  lemma {:induction false} LettersText(s: string)
    ensures CommandText(Letters(s)) == s
  {
    if s != "" {
      assert Letters(s)[0] == Letter(s[0]) && Letters(s)[1..] == Letters(s[1..]);
      LettersText(s[1..]);
    }
  }

  lemma {:induction false} TextAppends(a: seq<Unit>, b: seq<Unit>)
    ensures CommandText(a + b) == CommandText(a) + CommandText(b)
  {
    if a == [] {
      assert a + b == b && "" + CommandText(b) == CommandText(b);
    } else {
      assert (a + b)[0] == a[0] && (a + b)[1..] == a[1..] + b;
      TextAppends(a[1..], b);
      Reassociate(UnitText(a[0]), CommandText(a[1..]), CommandText(b));
    }
  }

  /** A word of letters, a blank and something quoted, escaped or substituted. */
  lemma QuotedArgument(word: string, u: Unit)
    requires Trimmed(word) && AllOrdinary(word) && IsUnit(u) && !u.Letter?
    ensures var cmd := Letters(word + " ") + [u];
            IsCommand(cmd) && CommandText(cmd) == word + " " + UnitText(u)
  {
    hide UnitText;
    var cmd := Letters(word + " ") + [u];
    LettersText(word + " ");
    TextAppends(Letters(word + " "), [u]);
    assert [u][1..] == [];
    assert CommandText([u]) == UnitText(u) + "" == UnitText(u);
    forall i | 0 <= i < |cmd|
      ensures IsUnit(cmd[i])
    {
    }
  }

  /** Whatever stands between quotes, back-quotes or the parentheses of a substitution is not cut, and
      the text after the closing mark is cut at its operators. */
  lemma QuotesHideOperators(word: string, u: Unit, op: string, more: Line)
    requires Trimmed(word) && AllOrdinary(word) && IsUnit(u) && !u.Letter? && !u.Escaped?
    requires op in {"&&", "||", ";"} && IsLine(more)
    requires !Marked(word + " " + UnitText(u)) && !Marked(Trim(word + " " + UnitText(u) + op + LineText(more)))
    ensures var cmd := word + " " + UnitText(u);
            && Split(cmd) == [Command(cmd)]
            && Split(cmd + op + LineText(more)) == [Command(cmd), Operator(op)] + LineSegments(more)
  {
    QuotedArgument(word, u);
    QuotedArgumentIsTrimmed(word, u);
    hide Trim, LineText, IsLine, IsCommand, CommandText, Marked, IsUnit, UnitText, LineSegments, Trimmed, Split;
    WholeLine(Letters(word + " ") + [u], word + " " + UnitText(u), op, more);
  }

  lemma QuotedArgumentIsTrimmed(word: string, u: Unit)
    requires Trimmed(word) && !u.Letter? && !u.Escaped?
    ensures Trim(word + " " + UnitText(u)) == word + " " + UnitText(u)
  {
    var cmd := word + " " + UnitText(u);
    assert cmd[0] == word[0] && !IsBlank(cmd[|cmd| - 1]);
    TrimIsTrimmed(cmd);
  }

  /** The two lines that end with a command of the grammar, or go on after it. */
  lemma WholeLine(units: seq<Unit>, cmd: string, op: string, more: Line)
    requires CommandText(units) == cmd && IsCommand(units) && op in {"&&", "||", ";"} && IsLine(more)
    requires units != [] && !units[|units| - 1].Letter? && Trim(cmd) == cmd && cmd != ""
    requires !Marked(cmd)
    ensures Split(cmd) == [Command(cmd)]
    ensures !Marked(Trim(cmd + op + LineText(more))) ==>
      Split(cmd + op + LineText(more)) == [Command(cmd), Operator(op)] + LineSegments(more)
  {
    hide CommandText, IsCommand, Trim, Marked, Split;
    var one, two := Last(units, Nothing), Cut(units, op, more);
    assert LineText(one) == cmd + "" == cmd;
    SplitReadsTheGrammar(one);
    SplitReadsTheGrammar(two);
    assert LineSegments(two) == [Command(cmd)] + [Operator(op)] + LineSegments(more);
    assert [Command(cmd)] + [Operator(op)] == [Command(cmd), Operator(op)];
  }
}
