/** How a POSIX shell reads a command wrapped for the client binary. */
module WrappedCommands {
  import opened Wrappers
  import opened PosixQuoting
  import opened ShellRewrite

  /** The words a shell has completed after reading `s`, what it is inside of, and the word under
      way. */
  datatype Progress = Progress(words: seq<string>, mode: Reading, word: string)

  function Prepend(word: string, p: Option<Progress>): Option<Progress> {
    match p
    case None => None
    case Some(q) => Some(q.(words := [word] + q.words))
  }

  function Scan(s: string, m: Reading, word: string): Option<Progress>
    decreases |s|
  {
    if s == "" then Some(Progress([], m, word))
    else
      var c, rest := s[0], s[1..];
      match m
      case Quoted => if c == '\'' then Scan(rest, Word, word) else Scan(rest, Quoted, word + [c])
      case Backslash => if c == '\n' then None else Scan(rest, Word, word + [c])
      case _ =>
        if c == ' ' || c == '\t' then
          if m.Gap? then Scan(rest, Gap, "") else Prepend(word, Scan(rest, Gap, ""))
        else if c == '\'' then Scan(rest, Quoted, word)
        else if c == '\\' then Scan(rest, Backslash, word)
        else if IsSpecial(c) then None
        else Scan(rest, Word, word + [c])
  }

  function AddWords(words: seq<string>, more: Option<seq<string>>): Option<seq<string>> {
    match more
    case None => None
    case Some(ws) => Some(words + ws)
  }

  /** Reading a line is scanning its first part and reading on from there. */
  lemma {:induction false} ReadAfterScan(s: string, t: string, m: Reading, word: string)
    ensures ReadWords(s + t, m, word) ==
            match Scan(s, m, word)
            case None => None
            case Some(p) => AddWords(p.words, ReadWords(t, p.mode, p.word))
    decreases |s|
  {
    if s == "" {
      assert s + t == t;
      AddNoWords(ReadWords(t, m, word));
    } else {
      var c, rest := s[0], s[1..];
      var line := s + t;
      assert line[0] == c && line[1..] == rest + t;
      match m
      case Quoted => ReadAfterScan(rest, t, if c == '\'' then Word else Quoted, if c == '\'' then word else word + [c]);
      case Backslash => ReadAfterScan(rest, t, Word, word + [c]);
      case _ =>
        if c == ' ' || c == '\t' {
          ReadAfterScan(rest, t, Gap, "");
          match Scan(rest, Gap, "") {
            case None =>
            case Some(p) => AddOneWord(word, p.words, ReadWords(t, p.mode, p.word));
          }
        } else if c == '\'' {
          ReadAfterScan(rest, t, Quoted, word);
        } else if c == '\\' {
          ReadAfterScan(rest, t, Backslash, word);
        } else {
          ReadAfterScan(rest, t, Word, word + [c]);
        }
    }
  }

  lemma AddNoWords(more: Option<seq<string>>)
    ensures AddWords([], more) == more
  {
    match more
    case None =>
    case Some(ws) => assert [] + ws == ws;
  }

  lemma AddOneWord(word: string, words: seq<string>, more: Option<seq<string>>)
    ensures AddWords([word] + words, more) == AddWords([word], AddWords(words, more))
  {
    match more
    case None =>
    case Some(ws) => assert [word] + words + ws == [word] + (words + ws);
  }

  /** A line has a reading exactly when its scan ends outside quotes. */
  lemma TokeniseIsScan(s: string)
    ensures Tokenise(s) ==
            match Scan(s, Gap, "")
            case None => None
            case Some(p) =>
              if p.mode.Gap? then Some(p.words)
              else if p.mode.Word? then Some(p.words + [p.word])
              else None
  {
    ReadAfterScan(s, "", Gap, "");
    assert s + "" == s;
    match Scan(s, Gap, "")
    case None =>
    case Some(p) => assert p.words + [] == p.words;
  }

  function Tail(cmd: string): string {
    " -c '" + EscapeQuotes(cmd) + "'"
  }

  /** After a complete word or a gap, the flag and the command are read as two words. */
  lemma TailReadsAsTwoWords(cmd: string, word: string)
    ensures ReadWords(Tail(cmd), Word, word) == Some([word, "-c", cmd])
    ensures ReadWords(Tail(cmd), Gap, word) == Some(["-c", cmd])
  {
    hide ReadWords, EscapeQuotes;
    var quoted := "'" + EscapeQuotes(cmd) + "'";
    assert Tail(cmd) == " " + ("-c" + (" " + quoted));
    ReadBlank(word, "-c" + (" " + quoted));
    GapBlank(word, "-c" + (" " + quoted));
    ReadSafe("-c", " " + quoted, Gap, "");
    ReadBlank("-c", quoted);
    ReadSingleQuoted(cmd, "");
    assert quoted + "" == quoted && "" + "-c" == "-c";
    LastWord(cmd);
    assert [word] + ["-c", cmd] == [word, "-c", cmd] && ["-c"] + [cmd] == ["-c", cmd];
  }

  lemma GapBlank(word: string, line: string)
    ensures ReadWords(" " + line, Gap, word) == Tokenise(line)
  {
    assert (" " + line)[1..] == line;
  }

  /** The last word of a wrapped command is the command itself whatever the binary, as long as the
      binary closes its own quotes: the shell reads the binary's words, the flag and the command. */
  lemma WrappedCommandReadsBack(cmd: string, binary: string)
    requires Tokenise(binary).Some?
    ensures Tokenise(WrapSingleCommand(cmd, binary)) == Some(Tokenise(binary).value + ["-c", cmd])
  {
    hide ReadWords, EscapeQuotes, Scan;
    TokeniseIsScan(binary);
    var p := Scan(binary, Gap, "").value;
    assert WrapSingleCommand(cmd, binary) == binary + Tail(cmd);
    ReadAfterScan(binary, Tail(cmd), Gap, "");
    TailReadsAsTwoWords(cmd, p.word);
    assert p.words + [p.word, "-c", cmd] == p.words + [p.word] + ["-c", cmd];
  }

  /** A path with a blank is read as two words. */
  lemma ABinaryWithABlank(cmd: string)
    ensures Tokenise(WrapSingleCommand(cmd, "a b")) == Some(["a", "b", "-c", cmd])
  {
    hide EscapeQuotes, ReadWords;
    assert "a b" == "a" + " b" && " b" == " " + "b" && "b" + "" == "b" && "" + "a" == "a" && "" + "b" == "b";
    ReadSafe("a", " b", Gap, "");
    ReadBlank("a", "b");
    ReadSafe("b", "", Gap, "");
    LastWord("b");
    assert ["a"] + ["b"] == ["a", "b"];
    WrappedCommandReadsBack(cmd, "a b");
    assert ["a", "b"] + ["-c", cmd] == ["a", "b", "-c", cmd];
  }

  // A binary that leaves a quote open is never read as itself

  function Count(s: string, c: char): nat {
    if s == "" then 0 else (if s[0] == c then 1 else 0) + Count(s[1..], c)
  }

  lemma {:induction false} CountAppend(s: string, t: string, c: char)
    ensures Count(s + t, c) == Count(s, c) + Count(t, c)
  {
    if s == "" {
      assert s + t == t;
    } else {
      assert (s + t)[1..] == s[1..] + t;
      CountAppend(s[1..], t, c);
    }
  }

  lemma CountOne(s: string, x: char, c: char)
    ensures Count(s + [x], c) == Count(s, c) + if x == c then 1 else 0
  {
    CountAppend(s, [x], c);
    assert [x][1..] == "";
  }

  predicate KeepsRead(s: string, word: string, p: Progress) {
    && (p.words == [] ==> Count(p.word, 'c') == Count(word, 'c') + Count(s, 'c'))
    && (p.words != [] ==> |p.words[0]| < |word| + |s|)
  }

  /** What is kept of the rest is kept of the whole: when the next character joins the word, when it
      ends the word and when it opens or closes a quote. */
  lemma KeepsStep(s: string, word: string)
    requires s != ""
    ensures forall p :: KeepsRead(s[1..], word + [s[0]], p) ==> KeepsRead(s, word, p)
    ensures forall p :: KeepsRead(s[1..], word, p) && s[0] != 'c' ==> KeepsRead(s, word, p)
    ensures forall p: Progress :: KeepsRead(s, word, p.(words := [word] + p.words))
    ensures forall p :: KeepsRead(s[1..], "", p) && word == "" && s[0] != 'c' ==> KeepsRead(s, word, p)
  {
    CountOne(word, s[0], 'c');
  }

  /** While no word is complete, the word under way has every `c` of what was read; a first word
      that is complete is shorter than what was read. */
  lemma {:induction false} ScanKeeps(s: string, m: Reading, word: string)
    requires m.Gap? ==> word == ""
    ensures Scan(s, m, word).Some? ==> KeepsRead(s, word, Scan(s, m, word).value)
    decreases |s|
  {
    if s != "" {
      var c, rest := s[0], s[1..];
      KeepsStep(s, word);
      hide Count, KeepsRead;
      match m
      case Quoted => ScanKeeps(rest, if c == '\'' then Word else Quoted, if c == '\'' then word else word + [c]);
      case Backslash => ScanKeeps(rest, Word, word + [c]);
      case _ =>
        if c == ' ' || c == '\t' {
          ScanKeeps(rest, Gap, "");
        } else if c == '\'' {
          ScanKeeps(rest, Quoted, word);
        } else if c == '\\' {
          ScanKeeps(rest, Backslash, word);
        } else {
          ScanKeeps(rest, Word, word + [c]);
        }
    }
  }

  /** What is read inside a word starts with that word. */
  lemma {:induction false} WordGrows(s: string, m: Reading, word: string)
    requires !m.Gap? && ReadWords(s, m, word).Some?
    ensures var ws := ReadWords(s, m, word).value; ws != [] && word <= ws[0]
    decreases |s|
  {
    if s != "" {
      var c, rest := s[0], s[1..];
      match m
      case Quoted => WordGrows(rest, if c == '\'' then Word else Quoted, if c == '\'' then word else word + [c]);
      case Backslash => WordGrows(rest, Word, word + [c]);
      case Gap =>
      case Word =>
        if c == ' ' || c == '\t' {
        } else if c == '\'' {
          WordGrows(rest, Quoted, word);
        } else if c == '\\' {
          WordGrows(rest, Backslash, word);
        } else {
          WordGrows(rest, Word, word + [c]);
        }
    }
  }

  /** Inside a quote or after a backslash, the flag becomes part of the word under way. */
  lemma TailInsideAQuote(cmd: string, m: Reading, word: string)
    requires (m.Quoted? || m.Backslash?) && ReadWords(Tail(cmd), m, word).Some?
    ensures var ws := ReadWords(Tail(cmd), m, word).value; ws != [] && word + " -c" <= ws[0]
  {
    hide EscapeQuotes;
    var flag, rest := " -c", " '" + EscapeQuotes(cmd) + "'";
    assert Tail(cmd) == flag + rest;
    ReadAfterScan(flag, rest, m, word);
    assert flag[1..] == "-c" && "-c"[1..] == "c" && "c"[1..] == "";
    assert word + [' '] + ['-'] + ['c'] == word + flag;
    var p := Scan(flag, m, word).value;
    assert p == Progress([], if m.Quoted? then Quoted else Word, word + flag);
    WordGrows(rest, p.mode, p.word);
    AddNoWords(ReadWords(rest, p.mode, p.word));
  }

  lemma OpenQuoteHidesTheBinary(cmd: string, binary: string)
    requires Tokenise(binary).None?
    ensures Tokenise(WrapSingleCommand(cmd, binary)) != Some([binary, "-c", cmd])
  {
    hide ReadWords, EscapeQuotes, Scan;
    TokeniseIsScan(binary);
    assert WrapSingleCommand(cmd, binary) == binary + Tail(cmd);
    ReadAfterScan(binary, Tail(cmd), Gap, "");
    ScanKeeps(binary, Gap, "");
    var scanned := Scan(binary, Gap, "");
    if scanned.Some? && ReadWords(Tail(cmd), scanned.value.mode, scanned.value.word).Some? {
      var p := scanned.value;
      TailInsideAQuote(cmd, p.mode, p.word);
      var ws := ReadWords(Tail(cmd), p.mode, p.word).value;
      assert Tokenise(WrapSingleCommand(cmd, binary)) == Some(p.words + ws);
      assert (p.words + ws)[0] == if p.words == [] then ws[0] else p.words[0];
      if p.words == [] {
        var rest := ws[0][|p.word + " -c"|..];
        assert ws[0] == p.word + " -c" + rest;
        CountAppend(p.word + " -c", rest, 'c');
        CountAppend(p.word, " -c", 'c');
        assert " -c"[1..] == "-c" && "-c"[1..] == "c" && "c"[1..] == "";
        assert Count(ws[0], 'c') > Count(p.word, 'c') == Count(binary, 'c');
      }
    }
  }

  /** The shell reads a wrapped command as exactly the given path, the flag and the command if and only
      if the path is one word to the shell. */
  lemma BinaryReadsBackExactlyWhen(cmd: string, binary: string)
    ensures Tokenise(WrapSingleCommand(cmd, binary)) == Some([binary, "-c", cmd])
       <==> Tokenise(binary) == Some([binary])
  {
    hide ReadWords, EscapeQuotes;
    match Tokenise(binary)
    case None => OpenQuoteHidesTheBinary(cmd, binary);
    case Some(words) =>
      WrappedCommandReadsBack(cmd, binary);
      assert [binary] + ["-c", cmd] == [binary, "-c", cmd];
      if words + ["-c", cmd] == [binary, "-c", cmd] {
        assert |words + ["-c", cmd]| == 3;
        assert words == [words[0]] && (words + ["-c", cmd])[0] == words[0];
      }
  }

  /** Paths made of safe characters are. */
  lemma SafeBinaryIsOneWord(binary: string)
    requires binary != "" && AllSafe(binary)
    ensures Tokenise(binary) == Some([binary])
  {
    ReadSafe(binary, "", Gap, "");
    LastWord(binary);
    assert binary + "" == binary && "" + binary == binary;
  }

  lemma LastWord(word: string)
    ensures ReadWords("", Word, word) == Some([word])
  {
  }
}
