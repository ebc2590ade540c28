/** Quoting arguments for a POSIX shell, and reading them back. */
module PosixQuoting {
  import opened Wrappers
  import opened Sequences

  /** Close the single quote, escape a quote, open it again, at each single quote. */
  function EscapeQuotes(s: string): string {
    Replace(s, "'", "'\\''")
  }

  predicate IsSafe(c: char) {
    || 'a' <= c <= 'z' || 'A' <= c <= 'Z' || '0' <= c <= '9'
    || c in {'-', '_', '.', '/', '=', ':', '@', ',', '+', '%', '^'}
  }

  predicate AllSafe(s: string) {
    forall i :: 0 <= i < |s| ==> IsSafe(s[i])
  }

  function QuotePosix(s: string): string {
    if s == "" then "''"
    else if AllSafe(s) then s
    else "'" + EscapeQuotes(s) + "'"
  }

  function JoinPosix(args: seq<string>): string {
    if args == [] then ""
    else if |args| == 1 then QuotePosix(args[0])
    else QuotePosix(args[0]) + " " + JoinPosix(args[1..])
  }

  // The reader, from sections 2.2 and 2.3 of the POSIX Shell Command Language

  /** Characters that mean something to the shell when they are not quoted: section 2.2. */
  predicate IsSpecial(c: char) {
    c in {'|', '&', ';', '<', '>', '(', ')', '$', '`', '"', '\n', '*', '?', '[', '#', '~'}
  }

  datatype Reading = Gap | Word | Quoted | Backslash

  /** The words of a line that uses blanks, single quotes and backslashes only; a line that
      uses any other shell syntax outside quotes has no reading here. */
  function ReadWords(s: string, m: Reading, word: string): Option<seq<string>>
    decreases |s|
  {
    if s == "" then
      match m
      case Gap => Some([])
      case Word => Some([word])
      case _ => None
    else
      var c, rest := s[0], s[1..];
      match m
      case Quoted => if c == '\'' then ReadWords(rest, Word, word) else ReadWords(rest, Quoted, word + [c])
      case Backslash => if c == '\n' then None else ReadWords(rest, Word, word + [c])
      case _ =>
        if c == ' ' || c == '\t' then
          if m.Gap? then ReadWords(rest, Gap, "")
          else
            match ReadWords(rest, Gap, "")
            case None => None
            case Some(words) => Some([word] + words)
        else if c == '\'' then ReadWords(rest, Quoted, word)
        else if c == '\\' then ReadWords(rest, Backslash, word)
        else if IsSpecial(c) then None
        else ReadWords(rest, Word, word + [c])
  }

  function Tokenise(line: string): Option<seq<string>> {
    ReadWords(line, Gap, "")
  }

  lemma EscapeStep(s: string, piece: string)
    requires s != [] && piece == if s[0] == '\'' then "'\\''" else [s[0]]
    ensures EscapeQuotes(s) == piece + EscapeQuotes(s[1..])
  {
    assert s[..1] == [s[0]];
  }

  /** Inside a quote, an escaped text reads as itself and the quote is open again. */
  lemma {:induction false} ReadEscaped(s: string, more: string, word: string)
    ensures ReadWords(EscapeQuotes(s) + more, Quoted, word) == ReadWords(more, Quoted, word + s)
    decreases |s|
  {
    if s == "" {
      assert EscapeQuotes(s) + more == more && word + s == word;
    } else {
      var piece := if s[0] == '\'' then "'\\''" else [s[0]];
      var tail := EscapeQuotes(s[1..]) + more;
      EscapeStep(s, piece);
      assert EscapeQuotes(s) + more == piece + tail;
      ReadPiece(s[0], piece, tail, word);
      ReadEscaped(s[1..], more, word + [s[0]]);
      assert word + [s[0]] + s[1..] == word + s;
    }
  }

  lemma ReadPiece(c: char, piece: string, tail: string, word: string)
    requires piece == if c == '\'' then "'\\''" else [c]
    ensures ReadWords(piece + tail, Quoted, word) == ReadWords(tail, Quoted, word + [c])
  {
    var s := piece + tail;
    if c == '\'' {
      assert s[0] == '\'' && s[1..][0] == '\\' && s[1..][1..][0] == '\'' && s[1..][1..][1..][0] == '\'';
      assert s[1..][1..][1..][1..] == tail;
      assert ReadWords(s, Quoted, word) == ReadWords(s[1..], Word, word);
      assert ReadWords(s[1..], Word, word) == ReadWords(s[1..][1..], Backslash, word);
      assert ReadWords(s[1..][1..], Backslash, word) == ReadWords(s[1..][1..][1..], Word, word + [c]);
    } else {
      assert s[1..] == tail;
    }
  }

  lemma {:induction false} ReadSafe(s: string, more: string, m: Reading, word: string)
    requires AllSafe(s) && (m.Word? || (m.Gap? && s != ""))
    ensures ReadWords(s + more, m, word) == ReadWords(more, Word, word + s)
    decreases |s|
  {
    if s == "" {
      assert s + more == more && word + s == word;
    } else {
      assert (s + more)[1..] == s[1..] + more;
      assert !IsSpecial(s[0]);
      ReadSafe(s[1..], more, Word, word + [s[0]]);
      assert word + [s[0]] + s[1..] == word + s;
    }
  }

  lemma ReadSingleQuoted(s: string, more: string)
    ensures ReadWords("'" + EscapeQuotes(s) + "'" + more, Gap, "") == ReadWords(more, Word, s)
  {
    var line := "'" + EscapeQuotes(s) + "'" + more;
    assert line[1..] == EscapeQuotes(s) + ("'" + more);
    ReadEscaped(s, "'" + more, "");
    assert "" + s == s;
    assert ("'" + more)[1..] == more;
  }

  /** A quoted argument is read back as itself, and its word is still open. */
  lemma ReadQuoted(s: string, more: string)
    ensures ReadWords(QuotePosix(s) + more, Gap, "") == ReadWords(more, Word, s)
  {
    if s == "" {
      assert EscapeQuotes("") == "";
      ReadSingleQuoted("", more);
      assert "'" + "" + "'" == "''";
    } else if AllSafe(s) {
      ReadSafe(s, more, Gap, "");
      assert "" + s == s;
    } else {
      ReadSingleQuoted(s, more);
    }
  }

  lemma ReadBlank(word: string, line: string)
    ensures ReadWords(" " + line, Word, word)
         == match Tokenise(line) case None => None case Some(words) => Some([word] + words)
  {
    assert (" " + line)[1..] == line;
  }

  /** The shell reads a joined command line back as exactly the arguments that were joined. */
  lemma {:induction false} JoinedArgumentsReadBack(args: seq<string>)
    ensures Tokenise(JoinPosix(args)) == Some(args)
    decreases |args|
  {
    if args == [] {
    } else if |args| == 1 {
      ReadQuoted(args[0], "");
      assert QuotePosix(args[0]) + "" == QuotePosix(args[0]);
      assert args == [args[0]];
    } else {
      var rest := JoinPosix(args[1..]);
      assert JoinPosix(args) == QuotePosix(args[0]) + (" " + rest);
      ReadQuoted(args[0], " " + rest);
      ReadBlank(args[0], rest);
      JoinedArgumentsReadBack(args[1..]);
      assert args == [args[0]] + args[1..];
    }
  }

  /** An argument is quoted only when it has to be. */
  lemma QuotedOnlyWhenNeeded(s: string)
    ensures QuotePosix(s) == s <==> s != "" && AllSafe(s)
  {
    if !AllSafe(s) { QuotingLengthens(s); }
  }

  lemma {:induction false} QuotingLengthens(s: string)
    ensures |EscapeQuotes(s)| >= |s|
  {
    if s == "" {
      assert EscapeQuotes("") == "";
    } else {
      EscapeStep(s, if s[0] == '\'' then "'\\''" else [s[0]]);
      QuotingLengthens(s[1..]);
    }
  }
}
