/** ASCII text: white space and the two kinds of trimming used throughout. */
module Text {
  import opened Sequences

  predicate IsBlank(c: char) {
    '\t' <= c <= '\r' || c == ' '
  }

  function Trim(s: string): string {
    Strip(s, IsBlank)
  }

  predicate StartsWith(s: string, prefix: string) {
    prefix <= s
  }

  /** Nonempty, with no white space at either end. */
  predicate Trimmed(s: string) {
    s != [] && !IsBlank(s[0]) && !IsBlank(s[|s| - 1])
  }

  lemma TrimIsTrimmed(s: string)
    ensures Trim(s) != [] ==> Trimmed(Trim(s))
    ensures Trimmed(s) ==> Trim(s) == s
  {
    StripMeets(s, IsBlank);
  }

  lemma TrimDropsOuterBlank(s: string, b: char)
    requires IsBlank(b)
    ensures Trim(s + [b]) == Trim(s) && Trim([b] + s) == Trim(s)
  {
    assert (s + [b])[..|s|] == s;
    LeadingBlank(s, b);
  }

  lemma {:induction false} LeadingBlank(s: string, b: char)
    requires IsBlank(b)
    ensures Trim([b] + s) == Trim(s)
  {
    if s == [] || !IsBlank(s[|s| - 1]) {
      assert StripEnd(s, IsBlank) == s;
      assert ([b] + s)[1..] == s;
      if s != [] {
        assert StripEnd([b] + s, IsBlank) == [b] + s;
      } else {
        assert ([b] + s)[..0] == [];
      }
    } else {
      assert ([b] + s)[..|s|] == [b] + s[..|s| - 1];
      LeadingBlank(s[..|s| - 1], b);
    }
  }
}

/** Words separated by white space. */
module WordSplitting {
  import opened Text

  /** The end of the word that starts at the beginning of `s`. */
  function WordEnd(s: string): (n: nat)
    ensures n <= |s|
    ensures forall i :: 0 <= i < n ==> !IsBlank(s[i])
    ensures n < |s| ==> IsBlank(s[n])
  {
    if s == "" || IsBlank(s[0]) then 0 else 1 + WordEnd(s[1..])
  }

  /** `split_whitespace`. */
  function Words(s: string): seq<string>
    decreases |s|
  {
    if s == "" then []
    else if IsBlank(s[0]) then Words(s[1..])
    else [s[..WordEnd(s)]] + Words(s[WordEnd(s)..])
  }

  function JoinWords(words: seq<string>): string {
    if words == [] then ""
    else if |words| == 1 then words[0]
    else words[0] + " " + JoinWords(words[1..])
  }

  predicate IsWord(w: string) {
    w != "" && forall i :: 0 <= i < |w| ==> !IsBlank(w[i])
  }

  lemma {:induction false} WordsAreWords(s: string)
    ensures forall i :: 0 <= i < |Words(s)| ==> IsWord(Words(s)[i])
    decreases |s|
  {
    if s != "" {
      if IsBlank(s[0]) { WordsAreWords(s[1..]); } else { WordsAreWords(s[WordEnd(s)..]); }
    }
  }

  lemma {:induction false} WordEndIs(w: string, rest: string)
    requires IsWord(w) && (rest == "" || IsBlank(rest[0]))
    ensures WordEnd(w + rest) == |w|
    decreases |w|
  {
    var s := w + rest;
    assert s[1..] == w[1..] + rest;
    if |w| > 1 {
      WordEndIs(w[1..], rest);
    } else {
      assert w[1..] + rest == rest;
    }
  }

  /** Words joined by single blanks split back into the same words. */
  lemma {:induction false} WordsOfJoined(words: seq<string>)
    requires forall i :: 0 <= i < |words| ==> IsWord(words[i])
    ensures Words(JoinWords(words)) == words
    decreases |words|
  {
    if |words| == 1 {
      OneWord(words[0]);
    } else if words != [] {
      WordThenRest(words[0], JoinWords(words[1..]));
      WordsOfJoined(words[1..]);
      hide Words, WordEnd, IsWord;
      assert JoinWords(words) == words[0] + " " + JoinWords(words[1..]);
      assert words == [words[0]] + words[1..];
    }
  }

  lemma OneWord(w: string)
    requires IsWord(w)
    ensures Words(w) == [w]
  {
    WordEndIs(w, "");
    FirstWord(w);
    assert w + "" == w;
    assert w[|w|..] == "" && w[..|w|] == w;
  }

  lemma WordThenRest(w: string, rest: string)
    requires IsWord(w)
    ensures Words(w + " " + rest) == [w] + Words(rest)
  {
    var s := w + " " + rest;
    WordEndIs(w, " " + rest);
    assert s == w + (" " + rest);
    FirstWord(s);
    hide WordEnd;
    assert s[..|w|] == w && s[|w|..] == " " + rest;
    assert (" " + rest)[1..] == rest;
  }

  lemma FirstWord(s: string)
    requires s != "" && !IsBlank(s[0])
    ensures 0 < WordEnd(s) && Words(s) == [s[..WordEnd(s)]] + Words(s[WordEnd(s)..])
  {
  }
}

/** Text as lines. */
module LineSplitting {
  import opened Sequences

  function WithoutCarriageReturn(line: string): string {
    if line != "" && line[|line| - 1] == '\r' then line[..|line| - 1] else line
  }

  /** `lines`: a line feed ends a line, along with one carriage return before it. */
  function Lines(s: string): (r: seq<string>)
    ensures forall i :: 0 <= i < |r| ==> '\n' !in r[i]
    ensures r == [] <==> s == ""
    decreases |s|
  {
    match IndexOf(s, '\n')
    case None => if s == "" then [] else [s]
    case Some(k) => [WithoutCarriageReturn(s[..k])] + Lines(s[k + 1..])
  }

  /** `split('\n')`. */
  function SplitAtFeeds(s: string): seq<string>
    decreases |s|
  {
    match IndexOf(s, '\n')
    case None => [s]
    case Some(k) => [s[..k]] + SplitAtFeeds(s[k + 1..])
  }

  function JoinLines(lines: seq<string>): string {
    if lines == [] then ""
    else if |lines| == 1 then lines[0]
    else lines[0] + "\n" + JoinLines(lines[1..])
  }

  /** Joined lines split back into the same lines. */
  lemma {:induction false} SplitOfJoined(lines: seq<string>)
    requires lines != [] && forall i :: 0 <= i < |lines| ==> '\n' !in lines[i]
    ensures SplitAtFeeds(JoinLines(lines)) == lines
  {
    var first, s := lines[0], JoinLines(lines);
    if |lines| == 1 {
      IndexOfNone(s, '\n');
    } else {
      var rest := JoinLines(lines[1..]);
      assert s == first + ("\n" + rest);
      IndexOfIs(s, '\n', |first|);
      assert s[..|first|] == first && s[|first| + 1..] == rest;
      SplitOfJoined(lines[1..]);
    }
  }
}
