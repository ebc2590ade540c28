/** A block of text kept between two markers in a file that otherwise belongs to the user. */
module MarkedBlock {
  import opened Wrappers
  import opened Sequences
  import opened Text

  predicate IsFeed(c: char) {
    c == '\n'
  }

  function TrimEnd(s: string): string {
    StripEnd(s, IsBlank)
  }

  function Joined(pre: string, post: string): string {
    var before, after := StripEnd(pre, IsFeed), StripStart(post, IsFeed);
    if after == "" then before else before + "\n" + after
  }

  /** `remove_content`. */
  function RemoveContent(content: string, start: string, end: string): string {
    var s, e := Find(content, start), Find(content, end);
    if s.Some? && e.Some? && s.value <= e.value
    then Joined(content[..s.value], content[e.value + |end|..])
    else content
  }

  /** What comes before the block when text that ends in `t` has been cleaned. */
  function Head(t: string): string {
    (if t == "" then "" else t + "\n") + "\n"
  }

  function InstallHead(existing: string): string {
    if existing == "" then ""
    else if existing[|existing| - 1] == '\n' then existing + "\n"
    else existing + "\n\n"
  }

  function Upserted(existing: string, start: string, end: string, block: string): string {
    (if Contains(existing, start) then Head(TrimEnd(RemoveContent(existing, start, end))) else InstallHead(existing))
    + block + "\n"
  }

  function Removed(existing: string, start: string, end: string): string {
    if Contains(existing, start) then TrimEnd(RemoveContent(existing, start, end)) + "\n" else existing
  }

  /** The file: its text, or nothing while it cannot be read. */
  class MarkedFile {
    var text: Option<string>

    constructor (text: Option<string>)
      ensures this.text == text
    {
      this.text := text;
    }

    method Upsert(start: string, end: string, block: string)
      modifies this
      ensures text == Some(Upserted(old(text).GetOr(""), start, end, block))
    {
      var existing := text.GetOr("");
      var out;
      if Contains(existing, start) {
        var cleaned := RemoveContent(existing, start, end);
        out := TrimEnd(cleaned);
        if out != "" {
          out := out + "\n";
        }
        out := out + "\n";
        out := out + block;
        out := out + "\n";
      } else {
        out := existing;
        if out != "" && out[|out| - 1] != '\n' {
          out := out + "\n";
        }
        if out != "" {
          out := out + "\n";
        }
        assert out == InstallHead(existing);
        out := out + block;
        out := out + "\n";
      }
      text := Some(out);
    }

    method RemoveFromFile(start: string, end: string)
      modifies this
      ensures text == if old(text).None? then None else Some(Removed(old(text).value, start, end))
    {
      if text.None? {
        return;
      }
      if !Contains(text.value, start) {
        return;
      }
      var cleaned := RemoveContent(text.value, start, end);
      text := Some(TrimEnd(cleaned) + "\n");
    }
  }

  // Well-formed blocks

  predicate IsMarker(m: string) {
    m != "" && '\n' !in m
  }

  predicate AreMarkers(start: string, end: string) {
    IsMarker(start) && IsMarker(end)
  }

  ghost predicate OccursOnlyAt(s: string, m: string, k: int) {
    forall i: nat :: OccursAt(s, m, i) <==> i == k
  }

  ghost predicate Absent(s: string, m: string) {
    forall i: nat :: !OccursAt(s, m, i)
  }

  /** The start marker begins the block, the end marker ends it, and neither occurs elsewhere in it. */
  ghost predicate WellFormed(block: string, start: string, end: string) {
    OccursOnlyAt(block, start, 0) && OccursOnlyAt(block, end, |block| - |end|) && |end| <= |block|
  }

  ghost predicate MarkerFree(s: string, start: string, end: string) {
    Absent(s, start) && Absent(s, end)
  }

  /** `content` is `pre`, a block, and `post`, and holds no other marker. */
  ghost predicate HasOneBlock(content: string, pre: string, block: string, post: string, start: string, end: string) {
    && content == pre + block + post
    && |start| <= |block| && |end| <= |block|
    && OccursOnlyAt(content, start, |pre|)
    && OccursOnlyAt(content, end, |pre| + |block| - |end|)
  }

  lemma PrefixIsAbsent(s: string, m: string, n: nat)
    requires n <= |s| && forall i: nat :: i + |m| <= n ==> !OccursAt(s, m, i)
    ensures Absent(s[..n], m)
  {
    forall i: nat
      ensures !OccursAt(s[..n], m, i)
    {
      assert i + |m| <= n ==> !OccursAt(s, m, i) && s[..n][i..i + |m|] == s[i..i + |m|];
    }
  }

  lemma SuffixIsAbsent(s: string, m: string, n: nat)
    requires n <= |s| && forall i: nat :: n <= i ==> !OccursAt(s, m, i)
    ensures Absent(s[n..], m)
  {
    forall i: nat
      ensures !OccursAt(s[n..], m, i)
    {
      assert !OccursAt(s, m, n + i);
      assert n + i + |m| <= |s| ==> s[n..][i..i + |m|] == s[n + i..n + i + |m|];
    }
  }

  /** A marker holds no line feed, so it cannot reach across one. */
  lemma OccursOnOneSide(x: string, y: string, m: string, i: nat)
    requires IsMarker(m)
    ensures OccursAt(x + "\n" + y, m, i) ==> OccursAt(x, m, i) || (i > |x| && OccursAt(y, m, i - |x| - 1))
  {
    var s := x + "\n" + y;
    assert s[|x|] == '\n';
    if i <= |x| < i + |m| <= |s| {
      assert s[i..i + |m|][|x| - i] == '\n';
      assert m[|x| - i] in m;
    }
    assert i + |m| <= |x| ==> s[i..i + |m|] == x[i..i + |m|];
    assert |x| < i && i + |m| <= |s| ==> s[i..i + |m|] == y[i - |x| - 1..i - |x| - 1 + |m|];
  }

  lemma AbsentAcrossFeed(x: string, y: string, m: string)
    requires IsMarker(m) && Absent(x, m) && Absent(y, m)
    ensures Absent(x + "\n" + y, m)
  {
    forall i: nat
      ensures !OccursAt(x + "\n" + y, m, i)
    {
      OccursOnOneSide(x, y, m, i);
    }
  }

  lemma AbsentFromFeed(m: string)
    requires IsMarker(m)
    ensures Absent("", m) && Absent("\n", m)
  {
    AbsentAcrossFeed("", "", m);
    assert "" + "\n" + "" == "\n";
  }

  lemma JoinedIsMarkerFree(pre: string, post: string, m: string)
    requires IsMarker(m) && Absent(pre, m) && Absent(post, m)
    ensures Absent(Joined(pre, post), m)
  {
    var before, after := StripEnd(pre, IsFeed), StripStart(post, IsFeed);
    StripEndIsPrefix(pre, IsFeed);
    StripStartIsSuffix(post, IsFeed);
    PrefixIsAbsent(pre, m, |before|);
    SuffixIsAbsent(post, m, |post| - |after|);
    AbsentAcrossFeed(before, after, m);
  }

  lemma OutsideIsAbsent(content: string, pre: string, block: string, post: string, m: string, k: nat)
    requires content == pre + block + post && OccursOnlyAt(content, m, k)
    requires |pre| <= k && k + |m| <= |pre| + |block| && m != ""
    ensures Absent(pre, m) && Absent(post, m)
  {
    assert content[..|pre|] == pre && content[|pre| + |block|..] == post;
    PrefixIsAbsent(content, m, |pre|);
    SuffixIsAbsent(content, m, |pre| + |block|);
  }

  lemma RemovingTheOneBlock(content: string, pre: string, block: string, post: string, start: string, end: string)
    requires AreMarkers(start, end) && HasOneBlock(content, pre, block, post, start, end)
    ensures Contains(content, start) && RemoveContent(content, start, end) == Joined(pre, post)
    ensures MarkerFree(Joined(pre, post), start, end)
  {
    assert OccursAt(content, start, |pre|) && OccursAt(content, end, |pre| + |block| - |end|);
    assert content[..|pre|] == pre && content[|pre| + |block|..] == post;
    OutsideIsAbsent(content, pre, block, post, start, |pre|);
    OutsideIsAbsent(content, pre, block, post, end, |pre| + |block| - |end|);
    JoinedIsMarkerFree(pre, post, start);
    JoinedIsMarkerFree(pre, post, end);
  }

  lemma TrimmedIsAbsent(s: string, m: string)
    requires Absent(s, m)
    ensures Absent(TrimEnd(s), m)
  {
    StripEndIsPrefix(s, IsBlank);
    PrefixIsAbsent(s, m, |TrimEnd(s)|);
  }

  /** A marker occurs in a block that starts a line and ends with a line feed only where it
      occurs in the block itself. */
  lemma OnlyInTheBlock(head: string, block: string, m: string, k: nat)
    requires IsMarker(m) && Absent(head, m) && OccursOnlyAt(block, m, k)
    requires head == "" || head[|head| - 1] == '\n'
    ensures OccursOnlyAt(head + block + "\n", m, |head| + k)
  {
    var s := head + block + "\n";
    AbsentFromFeed(m);
    forall i: nat
      ensures OccursAt(s, m, i) <==> i == |head| + k
    {
      OccursOnOneSide(head + block, "", m, i);
      assert s == head + block + "\n" + "";
      assert i + |m| <= |head + block| ==> s[i..i + |m|] == (head + block)[i..i + |m|];
      InTheBlock(head, block, m, i);
    }
  }

  lemma InTheBlock(head: string, block: string, m: string, i: nat)
    requires IsMarker(m) && Absent(head, m)
    requires head == "" || head[|head| - 1] == '\n'
    ensures OccursAt(head + block, m, i) <==> i >= |head| && OccursAt(block, m, i - |head|)
  {
    var s := head + block;
    assert i >= |head| && i + |m| <= |s| ==> s[i..i + |m|] == block[i - |head|..i - |head| + |m|];
    if i < |head| {
      var x := head[..|head| - 1];
      assert s == x + "\n" + block;
      OccursOnOneSide(x, block, m, i);
      assert i + |m| <= |x| ==> x[i..i + |m|] == head[i..i + |m|];
      assert !OccursAt(head, m, i);
    }
  }

  lemma BlockAtEnd(head: string, block: string, start: string, end: string)
    requires AreMarkers(start, end) && WellFormed(block, start, end) && MarkerFree(head, start, end)
    requires head == "" || head[|head| - 1] == '\n'
    ensures HasOneBlock(head + block + "\n", head, block, "\n", start, end)
  {
    OnlyInTheBlock(head, block, start, 0);
    OnlyInTheBlock(head, block, end, |block| - |end|);
    assert OccursAt(block, start, 0);
  }

  lemma HeadIsMarkerFree(t: string, m: string)
    requires IsMarker(m) && Absent(t, m)
    ensures Absent(Head(t), m)
  {
    AbsentFromFeed(m);
    AbsentAcrossFeed(t, "\n", m);
    assert Head(t) == if t == "" then "\n" else t + "\n" + "\n";
  }

  lemma InstallHeadIsMarkerFree(existing: string, m: string)
    requires IsMarker(m) && Absent(existing, m)
    ensures Absent(InstallHead(existing), m)
  {
    AbsentFromFeed(m);
    AbsentAcrossFeed(existing, "", m);
    AbsentAcrossFeed(existing, "\n", m);
    assert existing + "\n" + "" == existing + "\n" && existing + "\n" + "\n" == existing + "\n\n";
  }

  // The laws

  /** Updating: exactly one block is left, at the end, after the other text. */
  lemma UpdatingLeavesOneBlock(content: string, pre: string, stale: string, post: string,
                               start: string, end: string, block: string)
    requires AreMarkers(start, end) && WellFormed(block, start, end)
    requires HasOneBlock(content, pre, stale, post, start, end)
    ensures var head := Head(TrimEnd(Joined(pre, post))); var updated := Upserted(content, start, end, block);
            && MarkerFree(head, start, end)
            && HasOneBlock(updated, head, block, "\n", start, end)
  {
    RemovingTheOneBlock(content, pre, stale, post, start, end);
    var rest := Joined(pre, post);
    TrimmedIsAbsent(rest, start);
    TrimmedIsAbsent(rest, end);
    HeadIsMarkerFree(TrimEnd(rest), start);
    HeadIsMarkerFree(TrimEnd(rest), end);
    BlockAtEnd(Head(TrimEnd(rest)), block, start, end);
  }

  /** Installing: the same, when there was no block. */
  lemma InstallingLeavesOneBlock(existing: string, start: string, end: string, block: string)
    requires AreMarkers(start, end) && WellFormed(block, start, end) && MarkerFree(existing, start, end)
    ensures HasOneBlock(Upserted(existing, start, end, block), InstallHead(existing), block, "\n", start, end)
    ensures existing <= InstallHead(existing)
  {
    InstallHeadIsMarkerFree(existing, start);
    InstallHeadIsMarkerFree(existing, end);
    BlockAtEnd(InstallHead(existing), block, start, end);
  }

  // The lines of a text

  /** The lines that hold something visible, without the white space at their ends. */
  function VisibleLines(s: string): seq<string>
    decreases |s|
  {
    match IndexOf(s, '\n')
    case None => Visible(s)
    case Some(k) => Visible(s[..k]) + VisibleLines(s[k + 1..])
  }

  function Visible(line: string): seq<string> {
    if TrimEnd(line) == "" then [] else [TrimEnd(line)]
  }

  lemma {:induction false} LinesAcrossFeed(x: string, y: string)
    ensures VisibleLines(x + "\n" + y) == VisibleLines(x) + VisibleLines(y)
    decreases |x|
  {
    hide TrimEnd, Visible;
    var s := x + "\n" + y;
    match IndexOf(x, '\n')
    case None =>
      IndexOfIs(s, '\n', |x|);
      assert s[..|x|] == x && s[|x| + 1..] == y;
    case Some(k) =>
      IndexOfIs(s, '\n', k);
      assert s[..k] == x[..k] && s[k + 1..] == x[k + 1..] + "\n" + y;
      LinesAcrossFeed(x[k + 1..], y);
      Reassociate(Visible(x[..k]), VisibleLines(x[k + 1..]), VisibleLines(y));
  }

  lemma NoLines()
    ensures VisibleLines("") == [] && Visible("") == []
  {
    IndexOfNone("", '\n');
  }

  /** White space at the end of a text does not show. */
  lemma {:induction false} LinesBeforeBlank(s: string, b: char)
    requires IsBlank(b)
    ensures VisibleLines(s + [b]) == VisibleLines(s)
    decreases |s|
  {
    if b == '\n' {
      LinesAcrossFeed(s, "");
      NoLines();
      assert s + "\n" + "" == s + [b];
    } else {
      hide TrimEnd;
      match IndexOf(s, '\n')
      case None =>
        IndexOfNone(s + [b], '\n');
        VisibleBeforeBlank(s, b);
      case Some(k) =>
        IndexOfIs(s + [b], '\n', k);
        assert (s + [b])[..k] == s[..k] && (s + [b])[k + 1..] == s[k + 1..] + [b];
        LinesBeforeBlank(s[k + 1..], b);
    }
  }

  lemma VisibleBeforeBlank(line: string, b: char)
    requires IsBlank(b)
    ensures Visible(line + [b]) == Visible(line)
  {
    StripEndDropsRun(line, b, IsBlank);
  }

  lemma {:induction false} LinesIgnoreTrailing(s: string, p: char -> bool)
    requires forall c :: p(c) ==> IsBlank(c)
    ensures VisibleLines(StripEnd(s, p)) == VisibleLines(s)
  {
    if s != "" && p(s[|s| - 1]) {
      LinesIgnoreTrailing(s[..|s| - 1], p);
      LinesBeforeBlank(s[..|s| - 1], s[|s| - 1]);
      assert s == s[..|s| - 1] + [s[|s| - 1]];
    }
  }

  lemma {:induction false} LinesIgnoreLeadingFeeds(s: string)
    ensures VisibleLines(StripStart(s, IsFeed)) == VisibleLines(s)
  {
    if s != "" && IsFeed(s[0]) {
      LinesIgnoreLeadingFeeds(s[1..]);
      FeedAddsNoLine(s[1..]);
      assert "\n" + s[1..] == s;
    }
  }

  lemma LinesOfJoined(pre: string, post: string)
    ensures VisibleLines(Joined(pre, post)) == VisibleLines(pre) + VisibleLines(post)
  {
    hide VisibleLines;
    var before, after := StripEnd(pre, IsFeed), StripStart(post, IsFeed);
    LinesIgnoreTrailing(pre, IsFeed);
    LinesIgnoreLeadingFeeds(post);
    LinesAcrossFeed(before, after);
    NoLines();
  }

  lemma LinesOfHead(t: string, block: string)
    ensures VisibleLines(Head(t) + block + "\n") == VisibleLines(t) + VisibleLines(block)
  {
    hide VisibleLines;
    LinesBeforeBlank(Head(t) + block, '\n');
    LinesAcrossFeed(t, "\n" + block);
    FeedAddsNoLine(block);
    NoLines();
    assert Head(t) + block == (if t == "" then "\n" + block else t + "\n" + ("\n" + block));
    assert t == "" ==> VisibleLines(t) + VisibleLines(block) == VisibleLines(block);
  }

  lemma FeedAddsNoLine(s: string)
    ensures VisibleLines("\n" + s) == VisibleLines(s)
  {
    hide VisibleLines;
    LinesAcrossFeed("", s);
    NoLines();
    assert "" + "\n" + s == "\n" + s && [] + VisibleLines(s) == VisibleLines(s);
  }

  predicate KeepsOtherLines(text: string, pre: string, post: string, block: string) {
    VisibleLines(text) == VisibleLines(pre) + VisibleLines(post) + VisibleLines(block)
  }

  /** Updating keeps every visible line around the old block, in order, blanks inside and at the
      start of lines included, and puts the block's lines last. */
  lemma UpdatingKeepsOtherText(content: string, pre: string, stale: string, post: string,
                               start: string, end: string, block: string)
    requires AreMarkers(start, end) && HasOneBlock(content, pre, stale, post, start, end)
    ensures KeepsOtherLines(Upserted(content, start, end, block), pre, post, block)
  {
    hide VisibleLines;
    RemovingTheOneBlock(content, pre, stale, post, start, end);
    LinesOfJoined(pre, post);
    LinesIgnoreTrailing(Joined(pre, post), IsBlank);
    LinesOfHead(TrimEnd(Joined(pre, post)), block);
  }

  lemma {:induction false} TrimmingTheSecondPart(x: string, y: string)
    ensures TrimEnd(y) != "" ==> TrimEnd(x + y) == x + TrimEnd(y)
    ensures TrimEnd(y) == "" ==> TrimEnd(x + y) == TrimEnd(x)
    decreases |y|
  {
    if y == "" {
      assert x + y == x;
    } else if IsBlank(y[|y| - 1]) {
      assert (x + y)[..|x + y| - 1] == x + y[..|y| - 1];
      TrimmingTheSecondPart(x, y[..|y| - 1]);
    } else {
      assert (x + y)[|x + y| - 1] == y[|y| - 1];
    }
  }

  /** To the letter: the text before the old block without its last line feeds, then the text after
      it without its first line feeds and last white space; a single line feed takes the block's
      place. */
  lemma UpdatingIsVerbatim(content: string, pre: string, stale: string, post: string,
                           start: string, end: string, block: string)
    requires AreMarkers(start, end) && HasOneBlock(content, pre, stale, post, start, end)
    ensures var after := TrimEnd(StripStart(post, IsFeed));
            Upserted(content, start, end, block) ==
            if after == "" then Head(TrimEnd(pre)) + block + "\n"
            else StripEnd(pre, IsFeed) + "\n" + after + "\n\n" + block + "\n"
  {
    hide TrimEnd, Joined, StripEnd, StripStart, RemoveContent, Find;
    RemovingTheOneBlock(content, pre, stale, post, start, end);
    TrimOfJoined(pre, post);
    HeadOfVisible(TrimEnd(Joined(pre, post)));
  }

  lemma HeadOfVisible(t: string)
    ensures t != "" ==> Head(t) == t + "\n\n"
  {
  }

  lemma TrimOfJoined(pre: string, post: string)
    ensures var after := TrimEnd(StripStart(post, IsFeed));
            TrimEnd(Joined(pre, post)) ==
            if after == "" then TrimEnd(pre) else StripEnd(pre, IsFeed) + "\n" + after
  {
    var before, after := StripEnd(pre, IsFeed), StripStart(post, IsFeed);
    TrimAfterFeeds(pre);
    TrimmingTheSecondPart(before + "\n", after);
    TrimmingTheSecondPart(before, "\n");
    FeedIsBlank();
    hide TrimEnd, StripEnd, StripStart;
  }

  lemma FeedIsBlank()
    ensures TrimEnd("\n") == "" && TrimEnd("") == ""
  {
    assert "\n"[..0] == "";
  }

  // A start marker without an end marker

  /** The text holds a start marker, once, and no end marker. */
  ghost predicate HasStrayStart(content: string, pre: string, post: string, start: string, end: string) {
    content == pre + start + post && OccursOnlyAt(content, start, |pre|) && Absent(content, end)
  }

  lemma RemovingNothing(content: string, start: string, end: string)
    requires Absent(content, end)
    ensures RemoveContent(content, start, end) == content
  {
    assert Find(content, end).None?;
  }

  /** The first upsert finds nothing to remove: it keeps every line and appends the block. */
  lemma StrayStartIsKeptOnce(content: string, pre: string, post: string, start: string, end: string, block: string)
    requires AreMarkers(start, end) && HasStrayStart(content, pre, post, start, end)
    ensures Upserted(content, start, end, block) == Head(TrimEnd(content)) + block + "\n"
    ensures VisibleLines(Upserted(content, start, end, block)) == VisibleLines(content) + VisibleLines(block)
  {
    assert OccursAt(content, start, |pre|);
    RemovingNothing(content, start, end);
    LinesIgnoreTrailing(content, IsBlank);
    LinesOfHead(TrimEnd(content), block);
  }

  lemma EndOfTheNewBlock(head: string, block: string, end: string)
    requires IsMarker(end) && Absent(head, end) && OccursOnlyAt(block, end, |block| - |end|) && |end| <= |block|
    requires head == "" || head[|head| - 1] == '\n'
    ensures var first := head + block + "\n";
            Find(first, end) == Some(|first| - 1 - |end|)
  {
    hide Find;
    var first := head + block + "\n";
    OnlyInTheBlock(head, block, end, |block| - |end|);
    assert OccursAt(first, end, |first| - 1 - |end|);
    FindIs(first, end, |first| - 1 - |end|);
  }

  lemma StrayStartIsFirst(content: string, pre: string, t: string, start: string, first: string)
    requires OccursOnlyAt(content, start, |pre|) && t <= content && t <= first && |t| >= |pre| + |start|
    ensures Find(first, start) == Some(|pre|)
  {
    hide Find;
    assert OccursAt(content, start, |pre|);
    assert first[|pre|..|pre| + |start|] == content[|pre|..|pre| + |start|];
    forall i: nat | i < |pre|
      ensures !OccursAt(first, start, i)
    {
      assert first[i..i + |start|] == content[i..i + |start|];
      assert !OccursAt(content, start, i);
    }
    FindIs(first, start, |pre|);
  }

  lemma HeadStarts(t: string, block: string)
    ensures t <= Head(t) + block + "\n" && |Head(t)| > |t| && Head(t)[|Head(t)| - 1] == '\n'
  {
  }

  /** The stray marker and the end of the new block then enclose everything between them. */
  lemma StrayStartSpansToTheBlock(content: string, pre: string, post: string, start: string, end: string, block: string)
    requires AreMarkers(start, end) && HasStrayStart(content, pre, post, start, end) && WellFormed(block, start, end)
    requires !IsBlank(start[|start| - 1])
    ensures var first := Upserted(content, start, end, block);
            && Find(first, start) == Some(|pre|)
            && Find(first, end) == Some(|first| - 1 - |end|)
  {
    hide Find, Upserted, TrimEnd, Head, OccursAt;
    var t := TrimEnd(content);
    var first := Head(t) + block + "\n";
    StrayStartIsKeptOnce(content, pre, post, start, end, block);
    MarkerSurvivesTrim(content, pre, post, start);
    TrimmedIsAbsent(content, end);
    HeadIsMarkerFree(t, end);
    HeadStarts(t, block);
    EndOfTheNewBlock(Head(t), block, end);
    StrayStartIsFirst(content, pre, t, start, first);
  }

  /** Trimming the end stops at a marker that ends in something visible. */
  lemma MarkerSurvivesTrim(content: string, pre: string, post: string, start: string)
    requires content == pre + start + post && start != "" && !IsBlank(start[|start| - 1])
    ensures TrimEnd(content) <= content && |TrimEnd(content)| >= |pre| + |start|
  {
    StripEndIsPrefix(content, IsBlank);
    assert content[|pre| + |start| - 1] == start[|start| - 1];
  }

  lemma SecondRemoval(content: string, pre: string, post: string, start: string, end: string, block: string)
    requires AreMarkers(start, end) && HasStrayStart(content, pre, post, start, end) && WellFormed(block, start, end)
    requires !IsBlank(start[|start| - 1])
    ensures var first := Upserted(content, start, end, block);
            Contains(first, start) && RemoveContent(first, start, end) == Joined(pre, "\n")
  {
    hide Find, TrimEnd, Joined, Upserted, Head;
    var first := Upserted(content, start, end, block);
    StrayStartIsKeptOnce(content, pre, post, start, end, block);
    StrayStartSpansToTheBlock(content, pre, post, start, end, block);
    MarkerSurvivesTrim(content, pre, post, start);
    HeadStarts(TrimEnd(content), block);
    var t := TrimEnd(content);
    LastFeed(Head(t) + block);
    assert first[..|pre|] == t[..|pre|] == content[..|pre|] == pre;
    RemoveBetween(first, start, end, |pre|, |first| - 1 - |end|);
  }

  lemma LastFeed(s: string)
    ensures (s + "\n")[|s|..] == "\n"
  {
  }

  lemma RemoveBetween(s: string, start: string, end: string, i: nat, j: nat)
    requires Find(s, start) == Some(i) && Find(s, end) == Some(j) && i <= j
    ensures Contains(s, start) && RemoveContent(s, start, end) == Joined(s[..i], s[j + |end|..])
  {
    hide Find, Joined;
  }

  /** So the second upsert leaves only what stood before the stray marker. */
  lemma StrayStartSwallowsTheRest(content: string, pre: string, post: string, start: string, end: string, block: string)
    requires AreMarkers(start, end) && HasStrayStart(content, pre, post, start, end) && WellFormed(block, start, end)
    requires !IsBlank(start[|start| - 1])
    ensures var first := Upserted(content, start, end, block);
            VisibleLines(Upserted(first, start, end, block)) == VisibleLines(pre) + VisibleLines(block)
  {
    hide VisibleLines, TrimEnd, Joined, Head, RemoveContent;
    SecondRemoval(content, pre, post, start, end, block);
    LinesOfJoined(pre, "\n");
    FeedAddsNoLine("");
    NoLines();
    assert "\n" + "" == "\n" && VisibleLines(pre) + [] == VisibleLines(pre);
    LinesIgnoreTrailing(Joined(pre, "\n"), IsBlank);
    TrimEndIsStripEnd(Joined(pre, "\n"));
    LinesOfHead(TrimEnd(Joined(pre, "\n")), block);
  }

  lemma TrimEndIsStripEnd(s: string)
    ensures TrimEnd(s) == StripEnd(s, IsBlank)
  {
  }

  /** All other text survives two upserts exactly when nothing visible follows the stray marker. */
  lemma StrayStartKeepsTextExactlyWhen(content: string, pre: string, post: string, start: string, end: string, block: string)
    requires AreMarkers(start, end) && HasStrayStart(content, pre, post, start, end) && WellFormed(block, start, end)
    requires !IsBlank(start[|start| - 1])
    ensures var second := Upserted(Upserted(content, start, end, block), start, end, block);
            KeepsOtherLines(second, pre, post, block) <==> VisibleLines(post) == []
  {
    hide VisibleLines;
    StrayStartSwallowsTheRest(content, pre, post, start, end, block);
    assert VisibleLines(pre) + [] == VisibleLines(pre);
    assert |VisibleLines(pre) + VisibleLines(post) + VisibleLines(block)|
        == |VisibleLines(pre) + VisibleLines(block)| + |VisibleLines(post)|;
  }

  // An end marker without a start marker

  /** The first end marker comes before the first start marker, so a removal finds no block. */
  predicate EndComesFirst(s: string, start: string, end: string) {
    var i, e := Find(s, start), Find(s, end);
    i.Some? && e.Some? && e.value < i.value
  }

  /** Installing after a stray end marker leaves a text in which that marker comes first. */
  lemma StrayEndComesFirst(existing: string, start: string, end: string, block: string)
    requires AreMarkers(start, end) && WellFormed(block, start, end)
    requires Absent(existing, start) && Contains(existing, end)
    ensures Upserted(existing, start, end, block) == InstallHead(existing) + block + "\n"
    ensures EndComesFirst(Upserted(existing, start, end, block), start, end)
  {
    hide Find, InstallHead;
    var e := Find(existing, end).value;
    var head := InstallHead(existing);
    var first := head + block + "\n";
    ExistingStartsTheHead(existing);
    assert first[e..e + |end|] == existing[e..e + |end|];
    InstallHeadIsMarkerFree(existing, start);
    OnlyInTheBlock(head, block, start, 0);
    assert OccursAt(first, start, |head|) && OccursAt(first, end, e);
  }

  lemma ExistingStartsTheHead(existing: string)
    ensures existing <= InstallHead(existing)
    ensures InstallHead(existing) != "" ==> InstallHead(existing)[|InstallHead(existing)| - 1] == '\n'
  {
  }

  /** While the end marker comes first, an upsert removes nothing and appends another block. */
  lemma EndFirstAddsABlock(s: string, start: string, end: string, block: string)
    requires EndComesFirst(s, start, end)
    ensures Upserted(s, start, end, block) == Head(TrimEnd(s)) + block + "\n"
    ensures VisibleLines(Upserted(s, start, end, block)) == VisibleLines(s) + VisibleLines(block)
  {
    assert RemoveContent(s, start, end) == s;
    LinesIgnoreTrailing(s, IsBlank);
    LinesOfHead(TrimEnd(s), block);
  }

  /** So the second upsert after a stray end marker appends a second block. */
  lemma StrayEndAddsASecondBlock(existing: string, start: string, end: string, block: string)
    requires AreMarkers(start, end) && WellFormed(block, start, end)
    requires Absent(existing, start) && Contains(existing, end)
    ensures var first := Upserted(existing, start, end, block);
            var second := Upserted(first, start, end, block);
            && second == Head(TrimEnd(first)) + block + "\n"
            && VisibleLines(second) == VisibleLines(existing) + VisibleLines(block) + VisibleLines(block)
  {
    hide VisibleLines, Upserted, EndComesFirst, Find;
    StrayEndComesFirst(existing, start, end, block);
    LinesOfInstalled(existing, block);
    EndFirstAddsABlock(Upserted(existing, start, end, block), start, end, block);
  }

  predicate EndsVisibly(m: string) {
    m != "" && !IsBlank(m[|m| - 1])
  }

  lemma StaysInPrefix(t: string, rest: string, m: string, k: nat)
    requires OccursAt(t, m, k)
    ensures OccursAt(t + rest, m, k)
  {
    assert (t + rest)[k..k + |m|] == t[k..k + |m|];
  }

  lemma OccursInWhole(s: string, t: string, m: string, k: nat)
    requires t <= s
    ensures OccursAt(t, m, k) ==> OccursAt(s, m, k)
  {
    if OccursAt(t, m, k) { assert s[k..k + |m|] == t[k..k + |m|]; }
  }

  /** In a text that is a prefix of `s`, a line feed and more, `m` does not occur before `e`. */
  lemma NothingEarlier(s: string, t: string, rest: string, m: string, e: nat)
    requires IsMarker(m) && t <= s && e <= |t| && forall i: nat :: i <= e ==> !OccursAt(s, m, i)
    ensures forall i: nat :: i <= e ==> !OccursAt(t + "\n" + rest, m, i)
  {
    hide OccursAt;
    forall i: nat | i <= e
      ensures !OccursAt(t + "\n" + rest, m, i)
    {
      OccursOnOneSide(t, rest, m, i);
      OccursInWhole(s, t, m, i);
    }
  }

  lemma HeadUnfolds(t: string, block: string)
    requires t != ""
    ensures Head(t) + block + "\n" == t + "\n" + ("\n" + block + "\n")
    ensures Head(t) + block + "\n" == t + ("\n" + ("\n" + block + "\n"))
  {
  }

  /** And the end marker still comes first. */
  lemma EndFirstStays(s: string, start: string, end: string, block: string)
    requires AreMarkers(start, end) && EndComesFirst(s, start, end)
    requires EndsVisibly(start) && EndsVisibly(end)
    ensures EndComesFirst(Upserted(s, start, end, block), start, end)
  {
    hide Find, OccursAt, Upserted, TrimEnd, Head;
    EndFirstAddsABlock(s, start, end, block);
    var i, e, t := Find(s, start).value, Find(s, end).value, TrimEnd(s);
    TrimKeepsMarker(s, start, i);
    TrimKeepsMarker(s, end, e);
    var rest := "\n" + block + "\n";
    var next := t + "\n" + rest;
    HeadUnfolds(t, block);
    StaysInPrefix(t, "\n" + rest, start, i);
    StaysInPrefix(t, "\n" + rest, end, e);
    NothingEarlier(s, t, rest, start, e);
    assert OccursAt(next, start, Find(next, start).value);
  }

  lemma TrimKeepsMarker(s: string, m: string, k: nat)
    requires EndsVisibly(m) && OccursAt(s, m, k)
    ensures TrimEnd(s) <= s && k < |TrimEnd(s)| && OccursAt(TrimEnd(s), m, k)
  {
    var t := TrimEnd(s);
    StripEndIsPrefix(s, IsBlank);
    assert s[k..k + |m|][|m| - 1] == s[k + |m| - 1];
    assert t[k..k + |m|] == s[k..k + |m|];
  }

  function UpsertedTimes(s: string, n: nat, start: string, end: string, block: string): string {
    if n == 0 then s else Upserted(UpsertedTimes(s, n - 1, start, end, block), start, end, block)
  }

  function Copies(lines: seq<string>, n: nat): seq<string> {
    if n == 0 then [] else Copies(lines, n - 1) + lines
  }

  /** With an end marker and no start marker every upsert appends a block: nothing is lost, and the
      file grows for ever. */
  lemma {:induction false} StrayEndPilesUpBlocks(existing: string, n: nat, start: string, end: string, block: string)
    requires AreMarkers(start, end) && WellFormed(block, start, end)
    requires Absent(existing, start) && Contains(existing, end) && EndsVisibly(start) && EndsVisibly(end)
    ensures VisibleLines(UpsertedTimes(existing, n, start, end, block))
         == VisibleLines(existing) + Copies(VisibleLines(block), n)
    ensures n > 0 ==> EndComesFirst(UpsertedTimes(existing, n, start, end, block), start, end)
  {
    hide VisibleLines, Upserted, EndComesFirst, Find;
    if n == 0 {
    } else if n == 1 {
      StrayEndComesFirst(existing, start, end, block);
      LinesOfInstalled(existing, block);
      assert Copies(VisibleLines(block), 1) == Copies(VisibleLines(block), 0) + VisibleLines(block) == VisibleLines(block);
      assert UpsertedTimes(existing, 1, start, end, block)
          == Upserted(UpsertedTimes(existing, 0, start, end, block), start, end, block);
    } else {
      StrayEndPilesUpBlocks(existing, n - 1, start, end, block);
      var last := UpsertedTimes(existing, n - 1, start, end, block);
      EndFirstAddsABlock(last, start, end, block);
      EndFirstStays(last, start, end, block);
      Reassociate(VisibleLines(existing), Copies(VisibleLines(block), n - 1), VisibleLines(block));
    }
  }

  lemma LinesOfInstalled(existing: string, block: string)
    ensures VisibleLines(InstallHead(existing) + block + "\n") == VisibleLines(existing) + VisibleLines(block)
  {
    hide VisibleLines;
    LinesBeforeBlank(InstallHead(existing) + block, '\n');
    FeedAddsNoLine(block);
    NoLines();
    if existing == "" {
      assert InstallHead(existing) + block == block;
    } else if existing[|existing| - 1] == '\n' {
      LinesAcrossFeed(existing, block);
    } else {
      LinesAcrossFeed(existing, "\n" + block);
      assert InstallHead(existing) + block == existing + "\n" + ("\n" + block);
    }
  }

  // Doing it again, and undoing it

  lemma {:induction false} StripEndDropsRun(s: string, c: char, p: char -> bool)
    requires p(c)
    ensures StripEnd(s + [c], p) == StripEnd(s, p)
  {
    assert (s + [c])[..|s|] == s;
  }

  /** Removing a block that ends the text leaves what came before it, without the line feeds. */
  lemma CleaningAfterHead(head: string, block: string, start: string, end: string)
    requires AreMarkers(start, end) && HasOneBlock(head + block + "\n", head, block, "\n", start, end)
    ensures TrimEnd(RemoveContent(head + block + "\n", start, end)) == TrimEnd(head)
  {
    RemovingTheOneBlock(head + block + "\n", head, block, "\n", start, end);
    assert StripStart("\n", IsFeed) == "" by { assert "\n"[1..] == ""; }
    TrimAfterFeeds(head);
  }

  lemma {:induction false} TrimAfterFeeds(s: string)
    ensures TrimEnd(StripEnd(s, IsFeed)) == TrimEnd(s)
  {
    if s != "" && s[|s| - 1] == '\n' { TrimAfterFeeds(s[..|s| - 1]); }
  }

  lemma {:induction false} TrimIsIdempotent(s: string)
    ensures TrimEnd(TrimEnd(s)) == TrimEnd(s)
  {
    if s != "" && IsBlank(s[|s| - 1]) { TrimIsIdempotent(s[..|s| - 1]); }
  }

  lemma TrimOfHead(t: string)
    ensures TrimEnd(Head(t)) == TrimEnd(t) && TrimEnd(InstallHead(t)) == TrimEnd(t)
  {
    StripEndDropsRun(t, '\n', IsBlank);
    StripEndDropsRun(t + "\n", '\n', IsBlank);
    assert t + "\n" + "\n" == t + "\n\n";
    StripEndDropsRun("", '\n', IsBlank);
    assert "" + "\n" == "\n";
  }

  /** Updating again with the same block changes nothing. */
  lemma UpdatingIsIdempotent(content: string, pre: string, stale: string, post: string,
                             start: string, end: string, block: string)
    requires AreMarkers(start, end) && WellFormed(block, start, end)
    requires HasOneBlock(content, pre, stale, post, start, end)
    ensures var updated := Upserted(content, start, end, block);
            Upserted(updated, start, end, block) == updated
  {
    var t := TrimEnd(Joined(pre, post));
    UpdatingLeavesOneBlock(content, pre, stale, post, start, end, block);
    RemovingTheOneBlock(content, pre, stale, post, start, end);
    CleaningAfterHead(Head(t), block, start, end);
    TrimOfHead(t);
    TrimIsIdempotent(Joined(pre, post));
    assert Contains(Head(t) + block + "\n", start) by {
      RemovingTheOneBlock(Head(t) + block + "\n", Head(t), block, "\n", start, end);
    }
  }

  /** A text that ends in something visible, or in something visible and one line feed. */
  predicate EndsCleanly(s: string) {
    TrimEnd(s) != "" && (s == TrimEnd(s) || s == TrimEnd(s) + "\n")
  }

  /** Upserting again right after an installation rewrites the blanks before the block, or appends a
      second block after a stray end marker. So it changes nothing exactly when the original text
      ended cleanly and held no end marker, or when the block shows nothing at all. */
  lemma InstallingIsStableExactlyWhen(existing: string, start: string, end: string, block: string)
    requires AreMarkers(start, end) && WellFormed(block, start, end) && Absent(existing, start)
    ensures var installed := Upserted(existing, start, end, block);
            (Upserted(installed, start, end, block) == installed
             <==> EndsCleanly(existing) && (Absent(existing, end) || TrimEnd(block) == ""))
  {
    hide Find;
    if Contains(existing, end) {
      AfterAStrayEnd(existing, start, end, block);
    } else {
      assert Absent(existing, end);
      AfterCleanText(existing, start, end, block);
    }
  }

  lemma AfterCleanText(existing: string, start: string, end: string, block: string)
    requires AreMarkers(start, end) && WellFormed(block, start, end) && MarkerFree(existing, start, end)
    ensures var installed := Upserted(existing, start, end, block);
            Upserted(installed, start, end, block) == installed <==> EndsCleanly(existing)
  {
    var head := InstallHead(existing);
    InstallingLeavesOneBlock(existing, start, end, block);
    CleaningAfterHead(head, block, start, end);
    TrimOfHead(existing);
    assert Contains(head + block + "\n", start) by {
      RemovingTheOneBlock(head + block + "\n", head, block, "\n", start, end);
    }
    SameHead(Head(TrimEnd(existing)), head, block);
    HeadsAgreeExactlyWhen(existing);
  }

  lemma AfterAStrayEnd(existing: string, start: string, end: string, block: string)
    requires AreMarkers(start, end) && WellFormed(block, start, end)
    requires Absent(existing, start) && Contains(existing, end)
    ensures var installed := Upserted(existing, start, end, block);
            (Upserted(installed, start, end, block) == installed
             <==> EndsCleanly(existing) && TrimEnd(block) == "")
  {
    hide Find, Upserted, Head, InstallHead, EndsCleanly, TrimEnd;
    var head := InstallHead(existing);
    var installed := Upserted(existing, start, end, block);
    StrayEndComesFirst(existing, start, end, block);
    EndFirstAddsABlock(installed, start, end, block);
    TrimOfInstalled(head, block);
    TrimOfHead(existing);
    SameHead(Head(TrimEnd(installed)), head, block);
    HeadsAgreeExactlyWhen(existing);
    HeadStarts(TrimEnd(installed), block);
  }

  lemma TrimOfInstalled(head: string, block: string)
    ensures TrimEnd(head + block + "\n") == if TrimEnd(block) == "" then TrimEnd(head) else head + TrimEnd(block)
  {
    StripEndDropsRun(head + block, '\n', IsBlank);
    TrimmingTheSecondPart(head, block);
  }

  /** A text of blank lines does not end cleanly: whatever is installed there, the next upsert of the
      same block changes the file. */
  lemma BlankLinesAreNotStable(start: string, end: string, block: string)
    requires AreMarkers(start, end) && WellFormed(block, start, end)
    ensures var installed := Upserted("\n\n", start, end, block);
            Upserted(installed, start, end, block) != installed
  {
    AbsentFromFeed(start);
    AbsentFromFeed(end);
    AbsentAcrossFeed("", "\n", start);
    AbsentAcrossFeed("", "\n", end);
    assert "" + "\n" + "\n" == "\n\n" && "" + "\n" == "\n";
    StripEndDropsRun("", '\n', IsBlank);
    StripEndDropsRun("\n", '\n', IsBlank);
    InstallingIsStableExactlyWhen("\n\n", start, end, block);
  }

  lemma SameHead(x: string, y: string, block: string)
    ensures x + block + "\n" == y + block + "\n" <==> x == y
  {
    if x + block + "\n" == y + block + "\n" {
      assert |x| == |y|;
      assert (x + block + "\n")[..|x|] == x && (y + block + "\n")[..|y|] == y;
    }
  }

  lemma HeadsAgreeExactlyWhen(s: string)
    ensures Head(TrimEnd(s)) == InstallHead(s) <==> EndsCleanly(s)
  {
    var t := TrimEnd(s);
    StripEndIsPrefix(s, IsBlank);
    assert t + "\n" + "\n" == t + "\n\n";
    assert |s| > 0 ==> |InstallHead(s)| > 1;
    assert InstallHead(s)[..|s|] == s;
    assert t == (t + "\n\n")[..|t|] && t + "\n" == (t + "\n\n")[..|t| + 1];
  }

  /** Removing the block that was installed gives the original text back, its trailing white space
      replaced by one line feed. */
  lemma RemovingUndoesInstalling(existing: string, start: string, end: string, block: string)
    requires AreMarkers(start, end) && WellFormed(block, start, end) && MarkerFree(existing, start, end)
    ensures Removed(Upserted(existing, start, end, block), start, end) == TrimEnd(existing) + "\n"
  {
    var head := InstallHead(existing);
    InstallingLeavesOneBlock(existing, start, end, block);
    CleaningAfterHead(head, block, start, end);
    TrimOfHead(existing);
    assert Contains(head + block + "\n", start) by {
      RemovingTheOneBlock(head + block + "\n", head, block, "\n", start, end);
    }
  }
}
