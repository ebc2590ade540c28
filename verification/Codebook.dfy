/** The codebook: lines that many files share are replaced by short references. */
module Codebooks {
  import opened Wrappers
  import opened Sequences
  import Decimals
  import opened StableSort
  import opened WordSplitting
  import opened LineSplitting

  const MIN_LENGTH: nat := 10
  const MIN_DOCS: nat := 3
  const MAX_SELECTED: nat := 50

  type File = (string, string)

  datatype CodebookEntry = CodebookEntry(id: string, pattern: string, frequency: nat, idf: real)

  datatype Candidate = Candidate(pattern: string, frequency: nat, idf: real)

  datatype Book = Book(entries: seq<CodebookEntry>, patternToId: map<string, string>, nextId: nat)

  const EMPTY := Book([], map[], 0)

  // What is counted

  /** Words separated by single blanks. */
  function NormalizeLine(line: string): string {
    JoinWords(Words(line))
  }

  /** Patterns are long enough and in normal form. */
  predicate IsPattern(p: string) {
    |p| >= MIN_LENGTH && NormalizeLine(p) == p
  }

  lemma NormalizingIsIdempotent(line: string)
    ensures NormalizeLine(NormalizeLine(line)) == NormalizeLine(line)
  {
    WordsAreWords(line);
    WordsOfJoined(Words(line));
  }

  /** The normal forms of the lines long enough to be counted. */
  function Counted(lines: seq<string>): seq<string> {
    if lines == [] then []
    else
      var n := |lines| - 1;
      var normalized := NormalizeLine(lines[n]);
      Counted(lines[..n]) + if |normalized| < MIN_LENGTH then [] else [normalized]
  }

  /** How many lines of `files` have the normal form `p`. */
  function TermCount(files: seq<File>, p: string): nat {
    if files == [] then 0
    else TermCount(files[..|files| - 1], p) + multiset(Counted(Lines(files[|files| - 1].1)))[p]
  }

  /** How many of `files` have a line with the normal form `p`. */
  function DocCount(files: seq<File>, p: string): nat {
    if files == [] then 0
    else DocCount(files[..|files| - 1], p) + if p in Counted(Lines(files[|files| - 1].1)) then 1 else 0
  }

  /** A pattern is counted at least once in every file that has it. */
  lemma {:induction false} TermsOutnumberDocs(files: seq<File>, p: string)
    ensures TermCount(files, p) >= DocCount(files, p)
  {
    if files != [] {
      TermsOutnumberDocs(files[..|files| - 1], p);
      var counted := Counted(Lines(files[|files| - 1].1));
      assert p in counted <==> p in multiset(counted);
    }
  }

  lemma {:induction false} CountedIsNormal(lines: seq<string>, p: string)
    requires p in Counted(lines)
    ensures IsPattern(p)
  {
    var n := |lines| - 1;
    if p in Counted(lines[..n]) {
      CountedIsNormal(lines[..n], p);
    } else {
      NormalizingIsIdempotent(lines[n]);
    }
  }

  lemma {:induction false} DocCountIsNormal(files: seq<File>, p: string)
    requires DocCount(files, p) > 0
    ensures IsPattern(p)
  {
    var n := |files| - 1;
    if DocCount(files[..n], p) > 0 {
      DocCountIsNormal(files[..n], p);
    } else {
      CountedIsNormal(Lines(files[n].1), p);
    }
  }

  // Selection

  function CandidateOf(p: string, files: seq<File>, ln: real -> real): Candidate
    requires DocCount(files, p) > 0
  {
    Candidate(p, TermCount(files, p), ln(|files| as real / DocCount(files, p) as real))
  }

  /** The patterns found in three files or more, in the order `order` lists them. */
  function Candidates(order: seq<string>, files: seq<File>, ln: real -> real): seq<Candidate> {
    if order == [] then []
    else
      var n := |order| - 1;
      Candidates(order[..n], files, ln)
      + if DocCount(files, order[n]) >= MIN_DOCS then [CandidateOf(order[n], files, ln)] else []
  }

  function MoreFrequent(): (Candidate, Candidate) -> bool {
    (a: Candidate, b: Candidate) => a.frequency > b.frequency
  }

  function Selected(files: seq<File>, order: seq<string>, ln: real -> real): (r: seq<Candidate>)
    ensures |r| <= MAX_SELECTED
  {
    var sorted := Sort(Candidates(order, files, ln), MoreFrequent());
    if |sorted| <= MAX_SELECTED then sorted else sorted[..MAX_SELECTED]
  }

  function Id(n: nat): string {
    "§" + Decimals.Print(n)
  }

  function Added(b: Book, c: Candidate): Book {
    var id := Id(b.nextId);
    Book(b.entries + [CodebookEntry(id, c.pattern, c.frequency, c.idf)], b.patternToId[c.pattern := id], b.nextId + 1)
  }

  function AddedAll(b: Book, selected: seq<Candidate>): Book {
    if selected == [] then b
    else Added(AddedAll(b, selected[..|selected| - 1]), selected[|selected| - 1])
  }

  /** A build over `files`, whose counting table is iterated in the order `order`. */
  function Built(b: Book, files: seq<File>, order: seq<string>, ln: real -> real): Book {
    if |files| < 2 then b else AddedAll(b, Selected(files, order, ln))
  }

  /** `order` lists the counting table's keys, each once. */
  ghost predicate ListsCounted(order: seq<string>, files: seq<File>) {
    Distinct(order) && forall p :: p in order <==> DocCount(files, p) > 0
  }

  // Compression

  function Reference(id: string): string {
    "[" + id + "]"
  }

  function CompressedLine(b: Book, line: string): string {
    var normalized := NormalizeLine(line);
    if normalized in b.patternToId then Reference(b.patternToId[normalized]) else line
  }

  function CompressedLines(b: Book, lines: seq<string>): seq<string> {
    seq(|lines|, i requires 0 <= i < |lines| => CompressedLine(b, lines[i]))
  }

  function Compressed(b: Book, content: string): string {
    if b.entries == [] then content else JoinLines(CompressedLines(b, Lines(content)))
  }

  /** The ids that `lines` are replaced by, in the order of their first use. */
  function RefsUsed(b: Book, lines: seq<string>): seq<string> {
    if lines == [] then []
    else
      var n := |lines| - 1;
      var used, normalized := RefsUsed(b, lines[..n]), NormalizeLine(lines[n]);
      if normalized in b.patternToId && b.patternToId[normalized] !in used
      then used + [b.patternToId[normalized]]
      else used
  }

  /** `id` stands for one of `lines`. */
  ghost predicate Refers(b: Book, lines: seq<string>, id: string) {
    exists i :: 0 <= i < |lines| && RefersTo(b, lines[i], id)
  }

  predicate RefersTo(b: Book, line: string, id: string) {
    NormalizeLine(line) in b.patternToId && b.patternToId[NormalizeLine(line)] == id
  }

  // The counting tables

  /** The table of term counts after `files` and the lines `counted` of the file under way. */
  ghost predicate CountsTerms(m: map<string, nat>, files: seq<File>, counted: seq<string>) {
    forall p ::
      && (p in m <==> TermCount(files, p) + multiset(counted)[p] > 0)
      && (p in m ==> m[p] == TermCount(files, p) + multiset(counted)[p])
  }

  function DocsSoFar(files: seq<File>, counted: seq<string>, p: string): nat {
    DocCount(files, p) + if p in counted then 1 else 0
  }

  ghost predicate CountsDocs(m: map<string, nat>, files: seq<File>, counted: seq<string>) {
    forall p ::
      && (p in m <==> DocsSoFar(files, counted, p) > 0)
      && (p in m ==> m[p] == DocsSoFar(files, counted, p))
  }

  lemma CountTerm(m: map<string, nat>, files: seq<File>, counted: seq<string>, p: string)
    requires CountsTerms(m, files, counted)
    ensures CountsTerms(Bump(m, p), files, counted + [p])
  {
    hide TermCount;
  }

  lemma CountDoc(m: map<string, nat>, files: seq<File>, counted: seq<string>, p: string)
    requires CountsDocs(m, files, counted)
    ensures CountsDocs(if p in counted then m else Bump(m, p), files, counted + [p])
  {
    hide DocCount;
  }

  lemma CountedStep(lines: seq<string>, k: nat)
    requires k < |lines|
    ensures var normalized := NormalizeLine(lines[k]);
            Counted(lines[..k + 1]) ==
            if |normalized| < MIN_LENGTH then Counted(lines[..k]) else Counted(lines[..k]) + [normalized]
  {
    assert lines[..k + 1][..k] == lines[..k];
  }

  lemma CloseFileFor(files: seq<File>, i: nat, p: string)
    requires i < |files|
    ensures TermCount(files[..i + 1], p) == TermCount(files[..i], p) + multiset(Counted(Lines(files[i].1)))[p]
    ensures DocCount(files[..i + 1], p) == DocsSoFar(files[..i], Counted(Lines(files[i].1)), p)
  {
    hide Counted, Lines;
    assert files[..i + 1][..i] == files[..i];
  }

  lemma CloseFile(tf: map<string, nat>, df: map<string, nat>, files: seq<File>, i: nat)
    requires i < |files|
    requires CountsTerms(tf, files[..i], Counted(Lines(files[i].1)))
    requires CountsDocs(df, files[..i], Counted(Lines(files[i].1)))
    ensures CountsTerms(tf, files[..i + 1], []) && CountsDocs(df, files[..i + 1], [])
  {
    hide Counted, Lines, TermCount, DocCount;
    forall p
      ensures TermCount(files[..i + 1], p) + multiset([])[p]
           == TermCount(files[..i], p) + multiset(Counted(Lines(files[i].1)))[p]
      ensures DocsSoFar(files[..i + 1], [], p) == DocsSoFar(files[..i], Counted(Lines(files[i].1)), p)
    {
      CloseFileFor(files, i, p);
    }
  }

  lemma TableEntry(df: map<string, nat>, tf: map<string, nat>, files: seq<File>, p: string)
    requires CountsTerms(tf, files, []) && CountsDocs(df, files, []) && DocCount(files, p) > 0
    ensures p in df && df[p] == DocCount(files, p) && p in tf && tf[p] == TermCount(files, p)
  {
    TermsOutnumberDocs(files, p);
    hide TermCount, DocCount;
    assert DocsSoFar(files, [], p) == DocCount(files, p);
    assert multiset([])[p] == 0;
  }

  class Codebook {
    var entries: seq<CodebookEntry>
    var patternToId: map<string, string>
    var nextId: nat

    constructor ()
      ensures Value() == EMPTY
    {
      entries, patternToId, nextId := [], map[], 0;
    }

    function Value(): Book
      reads this
    {
      Book(entries, patternToId, nextId)
    }

    method BuildFromFiles(files: seq<File>, order: seq<string>, ln: real -> real)
      requires ListsCounted(order, files)
      modifies this
      ensures Value() == Built(old(Value()), files, order, ln)
    {
      if |files| < 2 {
        return;
      }
      var docFreq, termFreq := CountLines(files);
      var candidates := CollectCandidates(docFreq, termFreq, files, order, ln);
      hide ListsCounted, Candidates, Sort, CountsTerms, CountsDocs, AddedAll;
      candidates := Sort(candidates, MoreFrequent());
      var taken := if |candidates| <= MAX_SELECTED then candidates else candidates[..MAX_SELECTED];
      AddEntries(taken);
    }

    method AddEntries(selected: seq<Candidate>)
      modifies this
      ensures Value() == AddedAll(old(Value()), selected)
    {
      for k := 0 to |selected|
        invariant Value() == AddedAll(old(Value()), selected[..k])
      {
        hide Id;
        assert selected[..k + 1][..k] == selected[..k];
        var c, id := selected[k], Id(nextId);
        nextId := nextId + 1;
        patternToId := patternToId[c.pattern := id];
        entries := entries + [CodebookEntry(id, c.pattern, c.frequency, c.idf)];
      }
      assert selected[..|selected|] == selected;
    }

    /** The counting loop: terms, and documents with the help of a set of those seen. */
    static method CountLines(files: seq<File>) returns (docFreq: map<string, nat>, termFreq: map<string, nat>)
      ensures CountsTerms(termFreq, files, []) && CountsDocs(docFreq, files, [])
    {
      docFreq, termFreq := map[], map[];
      for i := 0 to |files|
        invariant CountsTerms(termFreq, files[..i], []) && CountsDocs(docFreq, files[..i], [])
      {
        hide CountsTerms, CountsDocs;
        docFreq, termFreq := CountFile(Lines(files[i].1), docFreq, termFreq, files[..i]);
        CloseFile(termFreq, docFreq, files, i);
      }
      assert files[..|files|] == files;
    }

    static method CountFile(lines: seq<string>, df: map<string, nat>, tf: map<string, nat>, ghost files: seq<File>)
      returns (docFreq: map<string, nat>, termFreq: map<string, nat>)
      requires CountsTerms(tf, files, []) && CountsDocs(df, files, [])
      ensures CountsTerms(termFreq, files, Counted(lines)) && CountsDocs(docFreq, files, Counted(lines))
    {
      hide CountsTerms, CountsDocs;
      docFreq, termFreq := df, tf;
      var seenInDoc: set<string> := {};
      assert Counted(lines[..0]) == [];
      for k := 0 to |lines|
        invariant forall p :: p in seenInDoc <==> p in Counted(lines[..k])
        invariant CountsTerms(termFreq, files, Counted(lines[..k]))
        invariant CountsDocs(docFreq, files, Counted(lines[..k]))
      {
        hide Counted;
        var normalized := NormalizeLine(lines[k]);
        CountedStep(lines, k);
        if |normalized| < MIN_LENGTH {
          continue;
        }
        CountTerm(termFreq, files, Counted(lines[..k]), normalized);
        CountDoc(docFreq, files, Counted(lines[..k]), normalized);
        termFreq := Bump(termFreq, normalized);
        if normalized !in seenInDoc {
          seenInDoc := seenInDoc + {normalized};
          docFreq := Bump(docFreq, normalized);
        }
      }
      assert lines[..|lines|] == lines;
    }

    /** The entries of the counting table that are frequent enough, in iteration order. */
    static method CollectCandidates(docFreq: map<string, nat>, termFreq: map<string, nat>, files: seq<File>,
                                    order: seq<string>, ln: real -> real) returns (candidates: seq<Candidate>)
      requires CountsTerms(termFreq, files, []) && CountsDocs(docFreq, files, []) && ListsCounted(order, files)
      ensures candidates == Candidates(order, files, ln)
    {
      candidates := [];
      for k := 0 to |order|
        invariant candidates == Candidates(order[..k], files, ln)
      {
        hide TermCount, DocCount, CountsTerms, CountsDocs;
        var p := order[k];
        assert order[..k + 1][..k] == order[..k];
        assert p in order;
        TableEntry(docFreq, termFreq, files, p);
        if docFreq[p] >= MIN_DOCS {
          candidates := candidates + [Candidate(p, termFreq[p], ln(|files| as real / docFreq[p] as real))];
        }
      }
      assert order[..|order|] == order;
    }

    method Compress(content: string) returns (compressed: string, refsUsed: seq<string>)
      ensures compressed == Compressed(Value(), content)
      ensures refsUsed == if entries == [] then [] else RefsUsed(Value(), Lines(content))
      ensures Distinct(refsUsed)
      ensures forall id :: id in refsUsed <==> entries != [] && Refers(Value(), Lines(content), id)
    {
      if entries == [] {
        return content, [];
      }
      var lines := Lines(content);
      var result: seq<string> := [];
      refsUsed := [];
      for k := 0 to |lines|
        invariant result == CompressedLines(Value(), lines[..k])
        invariant refsUsed == RefsUsed(Value(), lines[..k])
        invariant Distinct(refsUsed)
        invariant forall id :: id in refsUsed <==> Refers(Value(), lines[..k], id)
      {
        ReferOne(Value(), lines, k);
        assert lines[..k + 1][..k] == lines[..k];
        var normalized := NormalizeLine(lines[k]);
        if normalized in patternToId {
          var id := patternToId[normalized];
          if id !in refsUsed {
            refsUsed := refsUsed + [id];
          }
          result := result + [Reference(id)];
        } else {
          result := result + [lines[k]];
        }
      }
      assert lines[..|lines|] == lines;
      compressed := JoinLines(result);
    }
  }

  lemma ReferOne(b: Book, lines: seq<string>, k: nat)
    requires k < |lines|
    ensures CompressedLines(b, lines[..k + 1]) == CompressedLines(b, lines[..k]) + [CompressedLine(b, lines[k])]
    ensures forall id :: Refers(b, lines[..k + 1], id) <==> Refers(b, lines[..k], id) || RefersTo(b, lines[k], id)
  {
    hide CompressedLine, RefersTo;
    forall id
      ensures Refers(b, lines[..k + 1], id) <==> Refers(b, lines[..k], id) || RefersTo(b, lines[k], id)
    {
      if Refers(b, lines[..k], id) {
        var i :| 0 <= i < k && RefersTo(b, lines[..k][i], id);
        assert RefersTo(b, lines[..k + 1][i], id);
      }
      if RefersTo(b, lines[k], id) {
        assert RefersTo(b, lines[..k + 1][k], id);
      }
      if Refers(b, lines[..k + 1], id) {
        var i :| 0 <= i < k + 1 && RefersTo(b, lines[..k + 1][i], id);
        assert i < k ==> RefersTo(b, lines[..k][i], id);
      }
    }
  }

  // Every sequence of builds

  datatype Build = Build(files: seq<File>, order: seq<string>)

  function AfterBuilds(builds: seq<Build>, ln: real -> real): Book {
    if builds == [] then EMPTY
    else Built(AfterBuilds(builds[..|builds| - 1], ln), builds[|builds| - 1].files, builds[|builds| - 1].order, ln)
  }

  /** Ids number the entries, so no two are alike; every entry's pattern resolves to
      the latest entry that holds it, and nothing else resolves. */
  ghost predicate Sound(b: Book) {
    && b.nextId == |b.entries|
    && (forall i :: 0 <= i < |b.entries| ==>
          && b.entries[i].id == Id(i)
          && IsPattern(b.entries[i].pattern)
          && b.entries[i].pattern in b.patternToId)
    && (forall p :: p in b.patternToId ==> exists i: nat :: ResolvesTo(b, p, i))
  }

  ghost predicate ResolvesTo(b: Book, p: string, i: nat) {
    && i < |b.entries| && b.entries[i].pattern == p
    && p in b.patternToId && b.patternToId[p] == b.entries[i].id
    && forall j :: i < j < |b.entries| ==> b.entries[j].pattern != p
  }

  lemma IdsAreUnique(m: nat, n: nat)
    ensures Id(m) == Id(n) ==> m == n
  {
    if Id(m) == Id(n) {
      assert Id(m)[1..] == Decimals.Print(m) && Id(n)[1..] == Decimals.Print(n);
      Decimals.PrintIsInjective(m, n);
    }
  }

  lemma AddingKeepsSound(b: Book, c: Candidate)
    requires Sound(b) && IsPattern(c.pattern)
    ensures Sound(Added(b, c))
  {
    hide Id, NormalizeLine;
    var r := Added(b, c);
    forall p | p in r.patternToId
      ensures exists i: nat :: ResolvesTo(r, p, i)
    {
      if p == c.pattern {
        assert ResolvesTo(r, p, |b.entries|);
      } else {
        var i: nat :| ResolvesTo(b, p, i);
        assert ResolvesTo(r, p, i);
      }
    }
  }

  lemma {:induction false} AddingAllKeepsSound(b: Book, selected: seq<Candidate>)
    requires Sound(b) && forall i :: 0 <= i < |selected| ==> IsPattern(selected[i].pattern)
    ensures Sound(AddedAll(b, selected))
  {
    hide Sound, NormalizeLine;
    if selected != [] {
      AddingAllKeepsSound(b, selected[..|selected| - 1]);
      AddingKeepsSound(AddedAll(b, selected[..|selected| - 1]), selected[|selected| - 1]);
    }
  }

  /** A candidate carries its pattern's true counts, and three files or more have it. */
  ghost predicate IsBoilerplate(c: Candidate, files: seq<File>, ln: real -> real) {
    && DocCount(files, c.pattern) >= 3
    && c.frequency == TermCount(files, c.pattern)
    && c.idf == ln(|files| as real / DocCount(files, c.pattern) as real)
  }

  lemma {:induction false} CandidatesAre(order: seq<string>, files: seq<File>, ln: real -> real)
    ensures forall c :: c in Candidates(order, files, ln) <==> c.pattern in order && IsBoilerplate(c, files, ln)
  {
    hide DocCount, TermCount;
    if order != [] {
      var n := |order| - 1;
      CandidatesAre(order[..n], files, ln);
      assert order == order[..n] + [order[n]];
    }
  }

  /** What a build selects: patterns that at least three files have, with a count of occurrences no
      smaller than the count of files; either all of these, or the fifty most frequent. */
  lemma SelectionIsBoilerplate(files: seq<File>, order: seq<string>, ln: real -> real)
    requires ListsCounted(order, files)
    ensures forall c :: c in Selected(files, order, ln) ==>
              && IsBoilerplate(c, files, ln) && IsPattern(c.pattern)
              && c.frequency >= DocCount(files, c.pattern) >= 3
    ensures forall c, p ::
              && c in Selected(files, order, ln) && DocCount(files, p) >= 3
              && CandidateOf(p, files, ln) !in Selected(files, order, ln)
              ==> |Selected(files, order, ln)| == 50 && TermCount(files, p) <= c.frequency
  {
    hide TermCount, DocCount, Selected, IsBoilerplate, IsPattern;
    forall c | c in Selected(files, order, ln)
      ensures IsBoilerplate(c, files, ln) && IsPattern(c.pattern)
      ensures c.frequency >= DocCount(files, c.pattern) >= MIN_DOCS
    {
      SelectedIsBoilerplate(files, order, ln, c);
    }
    forall c, p | c in Selected(files, order, ln) && DocCount(files, p) >= MIN_DOCS
                  && CandidateOf(p, files, ln) !in Selected(files, order, ln)
      ensures |Selected(files, order, ln)| == MAX_SELECTED && TermCount(files, p) <= c.frequency
    {
      NotSelectedIsNoMoreFrequent(files, order, ln, c, p);
    }
  }

  lemma SelectedIsBoilerplate(files: seq<File>, order: seq<string>, ln: real -> real, c: Candidate)
    requires c in Selected(files, order, ln)
    ensures IsBoilerplate(c, files, ln) && IsPattern(c.pattern)
    ensures c.frequency >= DocCount(files, c.pattern) >= MIN_DOCS
  {
    hide TermCount, DocCount, IsPattern, Candidates;
    var candidates := Candidates(order, files, ln);
    CandidatesAre(order, files, ln);
    SortKeepsElements(candidates, MoreFrequent());
    assert c in Sort(candidates, MoreFrequent());
    TermsOutnumberDocs(files, c.pattern);
    DocCountIsNormal(files, c.pattern);
  }

  /** What is left out of a full selection is no more frequent than what is in it. */
  lemma CutIsSorted(sorted: seq<Candidate>, selected: seq<Candidate>, c: Candidate, d: Candidate)
    requires Sorted(sorted, MoreFrequent())
    requires selected == if |sorted| <= MAX_SELECTED then sorted else sorted[..MAX_SELECTED]
    requires c in selected && d in sorted && d !in selected
    ensures |selected| == MAX_SELECTED && d.frequency <= c.frequency
  {
    var i :| 0 <= i < |selected| && selected[i] == c;
    var j :| 0 <= j < |sorted| && sorted[j] == d;
    assert forall k :: 0 <= k < |selected| ==> selected[k] in selected && selected[k] == sorted[k];
    assert !MoreFrequent()(sorted[j], sorted[i]);
  }

  lemma NotSelectedIsNoMoreFrequent(files: seq<File>, order: seq<string>, ln: real -> real, c: Candidate, p: string)
    requires ListsCounted(order, files) && c in Selected(files, order, ln) && DocCount(files, p) >= MIN_DOCS
    requires CandidateOf(p, files, ln) !in Selected(files, order, ln)
    ensures |Selected(files, order, ln)| == MAX_SELECTED && TermCount(files, p) <= c.frequency
  {
    hide TermCount, DocCount, Candidates, MoreFrequent, Sort, Sorted;
    var candidates, d := Candidates(order, files, ln), CandidateOf(p, files, ln);
    CandidatesAre(order, files, ln);
    SortKeepsElements(candidates, MoreFrequent());
    MoreFrequentIsAnOrder();
    SortSorts(candidates, MoreFrequent());
    assert d in candidates;
    CutIsSorted(Sort(candidates, MoreFrequent()), Selected(files, order, ln), c, d);
  }

  lemma MoreFrequentIsAnOrder()
    ensures StrictWeakOrder(MoreFrequent())
  {
  }

  lemma SelectedAreNormal(files: seq<File>, order: seq<string>, ln: real -> real)
    ensures forall i :: 0 <= i < |Selected(files, order, ln)| ==> IsPattern(Selected(files, order, ln)[i].pattern)
  {
    hide NormalizeLine, DocCount;
    var candidates, selected := Candidates(order, files, ln), Selected(files, order, ln);
    CandidatesAre(order, files, ln);
    SortKeepsElements(candidates, MoreFrequent());
    forall i | 0 <= i < |selected|
      ensures IsPattern(selected[i].pattern)
    {
      assert selected[i] == Sort(candidates, MoreFrequent())[i];
      assert selected[i] in candidates;
      DocCountIsNormal(files, selected[i].pattern);
    }
  }

  lemma {:induction false} EveryBookIsSound(builds: seq<Build>, ln: real -> real)
    ensures Sound(AfterBuilds(builds, ln))
  {
    hide Sound, Selected, NormalizeLine;
    if builds == [] {
      EmptyIsSound();
    } else {
      var n := |builds| - 1;
      EveryBookIsSound(builds[..n], ln);
      SelectedAreNormal(builds[n].files, builds[n].order, ln);
      AddingAllKeepsSound(AfterBuilds(builds[..n], ln), Selected(builds[n].files, builds[n].order, ln));
    }
  }

  lemma EmptyIsSound()
    ensures Sound(EMPTY)
  {
  }

  // Expansion

  /** The entry that a line of the shape `[id]` refers to. */
  function EntryReferredTo(entries: seq<CodebookEntry>, line: string): (r: Option<nat>)
    ensures r.Some? ==> r.value < |entries| && line == Reference(entries[r.value].id)
    ensures r.None? ==> forall i :: 0 <= i < |entries| ==> line != Reference(entries[i].id)
  {
    if entries == [] then None
    else
      var n := |entries| - 1;
      if line == Reference(entries[n].id) then Some(n) else EntryReferredTo(entries[..n], line)
  }

  function ExpandedLine(b: Book, line: string): string {
    match EntryReferredTo(b.entries, line)
    case Some(i) => b.entries[i].pattern
    case None => line
  }

  function NormalForms(lines: seq<string>): seq<string> {
    seq(|lines|, i requires 0 <= i < |lines| => NormalizeLine(lines[i]))
  }

  function ExpandedLines(b: Book, lines: seq<string>): seq<string> {
    seq(|lines|, i requires 0 <= i < |lines| => ExpandedLine(b, lines[i]))
  }

  /** A line that already has the shape of a reference and would be kept as it is. */
  predicate Ambiguous(b: Book, line: string) {
    EntryReferredTo(b.entries, line).Some? && NormalizeLine(line) !in b.patternToId
  }

  predicate Unambiguous(b: Book, lines: seq<string>) {
    forall i :: 0 <= i < |lines| ==> !Ambiguous(b, lines[i])
  }

  lemma LineExpandsBackExactlyWhen(b: Book, line: string)
    requires Sound(b)
    ensures NormalizeLine(ExpandedLine(b, CompressedLine(b, line))) == NormalizeLine(line) <==> !Ambiguous(b, line)
  {
    hide NormalizeLine, Id;
    var p := NormalizeLine(line);
    if p in b.patternToId {
      var i: nat :| ResolvesTo(b, p, i);
      var reference := Reference(Id(i));
      var found := EntryReferredTo(b.entries, reference);
      assert found.Some?;
      assert reference[1..|reference| - 1] == Id(i);
      assert Reference(Id(found.value))[1..|reference| - 1] == Id(found.value);
      IdsAreUnique(i, found.value);
    }
  }

  lemma CompressedLinesAreLines(b: Book, lines: seq<string>)
    requires Sound(b) && forall i :: 0 <= i < |lines| ==> '\n' !in lines[i]
    ensures forall i :: 0 <= i < |lines| ==> '\n' !in CompressedLines(b, lines)[i]
  {
    hide NormalizeLine;
    forall i | 0 <= i < |lines|
      ensures '\n' !in CompressedLine(b, lines[i])
    {
      var p := NormalizeLine(lines[i]);
      if p in b.patternToId {
        var k: nat :| ResolvesTo(b, p, k);
        assert '\n' !in Decimals.Print(k);
      }
    }
  }

  /** After any sequence of builds, cutting the compressed text at its line feeds and replacing
      each reference by its pattern gives back the normal form of every line, exactly when no
      line was kept although it reads like a reference. */
  lemma ExpansionRestoresNormalFormsExactlyWhen(builds: seq<Build>, content: string, ln: real -> real)
    ensures var b := AfterBuilds(builds, ln);
            && (b.entries == [] || content == "" ==> Compressed(b, content) == content)
            && (b.entries != [] && content != "" ==>
                  (RestoresNormalForms(b, content) <==> Unambiguous(b, Lines(content))))
  {
    hide AfterBuilds, Lines, NormalizeLine, CompressedLine, ExpandedLine, Ambiguous, Sound;
    var b, lines := AfterBuilds(builds, ln), Lines(content);
    if lines == [] {
      assert CompressedLines(b, lines) == [];
    } else {
      EveryBookIsSound(builds, ln);
      CompressedLinesAreLines(b, lines);
      SplitOfJoined(CompressedLines(b, lines));
      LinesExpandBackExactlyWhen(b, lines);
    }
  }

  lemma LinesExpandBackExactlyWhen(b: Book, lines: seq<string>)
    requires Sound(b)
    ensures NormalForms(ExpandedLines(b, CompressedLines(b, lines))) == NormalForms(lines)
       <==> Unambiguous(b, lines)
  {
    hide NormalizeLine, CompressedLine, ExpandedLine, Ambiguous, Sound;
    var forms := NormalForms(ExpandedLines(b, CompressedLines(b, lines)));
    forall i | 0 <= i < |lines|
      ensures forms[i] == NormalForms(lines)[i] <==> !Ambiguous(b, lines[i])
    {
      LineExpandsBackExactlyWhen(b, lines[i]);
    }
  }

  predicate RestoresNormalForms(b: Book, content: string) {
    NormalForms(ExpandedLines(b, SplitAtFeeds(Compressed(b, content)))) == NormalForms(Lines(content))
  }

  lemma ResolvedIsPattern(b: Book, p: string)
    requires Sound(b)
    ensures p in b.patternToId ==> IsPattern(p)
  {
    hide IsPattern;
    if p in b.patternToId {
      var k: nat :| ResolvesTo(b, p, k);
      assert b.entries[k].pattern == p;
    }
  }

  /** Such lines exist: with any entry numbered below a million, a text that is just its reference
      is kept as it is and expands to the pattern instead. */
  lemma AReferenceDoesNotExpandBack(builds: seq<Build>, i: nat, ln: real -> real)
    requires i < |AfterBuilds(builds, ln).entries| && |Decimals.Print(i)| <= 6
    ensures !RestoresNormalForms(AfterBuilds(builds, ln), Reference(Id(i)))
  {
    hide AfterBuilds, RestoresNormalForms;
    var b, line := AfterBuilds(builds, ln), Reference(Id(i));
    EveryBookIsSound(builds, ln);
    assert line[1 + |Id(i)|] == ']' && '\n' !in line && IsWord(line);
    WordsOfJoined([line]);
    assert NormalizeLine(line) == line;
    IndexOfNone(line, '\n');
    assert Lines(line) == [line];
    assert EntryReferredTo(b.entries, line).Some?;
    assert line !in b.patternToId by { ResolvedIsPattern(b, line); }
    ExpansionRestoresNormalFormsExactlyWhen(builds, line, ln);
  }

  const SHARED_LINE := "initialise()"

  const THREE_FILES: seq<File> := [("a", SHARED_LINE), ("b", SHARED_LINE), ("c", SHARED_LINE)]

  lemma SharedLineIsCounted()
    ensures Lines(SHARED_LINE) == [SHARED_LINE] && Counted([SHARED_LINE]) == [SHARED_LINE]
  {
    IndexOfNone(SHARED_LINE, '\n');
    WordsOfJoined([SHARED_LINE]);
    assert Counted([SHARED_LINE][..0]) == [];
  }

  lemma ThreeFilesHaveTheLine()
    ensures DocCount(THREE_FILES, SHARED_LINE) == 3
    ensures ListsCounted([SHARED_LINE], THREE_FILES)
  {
    hide Lines, Counted;
    SharedLineIsCounted();
    DocCountOfCopies(THREE_FILES);
  }

  lemma {:induction false} DocCountOfCopies(files: seq<File>)
    requires forall i :: 0 <= i < |files| ==> files[i].1 == SHARED_LINE
    ensures DocCount(files, SHARED_LINE) == |files|
    ensures forall p :: DocCount(files, p) > 0 ==> p == SHARED_LINE
  {
    hide Lines, Counted;
    SharedLineIsCounted();
    if files != [] { DocCountOfCopies(files[..|files| - 1]); }
  }

  /** Three files that share one line build a book with one entry, and a text that is its reference does
      not expand back. */
  lemma ThreeFilesAndAReference(ln: real -> real)
    ensures var b := AfterBuilds([Build(THREE_FILES, [SHARED_LINE])], ln);
            && |b.entries| == 1 && b.entries[0].pattern == SHARED_LINE
            && !RestoresNormalForms(b, Reference(Id(0)))
  {
    hide RestoresNormalForms, DocCount, TermCount;
    var build := Build(THREE_FILES, [SHARED_LINE]);
    ThreeFilesHaveTheLine();
    var c := CandidateOf(SHARED_LINE, THREE_FILES, ln);
    OneCandidate(THREE_FILES, ln);
    OneBuild(build, ln);
    assert Selected(THREE_FILES, [SHARED_LINE], ln) == [c];
    OneAdded(c);
    AReferenceDoesNotExpandBack([build], 0, ln);
  }

  lemma OneCandidate(files: seq<File>, ln: real -> real)
    requires DocCount(files, SHARED_LINE) >= MIN_DOCS
    ensures Candidates([SHARED_LINE], files, ln) == [CandidateOf(SHARED_LINE, files, ln)]
    ensures Sort(Candidates([SHARED_LINE], files, ln), MoreFrequent()) == [CandidateOf(SHARED_LINE, files, ln)]
  {
    assert Candidates([SHARED_LINE][..0], files, ln) == [];
  }

  lemma OneBuild(build: Build, ln: real -> real)
    ensures AfterBuilds([build], ln) == Built(EMPTY, build.files, build.order, ln)
  {
    assert AfterBuilds([build][..0], ln) == EMPTY;
  }

  lemma OneAdded(c: Candidate)
    ensures AddedAll(EMPTY, [c]) == Added(EMPTY, c)
    ensures Decimals.Print(0) == "0"
  {
    assert [c][..0] == [];
    assert Decimals.Digits(0) == [0];
  }

  // Compressed text, line by line

  /** The id of the latest entry with this pattern. */
  ghost predicate IsLatest(b: Book, p: string, i: nat) {
    i < |b.entries| && b.entries[i].pattern == p && forall j :: i < j < |b.entries| ==> b.entries[j].pattern != p
  }

  /** The line as it was, or the reference to the latest entry that has its normal form. */
  ghost predicate IsCompressed(b: Book, line: string, out: string) {
    if exists i: nat :: IsLatest(b, NormalizeLine(line), i)
    then exists i: nat :: IsLatest(b, NormalizeLine(line), i) && out == "[" + b.entries[i].id + "]"
    else out == line
  }

  lemma CompressedLineIs(b: Book, line: string)
    requires Sound(b)
    ensures IsCompressed(b, line, CompressedLine(b, line))
  {
    hide NormalizeLine, Id;
    var p := NormalizeLine(line);
    if p in b.patternToId {
      var i: nat :| ResolvesTo(b, p, i);
      assert IsLatest(b, p, i);
    } else {
      assert forall i: nat :: i < |b.entries| ==> b.entries[i].pattern in b.patternToId;
    }
  }

  /** After any builds, compressed text has the lines of the original, each unchanged unless its normal
      form is a pattern, and then its reference. */
  lemma CompressedLineByLine(builds: seq<Build>, content: string, ln: real -> real)
    ensures var b := AfterBuilds(builds, ln);
            b.entries != [] && content != "" ==>
              && var lines, out := Lines(content), SplitAtFeeds(Compressed(b, content));
              && |out| == |lines| && forall k :: 0 <= k < |lines| ==> IsCompressed(b, lines[k], out[k])
  {
    hide AfterBuilds, Lines, NormalizeLine, CompressedLine, IsCompressed, Sound;
    var b, lines := AfterBuilds(builds, ln), Lines(content);
    if b.entries != [] && content != "" {
      EveryBookIsSound(builds, ln);
      CompressedLinesAreLines(b, lines);
      SplitOfJoined(CompressedLines(b, lines));
      forall k | 0 <= k < |lines|
        ensures IsCompressed(b, lines[k], CompressedLines(b, lines)[k])
      {
        CompressedLineIs(b, lines[k]);
      }
    }
  }

  /** What is counted: the normal forms of ten characters or more. */
  lemma {:induction false} CountedExactlyWhen(lines: seq<string>, p: string)
    ensures p in Counted(lines) <==> |p| >= 10 && exists i :: 0 <= i < |lines| && NormalizeLine(lines[i]) == p
  {
    hide NormalizeLine;
    if lines != [] {
      var n := |lines| - 1;
      CountedExactlyWhen(lines[..n], p);
      assert forall i :: 0 <= i < n ==> lines[..n][i] == lines[i];
      if i :| 0 <= i < |lines| && NormalizeLine(lines[i]) == p {
        assert i < n ==> NormalizeLine(lines[..n][i]) == p;
      }
    }
  }

  /** Entries are numbered from nought, in the order in which they were added. */
  lemma EntriesAreNumbered(builds: seq<Build>, ln: real -> real)
    ensures var b := AfterBuilds(builds, ln);
            forall i :: 0 <= i < |b.entries| ==> b.entries[i].id == "§" + Decimals.Print(i)
  {
    hide AfterBuilds;
    EveryBookIsSound(builds, ln);
  }

  // The references used

  /** The first line that `id` stands for. */
  ghost predicate FirstUse(b: Book, lines: seq<string>, id: string, k: nat) {
    k < |lines| && RefersTo(b, lines[k], id) && forall j :: 0 <= j < k ==> !RefersTo(b, lines[j], id)
  }

  lemma {:induction false} UsedAreReferredTo(b: Book, lines: seq<string>, id: string)
    ensures id in RefsUsed(b, lines) <==> Refers(b, lines, id)
  {
    hide NormalizeLine;
    if lines != [] {
      var n := |lines| - 1;
      UsedAreReferredTo(b, lines[..n], id);
      assert forall i :: 0 <= i < n ==> lines[..n][i] == lines[i];
      if Refers(b, lines[..n], id) {
        var i :| 0 <= i < n && RefersTo(b, lines[..n][i], id);
        assert RefersTo(b, lines[i], id);
      }
      if Refers(b, lines, id) && !RefersTo(b, lines[n], id) {
        var i :| 0 <= i < |lines| && RefersTo(b, lines[i], id);
        assert RefersTo(b, lines[..n][i], id);
      }
    }
  }

  /** The references used are listed in the order of their first use. */
  lemma {:induction false} RefsInOrderOfFirstUse(b: Book, lines: seq<string>, i: nat, j: nat, p: nat, q: nat)
    requires i < j < |RefsUsed(b, lines)|
    requires FirstUse(b, lines, RefsUsed(b, lines)[i], p) && FirstUse(b, lines, RefsUsed(b, lines)[j], q)
    ensures p < q
    decreases |lines|
  {
    hide RefersTo;
    var n := |lines| - 1;
    var before, all := RefsUsed(b, lines[..n]), RefsUsed(b, lines);
    assert forall k :: 0 <= k < n ==> lines[..n][k] == lines[k];
    UsedAreReferredTo(b, lines[..n], all[i]);
    UsedAreReferredTo(b, lines[..n], all[j]);
    assert all == before || (|all| == |before| + 1 && all[..|before|] == before);
    assert all[i] == before[i] && before[i] in before;
    var a :| 0 <= a < n && RefersTo(b, lines[..n][a], all[i]);
    assert p <= a < n;
    if j < |before| {
      assert before[j] == all[j] && before[j] in before;
      var c :| 0 <= c < n && RefersTo(b, lines[..n][c], all[j]);
      assert q <= c < n;
      RefsInOrderOfFirstUse(b, lines[..n], i, j, p, q);
    } else {
      LastIsNew(b, lines);
      NotUsedBefore(b, lines, n, all[j]);
    }
  }

  lemma NotUsedBefore(b: Book, lines: seq<string>, n: nat, id: string)
    requires n <= |lines| && !Refers(b, lines[..n], id)
    ensures forall k :: 0 <= k < n ==> !RefersTo(b, lines[k], id)
  {
    hide RefersTo;
    assert forall k :: 0 <= k < n ==> lines[..n][k] == lines[k] && !RefersTo(b, lines[..n][k], id);
  }

  lemma LastIsNew(b: Book, lines: seq<string>)
    requires lines != []
    ensures var before, all := RefsUsed(b, lines[..|lines| - 1]), RefsUsed(b, lines);
            |all| > |before| ==> |all| == |before| + 1 && all[|before|] !in before
  {
    hide NormalizeLine;
  }

  // The counts, line by line

  /** The lines of a file that have this normal form. */
  function LinesLike(file: File, p: string): set<nat> {
    set k: nat | k < |Lines(file.1)| && NormalizeLine(Lines(file.1)[k]) == p
  }

  function Like(lines: seq<string>, p: string): set<nat> {
    set k: nat | k < |lines| && NormalizeLine(lines[k]) == p
  }

  lemma {:induction false} CountedCounts(lines: seq<string>, p: string)
    requires |p| >= 10
    ensures multiset(Counted(lines))[p] == |Like(lines, p)|
  {
    hide NormalizeLine, Like;
    if lines == [] {
      NothingAlike(p);
    } else {
      CountedCounts(lines[..|lines| - 1], p);
      OneMoreAlike(lines, p);
    }
  }

  lemma NothingAlike(p: string)
    ensures Like([], p) == {}
  {
  }

  lemma OneMoreAlike(lines: seq<string>, p: string)
    requires lines != []
    ensures var n := |lines| - 1;
            && Like(lines, p) == Like(lines[..n], p) + (if NormalizeLine(lines[n]) == p then {n} else {})
            && n !in Like(lines[..n], p)
  {
    hide NormalizeLine;
    var n := |lines| - 1;
    assert forall k: nat :: k < n ==> lines[..n][k] == lines[k];
  }

  /** Every line with the normal form counts towards its frequency, and every file with such a line counts
      once towards its files. */
  lemma CountsAreOfLines(files: seq<File>, p: string)
    requires |p| >= 10
    ensures TermCount([], p) == 0 && DocCount([], p) == 0
    ensures files != [] ==>
      && var init, last := files[..|files| - 1], files[|files| - 1];
      && TermCount(files, p) == TermCount(init, p) + |LinesLike(last, p)|
      && DocCount(files, p) == DocCount(init, p) + if LinesLike(last, p) == {} then 0 else 1
  {
    hide NormalizeLine, Lines;
    if files != [] {
      var last := files[|files| - 1];
      CountedCounts(Lines(last.1), p);
      assert LinesLike(last, p) == Like(Lines(last.1), p);
      assert p in Counted(Lines(last.1)) <==> p in multiset(Counted(Lines(last.1)));
    }
  }
}
