/** An incremental build agrees with a build from scratch after any run of edits. */
module CallGraphLaws {
  import opened Wrappers
  import opened Sequences
  import opened StableSort
  import opened CallGraphs

  // Which symbol is chosen, and when iteration order matters

  function Members(syms: seq<SymbolEntry>, file: string): set<SymbolEntry> {
    set s | s in InFile(syms, file)
  }

  /** The name found for a line of `file` when the index yields its symbols in this order. */
  function NameChosen(syms: seq<SymbolEntry>, file: string, line: nat): string {
    ScopeName(Smallest(FileSymbols(syms, file), line))
  }

  /** Around the line, no larger than any other symbol around it, and starting no later than any
      other of its size. */
  ghost predicate Preferred(s: SymbolEntry, syms: set<SymbolEntry>, line: nat) {
    && s in syms && Encloses(s, line)
    && forall t :: t in syms && Encloses(t, line) ==>
         Span(s) <= Span(t) && (Span(s) == Span(t) ==> s.startLine <= t.startLine)
  }

  /** All preferred symbols share a name. */
  ghost predicate SettledAt(syms: set<SymbolEntry>, line: nat) {
    forall a, b :: Preferred(a, syms, line) && Preferred(b, syms, line) ==> a.name == b.name
  }

  lemma StartsBeforeIsAnOrder()
    ensures StrictWeakOrder(StartsBefore())
  {
  }

  /** In a list sorted by start line, the chosen symbol starts no later than any other of its size. */
  lemma {:induction false} SmallestStartsFirst(syms: seq<SymbolEntry>, line: nat)
    requires Sorted(syms, StartsBefore())
    ensures Smallest(syms, line).Some? ==>
      && var b := Smallest(syms, line).value;
      && forall s :: s in syms && Encloses(s, line) && Span(s) == Span(b) ==> b.startLine <= s.startLine
  {
    if syms != [] {
      var rest := syms[1..];
      assert forall i :: 0 <= i < |rest| ==> rest[i] == syms[i + 1];
      SmallestStartsFirst(rest, line);
      SmallestIsSmallest(rest, line);
      assert forall s :: s in syms ==> s == syms[0] || s in rest;
      forall s | s in rest
        ensures syms[0].startLine <= s.startLine
      {
        var i :| 0 <= i < |rest| && rest[i] == s;
        assert !StartsBefore()(syms[i + 1], syms[0]);
      }
    }
  }

  lemma ChosenIsPreferred(syms: seq<SymbolEntry>, file: string, line: nat)
    ensures match Smallest(FileSymbols(syms, file), line)
            case None => forall s :: s in Members(syms, file) ==> !Encloses(s, line)
            case Some(b) => Preferred(b, Members(syms, file), line)
  {
    var sorted := FileSymbols(syms, file);
    SortKeepsElements(InFile(syms, file), StartsBefore());
    StartsBeforeIsAnOrder();
    SortSorts(InFile(syms, file), StartsBefore());
    SmallestIsSmallest(sorted, line);
    SmallestStartsFirst(sorted, line);
  }

  /** Where the choice is settled, every order of the same symbols finds the same name. */
  lemma SettledMeansOneName(one: seq<SymbolEntry>, two: seq<SymbolEntry>, file: string, line: nat)
    requires Members(one, file) == Members(two, file) && SettledAt(Members(one, file), line)
    ensures NameChosen(one, file, line) == NameChosen(two, file, line)
  {
    hide FileSymbols, Members, Smallest;
    ChosenIsPreferred(one, file, line);
    ChosenIsPreferred(two, file, line);
  }

  lemma {:induction false} InsertedPreferredIsChosen(a: SymbolEntry, sorted: seq<SymbolEntry>, line: nat)
    requires Encloses(a, line)
    requires forall t :: t in sorted && Encloses(t, line) ==>
               Span(a) <= Span(t) && (Span(a) == Span(t) ==> a.startLine <= t.startLine)
    ensures Smallest(Insert(a, sorted, StartsBefore()), line) == Some(a)
  {
    if sorted != [] && StartsBefore()(sorted[0], a) {
      assert forall t :: t in sorted[1..] ==> t in sorted;
      InsertedPreferredIsChosen(a, sorted[1..], line);
      assert sorted[0] in sorted;
    } else {
      assert ([a] + sorted)[1..] == sorted;
      SmallestIsSmallest(sorted, line);
    }
  }

  /** A preferred symbol that the index yields first is the one that is found. */
  lemma PreferredFirstIsChosen(a: SymbolEntry, rest: seq<SymbolEntry>, line: nat)
    requires Preferred(a, Members([a] + rest, a.file), line)
    ensures NameChosen([a] + rest, a.file, line) == a.name
  {
    var mine := InFile(rest, a.file);
    assert ([a] + rest)[1..] == rest;
    assert InFile([a] + rest, a.file) == [a] + mine;
    assert ([a] + mine)[1..] == mine;
    SortKeepsElements(mine, StartsBefore());
    InsertedPreferredIsChosen(a, Sort(mine, StartsBefore()), line);
  }

  lemma {:induction false} InFileMembers(syms: seq<SymbolEntry>, file: string)
    ensures forall s :: s in InFile(syms, file) <==> s in syms && s.file == file
  {
    if syms != [] {
      InFileMembers(syms[1..], file);
      assert syms == [syms[0]] + syms[1..];
    }
  }

  lemma ReorderingKeepsMembers(one: seq<SymbolEntry>, two: seq<SymbolEntry>, file: string)
    requires multiset(one) == multiset(two)
    ensures Members(one, file) == Members(two, file)
  {
    InFileMembers(one, file);
    InFileMembers(two, file);
    assert forall s :: s in one <==> s in multiset(one);
    assert forall s :: s in two <==> s in multiset(two);
  }

  /** Any symbol can be yielded first. */
  lemma MoveToFront(syms: seq<SymbolEntry>, a: SymbolEntry) returns (rest: seq<SymbolEntry>)
    requires a in syms
    ensures multiset([a] + rest) == multiset(syms)
  {
    var k :| 0 <= k < |syms| && syms[k] == a;
    rest := syms[..k] + syms[k + 1..];
    assert syms == syms[..k] + [a] + syms[k + 1..];
  }

  /** Two orders of the same symbols that find different names, when the choice is not settled. */
  lemma UnsettledOrders(syms: seq<SymbolEntry>, file: string, line: nat) returns (other: seq<SymbolEntry>)
    requires !SettledAt(Members(syms, file), line)
    ensures multiset(other) == multiset(syms) && NameChosen(other, file, line) != NameChosen(syms, file, line)
  {
    hide NameChosen, Members;
    var a, b :| && Preferred(a, Members(syms, file), line) && Preferred(b, Members(syms, file), line)
                && a.name != b.name;
    other := FoundFirst(syms, file, line, if a.name == NameChosen(syms, file, line) then b else a);
  }

  lemma FoundFirst(syms: seq<SymbolEntry>, file: string, line: nat, a: SymbolEntry) returns (other: seq<SymbolEntry>)
    requires Preferred(a, Members(syms, file), line)
    ensures multiset(other) == multiset(syms) && NameChosen(other, file, line) == a.name
  {
    InFileMembers(syms, file);
    var rest := MoveToFront(syms, a);
    other := [a] + rest;
    ReorderingKeepsMembers(other, syms, file);
    PreferredFirstIsChosen(a, rest, line);
  }

  /** Whatever order the index yields its symbols in, the same name is found, exactly when all
      preferred symbols share it. */
  lemma NameIsOrderFreeExactlyWhen(syms: seq<SymbolEntry>, file: string, line: nat)
    ensures (forall other | multiset(other) == multiset(syms) ::
               NameChosen(other, file, line) == NameChosen(syms, file, line))
       <==> SettledAt(Members(syms, file), line)
  {
    hide NameChosen, Members, SettledAt;
    if SettledAt(Members(syms, file), line) {
      forall other | multiset(other) == multiset(syms)
        ensures NameChosen(other, file, line) == NameChosen(syms, file, line)
      {
        ReorderingKeepsMembers(syms, other, file);
        SettledMeansOneName(syms, other, file, line);
      }
    } else {
      var other := UnsettledOrders(syms, file, line);
    }
  }

  /** Two functions on one line are not settled: each order finds the one it yields first. */
  lemma SharedRangeDependsOnOrder(a: SymbolEntry, b: SymbolEntry, line: nat)
    requires a.file == b.file && a.startLine == b.startLine && a.endLine == b.endLine && a.name != b.name
    requires Encloses(a, line)
    ensures NameChosen([a, b], a.file, line) == a.name
    ensures NameChosen([b, a], a.file, line) == b.name
  {
    hide FileSymbols, Smallest;
    TwoSymbols(a, b);
    TwoSymbols(b, a);
    FirstOfTwo(a, b, line);
    FirstOfTwo(b, a, line);
  }

  lemma FirstOfTwo(a: SymbolEntry, b: SymbolEntry, line: nat)
    requires a.startLine == b.startLine && a.endLine == b.endLine && Encloses(a, line)
    ensures Smallest([a, b], line) == Some(a)
  {
    assert [a, b][1..] == [b] && [b][1..] == [];
    assert Smallest([], line) == None;
    assert Smallest([b], line) == Some(b);
  }

  lemma TwoSymbols(a: SymbolEntry, b: SymbolEntry)
    requires a.file == b.file && a.startLine == b.startLine
    ensures FileSymbols([a, b], a.file) == [a, b]
  {
    assert [a, b][1..] == [b] && [b][1..] == [];
    assert InFile([b], a.file) == [b];
    assert InFile([a, b], a.file) == [a, b];
    assert Sort([b], StartsBefore()) == [b];
  }

  // Worlds whose symbols follow from the contents

  type SymbolsOf = (string, string) -> set<SymbolEntry>

  function Calls(w: World, tools: Tools, f: string): seq<Call>
    requires f in w.disk
  {
    tools.analyze(w.disk[f], tools.extension(f))
  }

  /** Order does not matter at any call of the file. */
  ghost predicate SettledFile(w: World, tools: Tools, f: string)
    requires f in w.disk
  {
    forall i :: 0 <= i < |Calls(w, tools, f)| ==> SettledAt(Members(w.symbols, f), Calls(w, tools, f)[i].line + 1)
  }

  /** The index lists each file once, the symbols of a readable file are determined by its
      content, and order does not matter at its calls. */
  ghost predicate Coherent(w: World, tools: Tools, symbolsOf: SymbolsOf) {
    && Distinct(w.files)
    && forall f :: Readable(w, f) ==>
         Members(w.symbols, f) == symbolsOf(f, w.disk[f]) && SettledFile(w, tools, f)
  }

  ghost predicate Readable(w: World, f: string) {
    f in w.files && f in w.disk
  }

  /** Two contents of one file that some of these worlds show never share a hash. */
  ghost predicate Distinguishes(tools: Tools, worlds: seq<World>) {
    forall v, w, f | v in worlds && w in worlds && f in v.disk && f in w.disk ::
      tools.hash(v.disk[f]) == tools.hash(w.disk[f]) ==> v.disk[f] == w.disk[f]
  }

  lemma FileEdgesFollowMembers(w: World, v: World, tools: Tools, f: string)
    requires f in w.disk && f in v.disk && w.disk[f] == v.disk[f]
    requires Members(w.symbols, f) == Members(v.symbols, f) && SettledFile(w, tools, f)
    ensures FileEdges(w, tools, f, w.disk[f]) == FileEdges(v, tools, f, v.disk[f])
  {
    hide FileSymbols, Smallest, Members, SettledAt;
    var calls := Calls(w, tools, f);
    forall i | 0 <= i < |calls|
      ensures NameChosen(w.symbols, f, calls[i].line + 1) == NameChosen(v.symbols, f, calls[i].line + 1)
    {
      SettledMeansOneName(w.symbols, v.symbols, f, calls[i].line + 1);
    }
  }

  // Graphs that may be reused

  /** Where the graph's hash matches a file's content in this world, its edges are the file's. */
  ghost predicate ReusableIn(g: Graph, w: World, tools: Tools) {
    forall f | Readable(w, f) && Unchanged(w, tools, g, f) ::
      EdgesFrom(g.edges, f) == FileEdges(w, tools, f, w.disk[f])
  }

  lemma {:induction false} EdgesFromAppend(a: seq<CallEdge>, b: seq<CallEdge>, f: string)
    ensures EdgesFrom(a + b, f) == EdgesFrom(a, f) + EdgesFrom(b, f)
  {
    if a == [] {
      assert a + b == b;
    } else {
      assert (a + b)[0] == a[0] && (a + b)[1..] == a[1..] + b;
      EdgesFromAppend(a[1..], b, f);
      Reassociate(if a[0].callerFile == f then [a[0]] else [], EdgesFrom(a[1..], f), EdgesFrom(b, f));
    }
  }

  lemma {:induction false} EdgesOfOneFile(edges: seq<CallEdge>, file: string, f: string)
    requires forall i :: 0 <= i < |edges| ==> edges[i].callerFile == file
    ensures EdgesFrom(edges, f) == if f == file then edges else []
  {
    if edges != [] { EdgesOfOneFile(edges[1..], file, f); }
  }

  /** File by file, a build contains the edges of each readable indexed file and no others. */
  lemma {:induction false} BuildHoldsEachFile(files: seq<string>, w: World, tools: Tools, previous: Graph, f: string)
    requires ReusableIn(previous, w, tools)
    requires Distinct(files) && forall x :: x in files ==> x in w.files
    ensures EdgesFrom(AllEdges(files, w, tools, previous), f)
         == if f in files && f in w.disk then FileEdges(w, tools, f, w.disk[f]) else []
  {
    hide FileEdges, EdgesFrom;
    if files == [] {
      NoEdges(f);
    } else {
      var file, rest := files[0], files[1..];
      assert forall i :: 0 <= i < |rest| ==> rest[i] == files[i + 1];
      BuildHoldsEachFile(rest, w, tools, previous, f);
      assert file in files && file !in rest;
      var added := if file in w.disk then EdgesAdded(w, tools, previous, file) else [];
      EdgesFromAppend(added, AllEdges(rest, w, tools, previous), f);
      if file in w.disk {
        assert Readable(w, file);
        assert added == FileEdges(w, tools, file, w.disk[file]);
        FileEdgesBelong(w, tools, file);
        EdgesOfOneFile(added, file, f);
      } else {
        NoEdges(f);
      }
    }
  }

  lemma NoEdges(f: string)
    ensures EdgesFrom([], f) == []
  {
  }

  lemma FileEdgesBelong(w: World, tools: Tools, file: string)
    requires file in w.disk
    ensures forall i :: 0 <= i < |FileEdges(w, tools, file, w.disk[file])| ==>
      FileEdges(w, tools, file, w.disk[file])[i].callerFile == file
  {
  }

  /** Two graphs that record the same hashes and, file by file, the same edges in the same order. */
  ghost predicate Agree(g: Graph, h: Graph) {
    g.hashes == h.hashes && forall f :: EdgesFrom(g.edges, f) == EdgesFrom(h.edges, f)
  }

  lemma NothingIsReusable(w: World, tools: Tools)
    ensures ReusableIn(NO_GRAPH, w, tools)
  {
  }

  /** One incremental build agrees with a build from scratch. */
  lemma IncrementalAgreesWithScratch(w: World, tools: Tools, previous: Graph)
    requires Distinct(w.files) && ReusableIn(previous, w, tools)
    ensures Agree(Incremental(w, tools, previous), FromScratch(w, tools))
  {
    hide FileEdges, EdgesFrom, AllEdges, ReusableIn;
    NothingIsReusable(w, tools);
    forall f
      ensures EdgesFrom(Incremental(w, tools, previous).edges, f) == EdgesFrom(FromScratch(w, tools).edges, f)
    {
      BuildHoldsEachFile(w.files, w, tools, previous, f);
      BuildHoldsEachFile(w.files, w, tools, NO_GRAPH, f);
    }
  }

  /** Its result may be reused in any world whose contents the hash tells apart. */
  lemma BuiltGraphIsReusable(
    w: World, v: World, tools: Tools, previous: Graph, symbolsOf: SymbolsOf, worlds: seq<World>)
    requires Coherent(w, tools, symbolsOf) && Coherent(v, tools, symbolsOf) && ReusableIn(previous, w, tools)
    requires w in worlds && v in worlds && Distinguishes(tools, worlds)
    ensures ReusableIn(Incremental(w, tools, previous), v, tools)
  {
    hide FileEdges, EdgesFrom, AllEdges, ReusableIn;
    var g := Incremental(w, tools, previous);
    forall f | Readable(v, f) && Unchanged(v, tools, g, f)
      ensures EdgesFrom(g.edges, f) == FileEdges(v, tools, f, v.disk[f])
    {
      assert Readable(w, f) && v.disk[f] == w.disk[f];
      BuildHoldsEachFile(w.files, w, tools, previous, f);
      SameFileEdges(w, v, tools, symbolsOf, f);
    }
    ReusableMeans(g, v, tools);
  }

  lemma SameFileEdges(w: World, v: World, tools: Tools, symbolsOf: SymbolsOf, f: string)
    requires Coherent(w, tools, symbolsOf) && Coherent(v, tools, symbolsOf)
    requires Readable(w, f) && Readable(v, f) && w.disk[f] == v.disk[f]
    ensures FileEdges(w, tools, f, w.disk[f]) == FileEdges(v, tools, f, v.disk[f])
  {
    hide FileEdges, Members, SettledFile;
    FileEdgesFollowMembers(w, v, tools, f);
  }

  lemma ReusableMeans(g: Graph, w: World, tools: Tools)
    requires forall f | Readable(w, f) && Unchanged(w, tools, g, f) ::
               EdgesFrom(g.edges, f) == FileEdges(w, tools, f, w.disk[f])
    ensures ReusableIn(g, w, tools)
  {
  }

  /** A run of sessions: each loads the last saved graph, if there is one, and rebuilds. */
  function Rebuilds(worlds: seq<World>, tools: Tools): Graph {
    if worlds == [] then NO_GRAPH
    else Incremental(worlds[|worlds| - 1], tools, Rebuilds(worlds[..|worlds| - 1], tools))
  }

  /** After any run of edits, additions, deletions and unreadable files, in whatever order the
      hash maps yield files and symbols, the graph is what a build from scratch would give. */
  lemma AnyRunAgreesWithScratch(worlds: seq<World>, tools: Tools, symbolsOf: SymbolsOf)
    requires worlds != [] && Distinguishes(tools, worlds)
    requires forall i :: 0 <= i < |worlds| ==> Coherent(worlds[i], tools, symbolsOf)
    ensures Agree(Rebuilds(worlds, tools), FromScratch(worlds[|worlds| - 1], tools))
  {
    hide Incremental, Coherent, ReusableIn, Distinguishes;
    var n := |worlds| - 1;
    RunIsReusable(worlds, n, tools, symbolsOf, worlds[n]);
    DistinctFiles(worlds[n], tools, symbolsOf);
    IncrementalAgreesWithScratch(worlds[n], tools, Rebuilds(worlds[..n], tools));
  }

  lemma DistinctFiles(w: World, tools: Tools, symbolsOf: SymbolsOf)
    requires Coherent(w, tools, symbolsOf)
    ensures Distinct(w.files)
  {
  }

  lemma {:induction false} RunIsReusable(worlds: seq<World>, n: nat, tools: Tools, symbolsOf: SymbolsOf, v: World)
    requires n <= |worlds| && v in worlds && Distinguishes(tools, worlds)
    requires forall i :: 0 <= i < |worlds| ==> Coherent(worlds[i], tools, symbolsOf)
    ensures ReusableIn(Rebuilds(worlds[..n], tools), v, tools)
    decreases n
  {
    hide Incremental, Coherent, ReusableIn, Distinguishes;
    if n == 0 {
      NothingIsReusable(v, tools);
    } else {
      var w := worlds[n - 1];
      assert worlds[..n][..n - 1] == worlds[..n - 1];
      RunIsReusable(worlds, n - 1, tools, symbolsOf, w);
      BuiltGraphIsReusable(w, v, tools, Rebuilds(worlds[..n - 1], tools), symbolsOf, worlds);
    }
  }

  // Exactly when iteration order matters to a graph

  /** The same index and the same contents, yielded in another order. */
  ghost predicate Reorders(v: World, w: World) {
    && v.disk == w.disk && multiset(v.symbols) == multiset(w.symbols)
    && Distinct(v.files) && forall f :: f in v.files <==> f in w.files
  }

  /** The same contents, and the same symbols for each of them. */
  ghost predicate SameIndex(v: World, w: World) {
    && Distinct(v.files) && Distinct(w.files) && v.disk == w.disk
    && (forall f :: f in v.files <==> f in w.files)
    && forall f :: Readable(w, f) ==> Members(v.symbols, f) == Members(w.symbols, f)
  }

  ghost predicate SettledWorld(w: World, tools: Tools) {
    forall f :: Readable(w, f) ==> SettledFile(w, tools, f)
  }

  lemma ScratchHoldsEachFile(w: World, tools: Tools, f: string)
    requires Distinct(w.files)
    ensures EdgesFrom(FromScratch(w, tools).edges, f)
         == if Readable(w, f) then FileEdges(w, tools, f, w.disk[f]) else []
  {
    hide FileEdges, EdgesFrom, AllEdges, ReusableIn;
    NothingIsReusable(w, tools);
    BuildHoldsEachFile(w.files, w, tools, NO_GRAPH, f);
  }

  lemma SettledBuildsAgree(w: World, v: World, tools: Tools)
    requires SameIndex(v, w) && SettledWorld(w, tools)
    ensures Agree(FromScratch(v, tools), FromScratch(w, tools))
  {
    hide FileEdges, EdgesFrom, AllEdges, Members, SettledFile;
    forall f
      ensures EdgesFrom(FromScratch(v, tools).edges, f) == EdgesFrom(FromScratch(w, tools).edges, f)
    {
      ScratchHoldsEachFile(w, tools, f);
      ScratchHoldsEachFile(v, tools, f);
      if Readable(w, f) { FileEdgesFollowMembers(w, v, tools, f); }
    }
    assert Hashes(v.files, v, tools) == Hashes(w.files, w, tools);
  }

  lemma ReorderingKeepsIndex(v: World, w: World)
    requires Distinct(w.files) && Reorders(v, w)
    ensures SameIndex(v, w)
  {
    hide Members;
    forall f
      ensures Members(v.symbols, f) == Members(w.symbols, f)
    {
      ReorderingKeepsMembers(v.symbols, w.symbols, f);
    }
  }

  /** Two builds of the same contents agree whatever the hash maps' iteration orders. */
  lemma IterationOrderDoesNotMatter(w: World, v: World, tools: Tools, symbolsOf: SymbolsOf)
    requires Coherent(w, tools, symbolsOf) && Coherent(v, tools, symbolsOf) && w.disk == v.disk
    requires forall f :: f in w.files <==> f in v.files
    ensures Agree(FromScratch(w, tools), FromScratch(v, tools))
  {
    hide Members, SettledFile, FromScratch;
    SettledBuildsAgree(w, v, tools);
  }

  lemma UnsettledBuildsDiffer(w: World, tools: Tools) returns (v: World)
    requires Distinct(w.files) && !SettledWorld(w, tools)
    ensures Reorders(v, w) && !Agree(FromScratch(v, tools), FromScratch(w, tools))
  {
    hide AllEdges, Members, SettledAt, EdgesFrom, FileSymbols, Smallest;
    var f :| Readable(w, f) && !SettledFile(w, tools, f);
    var calls := Calls(w, tools, f);
    var i :| 0 <= i < |calls| && !SettledAt(Members(w.symbols, f), calls[i].line + 1);
    var other := UnsettledOrders(w.symbols, f, calls[i].line + 1);
    v := w.(symbols := other);
    ScratchHoldsEachFile(w, tools, f);
    ScratchHoldsEachFile(v, tools, f);
    assert FileEdges(v, tools, f, v.disk[f])[i].callerSymbol == NameChosen(v.symbols, f, calls[i].line + 1);
    assert FileEdges(w, tools, f, w.disk[f])[i].callerSymbol == NameChosen(w.symbols, f, calls[i].line + 1);
  }

  /** All orders in which the hash maps may yield files and symbols build the same graph, exactly
      when at every call in a readable file the preferred symbols share a name. */
  lemma BuildIsOrderFreeExactlyWhen(w: World, tools: Tools)
    requires Distinct(w.files)
    ensures (forall v | Reorders(v, w) :: Agree(FromScratch(v, tools), FromScratch(w, tools)))
       <==> SettledWorld(w, tools)
  {
    hide FromScratch, SettledWorld;
    if SettledWorld(w, tools) {
      forall v | Reorders(v, w)
        ensures Agree(FromScratch(v, tools), FromScratch(w, tools))
      {
        ReorderingKeepsIndex(v, w);
        SettledBuildsAgree(w, v, tools);
      }
    } else {
      var v := UnsettledBuildsDiffer(w, tools);
    }
  }

  /** Nothing has changed but the order: then a rebuild copies every edge. */
  lemma UnchangedRebuildCopies(w: World, v: World, tools: Tools)
    requires Distinct(w.files) && Reorders(v, w)
    ensures Agree(Incremental(v, tools, FromScratch(w, tools)), FromScratch(w, tools))
  {
    hide FileEdges, EdgesFrom;
    var g := FromScratch(w, tools);
    forall f
      ensures EdgesFrom(Incremental(v, tools, g).edges, f) == EdgesFrom(g.edges, f)
    {
      ScratchHoldsEachFile(w, tools, f);
      CopiesEachFile(v.files, w, v, tools, f);
    }
    assert Hashes(v.files, v, tools) == Hashes(w.files, w, tools);
  }

  lemma {:induction false} CopiesEachFile(files: seq<string>, w: World, v: World, tools: Tools, f: string)
    requires Distinct(w.files) && Reorders(v, w)
    requires Distinct(files) && forall x :: x in files ==> x in v.files
    ensures var g := FromScratch(w, tools);
            EdgesFrom(AllEdges(files, v, tools, g), f)
            == if f in files && f in v.disk then EdgesFrom(g.edges, f) else []
  {
    hide FileEdges, EdgesFrom, FromScratch;
    var g := FromScratch(w, tools);
    if files == [] {
      NoEdges(f);
    } else {
      var file, rest := files[0], files[1..];
      assert forall i :: 0 <= i < |rest| ==> rest[i] == files[i + 1];
      CopiesEachFile(rest, w, v, tools, f);
      assert file in files && file !in rest;
      var added := if file in v.disk then EdgesAdded(v, tools, g, file) else [];
      EdgesFromAppend(added, AllEdges(rest, v, tools, g), f);
      if file in v.disk {
        RecordedUnchanged(w, v, tools, file);
        ScratchHoldsEachFile(w, tools, file);
        FileEdgesBelong(w, tools, file);
        EdgesOfOneFile(added, file, f);
      } else {
        NoEdges(f);
      }
    }
  }

  lemma RecordedUnchanged(w: World, v: World, tools: Tools, f: string)
    requires Reorders(v, w) && Readable(v, f)
    ensures Readable(w, f) && Unchanged(v, tools, FromScratch(w, tools), f)
  {
    hide AllEdges;
  }

  /** A rebuild of unchanged files agrees with a build from scratch in whatever order it runs,
      exactly under the same condition. */
  lemma RebuildAgreesExactlyWhen(w: World, tools: Tools)
    requires Distinct(w.files)
    ensures (forall v | Reorders(v, w) :: Agree(Incremental(v, tools, FromScratch(w, tools)), FromScratch(v, tools)))
       <==> SettledWorld(w, tools)
  {
    hide FromScratch, Incremental, SettledWorld, EdgesFrom;
    BuildIsOrderFreeExactlyWhen(w, tools);
    forall v | Reorders(v, w)
      ensures Agree(Incremental(v, tools, FromScratch(w, tools)), FromScratch(w, tools))
    {
      UnchangedRebuildCopies(w, v, tools);
    }
    if SettledWorld(w, tools) {
    } else {
      var v := UnsettledBuildsDiffer(w, tools);
    }
  }

  // What a graph says

  /** The symbol's lines hold this one, and of all the file's symbols around it none has fewer lines, nor
      as few and an earlier start. */
  ghost predicate IsAround(s: SymbolEntry, symbols: seq<SymbolEntry>, f: string, line: nat) {
    && s in symbols && s.file == f && s.startLine <= line <= s.endLine
    && forall t :: t in symbols && t.file == f && t.startLine <= line <= t.endLine ==>
         && s.endLine - s.startLine <= t.endLine - t.startLine
         && (s.endLine - s.startLine == t.endLine - t.startLine ==> s.startLine <= t.startLine)
  }

  /** An edge for one call: where it is, counted from one, what it calls, and who calls. */
  ghost predicate Records(e: CallEdge, call: Call, symbols: seq<SymbolEntry>, f: string) {
    && e.callerFile == f && e.callerLine == call.line + 1 && e.calleeName == call.callee
    && ((exists s :: IsAround(s, symbols, f, call.line + 1) && e.callerSymbol == s.name)
        || (e.callerSymbol == "<module>"
            && forall s :: s in symbols && s.file == f ==> !(s.startLine <= call.line + 1 <= s.endLine)))
  }

  /** The edges of `f` are one for each of its calls, in their order, and its hash is that of its
      content; a file that is not indexed or cannot be read has neither. */
  ghost predicate Describes(g: Graph, w: World, tools: Tools, f: string) {
    var edges := EdgesFrom(g.edges, f);
    if f in w.files && f in w.disk then
      var calls := tools.analyze(w.disk[f], tools.extension(f));
      && |edges| == |calls| && (forall i :: 0 <= i < |calls| ==> Records(edges[i], calls[i], w.symbols, f))
      && f in g.hashes && g.hashes[f] == tools.hash(w.disk[f])
    else edges == [] && f !in g.hashes
  }

  lemma {:induction false} InFileIs(syms: seq<SymbolEntry>, f: string)
    ensures forall s :: s in InFile(syms, f) <==> s in syms && s.file == f
  {
    if syms != [] {
      InFileIs(syms[1..], f);
      assert syms == [syms[0]] + syms[1..];
    }
  }

  lemma CallIsRecorded(f: string, call: Call, symbols: seq<SymbolEntry>)
    ensures Records(EdgeOf(f, call, FileSymbols(symbols, f)), call, symbols, f)
  {
    hide InFile, Sort, Smallest;
    var line, syms := call.line + 1, FileSymbols(symbols, f);
    InFileIs(symbols, f);
    SortKeepsElements(InFile(symbols, f), StartsBefore());
    StartsBeforeIsAnOrder();
    SortSorts(InFile(symbols, f), StartsBefore());
    SmallestIsSmallest(syms, line);
    SmallestStartsFirst(syms, line);
    match Smallest(syms, line)
    case None =>
    case Some(b) => assert IsAround(b, symbols, f, line);
  }

  lemma ScratchDescribes(w: World, tools: Tools, f: string)
    requires Distinct(w.files)
    ensures Describes(FromScratch(w, tools), w, tools, f)
  {
    hide AllEdges, EdgesFrom, Records, FileSymbols;
    ScratchHoldsEachFile(w, tools, f);
    if Readable(w, f) {
      var calls := Calls(w, tools, f);
      forall i | 0 <= i < |calls|
        ensures Records(FileEdges(w, tools, f, w.disk[f])[i], calls[i], w.symbols, f)
      {
        CallIsRecorded(f, calls[i], w.symbols);
      }
    }
  }

  /** The graph after any run says of every file what the last world says: one edge for each call. */
  lemma AnyRunDescribes(worlds: seq<World>, tools: Tools, symbolsOf: SymbolsOf, f: string)
    requires worlds != [] && Distinguishes(tools, worlds)
    requires forall i :: 0 <= i < |worlds| ==> Coherent(worlds[i], tools, symbolsOf)
    ensures Describes(Rebuilds(worlds, tools), worlds[|worlds| - 1], tools, f)
  {
    hide EdgesFrom, Records, Coherent, Rebuilds, FromScratch, Distinguishes;
    AnyRunAgreesWithScratch(worlds, tools, symbolsOf);
    DistinctFiles(worlds[|worlds| - 1], tools, symbolsOf);
    ScratchDescribes(worlds[|worlds| - 1], tools, f);
  }
}
