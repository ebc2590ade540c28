/** The call graph: built from scratch, or reusing the edges of files whose hash is unchanged. */
module CallGraphs {
  import opened Wrappers
  import opened Sequences
  import opened StableSort

  const MODULE_SCOPE := "<module>"

  datatype SymbolEntry = SymbolEntry(file: string, name: string, startLine: nat, endLine: nat)

  datatype CallEdge = CallEdge(callerFile: string, callerSymbol: string, callerLine: nat, calleeName: string)

  datatype Call = Call(line: nat, callee: string)

  /** The parts that are not modelled: the content hash, the file extension and the analyser. */
  datatype Tools = Tools(hash: string -> string, extension: string -> string, analyze: (string, string) -> seq<Call>)

  /** What one build sees: the indexed files and symbols, each in the order in which its hash
      map happens to yield them, and the contents of the readable files. */
  datatype World = World(files: seq<string>, symbols: seq<SymbolEntry>, disk: map<string, string>)

  datatype Graph = Graph(edges: seq<CallEdge>, hashes: map<string, string>)

  // Enclosing symbols

  predicate Encloses(s: SymbolEntry, line: nat) {
    s.startLine <= line <= s.endLine
  }

  function Span(s: SymbolEntry): int {
    s.endLine - s.startLine
  }

  /** The first of the smallest symbols around a line. */
  function Smallest(syms: seq<SymbolEntry>, line: nat): Option<SymbolEntry> {
    if syms == [] then None
    else
      var rest := Smallest(syms[1..], line);
      if !Encloses(syms[0], line) || (rest.Some? && Span(rest.value) < Span(syms[0])) then rest
      else Some(syms[0])
  }

  function ScopeName(best: Option<SymbolEntry>): string {
    match best
    case None => MODULE_SCOPE
    case Some(s) => s.name
  }

  /** A symbol around the line, no larger than any other, or none exactly when there is none. */
  lemma {:induction false} SmallestIsSmallest(syms: seq<SymbolEntry>, line: nat)
    ensures match Smallest(syms, line)
            case None => forall s :: s in syms ==> !Encloses(s, line)
            case Some(b) => b in syms && Encloses(b, line)
                            && forall s :: s in syms && Encloses(s, line) ==> Span(b) <= Span(s)
  {
    if syms != [] {
      SmallestIsSmallest(syms[1..], line);
      assert syms == [syms[0]] + syms[1..];
    }
  }

  lemma {:induction false} SmallestAppend(syms: seq<SymbolEntry>, s: SymbolEntry, line: nat)
    ensures var before := Smallest(syms, line);
            Smallest(syms + [s], line)
            == if Encloses(s, line) && (before.None? || Span(s) < Span(before.value)) then Some(s) else before
  {
    if syms == [] {
      assert [] + [s] == [s];
    } else {
      assert (syms + [s])[1..] == syms[1..] + [s];
      SmallestAppend(syms[1..], s, line);
      SmallestIsSmallest(syms[1..], line);
    }
  }

  method FindEnclosingSymbol(fileSymbols: Option<seq<SymbolEntry>>, line: nat) returns (name: string)
    ensures name == ScopeName(Smallest(fileSymbols.GetOr([]), line))
  {
    match fileSymbols {
      case None => return MODULE_SCOPE;
      case Some(syms) =>
        var best: Option<SymbolEntry> := None;
        for i := 0 to |syms|
          invariant best == Smallest(syms[..i], line)
        {
          var sym := syms[i];
          SmallestAppend(syms[..i], sym, line);
          assert syms[..i + 1] == syms[..i] + [sym];
          if sym.startLine <= line <= sym.endLine {
            match best {
              case None => best := Some(sym);
              case Some(prev) =>
                if sym.endLine - sym.startLine < prev.endLine - prev.startLine {
                  best := Some(sym);
                }
            }
          }
        }
        assert syms[..|syms|] == syms;
        return ScopeName(best);
    }
  }

  // Grouping

  function InFile(syms: seq<SymbolEntry>, file: string): seq<SymbolEntry> {
    if syms == [] then []
    else (if syms[0].file == file then [syms[0]] else []) + InFile(syms[1..], file)
  }

  function StartsBefore(): (SymbolEntry, SymbolEntry) -> bool {
    (a: SymbolEntry, b: SymbolEntry) => a.startLine < b.startLine
  }

  function FileSymbols(syms: seq<SymbolEntry>, file: string): seq<SymbolEntry> {
    Sort(InFile(syms, file), StartsBefore())
  }

  lemma {:induction false} InFileAppend(syms: seq<SymbolEntry>, s: SymbolEntry, file: string)
    ensures InFile(syms + [s], file) == InFile(syms, file) + if s.file == file then [s] else []
  {
    if syms == [] {
      assert [] + [s] == [s];
    } else {
      assert (syms + [s])[0] == syms[0] && (syms + [s])[1..] == syms[1..] + [s];
      InFileAppend(syms[1..], s, file);
      Reassociate(if syms[0].file == file then [syms[0]] else [], InFile(syms[1..], file),
                  if s.file == file then [s] else []);
    }
  }

  ghost predicate Gathers(grouped: map<string, seq<SymbolEntry>>, syms: seq<SymbolEntry>) {
    && (forall f :: f in grouped <==> InFile(syms, f) != [])
    && (forall f :: f in grouped ==> grouped[f] == InFile(syms, f))
  }

  lemma GatherOne(grouped: map<string, seq<SymbolEntry>>, syms: seq<SymbolEntry>, i: nat)
    requires i < |syms| && Gathers(grouped, syms[..i])
    ensures var s := syms[i];
            Gathers(grouped[s.file := (if s.file in grouped then grouped[s.file] else []) + [s]], syms[..i + 1])
  {
    hide InFile;
    var s := syms[i];
    assert syms[..i + 1] == syms[..i] + [s];
    forall f
      ensures InFile(syms[..i + 1], f) == InFile(syms[..i], f) + if s.file == f then [s] else []
    {
      InFileAppend(syms[..i], s, f);
    }
  }

  method GroupSymbolsByFile(syms: seq<SymbolEntry>) returns (groups: map<string, seq<SymbolEntry>>)
    ensures Grouped(groups, syms)
  {
    var grouped: map<string, seq<SymbolEntry>> := map[];
    for i := 0 to |syms|
      invariant Gathers(grouped, syms[..i])
    {
      var s := syms[i];
      GatherOne(grouped, syms, i);
      var group := if s.file in grouped then grouped[s.file] else [];
      grouped := grouped[s.file := group + [s]];
    }
    assert syms[..|syms|] == syms;
    groups := map f | f in grouped :: Sort(grouped[f], StartsBefore());
  }

  // Building

  function EdgeOf(file: string, call: Call, syms: seq<SymbolEntry>): CallEdge {
    CallEdge(file, ScopeName(Smallest(syms, call.line + 1)), call.line + 1, call.callee)
  }

  function EdgesOfCalls(file: string, calls: seq<Call>, syms: seq<SymbolEntry>): seq<CallEdge> {
    seq(|calls|, i requires 0 <= i < |calls| => EdgeOf(file, calls[i], syms))
  }

  function FileEdges(w: World, tools: Tools, file: string, content: string): seq<CallEdge> {
    EdgesOfCalls(file, tools.analyze(content, tools.extension(file)), FileSymbols(w.symbols, file))
  }

  function EdgesFrom(edges: seq<CallEdge>, file: string): seq<CallEdge> {
    if edges == [] then []
    else (if edges[0].callerFile == file then [edges[0]] else []) + EdgesFrom(edges[1..], file)
  }

  predicate Unchanged(w: World, tools: Tools, previous: Graph, file: string)
    requires file in w.disk
  {
    file in previous.hashes && previous.hashes[file] == tools.hash(w.disk[file])
  }

  /** The edges a build adds for one readable file; `previous` has no hashes when building
      from scratch. */
  function EdgesAdded(w: World, tools: Tools, previous: Graph, file: string): seq<CallEdge>
    requires file in w.disk
  {
    if Unchanged(w, tools, previous, file) then EdgesFrom(previous.edges, file)
    else FileEdges(w, tools, file, w.disk[file])
  }

  function AllEdges(files: seq<string>, w: World, tools: Tools, previous: Graph): seq<CallEdge> {
    if files == [] then []
    else (if files[0] in w.disk then EdgesAdded(w, tools, previous, files[0]) else [])
         + AllEdges(files[1..], w, tools, previous)
  }

  function Hashes(files: seq<string>, w: World, tools: Tools): map<string, string> {
    map f | f in files && f in w.disk :: tools.hash(w.disk[f])
  }

  const NO_GRAPH := Graph([], map[])

  function Incremental(w: World, tools: Tools, previous: Graph): Graph {
    Graph(AllEdges(w.files, w, tools, previous), Hashes(w.files, w, tools))
  }

  function FromScratch(w: World, tools: Tools): Graph {
    Incremental(w, tools, NO_GRAPH)
  }

  lemma {:induction false} AllEdgesAppend(files: seq<string>, f: string, w: World, tools: Tools, previous: Graph)
    ensures AllEdges(files + [f], w, tools, previous)
         == AllEdges(files, w, tools, previous) + if f in w.disk then EdgesAdded(w, tools, previous, f) else []
  {
    hide EdgesAdded;
    if files == [] {
      assert [] + [f] == [f];
    } else {
      assert (files + [f])[1..] == files[1..] + [f];
      AllEdgesAppend(files[1..], f, w, tools, previous);
    }
  }

  lemma HashesAppend(files: seq<string>, f: string, w: World, tools: Tools)
    ensures Hashes(files + [f], w, tools)
         == if f in w.disk then Hashes(files, w, tools)[f := tools.hash(w.disk[f])] else Hashes(files, w, tools)
  {
  }

  /** The step of both build loops. */
  lemma OneMoreFile(i: nat, w: World, tools: Tools, previous: Graph)
    requires i < |w.files|
    ensures var f := w.files[i];
      && AllEdges(w.files[..i + 1], w, tools, previous)
         == AllEdges(w.files[..i], w, tools, previous) + (if f in w.disk then EdgesAdded(w, tools, previous, f) else [])
      && Hashes(w.files[..i + 1], w, tools)
         == if f in w.disk then Hashes(w.files[..i], w, tools)[f := tools.hash(w.disk[f])]
            else Hashes(w.files[..i], w, tools)
  {
    hide AllEdges, EdgesAdded, Hashes;
    assert w.files[..i + 1] == w.files[..i] + [w.files[i]];
    AllEdgesAppend(w.files[..i], w.files[i], w, tools, previous);
    HashesAppend(w.files[..i], w.files[i], w, tools);
  }

  lemma NoFileYet(w: World, tools: Tools, previous: Graph)
    ensures AllEdges(w.files[..0], w, tools, previous) == [] && Hashes(w.files[..0], w, tools) == map[]
    ensures w.files[..|w.files|] == w.files
  {
  }

  ghost predicate Grouped(groups: map<string, seq<SymbolEntry>>, syms: seq<SymbolEntry>) {
    && (forall f :: f in groups <==> InFile(syms, f) != [])
    && (forall f :: f in groups ==> groups[f] == FileSymbols(syms, f))
  }

  class CallGraph {
    var projectRoot: string
    var edges: seq<CallEdge>
    var fileHashes: map<string, string>

    constructor (projectRoot: string)
      ensures this.projectRoot == projectRoot && edges == [] && fileHashes == map[]
    {
      this.projectRoot, edges, fileHashes := projectRoot, [], map[];
    }

    function Value(): Graph
      reads this
    {
      Graph(edges, fileHashes)
    }

    /** Analyse one file and add an edge for each call in it. */
    method PushEdges(w: World, tools: Tools, relPath: string, symbolsByFile: map<string, seq<SymbolEntry>>)
      requires relPath in w.disk
      requires Grouped(symbolsByFile, w.symbols)
      modifies this`edges
      ensures edges == old(edges) + FileEdges(w, tools, relPath, w.disk[relPath])
    {
      var calls := tools.analyze(w.disk[relPath], tools.extension(relPath));
      var fileSymbols := if relPath in symbolsByFile then Some(symbolsByFile[relPath]) else None;
      ghost var syms := FileSymbols(w.symbols, relPath);
      assert fileSymbols.GetOr([]) == syms;
      for i := 0 to |calls|
        invariant edges == old(edges) + EdgesOfCalls(relPath, calls[..i], syms)
      {
        var callerSym := FindEnclosingSymbol(fileSymbols, calls[i].line + 1);
        assert calls[..i + 1] == calls[..i] + [calls[i]];
        edges := edges + [CallEdge(relPath, callerSym, calls[i].line + 1, calls[i].callee)];
      }
      assert calls[..|calls|] == calls;
    }
  }

  method Build(w: World, tools: Tools, projectRoot: string) returns (graph: CallGraph)
    ensures fresh(graph) && graph.projectRoot == projectRoot && graph.Value() == FromScratch(w, tools)
  {
    hide AllEdges, FileEdges, Hashes, Grouped;
    graph := new CallGraph(projectRoot);
    var symbolsByFile := GroupSymbolsByFile(w.symbols);
    NoFileYet(w, tools, NO_GRAPH);
    for i := 0 to |w.files|
      invariant fresh(graph) && graph.projectRoot == projectRoot
      invariant graph.Value() == Graph(AllEdges(w.files[..i], w, tools, NO_GRAPH), Hashes(w.files[..i], w, tools))
    {
      var relPath := w.files[i];
      OneMoreFile(i, w, tools, NO_GRAPH);
      if relPath !in w.disk {
        continue;
      }
      graph.fileHashes := graph.fileHashes[relPath := tools.hash(w.disk[relPath])];
      graph.PushEdges(w, tools, relPath, symbolsByFile);
    }
  }

  method BuildIncremental(w: World, tools: Tools, projectRoot: string, previous: CallGraph) returns (graph: CallGraph)
    ensures fresh(graph) && graph.projectRoot == projectRoot
    ensures graph.Value() == Incremental(w, tools, previous.Value())
  {
    hide AllEdges, FileEdges, EdgesFrom, Hashes, Grouped;
    var prev := previous.Value();
    graph := new CallGraph(projectRoot);
    var symbolsByFile := GroupSymbolsByFile(w.symbols);
    NoFileYet(w, tools, prev);
    for i := 0 to |w.files|
      invariant fresh(graph) && graph.projectRoot == projectRoot
      invariant graph.Value() == Graph(AllEdges(w.files[..i], w, tools, prev), Hashes(w.files[..i], w, tools))
    {
      var relPath := w.files[i];
      OneMoreFile(i, w, tools, prev);
      if relPath !in w.disk {
        continue;
      }
      var hash := tools.hash(w.disk[relPath]);
      var changed := relPath !in prev.hashes || prev.hashes[relPath] != hash;
      graph.fileHashes := graph.fileHashes[relPath := hash];
      if !changed {
        graph.edges := graph.edges + EdgesFrom(prev.edges, relPath);
        continue;
      }
      graph.PushEdges(w, tools, relPath, symbolsByFile);
    }
  }

  /** The persisted graph, if any, decides how to build. */
  method LoadOrBuild(w: World, tools: Tools, projectRoot: string, saved: Option<CallGraph>) returns (graph: CallGraph)
    ensures fresh(graph)
    ensures graph.Value() == Incremental(w, tools, match saved case None => NO_GRAPH case Some(g) => g.Value())
  {
    match saved {
      case Some(previous) => graph := BuildIncremental(w, tools, projectRoot, previous);
      case None => graph := Build(w, tools, projectRoot);
    }
  }
}
