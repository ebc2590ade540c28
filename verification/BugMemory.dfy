/** Failure memory: bounded, deduplicated and sorted patterns, a window of recent failures, and
    saturating counters. */
module BugMemory {
  import opened Wrappers
  import opened Sequences
  import opened StableSort
  import opened WordSplitting

  const MAX_PATTERNS: nat := 100
  const MAX_RECENT_FAILURES: nat := 30
  const U32_MAX: nat := 0xFFFF_FFFF
  const U64_MAX: nat := 0xFFFF_FFFF_FFFF_FFFF

  datatype Source = Shell | McpShell

  datatype FailureRecord = FailureRecord(
    command: string, exitCode: int, signature: string, snippet: string,
    firstSeen: int, lastSeen: int, occurrences: nat, source: Source)

  datatype RecentFailure = RecentFailure(
    command: string, exitCode: int, signature: string, snippet: string, timestamp: int, source: Source)

  datatype Stats = Stats(totalFailures: nat, distinctSignatures: nat, shellFailures: nat, mcpShellFailures: nat)

  datatype Memory = Memory(failures: seq<FailureRecord>, recent: seq<RecentFailure>, stats: Stats)

  datatype Failure = Failure(command: string, exitCode: int, output: string, source: Source, now: int)

  /** The parts that are not modelled: signature and snippet extraction, and the 64-bit hash. */
  datatype Extractors = Extractors(signature: string -> string, snippet: string -> string, hash: (string, string) -> nat)

  const EMPTY := Memory([], [], Stats(0, 0, 0, 0))

  function SaturatingInc(n: nat, max: nat): nat {
    if n < max then n + 1 else max
  }

  /** The first two words of a command. */
  function CommandBase(command: string): string {
    var words := Words(command);
    JoinWords(if |words| <= 2 then words else words[..2])
  }

  function FailureId(command: string, signature: string, x: Extractors): nat {
    x.hash(CommandBase(command), signature)
  }

  function IdOf(r: FailureRecord, x: Extractors): nat {
    FailureId(r.command, r.signature, x)
  }

  function FindId(failures: seq<FailureRecord>, id: nat, x: Extractors): (r: Option<nat>)
    ensures r.Some? ==> r.value < |failures| && IdOf(failures[r.value], x) == id
    ensures r.None? ==> forall i :: 0 <= i < |failures| ==> IdOf(failures[i], x) != id
  {
    if failures == [] then None
    else if IdOf(failures[0], x) == id then Some(0)
    else
      match FindId(failures[1..], id, x)
      case None => None
      case Some(k) => Some(k + 1)
  }

  predicate Accepted(f: Failure, x: Extractors) {
    f.exitCode != 0 && x.signature(f.output) != ""
  }

  function NewRecord(f: Failure, x: Extractors): FailureRecord {
    FailureRecord(f.command, f.exitCode, x.signature(f.output), x.snippet(f.output), f.now, f.now, 1, f.source)
  }

  function SeenAgain(r: FailureRecord, f: Failure, x: Extractors): FailureRecord {
    r.(occurrences := SaturatingInc(r.occurrences, U32_MAX), lastSeen := f.now, exitCode := f.exitCode,
       snippet := x.snippet(f.output), source := f.source)
  }

  /** The patterns before sorting: the matching one updated, or a new one at the end. */
  function Noted(failures: seq<FailureRecord>, f: Failure, x: Extractors): seq<FailureRecord> {
    match FindId(failures, FailureId(f.command, x.signature(f.output), x), x)
    case Some(k) => failures[k := SeenAgain(failures[k], f, x)]
    case None => failures + [NewRecord(f, x)]
  }

  /** More occurrences first, then the later one. */
  function MoreUrgent(): (FailureRecord, FailureRecord) -> bool {
    (a: FailureRecord, b: FailureRecord) =>
      a.occurrences > b.occurrences || (a.occurrences == b.occurrences && a.lastSeen > b.lastSeen)
  }

  function Truncate<T>(s: seq<T>, n: nat): seq<T> {
    if |s| > n then s[..n] else s
  }

  function RecentOf(f: Failure, x: Extractors): RecentFailure {
    RecentFailure(f.command, f.exitCode, x.signature(f.output), x.snippet(f.output), f.now, f.source)
  }

  function Counted(stats: Stats, source: Source, patterns: nat): Stats {
    Stats(SaturatingInc(stats.totalFailures, U64_MAX), patterns,
          if source.Shell? then SaturatingInc(stats.shellFailures, U64_MAX) else stats.shellFailures,
          if source.McpShell? then SaturatingInc(stats.mcpShellFailures, U64_MAX) else stats.mcpShellFailures)
  }

  function Recorded(m: Memory, f: Failure, x: Extractors): Memory {
    if !Accepted(f, x) then m
    else
      var failures := Truncate(Sort(Noted(m.failures, f, x), MoreUrgent()), MAX_PATTERNS);
      Memory(failures, KeepLast(m.recent + [RecentOf(f, x)], MAX_RECENT_FAILURES),
             Counted(m.stats, f.source, |failures|))
  }

  class BugMemoryStore {
    const extractors: Extractors
    var failures: seq<FailureRecord>
    var recent: seq<RecentFailure>
    var stats: Stats

    constructor (extractors: Extractors)
      ensures this.extractors == extractors && Value() == EMPTY
    {
      this.extractors := extractors;
      failures, recent, stats := [], [], Stats(0, 0, 0, 0);
    }

    function Value(): Memory
      reads this
    {
      Memory(failures, recent, stats)
    }

    method Clear()
      modifies this
      ensures Value() == EMPTY
    {
      failures, recent, stats := [], [], Stats(0, 0, 0, 0);
    }

    /** The matching pattern is updated, or a new one appended. */
    method Note(command: string, exitCode: int, signature: string, snippet: string, source: Source, now: int,
                ghost output: string)
      requires signature == extractors.signature(output) && snippet == extractors.snippet(output)
      modifies this`failures
      ensures failures == Noted(old(failures), Failure(command, exitCode, output, source, now), extractors)
    {
      hide FindId, FailureId;
      var existing := FindId(failures, FailureId(command, signature, extractors), extractors);
      match existing {
        case Some(k) =>
          var r := failures[k];
          r := r.(occurrences := SaturatingInc(r.occurrences, U32_MAX), lastSeen := now, exitCode := exitCode,
                  snippet := snippet, source := source);
          failures := failures[k := r];
        case None =>
          failures := failures + [FailureRecord(command, exitCode, signature, snippet, now, now, 1, source)];
      }
    }

    method RecordFailure(command: string, exitCode: int, output: string, source: Source, now: int)
      modifies this
      ensures Value() == Recorded(old(Value()), Failure(command, exitCode, output, source, now), extractors)
    {
      hide Noted, Sort, MoreUrgent, SaturatingInc;
      if exitCode == 0 {
        return;
      }
      var signature := extractors.signature(output);
      if signature == "" {
        return;
      }
      var snippet := extractors.snippet(output);
      Note(command, exitCode, signature, snippet, source, now, output);
      failures := Sort(failures, MoreUrgent());
      if |failures| > MAX_PATTERNS {
        failures := failures[..MAX_PATTERNS];
      }
      recent := recent + [RecentFailure(command, exitCode, signature, snippet, now, source)];
      if |recent| > MAX_RECENT_FAILURES {
        recent := recent[|recent| - MAX_RECENT_FAILURES..];
      }
      stats := stats.(totalFailures := SaturatingInc(stats.totalFailures, U64_MAX), distinctSignatures := |failures|);
      match source {
        case Shell => stats := stats.(shellFailures := SaturatingInc(stats.shellFailures, U64_MAX));
        case McpShell => stats := stats.(mcpShellFailures := SaturatingInc(stats.mcpShellFailures, U64_MAX));
      }
    }
  }

  // Runs

  /** A history is what has been recorded since the store was new or cleared. */
  function AfterAll(history: seq<Failure>, x: Extractors): Memory {
    if history == [] then EMPTY else Recorded(AfterAll(history[..|history| - 1], x), history[|history| - 1], x)
  }

  function AcceptedOf(history: seq<Failure>, x: Extractors): seq<Failure> {
    if history == [] then []
    else AcceptedOf(history[..|history| - 1], x)
         + if Accepted(history[|history| - 1], x) then [history[|history| - 1]] else []
  }

  function Ids(accepted: seq<Failure>, x: Extractors): set<nat> {
    set f | f in accepted :: FailureId(f.command, x.signature(f.output), x)
  }

  function Recents(accepted: seq<Failure>, x: Extractors): seq<RecentFailure> {
    seq(|accepted|, i requires 0 <= i < |accepted| => RecentOf(accepted[i], x))
  }

  function CountOf(accepted: seq<Failure>, source: Source): nat {
    if accepted == [] then 0
    else CountOf(accepted[..|accepted| - 1], source) + if accepted[|accepted| - 1].source == source then 1 else 0
  }

  function Capped(n: nat, max: nat): nat {
    if n < max then n else max
  }

  function Occurrences(failures: seq<FailureRecord>): nat {
    if failures == [] then 0 else failures[0].occurrences + Occurrences(failures[1..])
  }

  predicate DistinctIds(failures: seq<FailureRecord>, x: Extractors) {
    forall i, j :: 0 <= i < j < |failures| ==> IdOf(failures[i], x) != IdOf(failures[j], x)
  }

  /** What every run keeps. */
  ghost predicate Kept(m: Memory, accepted: seq<Failure>, x: Extractors) {
    var n := |accepted|;
    && |m.failures| <= MAX_PATTERNS && DistinctIds(m.failures, x) && Sorted(m.failures, MoreUrgent())
    && (forall i :: 0 <= i < |m.failures| ==> 1 <= m.failures[i].occurrences <= U32_MAX)
    && m.recent == KeepLast(Recents(accepted, x), MAX_RECENT_FAILURES)
    && m.stats == Stats(Capped(n, U64_MAX), |m.failures|,
                        Capped(CountOf(accepted, Shell), U64_MAX), Capped(CountOf(accepted, McpShell), U64_MAX))
    && CountOf(accepted, Shell) + CountOf(accepted, McpShell) == n
    && Occurrences(m.failures) <= n
  }

  lemma MoreUrgentIsAnOrder()
    ensures StrictWeakOrder(MoreUrgent())
  {
  }

  lemma NotedKeepsIdsDistinct(failures: seq<FailureRecord>, f: Failure, x: Extractors)
    requires DistinctIds(failures, x)
    ensures DistinctIds(Noted(failures, f, x), x)
  {
  }

  lemma {:induction false} InsertKeepsIdsDistinct(r: FailureRecord, s: seq<FailureRecord>, x: Extractors)
    requires DistinctIds(s, x) && forall i :: 0 <= i < |s| ==> IdOf(s[i], x) != IdOf(r, x)
    ensures DistinctIds(Insert(r, s, MoreUrgent()), x)
  {
    hide IdOf;
    if s != [] && MoreUrgent()(s[0], r) {
      var rest := s[1..];
      var tail := Insert(r, rest, MoreUrgent());
      assert forall i :: 0 <= i < |rest| ==> rest[i] == s[i + 1];
      InsertKeepsIdsDistinct(r, rest, x);
      InsertElements(r, rest, MoreUrgent());
      forall j | 0 <= j < |tail|
        ensures IdOf(s[0], x) != IdOf(tail[j], x)
      {
        assert tail[j] in tail;
        if tail[j] != r {
          var k :| 0 <= k < |rest| && rest[k] == tail[j];
          assert s[k + 1] == tail[j];
        }
      }
      PrependDistinct(s[0], tail, x);
    } else {
      PrependDistinct(r, s, x);
    }
  }

  lemma PrependDistinct(r: FailureRecord, s: seq<FailureRecord>, x: Extractors)
    requires DistinctIds(s, x) && forall j :: 0 <= j < |s| ==> IdOf(r, x) != IdOf(s[j], x)
    ensures DistinctIds([r] + s, x)
  {
    hide IdOf;
    assert forall j :: 0 < j < |[r] + s| ==> ([r] + s)[j] == s[j - 1];
  }

  lemma {:induction false} SortKeepsIdsDistinct(s: seq<FailureRecord>, x: Extractors)
    requires DistinctIds(s, x)
    ensures DistinctIds(Sort(s, MoreUrgent()), x)
  {
    hide IdOf;
    if s != [] {
      var rest := s[1..];
      assert forall i :: 0 <= i < |rest| ==> rest[i] == s[i + 1];
      SortKeepsIdsDistinct(rest, x);
      SortKeepsElements(rest, MoreUrgent());
      var sorted := Sort(rest, MoreUrgent());
      forall j | 0 <= j < |sorted|
        ensures IdOf(s[0], x) != IdOf(sorted[j], x)
      {
        assert sorted[j] in sorted;
        var k :| 0 <= k < |rest| && rest[k] == sorted[j];
        assert sorted[j] == s[k + 1];
      }
      InsertKeepsIdsDistinct(s[0], sorted, x);
    }
  }

  lemma RecentsAppend(accepted: seq<Failure>, f: Failure, x: Extractors)
    ensures KeepLast(KeepLast(Recents(accepted, x), MAX_RECENT_FAILURES) + [RecentOf(f, x)], MAX_RECENT_FAILURES)
         == KeepLast(Recents(accepted + [f], x), MAX_RECENT_FAILURES)
  {
    assert Recents(accepted + [f], x) == Recents(accepted, x) + [RecentOf(f, x)];
  }

  /** One recorded failure keeps all of it. */
  lemma RecordingKeeps(m: Memory, accepted: seq<Failure>, f: Failure, x: Extractors)
    requires Kept(m, accepted, x) && Accepted(f, x)
    ensures Kept(Recorded(m, f, x), accepted + [f], x)
  {
    hide FindId, Sort, CommandBase, Occurrences, Noted, MoreUrgent, DistinctIds, Truncate, Sorted;
    FailuresKept(m.failures, |accepted|, f, x);
    RecentsAppend(accepted, f, x);
    assert (accepted + [f])[..|accepted|] == accepted;
  }

  /** The patterns' part of the invariant. */
  ghost predicate FailuresAreKept(failures: seq<FailureRecord>, n: nat, x: Extractors) {
    && |failures| <= MAX_PATTERNS && DistinctIds(failures, x) && Sorted(failures, MoreUrgent())
    && (forall i :: 0 <= i < |failures| ==> 1 <= failures[i].occurrences <= U32_MAX)
    && Occurrences(failures) <= n
  }

  lemma FailuresKept(failures: seq<FailureRecord>, n: nat, f: Failure, x: Extractors)
    requires FailuresAreKept(failures, n, x)
    ensures FailuresAreKept(Truncate(Sort(Noted(failures, f, x), MoreUrgent()), MAX_PATTERNS), n + 1, x)
  {
    hide FindId, Sort, FailureId, Occurrences, Noted, MoreUrgent;
    var noted := Noted(failures, f, x);
    var sorted := Sort(noted, MoreUrgent());
    NotedAddsOne(failures, f, x);
    SortAddsUp(noted);
    TruncatingOnlyRemoves(sorted);
    NotedKeepsIdsDistinct(failures, f, x);
    SortKeepsIdsDistinct(noted, x);
    MoreUrgentIsAnOrder();
    SortSorts(noted, MoreUrgent());
    NotedIsInRange(failures, f, x);
    SortKeepsElements(noted, MoreUrgent());
    forall i | 0 <= i < |sorted|
      ensures 1 <= sorted[i].occurrences <= U32_MAX
    {
      assert sorted[i] in noted;
    }
  }

  lemma NotedIsInRange(failures: seq<FailureRecord>, f: Failure, x: Extractors)
    requires forall i :: 0 <= i < |failures| ==> 1 <= failures[i].occurrences <= U32_MAX
    ensures forall r :: r in Noted(failures, f, x) ==> 1 <= r.occurrences <= U32_MAX
  {
    hide FindId, FailureId;
  }

  /** The invariants hold over every run. */
  lemma {:induction false} EveryRunKeeps(history: seq<Failure>, x: Extractors)
    ensures Kept(AfterAll(history, x), AcceptedOf(history, x), x)
    decreases |history|
  {
    hide Recorded, Kept;
    if history == [] {
      EmptyKeeps(x);
    } else {
      var past, f := history[..|history| - 1], history[|history| - 1];
      EveryRunKeeps(past, x);
      if Accepted(f, x) {
        RecordingKeeps(AfterAll(past, x), AcceptedOf(past, x), f, x);
      } else {
        assert AcceptedOf(history, x) == AcceptedOf(past, x);
        RejectedChangesNothing(AfterAll(past, x), f, x);
      }
    }
  }

  lemma EmptyKeeps(x: Extractors)
    ensures Kept(EMPTY, [], x)
  {
    assert Recents([], x) == [];
  }

  lemma RejectedChangesNothing(m: Memory, f: Failure, x: Extractors)
    requires !Accepted(f, x)
    ensures Recorded(m, f, x) == m
  {
  }

  // Counting occurrences

  lemma {:induction false} InsertAddsUp(r: FailureRecord, s: seq<FailureRecord>)
    ensures Occurrences(Insert(r, s, MoreUrgent())) == r.occurrences + Occurrences(s)
  {
    if s != [] && MoreUrgent()(s[0], r) { InsertAddsUp(r, s[1..]); }
  }

  lemma {:induction false} SortAddsUp(s: seq<FailureRecord>)
    ensures Occurrences(Sort(s, MoreUrgent())) == Occurrences(s)
  {
    if s != [] {
      SortAddsUp(s[1..]);
      InsertAddsUp(s[0], Sort(s[1..], MoreUrgent()));
    }
  }

  lemma {:induction false} OccurrencesAppend(a: seq<FailureRecord>, b: seq<FailureRecord>)
    ensures Occurrences(a + b) == Occurrences(a) + Occurrences(b)
  {
    if a == [] {
      assert a + b == b;
    } else {
      assert (a + b)[1..] == a[1..] + b;
      OccurrencesAppend(a[1..], b);
    }
  }

  lemma OccurrencesUpdate(s: seq<FailureRecord>, k: nat, r: FailureRecord)
    requires k < |s|
    ensures Occurrences(s[k := r]) == Occurrences(s) - s[k].occurrences + r.occurrences
  {
    var a, b := s[..k], s[k + 1..];
    assert s == a + ([s[k]] + b) && s[k := r] == a + ([r] + b);
    OccurrencesAppend(a, [s[k]] + b);
    OccurrencesAppend(a, [r] + b);
  }

  lemma OccurrencesStep(failures: seq<FailureRecord>, f: Failure, x: Extractors)
    ensures Occurrences(Noted(failures, f, x)) ==
            match FindId(failures, FailureId(f.command, x.signature(f.output), x), x)
            case Some(k) => Occurrences(failures) - failures[k].occurrences + SaturatingInc(failures[k].occurrences, U32_MAX)
            case None => Occurrences(failures) + 1
  {
    hide FailureId, FindId;
    match FindId(failures, FailureId(f.command, x.signature(f.output), x), x)
    case Some(k) => OccurrencesUpdate(failures, k, SeenAgain(failures[k], f, x));
    case None =>
      OccurrencesAppend(failures, [NewRecord(f, x)]);
      assert Occurrences([NewRecord(f, x)]) == 1 by { assert [NewRecord(f, x)][1..] == []; }
  }

  /** Noting a failure adds at most one occurrence: none when its counter is saturated. */
  lemma NotedAddsOne(failures: seq<FailureRecord>, f: Failure, x: Extractors)
    requires forall i :: 0 <= i < |failures| ==> failures[i].occurrences <= U32_MAX
    ensures Occurrences(Noted(failures, f, x)) <= Occurrences(failures) + 1
  {
    hide FailureId, FindId, Occurrences;
    OccurrencesStep(failures, f, x);
  }

  lemma TruncatingOnlyRemoves(sorted: seq<FailureRecord>)
    ensures Occurrences(Truncate(sorted, MAX_PATTERNS)) <= Occurrences(sorted)
  {
    if |sorted| > MAX_PATTERNS {
      OccurrencesAppend(sorted[..MAX_PATTERNS], sorted[MAX_PATTERNS..]);
      assert sorted == sorted[..MAX_PATTERNS] + sorted[MAX_PATTERNS..];
    }
  }

  lemma OneIsAtMostAll(s: seq<FailureRecord>, k: nat)
    requires k < |s|
    ensures s[k].occurrences <= Occurrences(s)
  {
    var a, b := s[..k], s[k + 1..];
    assert s == a + ([s[k]] + b);
    OccurrencesAppend(a, [s[k]] + b);
  }

  /** The patterns' identities, as a set as large as their number. */
  function PatternIds(failures: seq<FailureRecord>, x: Extractors): set<nat> {
    set r | r in failures :: IdOf(r, x)
  }

  lemma {:induction false} DistinctPatternsCount(failures: seq<FailureRecord>, x: Extractors)
    requires DistinctIds(failures, x)
    ensures |PatternIds(failures, x)| == |failures|
  {
    hide IdOf;
    if failures != [] {
      var r, rest := failures[0], failures[1..];
      assert forall i :: 0 <= i < |rest| ==> rest[i] == failures[i + 1];
      DistinctPatternsCount(rest, x);
      assert IdOf(r, x) !in PatternIds(rest, x);
      FirstPatternId(failures, x);
    } else {
      assert PatternIds(failures, x) == {};
    }
  }

  lemma FirstPatternId(failures: seq<FailureRecord>, x: Extractors)
    requires failures != []
    ensures PatternIds(failures, x) == PatternIds(failures[1..], x) + {IdOf(failures[0], x)}
  {
    hide IdOf;
    assert failures == [failures[0]] + failures[1..];
  }

  lemma NotedIds(failures: seq<FailureRecord>, f: Failure, x: Extractors)
    ensures PatternIds(Noted(failures, f, x), x)
         == PatternIds(failures, x) + {FailureId(f.command, x.signature(f.output), x)}
  {
    hide FailureId, CommandBase;
    var id := FailureId(f.command, x.signature(f.output), x);
    var noted := Noted(failures, f, x);
    match FindId(failures, id, x)
    case None =>
      assert IdOf(NewRecord(f, x), x) == id;
      assert NewRecord(f, x) in noted;
    case Some(k) =>
      assert IdOf(SeenAgain(failures[k], f, x), x) == id;
      assert noted[k] in noted && failures[k] in failures;
      forall r | r in failures
        ensures IdOf(r, x) in PatternIds(noted, x)
      {
        var i :| 0 <= i < |failures| && failures[i] == r;
        assert noted[i] in noted && IdOf(noted[i], x) == IdOf(r, x);
      }
  }

  lemma SortedIds(failures: seq<FailureRecord>, x: Extractors)
    ensures PatternIds(Sort(failures, MoreUrgent()), x) == PatternIds(failures, x)
  {
    hide IdOf;
    SortKeepsElements(failures, MoreUrgent());
  }

  lemma IdsAppend(accepted: seq<Failure>, f: Failure, x: Extractors)
    ensures Ids(accepted + [f], x) == Ids(accepted, x) + {FailureId(f.command, x.signature(f.output), x)}
  {
    hide FailureId;
    assert f in accepted + [f];
    assert forall g :: g in accepted ==> g in accepted + [f];
  }

  lemma GrowingIds(accepted: seq<Failure>, f: Failure, x: Extractors)
    ensures |Ids(accepted, x)| <= |Ids(accepted + [f], x)|
  {
    hide Ids, FailureId;
    IdsAppend(accepted, f, x);
    var id := FailureId(f.command, x.signature(f.output), x);
    if id in Ids(accepted, x) {
      assert Ids(accepted, x) + {id} == Ids(accepted, x);
    }
  }

  /** Truncating drops a record, and a record counts at least one occurrence. */
  lemma SomethingIsDropped(failures: seq<FailureRecord>, f: Failure, sorted: seq<FailureRecord>, x: Extractors)
    requires sorted == Sort(Noted(failures, f, x), MoreUrgent()) && |sorted| > MAX_PATTERNS
    requires forall i :: 0 <= i < |failures| ==> 1 <= failures[i].occurrences
    ensures Occurrences(sorted[..MAX_PATTERNS]) < Occurrences(sorted)
  {
    hide FindId, IdOf, Occurrences, Sort;
    SortKeepsElements(Noted(failures, f, x), MoreUrgent());
    var head, tail := sorted[..MAX_PATTERNS], sorted[MAX_PATTERNS..];
    assert sorted == head + tail;
    OccurrencesAppend(head, tail);
    assert tail[0] in sorted;
    assert tail[0] in Noted(failures, f, x);
    OneIsAtMostAll(tail, 0);
  }

  // What a pattern remembers

  /** The accepted failures of one identity, in order. */
  function WithId(accepted: seq<Failure>, id: nat, x: Extractors): seq<Failure> {
    if accepted == [] then []
    else
      var n := |accepted| - 1;
      var f := accepted[n];
      WithId(accepted[..n], id, x) + if FailureId(f.command, x.signature(f.output), x) == id then [f] else []
  }

  /** The first failure gives the command, signature and first date, the last one everything
      else. */
  function Summary(fs: seq<Failure>, x: Extractors): FailureRecord
    requires fs != []
  {
    var first, last := fs[0], fs[|fs| - 1];
    FailureRecord(first.command, last.exitCode, x.signature(first.output), x.snippet(last.output),
                  first.now, last.now, Capped(|fs|, U32_MAX), last.source)
  }

  predicate Summarises(r: FailureRecord, accepted: seq<Failure>, x: Extractors) {
    var fs := WithId(accepted, IdOf(r, x), x);
    fs != [] && r == Summary(fs, x)
  }

  lemma WithIdStep(accepted: seq<Failure>, f: Failure, id: nat, x: Extractors)
    ensures WithId(accepted + [f], id, x) ==
            if FailureId(f.command, x.signature(f.output), x) == id then WithId(accepted, id, x) + [f]
            else WithId(accepted, id, x)
  {
    assert (accepted + [f])[..|accepted|] == accepted;
  }

  lemma {:induction false} UnknownIdHasNoFailures(accepted: seq<Failure>, id: nat, x: Extractors)
    requires id !in Ids(accepted, x)
    ensures WithId(accepted, id, x) == []
  {
    hide FailureId;
    if accepted != [] {
      var n := |accepted| - 1;
      assert accepted == accepted[..n] + [accepted[n]];
      IdsAppend(accepted[..n], accepted[n], x);
      UnknownIdHasNoFailures(accepted[..n], id, x);
    }
  }

  lemma SeenAgainSummarises(r: FailureRecord, accepted: seq<Failure>, f: Failure, x: Extractors)
    requires Summarises(r, accepted, x) && IdOf(r, x) == FailureId(f.command, x.signature(f.output), x)
    ensures Summarises(SeenAgain(r, f, x), accepted + [f], x)
  {
    hide FailureId, WithId;
    WithIdStep(accepted, f, IdOf(r, x), x);
  }

  lemma NewRecordSummarises(accepted: seq<Failure>, f: Failure, x: Extractors)
    requires FailureId(f.command, x.signature(f.output), x) !in Ids(accepted, x)
    ensures Summarises(NewRecord(f, x), accepted + [f], x)
  {
    var id := FailureId(f.command, x.signature(f.output), x);
    hide FailureId, WithId, Ids;
    UnknownIdHasNoFailures(accepted, id, x);
    WithIdStep(accepted, f, id, x);
  }

  lemma NotedSummarises(failures: seq<FailureRecord>, accepted: seq<Failure>, f: Failure, x: Extractors)
    requires DistinctIds(failures, x) && PatternIds(failures, x) == Ids(accepted, x)
    requires forall r :: r in failures ==> Summarises(r, accepted, x)
    ensures forall r :: r in Noted(failures, f, x) ==> Summarises(r, accepted + [f], x)
  {
    hide FailureId, WithId, Summarises, Ids;
    var id := FailureId(f.command, x.signature(f.output), x);
    var noted := Noted(failures, f, x);
    var found := FindId(failures, id, x);
    forall i | 0 <= i < |noted|
      ensures Summarises(noted[i], accepted + [f], x)
    {
      if i < |failures| && found != Some(i) {
        assert failures[i] in failures && IdOf(failures[i], x) != id;
        OthersStaySummarised(failures[i], accepted, f, x);
      } else if i < |failures| {
        assert failures[i] in failures;
        SeenAgainSummarises(failures[i], accepted, f, x);
      } else {
        assert id !in PatternIds(failures, x);
        NewRecordSummarises(accepted, f, x);
      }
    }
  }

  lemma OthersStaySummarised(r: FailureRecord, accepted: seq<Failure>, f: Failure, x: Extractors)
    requires Summarises(r, accepted, x) && IdOf(r, x) != FailureId(f.command, x.signature(f.output), x)
    ensures Summarises(r, accepted + [f], x)
  {
    hide FailureId, WithId;
    WithIdStep(accepted, f, IdOf(r, x), x);
  }

  // What is remembered and what is lost

  /** Within the first hundred identities, and with no counter saturated. */
  ghost predicate Lossless(accepted: seq<Failure>, x: Extractors) {
    |Ids(accepted, x)| <= MAX_PATTERNS && forall id :: |WithId(accepted, id, x)| <= U32_MAX
  }

  /** While there are at most a hundred identities, the patterns are exactly those, each the
      summary of all its failures; no occurrence is lost exactly while the history is lossless. */
  ghost predicate Complete(m: Memory, accepted: seq<Failure>, x: Extractors) {
    && (|Ids(accepted, x)| <= MAX_PATTERNS ==>
          && PatternIds(m.failures, x) == Ids(accepted, x)
          && forall r :: r in m.failures ==> Summarises(r, accepted, x))
    && (Occurrences(m.failures) == |accepted| <==> Lossless(accepted, x))
  }

  lemma LossIsForGood(accepted: seq<Failure>, f: Failure, x: Extractors)
    ensures Lossless(accepted + [f], x) ==> Lossless(accepted, x)
  {
    hide FailureId, WithId, Ids;
    GrowingIds(accepted, f, x);
    forall id
      ensures |WithId(accepted, id, x)| <= |WithId(accepted + [f], id, x)|
    {
      WithIdStep(accepted, f, id, x);
    }
  }

  /** One more failure of an identity that still fits: nothing is lost as long as its counter is
      not saturated. */
  lemma OneMoreIsLossless(accepted: seq<Failure>, f: Failure, x: Extractors)
    requires Lossless(accepted, x) && |Ids(accepted + [f], x)| <= MAX_PATTERNS
    ensures Lossless(accepted + [f], x)
       <==> |WithId(accepted, FailureId(f.command, x.signature(f.output), x), x)| < U32_MAX
  {
    hide FailureId, WithId, Ids;
    forall id
      ensures |WithId(accepted + [f], id, x)| ==
              |WithId(accepted, id, x)| + if FailureId(f.command, x.signature(f.output), x) == id then 1 else 0
    {
      WithIdStep(accepted, f, id, x);
    }
  }

  lemma NotedLength(m: Memory, accepted: seq<Failure>, f: Failure, x: Extractors)
    requires Kept(m, accepted, x) && Complete(m, accepted, x) && |Ids(accepted, x)| <= MAX_PATTERNS
    ensures |Noted(m.failures, f, x)| == |Ids(accepted + [f], x)|
    ensures PatternIds(Sort(Noted(m.failures, f, x), MoreUrgent()), x) == Ids(accepted + [f], x)
  {
    hide FindId, Sort, CommandBase, FailureId, IdOf, Occurrences, Ids, PatternIds, Lossless;
    NotedIds(m.failures, f, x);
    IdsAppend(accepted, f, x);
    NotedKeepsIdsDistinct(m.failures, f, x);
    DistinctPatternsCount(Noted(m.failures, f, x), x);
    SortedIds(Noted(m.failures, f, x), x);
  }

  /** The step that drops a pattern. */
  lemma DroppingLoses(m: Memory, accepted: seq<Failure>, f: Failure, x: Extractors)
    requires Kept(m, accepted, x) && Complete(m, accepted, x) && Accepted(f, x)
    requires |Ids(accepted, x)| <= MAX_PATTERNS < |Ids(accepted + [f], x)|
    ensures Complete(Recorded(m, f, x), accepted + [f], x)
  {
    hide FindId, Sort, CommandBase, FailureId, IdOf, Occurrences, Ids, PatternIds, WithId, Summarises;
    var noted := Noted(m.failures, f, x);
    NotedLength(m, accepted, f, x);
    NotedAddsOne(m.failures, f, x);
    SortAddsUp(noted);
    SomethingIsDropped(m.failures, f, Sort(noted, MoreUrgent()), x);
  }

  /** A step after something has been lost. */
  lemma LosingGoesOn(m: Memory, accepted: seq<Failure>, f: Failure, x: Extractors)
    requires Kept(m, accepted, x) && Complete(m, accepted, x) && Accepted(f, x)
    requires !Lossless(accepted, x)
    ensures Occurrences(Recorded(m, f, x).failures) < |accepted + [f]| && !Lossless(accepted + [f], x)
  {
    hide FindId, Sort, CommandBase, FailureId, IdOf, Occurrences, Ids, PatternIds, WithId, Summarises, Lossless;
    var noted := Noted(m.failures, f, x);
    NotedAddsOne(m.failures, f, x);
    SortAddsUp(noted);
    TruncatingOnlyRemoves(Sort(noted, MoreUrgent()));
    LossIsForGood(accepted, f, x);
  }

  /** A step within the first hundred identities. */
  lemma FittingKeepsPatterns(m: Memory, accepted: seq<Failure>, f: Failure, x: Extractors)
    requires Kept(m, accepted, x) && Complete(m, accepted, x) && Accepted(f, x)
    requires |Ids(accepted, x)| <= MAX_PATTERNS && |Ids(accepted + [f], x)| <= MAX_PATTERNS
    ensures var kept := Recorded(m, f, x).failures;
            && kept == Sort(Noted(m.failures, f, x), MoreUrgent())
            && PatternIds(kept, x) == Ids(accepted + [f], x)
            && forall r :: r in kept ==> Summarises(r, accepted + [f], x)
  {
    hide FindId, Sort, CommandBase, FailureId, IdOf, Occurrences, Ids, PatternIds, Summarises, Lossless;
    NotedLength(m, accepted, f, x);
    NotedSummarises(m.failures, accepted, f, x);
    SortKeepsElements(Noted(m.failures, f, x), MoreUrgent());
  }

  lemma FittingCounts(m: Memory, accepted: seq<Failure>, f: Failure, x: Extractors)
    requires Kept(m, accepted, x) && Complete(m, accepted, x) && Accepted(f, x)
    requires Lossless(accepted, x) && |Ids(accepted + [f], x)| <= MAX_PATTERNS
    ensures Occurrences(Noted(m.failures, f, x)) == |accepted + [f]| <==> Lossless(accepted + [f], x)
  {
    hide CommandBase, FailureId, Occurrences, Ids, PatternIds, WithId, FindId;
    var id := FailureId(f.command, x.signature(f.output), x);
    OneMoreIsLossless(accepted, f, x);
    OccurrencesStep(m.failures, f, x);
    match FindId(m.failures, id, x)
    case Some(k) => assert m.failures[k] in m.failures;
    case None =>
      UnseenId(m.failures, id, x);
      UnknownIdHasNoFailures(accepted, id, x);
  }

  lemma UnseenId(failures: seq<FailureRecord>, id: nat, x: Extractors)
    requires FindId(failures, id, x).None?
    ensures id !in PatternIds(failures, x)
  {
    hide IdOf;
  }

  lemma RecordingCompletes(m: Memory, accepted: seq<Failure>, f: Failure, x: Extractors)
    requires Kept(m, accepted, x) && Complete(m, accepted, x) && Accepted(f, x)
    ensures Complete(Recorded(m, f, x), accepted + [f], x)
  {
    hide FindId, Sort, CommandBase, FailureId, IdOf, Occurrences, Ids, PatternIds, WithId, Summarises, Noted, Lossless,
         Recorded, Kept;
    GrowingIds(accepted, f, x);
    if |Ids(accepted, x)| <= MAX_PATTERNS < |Ids(accepted + [f], x)| {
      DroppingLoses(m, accepted, f, x);
    } else {
      if |Ids(accepted + [f], x)| <= MAX_PATTERNS { FittingKeepsPatterns(m, accepted, f, x); }
      ManyIdsLose(accepted, x);
      if Lossless(accepted, x) {
        FittingCounts(m, accepted, f, x);
        SortAddsUp(Noted(m.failures, f, x));
      } else {
        LosingGoesOn(m, accepted, f, x);
      }
    }
  }

  lemma ManyIdsLose(accepted: seq<Failure>, x: Extractors)
    ensures Lossless(accepted, x) ==> |Ids(accepted, x)| <= MAX_PATTERNS
  {
  }

  lemma {:induction false} EveryRunIsComplete(history: seq<Failure>, x: Extractors)
    ensures Complete(AfterAll(history, x), AcceptedOf(history, x), x)
    decreases |history|
  {
    hide Recorded, Complete, Kept;
    if history == [] {
      EmptyIsComplete(x);
    } else {
      var past, f := history[..|history| - 1], history[|history| - 1];
      EveryRunIsComplete(past, x);
      if Accepted(f, x) {
        EveryRunKeeps(past, x);
        RecordingCompletes(AfterAll(past, x), AcceptedOf(past, x), f, x);
      } else {
        assert AcceptedOf(history, x) == AcceptedOf(past, x);
        RejectedChangesNothing(AfterAll(past, x), f, x);
      }
    }
  }

  lemma EmptyIsComplete(x: Extractors)
    ensures Complete(EMPTY, [], x)
  {
    assert Ids([], x) == {} && PatternIds([], x) == {};
    assert forall id :: WithId([], id, x) == [];
  }

  /** Over every run the occurrences add up to the accepted failures exactly while these have at
      most a hundred identities and none of them more failures than a counter holds. */
  lemma NothingIsLostExactlyWhen(history: seq<Failure>, x: Extractors)
    ensures Occurrences(AfterAll(history, x).failures) == |AcceptedOf(history, x)|
       <==> Lossless(AcceptedOf(history, x), x)
  {
    EveryRunIsComplete(history, x);
  }

  /** While there have been at most a hundred identities, the patterns are exactly those, and every
      pattern is the summary of all the accepted failures of its identity. */
  lemma PatternsSummariseTheirFailures(history: seq<Failure>, x: Extractors)
    requires |Ids(AcceptedOf(history, x), x)| <= MAX_PATTERNS
    ensures PatternIds(AfterAll(history, x).failures, x) == Ids(AcceptedOf(history, x), x)
    ensures forall r :: r in AfterAll(history, x).failures ==> Summarises(r, AcceptedOf(history, x), x)
  {
    hide Ids, PatternIds, Summarises;
    EveryRunIsComplete(history, x);
  }

  // A history that loses something

  /** Each output is its own signature, and the hash is the length of the signature. */
  function ByLength(): Extractors {
    Extractors((output: string) => output, (output: string) => output, (base: string, signature: string) => |signature|)
  }

  /** Failures of one command whose outputs have the lengths 1, 2 and so on. */
  function Outputs(n: nat): seq<Failure> {
    if n == 0 then [] else Outputs(n - 1) + [Failure("make", 1, OfLength(n), Shell, n)]
  }

  function OfLength(n: nat): string {
    seq(n, _ => 'x')
  }

  predicate OwnIds(n: nat) {
    |Ids(Outputs(n), ByLength())| == n && forall id :: id in Ids(Outputs(n), ByLength()) ==> id <= n
  }

  lemma {:induction false} OutputsHaveOwnIds(n: nat)
    ensures |Outputs(n)| == n && AcceptedOf(Outputs(n), ByLength()) == Outputs(n) && OwnIds(n)
  {
    hide Outputs, AcceptedOf, OwnIds, OfLength, ByLength, FailureId;
    if n == 0 {
      NoOutputs();
    } else {
      var f := Failure("make", 1, OfLength(n), Shell, n);
      OutputsHaveOwnIds(n - 1);
      OutputsStep(n, f);
      OneMoreId(n, f);
    }
  }

  lemma NoOutputs()
    ensures Outputs(0) == [] && AcceptedOf(Outputs(0), ByLength()) == Outputs(0) && OwnIds(0)
  {
    assert Ids([], ByLength()) == {};
  }

  lemma OneMoreId(n: nat, f: Failure)
    requires n > 0 && OwnIds(n - 1) && Outputs(n) == Outputs(n - 1) + [f]
    requires FailureId(f.command, ByLength().signature(f.output), ByLength()) == n
    ensures OwnIds(n)
  {
    hide Ids, Outputs, FailureId, ByLength;
    IdsAppend(Outputs(n - 1), f, ByLength());
    assert n !in Ids(Outputs(n - 1), ByLength());
  }

  lemma OutputsStep(n: nat, f: Failure)
    requires n > 0 && f == Failure("make", 1, OfLength(n), Shell, n)
    requires |Outputs(n - 1)| == n - 1 && AcceptedOf(Outputs(n - 1), ByLength()) == Outputs(n - 1)
    ensures Outputs(n) == Outputs(n - 1) + [f] && |Outputs(n)| == n
    ensures AcceptedOf(Outputs(n), ByLength()) == Outputs(n)
    ensures FailureId(f.command, ByLength().signature(f.output), ByLength()) == n
  {
    hide CommandBase;
    assert Outputs(n)[..n - 1] == Outputs(n - 1);
  }

  /** A hundred and one failures with as many identities: one of them is forgotten. */
  lemma AHundredAndOneIdentities()
    ensures Occurrences(AfterAll(Outputs(101), ByLength()).failures) < |AcceptedOf(Outputs(101), ByLength())| == 101
  {
    hide AfterAll, Outputs, AcceptedOf, Occurrences, Kept;
    OutputsHaveOwnIds(101);
    NothingIsLostExactlyWhen(Outputs(101), ByLength());
    EveryRunKeeps(Outputs(101), ByLength());
    OccurrencesAreBounded(Outputs(101), ByLength());
  }

  lemma OccurrencesAreBounded(history: seq<Failure>, x: Extractors)
    ensures Occurrences(AfterAll(history, x).failures) <= |AcceptedOf(history, x)|
  {
    EveryRunKeeps(history, x);
  }

  // Which patterns come first, and which are forgotten

  /** More occurrences, or as many and not seen last before the other. */
  predicate Outranks(a: FailureRecord, b: FailureRecord) {
    a.occurrences > b.occurrences || (a.occurrences == b.occurrences && a.lastSeen >= b.lastSeen)
  }

  lemma PatternsAreRanked(history: seq<Failure>, x: Extractors)
    ensures var failures := AfterAll(history, x).failures;
            forall i, j :: 0 <= i < j < |failures| ==> Outranks(failures[i], failures[j])
  {
    hide AfterAll, AcceptedOf;
    EveryRunKeeps(history, x);
  }

  lemma SortedIsRanked(s: seq<FailureRecord>, n: nat, k: nat, d: nat)
    requires Sorted(s, MoreUrgent()) && k < n <= d < |s|
    ensures Outranks(s[k], s[d])
  {
    assert !MoreUrgent()(s[d], s[k]);
  }

  /** Only when there are more than a hundred patterns is one forgotten, and all that are kept outrank
      it. */
  lemma OnlyTheLastIsForgotten(m: Memory, f: Failure, x: Extractors, d: FailureRecord)
    requires Accepted(f, x) && d in Noted(m.failures, f, x)
    ensures var kept := Recorded(m, f, x).failures;
            d in kept || (|kept| == 100 && forall r :: r in kept ==> Outranks(r, d))
  {
    hide Noted, MoreUrgent, Sort, Sorted;
    var noted := Noted(m.failures, f, x);
    var sorted := Sort(noted, MoreUrgent());
    var kept := Recorded(m, f, x).failures;
    MoreUrgentIsAnOrder();
    SortSorts(noted, MoreUrgent());
    SortKeepsElements(noted, MoreUrgent());
    if d !in kept {
      var j :| 0 <= j < |sorted| && sorted[j] == d;
      assert |sorted| > MAX_PATTERNS && kept == sorted[..MAX_PATTERNS];
      assert forall k :: 0 <= k < |kept| ==> sorted[k] == kept[k] && kept[k] in kept;
      forall r | r in kept
        ensures Outranks(r, d)
      {
        var i :| 0 <= i < |kept| && kept[i] == r;
        SortedIsRanked(sorted, MAX_PATTERNS, i, j);
      }
    }
  }

  function FirstTwo(words: seq<string>): seq<string> {
    if |words| <= 2 then words else words[..2]
  }

  /** Two failures with one signature are the same failure whenever the first two words of their commands
      are the same; and only then, as far as the hash tells bases apart. */
  lemma BaseIsTheFirstTwoWords(c: string, d: string)
    ensures CommandBase(c) == CommandBase(d) <==> FirstTwo(Words(c)) == FirstTwo(Words(d))
  {
    hide Words, JoinWords, IsWord;
    WordsAreWords(c);
    WordsAreWords(d);
    WordsOfJoined(FirstTwo(Words(c)));
    WordsOfJoined(FirstTwo(Words(d)));
  }

  predicate RecordsFailure(r: RecentFailure, f: Failure, x: Extractors) {
    && r.command == f.command && r.exitCode == f.exitCode && r.signature == x.signature(f.output)
    && r.snippet == x.snippet(f.output) && r.timestamp == f.now && r.source == f.source
  }

  /** The recent list holds the last thirty accepted failures, the latest last, each as it was. */
  lemma RecentFailuresAre(history: seq<Failure>, x: Extractors)
    ensures var recent, accepted := AfterAll(history, x).recent, AcceptedOf(history, x);
            && |recent| == (if |accepted| <= 30 then |accepted| else 30)
            && forall i :: 0 <= i < |recent| ==> RecordsFailure(recent[i], accepted[|accepted| - |recent| + i], x)
  {
    hide AfterAll, AcceptedOf, Occurrences, DistinctIds, CountOf, Sorted, MoreUrgent;
    var recent, accepted := AfterAll(history, x).recent, AcceptedOf(history, x);
    EveryRunKeeps(history, x);
    LastRecents(accepted, x);
  }

  lemma LastRecents(accepted: seq<Failure>, x: Extractors)
    ensures var recent := KeepLast(Recents(accepted, x), MAX_RECENT_FAILURES);
            && |recent| == (if |accepted| <= 30 then |accepted| else 30)
            && forall i :: 0 <= i < |recent| ==> RecordsFailure(recent[i], accepted[|accepted| - |recent| + i], x)
  {
  }

  /** A command that succeeds and an output without a signature leave no trace; any other failure is
      counted, and heads the recent list. */
  lemma OnlyFailuresAreRecorded(m: Memory, f: Failure, x: Extractors)
    ensures f.exitCode == 0 || x.signature(f.output) == "" ==> Recorded(m, f, x) == m
    ensures f.exitCode != 0 && x.signature(f.output) != "" && m.stats.totalFailures < U64_MAX ==>
              && Recorded(m, f, x).stats.totalFailures == m.stats.totalFailures + 1
              && var recent := Recorded(m, f, x).recent;
                 recent != [] && RecordsFailure(recent[|recent| - 1], f, x)
  {
    hide Noted, Sort;
  }
}
