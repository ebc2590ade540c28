/** The session cache: contents by normalised path, labels for files, and eviction within a
    token budget. The step functions say what each operation does to the whole state. */
module SessionCaches {
  import opened Wrappers
  import opened Sequences
  import opened StableSort
  import opened EvictionRanking
  import opened ToolPaths
  import Decimals

  datatype CacheStats = CacheStats(
    totalReads: nat, cacheHits: nat, totalOriginalTokens: nat, totalSentTokens: nat, filesTracked: nat)

  datatype StoreResult = StoreResult(lineCount: nat, originalTokens: nat, readCount: nat, wasHit: bool)

  datatype CacheState = CacheState(
    entries: map<string, CacheEntry>, fileRefs: map<string, string>, nextRef: nat, stats: CacheStats)

  /** The parts that are not modelled: the tokeniser, the digest and the line counter. */
  datatype Meters = Meters(countTokens: string -> nat, md5: string -> string, countLines: string -> nat)

  const NO_STATS := CacheStats(0, 0, 0, 0, 0)
  const NEW_CACHE := CacheState(map[], map[], 1, NO_STATS)

  function Label(n: nat): string {
    "F" + Decimals.Print(n)
  }

  function HitMessage(fileRef: string, readCount: nat, lineCount: nat): string {
    fileRef + " cached " + Decimals.Print(readCount) + "t " + Decimals.Print(lineCount) + "L"
  }

  function LabelOf(s: CacheState, key: string): string {
    if key in s.fileRefs then s.fileRefs[key] else "F?"
  }

  // Labels

  function RefStep(s: CacheState, path: string): CacheState {
    var key := NormalizeToolPath(path);
    if key in s.fileRefs then s
    else s.(fileRefs := s.fileRefs[key := Label(s.nextRef)], nextRef := s.nextRef + 1)
  }

  // Eviction

  /** A hash map's iteration order over its keys. */
  ghost predicate Enumerates(order: seq<string>, keys: set<string>) {
    Distinct(order) && forall k :: k in order <==> k in keys
  }

  function EntriesOf(order: seq<string>, entries: map<string, CacheEntry>): seq<CacheEntry>
    requires forall k :: k in order ==> k in entries
  {
    seq(|order|, i requires 0 <= i < |order| => entries[order[i]])
  }

  function Scored(order: seq<string>, entries: map<string, CacheEntry>, now: int): seq<(string, real)>
    requires forall k :: k in order ==> k in entries
  {
    seq(|order|, i requires 0 <= i < |order| => (order[i], Score(EntriesOf(order, entries), now, i)))
  }

  function LowerScore(): ((string, real), (string, real)) -> bool {
    (a: (string, real), b: (string, real)) => a.1 < b.1
  }

  /** The cached paths, least valuable first. */
  function EvictionOrder(order: seq<string>, entries: map<string, CacheEntry>, now: int): seq<string>
    requires forall k :: k in order ==> k in entries
  {
    var sorted := Sort(Scored(order, entries, now), LowerScore());
    seq(|sorted|, i requires 0 <= i < |sorted| => sorted[i].0)
  }

  function TokensIn(paths: seq<string>, entries: map<string, CacheEntry>): nat
    requires forall k :: k in paths ==> k in entries
  {
    if paths == [] then 0 else entries[paths[0]].originalTokens + TokensIn(paths[1..], entries)
  }

  /** How many of `paths` are evicted until `target` tokens are freed. */
  function VictimCount(paths: seq<string>, entries: map<string, CacheEntry>, freed: nat, target: nat): (k: nat)
    requires forall k :: k in paths ==> k in entries
    ensures k <= |paths|
  {
    if paths == [] || freed >= target then 0
    else 1 + VictimCount(paths[1..], entries, freed + entries[paths[0]].originalTokens, target)
  }

  function Target(order: seq<string>, entries: map<string, CacheEntry>, incoming: nat, budget: nat): nat
    requires forall k :: k in order ==> k in entries
  {
    var needed := TokensIn(order, entries) + incoming;
    if needed <= budget then 0 else needed - budget
  }

  function Victims(order: seq<string>, entries: map<string, CacheEntry>, incoming: nat, now: int, budget: nat): seq<string>
    requires forall k :: k in order ==> k in entries
  {
    var paths := EvictionOrder(order, entries, now);
    EvictionOrderIsOverKeys(order, entries, now);
    paths[..VictimCount(paths, entries, 0, Target(order, entries, incoming, budget))]
  }

  function Without(s: CacheState, victims: seq<string>): CacheState {
    var gone := set k | k in victims;
    s.(entries := s.entries - gone, fileRefs := s.fileRefs - gone)
  }

  function EvictStep(s: CacheState, incoming: nat, now: int, budget: nat, order: seq<string>): CacheState
    requires Enumerates(order, s.entries.Keys)
  {
    Without(s, Victims(order, s.entries, incoming, now, budget))
  }

  lemma EvictionOrderIsOverKeys(order: seq<string>, entries: map<string, CacheEntry>, now: int)
    requires forall k :: k in order ==> k in entries
    ensures forall k :: k in EvictionOrder(order, entries, now) ==> k in order && k in entries
  {
    var scored := Scored(order, entries, now);
    var sorted := Sort(scored, LowerScore());
    SortKeepsElements(scored, LowerScore());
    forall k | k in EvictionOrder(order, entries, now)
      ensures k in order
    {
      var i :| 0 <= i < |sorted| && sorted[i].0 == k;
      assert sorted[i] in sorted;
    }
  }

  // Storing

  function Count(stats: CacheStats, original: nat, sent: nat, hit: nat, tracked: nat): CacheStats {
    CacheStats(stats.totalReads + 1, stats.cacheHits + hit, stats.totalOriginalTokens + original,
               stats.totalSentTokens + sent, stats.filesTracked + tracked)
  }

  function Hit(e: CacheEntry, now: int): CacheEntry {
    e.(readCount := e.readCount + 1, lastAccess := now)
  }

  /** Storing at a key that is cached already: a hit, or new content. */
  function StoreKnown(s: CacheState, key: string, content: string, now: int, m: Meters): (StoreResult, CacheState)
    requires key in s.entries
  {
    var tokens, lines, hash := m.countTokens(content), m.countLines(content), m.md5(content);
    var e := Hit(s.entries[key], now);
    if e.hash == hash then
      var sent := m.countTokens(HitMessage(LabelOf(s, key), e.readCount, e.lineCount));
      (StoreResult(e.lineCount, e.originalTokens, e.readCount, true),
       s.(entries := s.entries[key := e], stats := Count(s.stats, tokens, sent, 1, 0)))
    else
      var e' := e.(content := content, hash := hash, lineCount := lines, originalTokens := tokens);
      (StoreResult(lines, tokens, e.readCount, false),
       s.(entries := s.entries[key := e'], stats := Count(s.stats, tokens, tokens, 0, 0)))
  }

  function StoreStep(s: CacheState, path: string, content: string, now: int, budget: nat, order: seq<string>, m: Meters)
    : (r: (StoreResult, CacheState))
    requires Enumerates(order, s.entries.Keys)
  {
    var key := NormalizeToolPath(path);
    var tokens, lines, hash := m.countTokens(content), m.countLines(content), m.md5(content);
    if key in s.entries then StoreKnown(s, key, content, now, m)
    else
      var labelled := RefStep(EvictStep(s, tokens, now, budget, order), key);
      var e := CacheEntry(content, hash, lines, tokens, 1, key, now);
      (StoreResult(lines, tokens, 1, false),
       labelled.(entries := labelled.entries[key := e], stats := Count(s.stats, tokens, tokens, 0, 1)))
  }

  function HitStep(s: CacheState, path: string, now: int, m: Meters): CacheState {
    var key := NormalizeToolPath(path);
    if key !in s.entries then s
    else
      var e := Hit(s.entries[key], now);
      var sent := m.countTokens(HitMessage(LabelOf(s, key), e.readCount, e.lineCount));
      s.(entries := s.entries[key := e], stats := Count(s.stats, e.originalTokens, sent, 1, 0))
  }

  class SessionCache {
    const meters: Meters
    var entries: map<string, CacheEntry>
    var fileRefs: map<string, string>
    var nextRef: nat
    var stats: CacheStats

    constructor (meters: Meters)
      ensures this.meters == meters && State() == NEW_CACHE
    {
      this.meters := meters;
      entries, fileRefs, nextRef, stats := map[], map[], 1, NO_STATS;
    }

    function State(): CacheState
      reads this
    {
      CacheState(entries, fileRefs, nextRef, stats)
    }

    method GetFileRef(path: string) returns (fileRef: string)
      modifies this
      ensures State() == RefStep(old(State()), path)
      ensures fileRef == LabelOf(State(), NormalizeToolPath(path))
    {
      hide NormalizeToolPath;
      var key := NormalizeToolPath(path);
      if key in fileRefs {
        return fileRefs[key];
      }
      fileRef := Label(nextRef);
      nextRef := nextRef + 1;
      fileRefs := fileRefs[key := fileRef];
    }

    method Get(path: string) returns (e: Option<CacheEntry>)
      ensures e == if NormalizeToolPath(path) in entries then Some(entries[NormalizeToolPath(path)]) else None
    {
      hide NormalizeToolPath;
      var key := NormalizeToolPath(path);
      e := if key in entries then Some(entries[key]) else None;
    }

    method RecordCacheHit(path: string, now: int) returns (e: Option<CacheEntry>)
      modifies this
      ensures State() == HitStep(old(State()), path, now, meters)
      ensures e == if NormalizeToolPath(path) in entries then Some(entries[NormalizeToolPath(path)]) else None
    {
      hide NormalizeToolPath, HitMessage;
      var key := NormalizeToolPath(path);
      var fileRef := LabelOf(State(), key);
      if key !in entries {
        return None;
      }
      var entry := Hit(entries[key], now);
      var sent := meters.countTokens(HitMessage(fileRef, entry.readCount, entry.lineCount));
      entries := entries[key := entry];
      stats := Count(stats, entry.originalTokens, sent, 1, 0);
      return Some(entry);
    }

    /** Evict the least valuable entries until the incoming tokens fit the budget. */
    method EvictIfNeeded(incoming: nat, now: int, budget: nat, order: seq<string>)
      requires Enumerates(order, entries.Keys)
      modifies this`entries, this`fileRefs
      ensures State() == EvictStep(old(State()), incoming, now, budget, order)
    {
      hide Score, Sort, Without, VictimCount, TokensIn, EvictionOrder, Distinct, Scored;
      ghost var before, paths := State(), EvictionOrder(order, entries, now);
      EvictionOrderIsOverKeys(order, entries, now);
      var current := TokensIn(order, entries);
      if current + incoming <= budget {
        NoVictims(before, paths, 0);
        return;
      }
      var scores := EvictionScores(EntriesOf(order, entries), now);
      var sorted := SortedByScore(order, scores, entries, now);
      EvictionOrderIsDistinct(order, entries, now);
      var freed: nat := 0;
      var target: nat := current + incoming - budget;
      var i := 0;
      NoVictims(before, paths, target);
      while i < |sorted| && freed < target
        invariant 0 <= i <= |paths| && sorted == paths
        invariant State() == Without(before, paths[..i])
        invariant VictimCount(paths, before.entries, 0, target) == i + VictimsFrom(paths, before.entries, i, freed, target)
      {
        var path := sorted[i];
        OneMoreVictim(before, paths, i);
        VictimsFromStep(paths, before.entries, i, freed, target);
        freed := freed + entries[path].originalTokens;
        entries := entries - {path};
        fileRefs := fileRefs - {path};
        i := i + 1;
      }
      NoMoreVictims(paths, before.entries, i, freed, target);
    }

    /** The branches of `store` for a key that is cached already. */
    method UpdateEntry(key: string, content: string, now: int) returns (r: StoreResult)
      requires key in entries
      modifies this`entries, this`stats
      ensures (r, State()) == StoreKnown(old(State()), key, content, now, meters)
    {
      hide HitMessage;
      var hash := meters.md5(content);
      var lineCount := meters.countLines(content);
      var originalTokens := meters.countTokens(content);
      stats := stats.(totalReads := stats.totalReads + 1, totalOriginalTokens := stats.totalOriginalTokens + originalTokens);
      var existing := entries[key].(lastAccess := now);
      if existing.hash == hash {
        existing := existing.(readCount := existing.readCount + 1);
        var sent := meters.countTokens(HitMessage(LabelOf(State(), key), existing.readCount, existing.lineCount));
        entries := entries[key := existing];
        stats := stats.(cacheHits := stats.cacheHits + 1, totalSentTokens := stats.totalSentTokens + sent);
        return StoreResult(existing.lineCount, existing.originalTokens, existing.readCount, true);
      }
      existing := existing.(content := content, hash := hash, lineCount := lineCount,
                            originalTokens := originalTokens, readCount := existing.readCount + 1);
      entries := entries[key := existing];
      stats := stats.(totalSentTokens := stats.totalSentTokens + originalTokens);
      return StoreResult(lineCount, originalTokens, existing.readCount, false);
    }

    method Store(path: string, content: string, now: int, budget: nat, order: seq<string>) returns (r: StoreResult)
      requires Enumerates(order, entries.Keys)
      modifies this
      ensures (r, State()) == StoreStep(old(State()), path, content, now, budget, order, meters)
    {
      hide NormalizeToolPath, StoreKnown, EvictStep, Label;
      var key := NormalizeToolPath(path);
      if key in entries {
        r := UpdateEntry(key, content, now);
        return;
      }
      var hash := meters.md5(content);
      var lineCount := meters.countLines(content);
      var originalTokens := meters.countTokens(content);
      stats := stats.(totalReads := stats.totalReads + 1, totalOriginalTokens := stats.totalOriginalTokens + originalTokens);
      StatsDoNotMatter(old(State()), stats, originalTokens, now, budget, order, key);
      EvictIfNeeded(originalTokens, now, budget, order);
      var _ := GetFileRef(key);
      entries := entries[key := CacheEntry(content, hash, lineCount, originalTokens, 1, key, now)];
      stats := stats.(filesTracked := stats.filesTracked + 1, totalSentTokens := stats.totalSentTokens + originalTokens);
      return StoreResult(lineCount, originalTokens, 1, false);
    }

    method Invalidate(path: string) returns (removed: bool)
      modifies this`entries
      ensures State() == old(State()).(entries := old(entries) - {NormalizeToolPath(path)})
      ensures removed == (NormalizeToolPath(path) in old(entries))
    {
      hide NormalizeToolPath;
      var key := NormalizeToolPath(path);
      removed := key in entries;
      entries := entries - {key};
    }

    method Clear() returns (count: nat)
      modifies this
      ensures State() == NEW_CACHE && count == |old(entries)|
    {
      count := |entries|;
      entries, fileRefs, nextRef, stats := map[], map[], 1, NO_STATS;
    }
  }

  lemma StatsDoNotMatter(s: CacheState, stats: CacheStats, incoming: nat, now: int, budget: nat, order: seq<string>, key: string)
    requires Enumerates(order, s.entries.Keys)
    ensures RefStep(EvictStep(s.(stats := stats), incoming, now, budget, order), key)
         == RefStep(EvictStep(s, incoming, now, budget, order), key).(stats := stats)
  {
  }

  function VictimsFrom(paths: seq<string>, entries: map<string, CacheEntry>, i: nat, freed: nat, target: nat): nat
    requires i <= |paths| && forall k :: k in paths ==> k in entries
  {
    assert forall k :: k in paths[i..] ==> k in paths;
    VictimCount(paths[i..], entries, freed, target)
  }

  lemma NoVictims(s: CacheState, paths: seq<string>, target: nat)
    requires forall k :: k in paths ==> k in s.entries
    ensures Without(s, paths[..0]) == s && VictimCount(paths, s.entries, 0, 0) == 0
    ensures VictimCount(paths, s.entries, 0, target) == VictimsFrom(paths, s.entries, 0, 0, target)
  {
    assert paths[0..] == paths;
  }

  lemma VictimsFromStep(paths: seq<string>, entries: map<string, CacheEntry>, i: nat, freed: nat, target: nat)
    requires i < |paths| && freed < target && forall k :: k in paths ==> k in entries
    ensures paths[i] in paths
    ensures VictimsFrom(paths, entries, i, freed, target)
         == 1 + VictimsFrom(paths, entries, i + 1, freed + entries[paths[i]].originalTokens, target)
  {
    assert paths[i..][1..] == paths[i + 1..];
  }

  lemma NoMoreVictims(paths: seq<string>, entries: map<string, CacheEntry>, i: nat, freed: nat, target: nat)
    requires i <= |paths| && forall k :: k in paths ==> k in entries
    requires i == |paths| || freed >= target
    ensures VictimsFrom(paths, entries, i, freed, target) == 0
  {
  }

  /** Pair the paths with their scores and sort: the eviction order. */
  method SortedByScore(order: seq<string>, scores: seq<real>, entries: map<string, CacheEntry>, now: int)
    returns (paths: seq<string>)
    requires forall k :: k in order ==> k in entries
    requires |scores| == |order|
    requires forall i :: 0 <= i < |order| ==> scores[i] == Score(EntriesOf(order, entries), now, i)
    ensures paths == EvictionOrder(order, entries, now)
  {
    hide Score, Sort;
    var scored := seq(|order|, i requires 0 <= i < |order| => (order[i], scores[i]));
    assert scored == Scored(order, entries, now);
    var sorted := Sort(scored, LowerScore());
    paths := seq(|sorted|, i requires 0 <= i < |sorted| => sorted[i].0);
  }

  lemma OneMoreVictim(s: CacheState, paths: seq<string>, i: nat)
    requires i < |paths| && Distinct(paths) && forall k :: k in paths ==> k in s.entries
    ensures var path := paths[i];
      && path in Without(s, paths[..i]).entries
      && Without(s, paths[..i]).entries[path] == s.entries[path]
      && Without(s, paths[..i + 1])
         == Without(s, paths[..i]).(entries := Without(s, paths[..i]).entries - {path},
                                    fileRefs := Without(s, paths[..i]).fileRefs - {path})
  {
    var path := paths[i];
    assert path in paths;
    assert paths[..i + 1] == paths[..i] + [path];
    assert path !in paths[..i];
  }

  /** The eviction order lists each cached path once. */
  lemma EvictionOrderIsDistinct(order: seq<string>, entries: map<string, CacheEntry>, now: int)
    requires Enumerates(order, entries.Keys)
    ensures Distinct(EvictionOrder(order, entries, now))
    ensures forall k :: k in order ==> k in EvictionOrder(order, entries, now)
  {
    hide Score, Sort, LowerScore;
    var scored := Scored(order, entries, now);
    var sorted := Sort(scored, LowerScore());
    SortPermutes(scored, LowerScore());
    SortKeepsMembers(scored, LowerScore());
    ScoredIsDistinct(order, scored);
    DistinctPermutes(scored, sorted);
    FirstsAreDistinct(order, scored, sorted);
    FirstsAreAll(order, scored, sorted);
    assert EvictionOrder(order, entries, now) == Firsts(sorted);
  }

  function Firsts(s: seq<(string, real)>): seq<string> {
    seq(|s|, i requires 0 <= i < |s| => s[i].0)
  }

  ghost predicate Pairs(order: seq<string>, scored: seq<(string, real)>) {
    |scored| == |order| && forall i :: 0 <= i < |order| ==> scored[i].0 == order[i]
  }

  lemma ScoredIsDistinct(order: seq<string>, scored: seq<(string, real)>)
    requires Distinct(order) && Pairs(order, scored)
    ensures Distinct(scored)
  {
  }

  lemma FirstsAreDistinct(order: seq<string>, scored: seq<(string, real)>, sorted: seq<(string, real)>)
    requires Distinct(order) && Pairs(order, scored) && Distinct(sorted)
    requires forall i :: 0 <= i < |sorted| ==> sorted[i] in scored
    ensures Distinct(Firsts(sorted))
  {
    forall i, j | 0 <= i < j < |sorted|
      ensures sorted[i].0 != sorted[j].0
    {
      var a :| 0 <= a < |scored| && scored[a] == sorted[i];
      var b :| 0 <= b < |scored| && scored[b] == sorted[j];
      assert a != b && order[a] != order[b];
    }
  }

  lemma FirstsAreAll(order: seq<string>, scored: seq<(string, real)>, sorted: seq<(string, real)>)
    requires Pairs(order, scored) && forall i :: 0 <= i < |scored| ==> scored[i] in sorted
    ensures forall k :: k in order ==> k in Firsts(sorted)
  {
    forall k | k in order
      ensures k in Firsts(sorted)
    {
      var a :| 0 <= a < |order| && order[a] == k;
      assert scored[a] in scored;
      var i :| 0 <= i < |sorted| && sorted[i] == scored[a];
      assert Firsts(sorted)[i] == k;
    }
  }

  lemma DistinctPermutes<T>(a: seq<T>, b: seq<T>)
    requires Distinct(a) && multiset(a) == multiset(b)
    ensures Distinct(b)
  {
    forall i, j | 0 <= i < j < |b|
      ensures b[i] != b[j]
    {
      assert b == b[..i] + [b[i]] + b[i + 1..j] + [b[j]] + b[j + 1..];
      assert b[i] == b[j] ==> multiset(b)[b[i]] >= 2;
      DistinctOccursOnce(a, b[i]);
    }
  }

  lemma {:induction false} DistinctOccursOnce<T>(a: seq<T>, x: T)
    requires Distinct(a)
    ensures multiset(a)[x] <= 1
  {
    if a != [] {
      DistinctOccursOnce(a[1..], x);
      assert a == [a[0]] + a[1..];
      if a[0] == x {
        assert x !in a[1..];
        assert x !in multiset(a[1..]);
      }
    }
  }
}
