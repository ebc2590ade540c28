/** Laws of the session cache: fair and minimal eviction, the token budget, and what every run
    of operations keeps. */
module SessionCacheLaws {
  import opened Sequences
  import opened StableSort
  import opened EvictionRanking
  import opened ToolPaths
  import opened SessionCaches

  // Token totals

  ghost function SumOf(keys: set<string>, entries: map<string, CacheEntry>): nat
    requires keys <= entries.Keys
  {
    if keys == {} then 0
    else
      var k :| k in keys;
      entries[k].originalTokens + SumOf(keys - {k}, entries)
  }

  /** `total_cached_tokens`. */
  ghost function TotalTokens(entries: map<string, CacheEntry>): nat {
    SumOf(entries.Keys, entries)
  }

  lemma {:induction false} SumRemove(keys: set<string>, entries: map<string, CacheEntry>, x: string)
    requires keys <= entries.Keys && x in keys
    ensures SumOf(keys, entries) == entries[x].originalTokens + SumOf(keys - {x}, entries)
    decreases |keys|
  {
    var k :| k in keys && SumOf(keys, entries) == entries[k].originalTokens + SumOf(keys - {k}, entries);
    if k != x {
      SumRemove(keys - {k}, entries, x);
      SumRemove(keys - {x}, entries, k);
      assert keys - {k} - {x} == keys - {x} - {k};
    }
  }

  lemma {:induction false} SumAgrees(keys: set<string>, a: map<string, CacheEntry>, b: map<string, CacheEntry>)
    requires keys <= a.Keys && keys <= b.Keys
    requires forall k :: k in keys ==> a[k].originalTokens == b[k].originalTokens
    ensures SumOf(keys, a) == SumOf(keys, b)
    decreases |keys|
  {
    if keys != {} {
      var k :| k in keys;
      SumRemove(keys, a, k);
      SumRemove(keys, b, k);
      SumAgrees(keys - {k}, a, b);
    }
  }

  /** Any listing of a set of keys adds up to the same number. */
  lemma {:induction false} SumOfListing(paths: seq<string>, entries: map<string, CacheEntry>)
    requires Distinct(paths) && forall k :: k in paths ==> k in entries
    ensures TokensIn(paths, entries) == SumOf((set k | k in paths), entries)
  {
    var keys := set k | k in paths;
    if paths != [] {
      var rest := paths[1..];
      assert forall i :: 0 <= i < |rest| ==> rest[i] == paths[i + 1];
      SumOfListing(rest, entries);
      assert paths[0] in paths && paths[0] !in rest;
      assert keys - {paths[0]} == set k | k in rest by {
        assert forall k :: k in paths <==> k == paths[0] || k in rest;
      }
      SumRemove(keys, entries, paths[0]);
    } else {
      assert keys == {};
    }
  }

  lemma NothingToSum(entries: map<string, CacheEntry>)
    ensures SumOf({}, entries) == 0
  {
  }

  lemma {:induction false} SumSplits(keys: set<string>, gone: set<string>, entries: map<string, CacheEntry>)
    requires gone <= keys <= entries.Keys
    ensures SumOf(keys, entries) == SumOf(gone, entries) + SumOf(keys - gone, entries)
    decreases |gone|
  {
    hide SumOf;
    if gone == {} {
      NothingToSum(entries);
      assert keys - gone == keys;
    } else {
      var k :| k in gone;
      SumRemove(keys, entries, k);
      SumRemove(gone, entries, k);
      SumSplits(keys - {k}, gone - {k}, entries);
      SameRest(keys, gone, k);
    }
  }

  lemma SameRest(keys: set<string>, gone: set<string>, k: string)
    requires k in gone
    ensures keys - {k} - (gone - {k}) == keys - gone
  {
  }

  lemma ListingTotal(order: seq<string>, entries: map<string, CacheEntry>)
    requires Enumerates(order, entries.Keys)
    ensures TokensIn(order, entries) == TotalTokens(entries)
  {
    SumOfListing(order, entries);
    assert (set k | k in order) == entries.Keys;
  }

  // Eviction is minimal

  lemma {:induction false} TokensInTail(paths: seq<string>, entries: map<string, CacheEntry>, k: nat)
    requires 0 < k <= |paths| && forall p :: p in paths ==> p in entries
    ensures TokensIn(paths[..k], entries) == entries[paths[0]].originalTokens + TokensIn(paths[1..][..k - 1], entries)
  {
    assert paths[..k][1..] == paths[1..][..k - 1];
  }

  /** The count stops at the first prefix that frees enough, or runs out of paths. */
  lemma {:induction false} VictimCountIsMinimal(paths: seq<string>, entries: map<string, CacheEntry>, freed: nat, target: nat)
    requires forall k :: k in paths ==> k in entries
    ensures var k := VictimCount(paths, entries, freed, target);
      && (k == |paths| || freed + TokensIn(paths[..k], entries) >= target)
      && forall j :: 0 <= j < k ==> freed + TokensIn(paths[..j], entries) < target
  {
    var k := VictimCount(paths, entries, freed, target);
    if k == 0 {
      assert paths[..0] == [];
    } else {
      var freed' := freed + entries[paths[0]].originalTokens;
      VictimCountIsMinimal(paths[1..], entries, freed', target);
      TokensInTail(paths, entries, k);
      forall j | 0 <= j < k
        ensures freed + TokensIn(paths[..j], entries) < target
      {
        if j > 0 {
          TokensInTail(paths, entries, j);
          assert freed' + TokensIn(paths[1..][..j - 1], entries) < target;
        } else {
          assert paths[..0] == [];
        }
      }
    }
  }

  /** The score an entry gets in this eviction. */
  function ScoreAt(order: seq<string>, entries: map<string, CacheEntry>, now: int, i: nat): real
    requires i < |order| && forall k :: k in order ==> k in entries
  {
    Score(EntriesOf(order, entries), now, i)
  }

  /** The eviction order ascends by score. */
  lemma EvictionOrderAscends(order: seq<string>, entries: map<string, CacheEntry>, now: int, a: nat, b: nat, i: nat, j: nat)
    requires Enumerates(order, entries.Keys) && a < |order| && b < |order|
    requires i < j < |EvictionOrder(order, entries, now)|
    requires EvictionOrder(order, entries, now)[i] == order[a] && EvictionOrder(order, entries, now)[j] == order[b]
    ensures ScoreAt(order, entries, now, a) <= ScoreAt(order, entries, now, b)
  {
    hide Score;
    var scored := Scored(order, entries, now);
    var sorted := Sort(scored, LowerScore());
    LowerScoreIsAnOrder();
    SortSorts(scored, LowerScore());
    SortKeepsElements(scored, LowerScore());
    assert !LowerScore()(sorted[j], sorted[i]);
    assert sorted[i] in sorted && sorted[j] in sorted;
    var a' :| 0 <= a' < |scored| && scored[a'] == sorted[i];
    var b' :| 0 <= b' < |scored| && scored[b'] == sorted[j];
    assert order[a'] == order[a] && order[b'] == order[b];
    assert a' == a && b' == b;
  }

  lemma LowerScoreIsAnOrder()
    ensures StrictWeakOrder(LowerScore())
  {
  }

  /** The victims are the shortest run of lowest scores that frees the target: no kept entry
      scores lower than a victim, and one victim fewer would not have been enough. */
  lemma EvictionIsMinimalAndFair(
    s: CacheState, incoming: nat, now: int, budget: nat, order: seq<string>, a: nat, b: nat)
    requires Enumerates(order, s.entries.Keys) && a < |order| && b < |order|
    ensures var v := Victims(order, s.entries, incoming, now, budget);
            var target := Target(order, s.entries, incoming, budget);
      && Distinct(v) && (forall k :: k in v ==> k in s.entries)
      && (|v| == |order| || TokensIn(v, s.entries) >= target)
      && (forall n :: 0 <= n < |v| ==> TokensIn(v[..n], s.entries) < target)
      && (order[a] in v && order[b] !in v ==> ScoreAt(order, s.entries, now, a) <= ScoreAt(order, s.entries, now, b))
  {
    hide Score, EvictionOrder, VictimCount, TokensIn;
    var paths := EvictionOrder(order, s.entries, now);
    var target := Target(order, s.entries, incoming, budget);
    EvictionOrderIsOverKeys(order, s.entries, now);
    EvictionOrderIsDistinct(order, s.entries, now);
    EvictionOrderLength(order, s.entries, now);
    var v := Victims(order, s.entries, incoming, now, budget);
    VictimCountIsMinimal(paths, s.entries, 0, target);
    assert forall n :: 0 <= n < |v| ==> v[..n] == paths[..n];
    if order[a] in v && order[b] !in v {
      var i :| 0 <= i < |v| && v[i] == order[a];
      assert order[b] in order && order[b] in paths;
      var j :| 0 <= j < |paths| && paths[j] == order[b];
      assert j >= |v|;
      EvictionOrderAscends(order, s.entries, now, a, b, i, j);
    }
  }

  lemma EvictionOrderLength(order: seq<string>, entries: map<string, CacheEntry>, now: int)
    requires forall k :: k in order ==> k in entries
    ensures |EvictionOrder(order, entries, now)| == |order|
  {
    hide Score;
    assert |Sort(Scored(order, entries, now), LowerScore())| == |Scored(order, entries, now)| == |order|;
  }

  ghost predicate Dominates(x: CacheEntry, y: CacheEntry, now: int) {
    && y.lastAccess < x.lastAccess && y.lastAccess < now
    && x.readCount > y.readCount && x.originalTokens > y.originalTokens
  }

  /** An entry more recent, more frequent and larger than another is never evicted while the
      other stays. */
  lemma DominatingEntryOutlives(
    s: CacheState, incoming: nat, now: int, budget: nat, order: seq<string>, p: string, q: string)
    requires Enumerates(order, s.entries.Keys) && p in s.entries && q in s.entries
    requires Dominates(s.entries[p], s.entries[q], now)
    ensures var kept := EvictStep(s, incoming, now, budget, order).entries;
            q in kept ==> p in kept
  {
    hide Score, Victims;
    assert p in order && q in order;
    var a :| 0 <= a < |order| && order[a] == p;
    var b :| 0 <= b < |order| && order[b] == q;
    EvictionIsMinimalAndFair(s, incoming, now, budget, order, a, b);
    DominatingEntryScoresHigher(EntriesOf(order, s.entries), now, a, b);
  }

  /** What is left after eviction, together with the incoming tokens, fits the budget, unless
      the incoming entry alone exceeds it and nothing is left. */
  lemma EvictionMakesRoom(s: CacheState, incoming: nat, now: int, budget: nat, order: seq<string>)
    requires Enumerates(order, s.entries.Keys)
    ensures var kept := EvictStep(s, incoming, now, budget, order).entries;
            TotalTokens(kept) + incoming <= budget || kept == map[]
  {
    hide Score, Victims, TokensIn, SumOf;
    ListingTotal(order, s.entries);
    var v := Victims(order, s.entries, incoming, now, budget);
    var gone := set k | k in v;
    var kept := EvictStep(s, incoming, now, budget, order).entries;
    if order == [] {
      assert s.entries == map[];
    } else {
      EvictionIsMinimalAndFair(s, incoming, now, budget, order, 0, 0);
      SumOfListing(v, s.entries);
      SumSplits(s.entries.Keys, gone, s.entries);
      assert kept.Keys == s.entries.Keys - gone;
      SumAgrees(kept.Keys, s.entries, kept);
      if |v| == |order| {
        AllListed(v, order);
        assert kept == map[];
      }
    }
  }

  /** Eviction only takes entries away, each with its label. It takes none when everything fits, and
      never one more than it must: with the last one it takes, what is left would not fit. */
  lemma EvictionTakesNoMoreThanNeeded(s: CacheState, incoming: nat, now: int, budget: nat, order: seq<string>)
    requires Enumerates(order, s.entries.Keys)
    ensures var t := EvictStep(s, incoming, now, budget, order);
      && t.entries.Keys <= s.entries.Keys && t.nextRef == s.nextRef && t.stats == s.stats
      && (forall k :: k in t.entries ==> t.entries[k] == s.entries[k])
      && (forall k :: k in t.fileRefs <==> k in s.fileRefs && (k in s.entries ==> k in t.entries))
      && (forall k :: k in t.fileRefs ==> t.fileRefs[k] == s.fileRefs[k])
      && (TotalTokens(s.entries) + incoming <= budget ==> t.entries == s.entries)
      && (t.entries != s.entries ==>
            exists k :: k in s.entries && k !in t.entries
                        && TotalTokens(t.entries) + s.entries[k].originalTokens + incoming > budget)
  {
    hide Score, Victims, TokensIn, SumOf, EvictionOrder;
    var v := Victims(order, s.entries, incoming, now, budget);
    var t := EvictStep(s, incoming, now, budget, order);
    ListingTotal(order, s.entries);
    if order == [] {
      NothingListedNoVictims(s, incoming, now, budget);
    } else {
      EvictionIsMinimalAndFair(s, incoming, now, budget, order, 0, 0);
    }
    if v == [] {
      assert t == s;
    } else {
      LastVictim(s, incoming, budget, order, v);
      assert t.entries == Without(s, v).entries;
    }
  }

  lemma NothingListedNoVictims(s: CacheState, incoming: nat, now: int, budget: nat)
    ensures Victims([], s.entries, incoming, now, budget) == []
  {
    EvictionOrderLength([], s.entries, now);
  }

  lemma LastVictim(s: CacheState, incoming: nat, budget: nat, order: seq<string>, v: seq<string>)
    requires Enumerates(order, s.entries.Keys) && v != [] && Distinct(v) && forall k :: k in v ==> k in s.entries
    requires TokensIn(v[..|v| - 1], s.entries) < Target(order, s.entries, incoming, budget)
    ensures var t, k := Without(s, v), v[|v| - 1];
            && k in s.entries && k !in t.entries
            && TotalTokens(t.entries) + s.entries[k].originalTokens + incoming > budget
            && TotalTokens(s.entries) + incoming > budget
  {
    hide TokensIn, SumOf;
    var init, k := v[..|v| - 1], v[|v| - 1];
    var t := Without(s, v);
    var gone := set p | p in v;
    assert k in v;
    ListingTotal(order, s.entries);
    SumOfListing(init, s.entries);
    SumOfListing(v, s.entries);
    SumSplits(s.entries.Keys, gone, s.entries);
    assert t.entries.Keys == s.entries.Keys - gone;
    SumAgrees(t.entries.Keys, s.entries, t.entries);
    assert v == init + [k] && k !in init;
    assert gone - {k} == set p | p in init;
    SumRemove(gone, s.entries, k);
  }

  /** Distinct elements drawn from a listing as long as themselves are all of it. */
  lemma AllListed(v: seq<string>, order: seq<string>)
    requires Distinct(v) && Distinct(order) && |v| == |order| && forall k :: k in v ==> k in order
    ensures forall k :: k in order ==> k in v
  {
    var a := set k | k in v;
    var b := set k | k in order;
    SizeOfDistinct(v);
    SizeOfDistinct(order);
    assert a <= b;
    SameSizeSubset(a, b);
    forall k | k in order
      ensures k in v
    {
      assert k in b;
    }
  }

  lemma {:induction false} SizeOfDistinct(v: seq<string>)
    requires Distinct(v)
    ensures |(set k | k in v)| == |v|
  {
    if v != [] {
      var rest := v[1..];
      assert forall i :: 0 <= i < |rest| ==> rest[i] == v[i + 1];
      SizeOfDistinct(rest);
      assert (set k | k in v) == (set k | k in rest) + {v[0]};
    }
  }

  lemma SameSizeSubset(a: set<string>, b: set<string>)
    requires a <= b && |a| == |b|
    ensures a == b
  {
    if a != b {
      var x :| x in b && x !in a;
      assert a <= b - {x};
      SubsetIsSmaller(a, b - {x});
    }
  }

  lemma {:induction false} SubsetIsSmaller(a: set<string>, b: set<string>)
    requires a <= b
    ensures |a| <= |b|
    decreases |a|
  {
    if a != {} {
      var x :| x in a;
      SubsetIsSmaller(a - {x}, b - {x});
    }
  }

  /** After storing a new path the cache holds at most the larger of the budget and that entry. */
  lemma StoreKeepsTheBudget(
    s: CacheState, path: string, content: string, now: int, budget: nat, order: seq<string>, m: Meters)
    requires Enumerates(order, s.entries.Keys) && NormalizeToolPath(path) !in s.entries
    ensures var after := StoreStep(s, path, content, now, budget, order, m).1;
            var size := m.countTokens(content);
            TotalTokens(after.entries) <= if size > budget then size else budget
  {
    hide NormalizeToolPath, Victims, SumOf;
    var key, size := NormalizeToolPath(path), m.countTokens(content);
    var kept := EvictStep(s, size, now, budget, order).entries;
    var after := StoreStep(s, path, content, now, budget, order, m).1.entries;
    EvictionMakesRoom(s, size, now, budget, order);
    assert after.Keys == kept.Keys + {key} && after[key].originalTokens == size;
    SumRemove(after.Keys, after, key);
    assert after.Keys - {key} == kept.Keys;
    SumAgrees(kept.Keys, after, kept);
    if kept == map[] { SumOfNothing(kept); }
  }

  lemma SumOfNothing(entries: map<string, CacheEntry>)
    requires entries == map[]
    ensures SumOf(entries.Keys, entries) == 0
  {
  }

  // Runs

  datatype Op =
    | StoreOp(path: string, content: string, now: int, budget: nat, order: seq<string>)
    | HitOp(path: string, now: int)
    | RefOp(path: string)
    | InvalidateOp(path: string)
    | EvictOp(incoming: nat, now: int, budget: nat, order: seq<string>)
    | ClearOp

  /** An operation that iterates over the entries does so in some order of all of them. */
  ghost predicate Applies(s: CacheState, op: Op) {
    match op
    case StoreOp(_, _, _, _, order) => Enumerates(order, s.entries.Keys)
    case EvictOp(_, _, _, order) => Enumerates(order, s.entries.Keys)
    case _ => true
  }

  ghost function Step(s: CacheState, op: Op, m: Meters): CacheState
    requires Applies(s, op)
  {
    match op
    case StoreOp(path, content, now, budget, order) => StoreStep(s, path, content, now, budget, order, m).1
    case HitOp(path, now) => HitStep(s, path, now, m)
    case RefOp(path) => RefStep(s, path)
    case InvalidateOp(path) => s.(entries := s.entries - {NormalizeToolPath(path)})
    case EvictOp(incoming, now, budget, order) => EvictStep(s, incoming, now, budget, order)
    case ClearOp => NEW_CACHE
  }

  ghost predicate Legal(ops: seq<Op>, m: Meters)
    decreases |ops|, 0
  {
    ops == [] || (Legal(ops[..|ops| - 1], m) && Applies(After(ops[..|ops| - 1], m), ops[|ops| - 1]))
  }

  ghost function After(ops: seq<Op>, m: Meters): CacheState
    requires Legal(ops, m)
    decreases |ops|, 1
  {
    if ops == [] then NEW_CACHE else Step(After(ops[..|ops| - 1], m), ops[|ops| - 1], m)
  }

  /** The specification the cache refines: the last content stored at each key. */
  ghost function LastWrites(ops: seq<Op>): map<string, string> {
    if ops == [] then map[]
    else
      var before := LastWrites(ops[..|ops| - 1]);
      match ops[|ops| - 1]
      case StoreOp(path, content, _, _, _) => before[NormalizeToolPath(path) := content]
      case ClearOp => map[]
      case _ => before
  }

  /** The labels issued since the cache was last cleared. */
  ghost function Issued(ops: seq<Op>, m: Meters): seq<string>
    requires Legal(ops, m)
  {
    if ops == [] then []
    else
      var init := ops[..|ops| - 1];
      var s, op := After(init, m), ops[|ops| - 1];
      if op.ClearOp? then []
      else Issued(init, m) + if Step(s, op, m).nextRef > s.nextRef then [Label(s.nextRef)] else []
  }

  predicate LabelIn(fileRef: string, n: nat, next: nat) {
    1 <= n < next && fileRef == Label(n)
  }

  /** An entry's measurements are those of its content. */
  predicate Described(e: CacheEntry, key: string, m: Meters) {
    && e.hash == m.md5(e.content) && e.originalTokens == m.countTokens(e.content)
    && e.lineCount == m.countLines(e.content) && e.path == key && e.readCount >= 1
  }

  /** What every operation keeps, whatever the digest: labels are distinct and below the counter,
      and hits never exceed reads. */
  ghost predicate Tallied(s: CacheState) {
    && s.nextRef >= 1 && s.stats.cacheHits <= s.stats.totalReads
    && (forall k :: k in s.fileRefs ==> exists n :: LabelIn(s.fileRefs[k], n, s.nextRef))
    && (forall k, l :: k in s.fileRefs && l in s.fileRefs && s.fileRefs[k] == s.fileRefs[l] ==> k == l)
  }

  /** What every operation keeps while the digest tells contents apart: a cached content is the
      last one written at its key. */
  ghost predicate Current(s: CacheState, written: map<string, string>, m: Meters) {
    forall k :: k in s.entries ==>
      k in written && s.entries[k].content == written[k] && Described(s.entries[k], k, m)
  }

  /** Two contents that a run stores at one key never share a digest. */
  ghost predicate Distinguishes(m: Meters, ops: seq<Op>) {
    forall i, j :: 0 <= i < |ops| && 0 <= j < |ops| && SameDigest(ops[i], ops[j], m) ==> ops[i].content == ops[j].content
  }

  predicate SameDigest(a: Op, b: Op, m: Meters) {
    && a.StoreOp? && b.StoreOp?
    && NormalizeToolPath(a.path) == NormalizeToolPath(b.path) && m.md5(a.content) == m.md5(b.content)
  }

  lemma LabelsDiffer(a: nat, b: nat)
    ensures Label(a) == Label(b) ==> a == b
  {
    if Label(a) == Label(b) {
      assert Label(a)[1..] == Decimals.Print(a) && Label(b)[1..] == Decimals.Print(b);
      Decimals.PrintIsInjective(a, b);
    }
  }

  lemma NewLabelIsNew(s: CacheState, key: string)
    requires Tallied(s) && key !in s.fileRefs
    ensures Tallied(s.(fileRefs := s.fileRefs[key := Label(s.nextRef)], nextRef := s.nextRef + 1))
  {
    hide Label;
    var t := s.(fileRefs := s.fileRefs[key := Label(s.nextRef)], nextRef := s.nextRef + 1);
    assert LabelIn(t.fileRefs[key], s.nextRef, t.nextRef);
    forall k | k in s.fileRefs
      ensures s.fileRefs[k] != Label(s.nextRef) && exists n :: LabelIn(t.fileRefs[k], n, t.nextRef)
    {
      var n :| LabelIn(s.fileRefs[k], n, s.nextRef);
      LabelsDiffer(n, s.nextRef);
      assert k != key && LabelIn(t.fileRefs[k], n, t.nextRef);
    }
  }

  lemma RefKeepsTallied(s: CacheState, path: string)
    requires Tallied(s)
    ensures Tallied(RefStep(s, path))
    ensures var t := RefStep(s, path);
            t.nextRef == s.nextRef || t.nextRef == s.nextRef + 1
  {
    hide NormalizeToolPath, Tallied, Label;
    if NormalizeToolPath(path) !in s.fileRefs { NewLabelIsNew(s, NormalizeToolPath(path)); }
  }

  lemma WithoutKeepsTallied(s: CacheState, gone: seq<string>)
    requires Tallied(s)
    ensures Tallied(Without(s, gone))
  {
    hide Label;
    var t := Without(s, gone);
    forall k | k in t.fileRefs
      ensures exists n :: LabelIn(t.fileRefs[k], n, t.nextRef)
    {
      assert k in s.fileRefs && t.fileRefs[k] == s.fileRefs[k];
      var n :| LabelIn(s.fileRefs[k], n, s.nextRef);
      assert LabelIn(t.fileRefs[k], n, t.nextRef);
    }
  }

  /** Entries and statistics do not touch the labels. */
  lemma CountingKeepsTallied(s: CacheState, entries: map<string, CacheEntry>, stats: CacheStats)
    requires Tallied(s) && stats.cacheHits <= stats.totalReads
    ensures Tallied(s.(entries := entries, stats := stats))
  {
    hide Label;
  }

  lemma StoreKeepsTallied(s: CacheState, op: Op, m: Meters)
    requires Tallied(s) && op.StoreOp? && Applies(s, op)
    ensures var t := Step(s, op, m);
            Tallied(t) && (t.nextRef == s.nextRef || t.nextRef == s.nextRef + 1)
  {
    hide NormalizeToolPath, Label, Victims, EvictStep, Tallied;
    var key := NormalizeToolPath(op.path);
    var t := Step(s, op, m);
    TalliedMeans(s);
    if key in s.entries {
      CountingKeepsTallied(s, t.entries, t.stats);
    } else {
      var size := m.countTokens(op.content);
      var evicted := EvictStep(s, size, op.now, op.budget, op.order);
      EvictKeepsTallied(s, size, op.now, op.budget, op.order);
      RefKeepsTallied(evicted, key);
      CountingKeepsTallied(RefStep(evicted, key), t.entries, t.stats);
    }
  }

  lemma TalliedMeans(s: CacheState)
    requires Tallied(s)
    ensures s.stats.cacheHits <= s.stats.totalReads && s.nextRef >= 1
  {
  }

  lemma EvictKeepsTallied(s: CacheState, incoming: nat, now: int, budget: nat, order: seq<string>)
    requires Tallied(s) && Enumerates(order, s.entries.Keys)
    ensures var evicted := EvictStep(s, incoming, now, budget, order);
            Tallied(evicted) && evicted.nextRef == s.nextRef
  {
    hide Victims, Tallied;
    WithoutKeepsTallied(s, Victims(order, s.entries, incoming, now, budget));
  }

  lemma StepKeepsTallied(s: CacheState, op: Op, m: Meters)
    requires Tallied(s) && Applies(s, op)
    ensures s.nextRef >= 1 && Tallied(Step(s, op, m)) && Step(s, op, m).nextRef >= 1
    ensures !op.ClearOp? ==> Step(s, op, m).nextRef == s.nextRef || Step(s, op, m).nextRef == s.nextRef + 1
  {
    hide NormalizeToolPath, Label, Victims, HitMessage;
    match op
    case StoreOp(_, _, _, _, _) => StoreKeepsTallied(s, op, m);
    case HitOp(_, _) =>
    case RefOp(path) => RefKeepsTallied(s, path);
    case InvalidateOp(_) =>
    case EvictOp(incoming, now, budget, order) => EvictKeepsTallied(s, incoming, now, budget, order);
    case ClearOp =>
  }

  /** Over every run labels are distinct and are exactly those issued since the last clear, and
      hits never exceed reads. */
  lemma {:induction false} EveryRunIsTallied(ops: seq<Op>, m: Meters)
    requires Legal(ops, m)
    ensures Tallied(After(ops, m))
    ensures After(ops, m).nextRef >= 1 && Issued(ops, m) == Labels(After(ops, m).nextRef - 1)
    decreases |ops|
  {
    hide Step, Tallied, Applies, Label, Labels;
    if ops == [] {
      LabelsGrow(0);
      NewCacheIsTallied();
    } else {
      var init, op := ops[..|ops| - 1], ops[|ops| - 1];
      EveryRunIsTallied(init, m);
      StepKeepsTallied(After(init, m), op, m);
      ClearForgets(After(init, m), op, m);
      LabelsGrow(After(init, m).nextRef - 1);
    }
  }

  /** The first `n` labels. */
  function Labels(n: nat): seq<string> {
    seq(n, i requires 0 <= i < n => Label(i + 1))
  }

  lemma LabelsGrow(n: nat)
    ensures Labels(n + 1) == Labels(n) + [Label(n + 1)] && Labels(0) == []
  {
  }

  lemma NewCacheIsTallied()
    ensures Tallied(NEW_CACHE)
  {
  }

  lemma ClearForgets(s: CacheState, op: Op, m: Meters)
    requires Applies(s, op)
    ensures op.ClearOp? ==> Step(s, op, m) == NEW_CACHE
  {
  }

  /** Between two clears no label is issued twice, not even after eviction or invalidation. */
  lemma LabelsAreNeverReissued(ops: seq<Op>, m: Meters)
    requires Legal(ops, m)
    ensures Distinct(Issued(ops, m))
  {
    hide After, Issued, Label;
    EveryRunIsTallied(ops, m);
    var labels := Issued(ops, m);
    forall i, j | 0 <= i < j < |labels|
      ensures labels[i] != labels[j]
    {
      LabelsDiffer(i + 1, j + 1);
    }
  }

  // Cached contents are the last ones written

  /** Storing a content keeps the cache current, unless it has the digest of another content that
      is cached at its key. */
  lemma StoreKeepsCurrent(s: CacheState, op: Op, written: map<string, string>, m: Meters)
    requires Current(s, written, m) && op.StoreOp? && Applies(s, op)
    requires var key := NormalizeToolPath(op.path);
             key in s.entries && s.entries[key].hash == m.md5(op.content) ==> s.entries[key].content == op.content
    ensures Current(Step(s, op, m), written[NormalizeToolPath(op.path) := op.content], m)
  {
    hide NormalizeToolPath, Label, Victims, HitMessage;
  }

  lemma StepKeepsCurrent(s: CacheState, op: Op, written: map<string, string>, m: Meters)
    requires Current(s, written, m) && Applies(s, op) && !op.StoreOp?
    ensures Current(Step(s, op, m), if op.ClearOp? then map[] else written, m)
  {
    hide NormalizeToolPath, Label, Victims, HitMessage;
  }

  /** What is written at a key was stored there. */
  lemma {:induction false} WrittenWasStored(ops: seq<Op>, key: string) returns (i: nat)
    requires key in LastWrites(ops)
    ensures i < |ops| && ops[i].StoreOp? && NormalizeToolPath(ops[i].path) == key
    ensures ops[i].content == LastWrites(ops)[key]
  {
    hide NormalizeToolPath;
    var n := |ops| - 1;
    if ops[n].StoreOp? && NormalizeToolPath(ops[n].path) == key {
      i := n;
    } else {
      i := WrittenWasStored(ops[..n], key);
    }
  }

  lemma PrefixDistinguishes(m: Meters, ops: seq<Op>, n: nat)
    requires Distinguishes(m, ops) && n <= |ops|
    ensures Distinguishes(m, ops[..n])
  {
    hide SameDigest;
    assert forall i :: 0 <= i < n ==> ops[..n][i] == ops[i];
  }

  lemma CachedDigestIsDistinguished(ops: seq<Op>, s: CacheState, m: Meters)
    requires ops != [] && ops[|ops| - 1].StoreOp? && Distinguishes(m, ops)
    requires Current(s, LastWrites(ops[..|ops| - 1]), m)
    ensures var op := ops[|ops| - 1];
            var key := NormalizeToolPath(op.path);
            key in s.entries && s.entries[key].hash == m.md5(op.content) ==> s.entries[key].content == op.content
  {
    hide NormalizeToolPath, LastWrites;
    var n := |ops| - 1;
    var key := NormalizeToolPath(ops[n].path);
    if key in s.entries && s.entries[key].hash == m.md5(ops[n].content) {
      var i := WrittenWasStored(ops[..n], key);
      assert ops[..n][i] == ops[i];
      assert SameDigest(ops[i], ops[n], m);
    }
  }

  /** Over every run the cache refines the last-write map: what is cached at a key is the last
      content stored there, with its own measurements. */
  lemma {:induction false} EveryRunIsCurrent(ops: seq<Op>, m: Meters)
    requires Legal(ops, m) && Distinguishes(m, ops)
    ensures Current(After(ops, m), LastWrites(ops), m)
    decreases |ops|
  {
    hide Step, Current, Applies, Distinguishes, NormalizeToolPath;
    if ops == [] {
      NewCacheIsCurrent(m);
    } else {
      var n := |ops| - 1;
      PrefixDistinguishes(m, ops, n);
      EveryRunIsCurrent(ops[..n], m);
      if ops[n].StoreOp? {
        CachedDigestIsDistinguished(ops, After(ops[..n], m), m);
        StoreKeepsCurrent(After(ops[..n], m), ops[n], LastWrites(ops[..n]), m);
      } else {
        StepKeepsCurrent(After(ops[..n], m), ops[n], LastWrites(ops[..n]), m);
      }
    }
  }

  lemma NewCacheIsCurrent(m: Meters)
    ensures Current(NEW_CACHE, map[], m)
  {
  }

  // Cached keys have labels

  ghost predicate EveryKeyLabelled(s: CacheState) {
    s.entries.Keys <= s.fileRefs.Keys
  }

  /** Storing a new path leaves its key with a label exactly when normalising the key again would
      change nothing, or the key had a label before; and then no other key loses its own. */
  lemma NewKeyIsLabelledExactlyWhen(
    s: CacheState, path: string, content: string, now: int, budget: nat, order: seq<string>, m: Meters)
    requires Enumerates(order, s.entries.Keys) && NormalizeToolPath(path) !in s.entries
    ensures var key := NormalizeToolPath(path);
            var after := StoreStep(s, path, content, now, budget, order, m).1;
            && (key in after.fileRefs <==> KeyIsSettled(key) || key in s.fileRefs)
            && (EveryKeyLabelled(s) ==> (EveryKeyLabelled(after) <==> KeyIsSettled(key) || key in s.fileRefs))
  {
    hide NormalizeToolPath, Label, VictimCount, EvictionOrder, KeyIsSettled;
    IdempotentExactlyWhen(path);
    EvictionOrderIsOverKeys(order, s.entries, now);
    var victims := Victims(order, s.entries, m.countTokens(content), now, budget);
    assert forall k :: k in victims ==> k in s.entries;
  }

  /** The operation is not a store that leaves its new key without a label. */
  predicate LabelsItsKey(s: CacheState, op: Op) {
    op.StoreOp? ==>
      var key := NormalizeToolPath(op.path);
      key in s.entries || KeyIsSettled(key) || key in s.fileRefs
  }

  lemma StepKeepsKeysLabelledExactlyWhen(s: CacheState, op: Op, m: Meters)
    requires Applies(s, op) && EveryKeyLabelled(s)
    ensures EveryKeyLabelled(Step(s, op, m)) <==> LabelsItsKey(s, op)
  {
    hide NormalizeToolPath, Label, Victims, KeyIsSettled, HitMessage;
    match op
    case StoreOp(path, content, now, budget, order) =>
      if NormalizeToolPath(path) !in s.entries {
        NewKeyIsLabelledExactlyWhen(s, path, content, now, budget, order, m);
      }
    case _ =>
  }

  ghost predicate AlwaysLabelled(ops: seq<Op>, m: Meters)
    requires Legal(ops, m)
  {
    EveryKeyLabelled(After(ops, m)) && (ops != [] ==> AlwaysLabelled(ops[..|ops| - 1], m))
  }

  ghost predicate EveryStoreLabels(ops: seq<Op>, m: Meters)
    requires Legal(ops, m)
  {
    ops == [] ||
    (&& EveryStoreLabels(ops[..|ops| - 1], m)
     && LabelsItsKey(After(ops[..|ops| - 1], m), ops[|ops| - 1]))
  }

  /** Every cached key has a label all through a run, exactly when no store of the run leaves its
      new key without one. */
  lemma {:induction false} KeysAreAlwaysLabelledExactlyWhen(ops: seq<Op>, m: Meters)
    requires Legal(ops, m)
    ensures AlwaysLabelled(ops, m) <==> EveryStoreLabels(ops, m)
    decreases |ops|
  {
    hide Step, Applies, EveryKeyLabelled, LabelsItsKey;
    if ops == [] {
      NewCacheIsLabelled();
    } else {
      var init := ops[..|ops| - 1];
      KeysAreAlwaysLabelledExactlyWhen(init, m);
      if AlwaysLabelled(init, m) {
        assert EveryKeyLabelled(After(init, m));
        StepKeepsKeysLabelledExactlyWhen(After(init, m), ops[|ops| - 1], m);
      }
    }
  }

  lemma NewCacheIsLabelled()
    ensures EveryKeyLabelled(NEW_CACHE)
  {
  }

  /** In particular when normalisation settles every stored path at once. */
  lemma {:induction false} EveryRunKeepsKeysLabelled(ops: seq<Op>, m: Meters)
    requires Legal(ops, m)
    requires forall i :: 0 <= i < |ops| && ops[i].StoreOp? ==> KeyIsSettled(NormalizeToolPath(ops[i].path))
    ensures AlwaysLabelled(ops, m) && EveryKeyLabelled(After(ops, m))
    decreases |ops|
  {
    hide Step, Applies, EveryKeyLabelled, NormalizeToolPath, KeyIsSettled;
    KeysAreAlwaysLabelledExactlyWhen(ops, m);
    if ops != [] {
      EveryRunKeepsKeysLabelled(ops[..|ops| - 1], m);
      KeysAreAlwaysLabelledExactlyWhen(ops[..|ops| - 1], m);
    }
  }

  /** A path with backslashes, stored into a new cache, is cached without a label. */
  lemma AKeyWithoutLabel(content: string, now: int, budget: nat, m: Meters)
    ensures var after := StoreStep(NEW_CACHE, "\\c\\d", content, now, budget, [], m).1;
            "/c/d" in after.entries && "/c/d" !in after.fileRefs
  {
    hide NormalizeToolPath, Label, Victims, KeyIsSettled;
    NotIdempotentEverywhere();
    IdempotentExactlyWhen("\\c\\d");
    NewKeyIsLabelledExactlyWhen(NEW_CACHE, "\\c\\d", content, now, budget, [], m);
  }
}
