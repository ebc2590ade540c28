/** What the session cache reports to its callers, over every run. */
module SessionCacheReports {
  import opened ToolPaths
  import opened SessionCaches
  import opened SessionCacheLaws

  /** A read of the file: a store, or a hit recorded without one. */
  predicate ReadsAt(op: Op, key: string) {
    (op.StoreOp? || op.HitOp?) && NormalizeToolPath(op.path) == key
  }

  /** How often the file has been read since its entry was created. */
  ghost function ReadsSinceCached(ops: seq<Op>, m: Meters, key: string): nat
    requires Legal(ops, m)
    decreases |ops|
  {
    if ops == [] || key !in After(ops, m).entries then 0
    else
      var init := ops[..|ops| - 1];
      (if key in After(init, m).entries then ReadsSinceCached(init, m, key) else 0)
      + if ReadsAt(ops[|ops| - 1], key) then 1 else 0
  }

  lemma StepCountsReads(s: CacheState, op: Op, m: Meters, key: string)
    requires Applies(s, op)
    ensures var t := Step(s, op, m);
            key in t.entries ==>
              t.entries[key].readCount
              == (if key in s.entries then s.entries[key].readCount else 0) + if ReadsAt(op, key) then 1 else 0
  {
    hide NormalizeToolPath, Victims, HitMessage, Label, Enumerates;
  }

  lemma {:induction false} ReadCountIs(ops: seq<Op>, m: Meters, key: string)
    requires Legal(ops, m)
    ensures key in After(ops, m).entries ==> After(ops, m).entries[key].readCount == ReadsSinceCached(ops, m, key)
    decreases |ops|
  {
    hide Step, ReadsAt, Applies;
    if ops != [] {
      var init := ops[..|ops| - 1];
      ReadCountIs(init, m, key);
      StepCountsReads(After(init, m), ops[|ops| - 1], m, key);
    }
  }

  /** The path is cached and what was stored there last is this very content. */
  ghost predicate HasContent(ops: seq<Op>, m: Meters, key: string, content: string)
    requires Legal(ops, m)
  {
    key in After(ops, m).entries && key in LastWrites(ops) && LastWrites(ops)[key] == content
  }

  /** The answer to a store: a hit if and only if that content is what is cached, the measurements of the
      content stored, and one read more than before. */
  lemma StoreAnswers(ops: seq<Op>, op: Op, m: Meters)
    requires Legal(ops, m) && op.StoreOp? && Applies(After(ops, m), op) && Distinguishes(m, ops + [op])
    ensures var r := StoreStep(After(ops, m), op.path, op.content, op.now, op.budget, op.order, m).0;
            var key := NormalizeToolPath(op.path);
            && (r.wasHit <==> HasContent(ops, m, key, op.content))
            && r.lineCount == m.countLines(op.content) && r.originalTokens == m.countTokens(op.content)
            && r.readCount == (if key in After(ops, m).entries then ReadsSinceCached(ops, m, key) else 0) + 1
  {
    hide NormalizeToolPath, EvictStep, RefStep, HitMessage, After, LastWrites, Distinguishes, Applies;
    var key := NormalizeToolPath(op.path);
    var all := ops + [op];
    assert all[..|all| - 1] == ops;
    PrefixDistinguishes(m, all, |ops|);
    EveryRunIsCurrent(ops, m);
    CachedDigestIsDistinguished(all, After(ops, m), m);
    ReadCountIs(ops, m, key);
    AppliesMeans(After(ops, m), op);
  }

  lemma AppliesMeans(s: CacheState, op: Op)
    ensures op.StoreOp? && Applies(s, op) ==> Enumerates(op.order, s.entries.Keys)
  {
  }

  // What is cached

  /** A store leaves its path cached; whatever else was cached stays as it was, except for what is evicted
      to make room for a new path. */
  lemma StoreCaches(s: CacheState, op: Op, m: Meters)
    requires op.StoreOp? && Applies(s, op)
    ensures var t, key := Step(s, op, m), NormalizeToolPath(op.path);
            && key in t.entries && t.entries[key].lastAccess == op.now && t.entries[key].path == (
                 if key in s.entries then s.entries[key].path else key)
            && forall k :: k != key ==>
                 && (k in t.entries <==>
                       && k in s.entries
                       && (key in s.entries
                           || k in EvictStep(s, m.countTokens(op.content), op.now, op.budget, op.order).entries))
                 && (k in t.entries ==> t.entries[k] == s.entries[k])
  {
    hide NormalizeToolPath, Victims, HitMessage, Label, Enumerates;
  }

  /** A recorded hit changes one entry's count and time, an invalidation takes one entry away, and a label
      is issued without touching any. */
  lemma OthersStay(s: CacheState, op: Op, m: Meters)
    requires op.HitOp? || op.InvalidateOp? || op.RefOp?
    ensures Applies(s, op)
    ensures var t, key := Step(s, op, m), NormalizeToolPath(op.path);
            && (key in t.entries <==> key in s.entries && !op.InvalidateOp?)
            && (op.HitOp? && key in s.entries ==>
                  t.entries[key] == s.entries[key].(readCount := s.entries[key].readCount + 1, lastAccess := op.now))
            && (op.RefOp? ==> t.entries == s.entries)
            && forall k :: k != key ==> (k in t.entries <==> k in s.entries) && (k in t.entries ==> t.entries[k] == s.entries[k])
  {
    hide NormalizeToolPath, HitMessage, Label;
  }

  // The accounts

  /** What a hit sends instead of the content. */
  function Notice(fileRef: string, times: nat, lines: nat): string {
    fileRef + " cached " + Decimals.Print(times) + "t " + Decimals.Print(lines) + "L"
  }

  function LabelFor(s: CacheState, key: string): string {
    if key in s.fileRefs then s.fileRefs[key] else "F?"
  }

  /** One read: how many tokens the content has, how many are sent, and whether they differ because of a
      hit. */
  function Entered(stats: CacheStats, tokens: nat, sent: nat, hit: bool, created: bool): CacheStats {
    CacheStats(stats.totalReads + 1, stats.cacheHits + (if hit then 1 else 0), stats.totalOriginalTokens + tokens,
               stats.totalSentTokens + sent, stats.filesTracked + if created then 1 else 0)
  }

  /** The statistics, kept from the reads alone: a content that is cached is answered with a notice, any
      other is sent. */
  ghost function Ledger(ops: seq<Op>, m: Meters): CacheStats
    requires Legal(ops, m)
    decreases |ops|
  {
    if ops == [] then NO_STATS
    else
      var n := |ops| - 1;
      var init, op := ops[..n], ops[n];
      var s := After(init, m);
      if op.ClearOp? then NO_STATS
      else if op.StoreOp? then
        var key := NormalizeToolPath(op.path);
        var tokens, hit := m.countTokens(op.content), HasContent(init, m, key, op.content);
        var notice := Notice(LabelFor(s, key), ReadsSinceCached(init, m, key) + 1, m.countLines(op.content));
        Entered(Ledger(init, m), tokens, if hit then m.countTokens(notice) else tokens, hit, key !in s.entries)
      else if op.HitOp? && NormalizeToolPath(op.path) in s.entries then
        var key := NormalizeToolPath(op.path);
        var content := if key in LastWrites(init) then LastWrites(init)[key] else "";
        var notice := Notice(LabelFor(s, key), ReadsSinceCached(init, m, key) + 1, m.countLines(content));
        Entered(Ledger(init, m), m.countTokens(content), m.countTokens(notice), true, false)
      else Ledger(init, m)
  }

  lemma EvictionKeepsStats(s: CacheState, incoming: nat, now: int, budget: nat, order: seq<string>, key: string)
    requires Enumerates(order, s.entries.Keys)
    ensures EvictStep(s, incoming, now, budget, order).stats == s.stats
    ensures RefStep(s, key).stats == s.stats
  {
    hide Victims, NormalizeToolPath;
  }

  lemma StoreEnters(s: CacheState, op: Op, m: Meters)
    requires op.StoreOp? && Applies(s, op)
    ensures var key := NormalizeToolPath(op.path);
            var tokens := m.countTokens(op.content);
            Step(s, op, m).stats ==
            if key in s.entries && s.entries[key].hash == m.md5(op.content)
            then Entered(s.stats, tokens,
                         m.countTokens(Notice(LabelFor(s, key), s.entries[key].readCount + 1, s.entries[key].lineCount)),
                         true, false)
            else Entered(s.stats, tokens, tokens, false, key !in s.entries)
  {
    hide NormalizeToolPath, EvictStep, RefStep, Label, Enumerates;
    var key, tokens := NormalizeToolPath(op.path), m.countTokens(op.content);
    AppliesMeans(s, op);
    if key !in s.entries {
      EvictionKeepsStats(s, tokens, op.now, op.budget, op.order, key);
      RefKeepsStats(EvictStep(s, tokens, op.now, op.budget, op.order), key);
    }
  }

  lemma RefKeepsStats(s: CacheState, key: string)
    ensures RefStep(s, key).stats == s.stats
  {
    hide NormalizeToolPath;
  }

  lemma OtherOpsEnter(s: CacheState, op: Op, m: Meters)
    requires !op.StoreOp? && Applies(s, op)
    ensures var stats := Step(s, op, m).stats;
            if op.ClearOp? then stats == NO_STATS
            else if op.HitOp? && NormalizeToolPath(op.path) in s.entries then
              var key := NormalizeToolPath(op.path);
              var e := s.entries[key];
              stats == Entered(s.stats, e.originalTokens,
                               m.countTokens(Notice(LabelFor(s, key), e.readCount + 1, e.lineCount)), true, false)
            else stats == s.stats
  {
    hide NormalizeToolPath, Victims, Label;
  }

  /** Over every run the statistics are those of the ledger. */
  lemma {:induction false} EveryRunIsAccounted(ops: seq<Op>, m: Meters)
    requires Legal(ops, m) && Distinguishes(m, ops)
    ensures After(ops, m).stats == Ledger(ops, m)
    decreases |ops|
  {
    hide Step, NormalizeToolPath, Applies, Distinguishes, Notice, Entered, ReadsSinceCached, LastWrites;
    if ops != [] {
      var n := |ops| - 1;
      var init, op := ops[..n], ops[n];
      var s := After(init, m);
      PrefixDistinguishes(m, ops, n);
      EveryRunIsAccounted(init, m);
      EveryRunIsCurrent(init, m);
      if op.StoreOp? {
        CachedDigestIsDistinguished(ops, s, m);
        ReadCountIs(init, m, NormalizeToolPath(op.path));
        StoreEnters(s, op, m);
      } else {
        if op.HitOp? { ReadCountIs(init, m, NormalizeToolPath(op.path)); }
        OtherOpsEnter(s, op, m);
      }
    }
  }

  // Labels

  predicate IsNumbered(fileRef: string, n: nat) {
    fileRef == "F" + Decimals.Print(n)
  }

  /** Labels are an F and a number from one on, below the next to be given. */
  lemma LabelsAreNumbered(ops: seq<Op>, m: Meters, key: string)
    requires Legal(ops, m) && key in After(ops, m).fileRefs
    ensures exists n :: 1 <= n < After(ops, m).nextRef && IsNumbered(After(ops, m).fileRefs[key], n)
  {
    hide After;
    var s := After(ops, m);
    EveryRunIsTallied(ops, m);
    var n :| LabelIn(s.fileRefs[key], n, s.nextRef);
    assert IsNumbered(s.fileRefs[key], n);
  }
}
