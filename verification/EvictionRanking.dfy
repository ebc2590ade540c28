/** Reciprocal Rank Fusion: cache entries ranked by recency, frequency and size. */
module EvictionRanking {
  import opened Sequences
  import opened StableSort

  datatype CacheEntry = CacheEntry(
    content: string, hash: string, lineCount: nat, originalTokens: nat, readCount: nat, path: string, lastAccess: int)

  const RRF_K: real := 60.0

  /** Time since the last access, zero if the clock says it lies in the future. */
  function Elapsed(e: CacheEntry, now: int): nat {
    if now >= e.lastAccess then now - e.lastAccess else 0
  }

  type IndexOrder = (nat, nat) -> bool

  function KeyAt(keys: seq<int>, i: nat): int {
    if i < |keys| then keys[i] else 0
  }

  /** Indices compared by their keys. */
  function ByKey(keys: seq<int>): IndexOrder {
    (a: nat, b: nat) => KeyAt(keys, a) < KeyAt(keys, b)
  }

  function Negated(n: nat): int {
    -(n as int)
  }

  /** Keys whose ascending order puts the most recent, most frequent or largest entry first. */
  function RecencyKeys(entries: seq<CacheEntry>, now: int): seq<int> {
    seq(|entries|, i requires 0 <= i < |entries| => Elapsed(entries[i], now))
  }

  function FrequencyKeys(entries: seq<CacheEntry>): seq<int> {
    seq(|entries|, i requires 0 <= i < |entries| => Negated(entries[i].readCount))
  }

  function SizeKeys(entries: seq<CacheEntry>): seq<int> {
    seq(|entries|, i requires 0 <= i < |entries| => Negated(entries[i].originalTokens))
  }

  function Upto(n: nat): seq<nat> {
    seq(n, i requires 0 <= i < n => i)
  }

  /** The indices in ascending order of their keys, ties in index order. */
  function Ranking(keys: seq<int>): seq<nat> {
    Sort(Upto(|keys|), ByKey(keys))
  }

  predicate IsPermutation(order: seq<nat>) {
    Distinct(order) && forall i :: 0 <= i < |order| ==> order[i] < |order|
  }

  lemma ByKeyIsAnOrder(keys: seq<int>)
    ensures StrictWeakOrder(ByKey(keys))
  {
  }

  /** A ranking lists every index once, and stably: a smaller key, or the same key and a
      smaller index, comes first. */
  lemma RankingIsStable(keys: seq<int>)
    ensures var order := Ranking(keys);
      && |order| == |keys| && IsPermutation(order)
      && forall r, q :: 0 <= r < q < |order| ==>
           || KeyAt(keys, order[r]) < KeyAt(keys, order[q])
           || (KeyAt(keys, order[r]) == KeyAt(keys, order[q]) && order[r] < order[q])
  {
    var ids, lt, order := Upto(|keys|), ByKey(keys), Ranking(keys);
    var earlier := (a: nat, b: nat) => a < b;
    ByKeyIsAnOrder(keys);
    SortIsStable<nat>(ids, lt, earlier);
    SortKeepsElements<nat>(ids, lt);
    forall r, q | 0 <= r < q < |order|
      ensures || KeyAt(keys, order[r]) < KeyAt(keys, order[q])
              || (KeyAt(keys, order[r]) == KeyAt(keys, order[q]) && order[r] < order[q])
    {
      assert StableBefore<nat>(lt, earlier, order[r], order[q]);
    }
    forall i | 0 <= i < |order|
      ensures order[i] < |order|
    {
      assert order[i] in order;
      assert order[i] in ids;
    }
  }

  /** Where an index stands in a ranking. */
  function Position(order: seq<nat>, i: nat): nat {
    IndexOf(order, i).GetOr(0)
  }

  lemma EveryIndexIsRanked(keys: seq<int>, i: nat)
    requires i < |keys|
    ensures var p := Position(Ranking(keys), i);
            p < |keys| && Ranking(keys)[p] == i
  {
    SortKeepsElements<nat>(Upto(|keys|), ByKey(keys));
    assert Upto(|keys|)[i] == i;
    assert i in Ranking(keys);
  }

  /** A strictly smaller key means a strictly better rank. */
  lemma SmallerKeyRanksBetter(keys: seq<int>, a: nat, b: nat)
    requires a < |keys| && b < |keys| && keys[a] < keys[b]
    ensures Position(Ranking(keys), a) < Position(Ranking(keys), b)
  {
    RankingIsStable(keys);
    EveryIndexIsRanked(keys, a);
    EveryIndexIsRanked(keys, b);
  }

  function Reciprocal(rank: nat): real {
    1.0 / (RRF_K + rank as real)
  }

  lemma ReciprocalDecreases(a: nat, b: nat)
    requires a < b
    ensures Reciprocal(a) > Reciprocal(b) > 0.0
  {
    var x, y := RRF_K + a as real, RRF_K + b as real;
    assert 1.0 / x - 1.0 / y == (y - x) / (x * y);
    assert x * y > 0.0;
    assert (y - x) / (x * y) > 0.0;
  }

  function Score(entries: seq<CacheEntry>, now: int, i: nat): real {
    Reciprocal(Position(Ranking(RecencyKeys(entries, now)), i))
    + Reciprocal(Position(Ranking(FrequencyKeys(entries)), i))
    + Reciprocal(Position(Ranking(SizeKeys(entries)), i))
  }

  /** Strictly more recent, more frequent and larger means a strictly higher score. */
  lemma DominatingEntryScoresHigher(entries: seq<CacheEntry>, now: int, a: nat, b: nat)
    requires a < |entries| && b < |entries|
    requires entries[b].lastAccess < entries[a].lastAccess && entries[b].lastAccess < now
    requires entries[a].readCount > entries[b].readCount
    requires entries[a].originalTokens > entries[b].originalTokens
    ensures Score(entries, now, a) > Score(entries, now, b)
  {
    hide Ranking, Position, Reciprocal;
    SmallerKeyRanksBetter(RecencyKeys(entries, now), a, b);
    SmallerKeyRanksBetter(FrequencyKeys(entries), a, b);
    SmallerKeyRanksBetter(SizeKeys(entries), a, b);
    ReciprocalDecreases(Position(Ranking(RecencyKeys(entries, now)), a), Position(Ranking(RecencyKeys(entries, now)), b));
    ReciprocalDecreases(Position(Ranking(FrequencyKeys(entries)), a), Position(Ranking(FrequencyKeys(entries)), b));
    ReciprocalDecreases(Position(Ranking(SizeKeys(entries)), a), Position(Ranking(SizeKeys(entries)), b));
  }

  // The score, counted

  function Min(a: int, b: int): int {
    if a < b then a else b
  }

  /** Accessed later, times in the future counting as now; of two accessed at once, the earlier listed. */
  predicate MoreRecent(entries: seq<CacheEntry>, now: int, j: nat, i: nat)
    requires i < |entries| && j < |entries|
  {
    var a, b := Min(entries[j].lastAccess, now), Min(entries[i].lastAccess, now);
    a > b || (a == b && j < i)
  }

  predicate MoreFrequent(entries: seq<CacheEntry>, j: nat, i: nat)
    requires i < |entries| && j < |entries|
  {
    entries[j].readCount > entries[i].readCount || (entries[j].readCount == entries[i].readCount && j < i)
  }

  predicate Larger(entries: seq<CacheEntry>, j: nat, i: nat)
    requires i < |entries| && j < |entries|
  {
    || entries[j].originalTokens > entries[i].originalTokens
    || (entries[j].originalTokens == entries[i].originalTokens && j < i)
  }

  predicate Precedes(keys: seq<int>, j: nat, i: nat)
    requires i < |keys| && j < |keys|
  {
    keys[j] < keys[i] || (keys[j] == keys[i] && j < i)
  }

  function Members(s: seq<nat>): set<nat> {
    set x | x in s
  }

  lemma {:induction false} MembersCount(s: seq<nat>)
    requires Distinct(s)
    ensures |Members(s)| == |s|
  {
    if s != [] {
      var init, last := s[..|s| - 1], s[|s| - 1];
      MembersCount(init);
      assert s == init + [last] && last !in init;
      assert Members(s) == Members(init) + {last};
    }
  }

  /** An index's rank is the number of indices that precede it. */
  lemma RankCounts(keys: seq<int>, i: nat)
    requires i < |keys|
    ensures Position(Ranking(keys), i) == |set j: nat | j < |keys| && Precedes(keys, j, i)|
  {
    hide Ranking, Position;
    var order, p := Ranking(keys), Position(Ranking(keys), i);
    RankingIsStable(keys);
    EveryIndexIsRanked(keys, i);
    MembersCount(order[..p]);
    var members := Members(order[..p]);
    forall j: nat
      ensures j in members <==> j < |keys| && Precedes(keys, j, i)
    {
      if j < |keys| && Precedes(keys, j, i) {
        EveryIndexIsRanked(keys, j);
        var q := Position(order, j);
        assert order[q] == j && q < p;
        assert order[..p][q] == j;
      }
    }
    assert members == set j: nat | j < |keys| && Precedes(keys, j, i);
  }

  /** The score counts, for each signal, the entries that come first in it. */
  lemma ScoreCounts(entries: seq<CacheEntry>, now: int, i: nat)
    requires i < |entries|
    ensures Score(entries, now, i)
         == 1.0 / (60.0 + |set j: nat | j < |entries| && MoreRecent(entries, now, j, i)| as real)
            + 1.0 / (60.0 + |set j: nat | j < |entries| && MoreFrequent(entries, j, i)| as real)
            + 1.0 / (60.0 + |set j: nat | j < |entries| && Larger(entries, j, i)| as real)
  {
    hide Ranking, Position;
    var n := |entries|;
    RankCounts(RecencyKeys(entries, now), i);
    RankCounts(FrequencyKeys(entries), i);
    RankCounts(SizeKeys(entries), i);
    KeysCompare(entries, now, i);
    assert (set j: nat | j < n && Precedes(RecencyKeys(entries, now), j, i))
        == set j: nat | j < n && MoreRecent(entries, now, j, i);
    assert (set j: nat | j < n && Precedes(FrequencyKeys(entries), j, i))
        == set j: nat | j < n && MoreFrequent(entries, j, i);
    assert (set j: nat | j < n && Precedes(SizeKeys(entries), j, i))
        == set j: nat | j < n && Larger(entries, j, i);
  }

  lemma KeysCompare(entries: seq<CacheEntry>, now: int, i: nat)
    requires i < |entries|
    ensures forall j: nat :: j < |entries| ==>
      && (Precedes(RecencyKeys(entries, now), j, i) <==> MoreRecent(entries, now, j, i))
      && (Precedes(FrequencyKeys(entries), j, i) <==> MoreFrequent(entries, j, i))
      && (Precedes(SizeKeys(entries), j, i) <==> Larger(entries, j, i))
  {
  }

  /** Invert a ranking: the rank of each index. */
  method FillRanks(order: seq<nat>) returns (ranks: array<nat>)
    requires IsPermutation(order)
    ensures fresh(ranks) && ranks.Length == |order|
    ensures forall r :: 0 <= r < |order| ==> ranks[order[r]] == r
  {
    ranks := new nat[|order|](i => 0);
    for rank := 0 to |order|
      invariant forall r :: 0 <= r < rank ==> ranks[order[r]] == r
    {
      ranks[order[rank]] := rank;
    }
  }

  /** `eviction_scores_rrf`: three rankings, three rank tables, one sum per entry. */
  method EvictionScores(entries: seq<CacheEntry>, now: int) returns (scores: seq<real>)
    ensures |scores| == |entries| && forall i :: 0 <= i < |entries| ==> scores[i] == Score(entries, now, i)
  {
    hide Ranking, Position, Reciprocal, IsPermutation;
    var recency, frequency, size := RecencyKeys(entries, now), FrequencyKeys(entries), SizeKeys(entries);
    RankingIsStable(recency);
    RankingIsStable(frequency);
    RankingIsStable(size);
    var recencyRanks := FillRanks(Ranking(recency));
    var frequencyRanks := FillRanks(Ranking(frequency));
    var sizeRanks := FillRanks(Ranking(size));
    scores := [];
    for i := 0 to |entries|
      modifies {}
      invariant |scores| == i && forall j :: 0 <= j < i ==> scores[j] == Score(entries, now, j)
    {
      EveryIndexIsRanked(recency, i);
      EveryIndexIsRanked(frequency, i);
      EveryIndexIsRanked(size, i);
      scores := scores + [Reciprocal(recencyRanks[i]) + Reciprocal(frequencyRanks[i]) + Reciprocal(sizeRanks[i])];
    }
  }
}
