/** Term weights over a corpus, and the pairs of files that are similar enough. */
module SemanticDuplicates {
  import opened Sequences
  import opened StableSort
  import opened WordSplitting
  import opened Cosine

  /** How many documents contain `term`. */
  function DocFreq(corpus: seq<string>, term: string): nat {
    if corpus == [] then 0
    else DocFreq(corpus[..|corpus| - 1], term) + if term in Words(corpus[|corpus| - 1]) then 1 else 0
  }

  function Terms(words: seq<string>): set<string> {
    set w | w in words
  }

  function Vocabulary(corpus: seq<string>): set<string> {
    if corpus == [] then {} else Vocabulary(corpus[..|corpus| - 1]) + Terms(Words(corpus[|corpus| - 1]))
  }

  function IdfOf(documents: nat, docFreq: nat, ln: real -> real): real {
    ln(documents as real / (1.0 + docFreq as real)) + 1.0
  }

  /** The inverse document frequency of every term of the corpus. */
  function Idf(corpus: seq<string>, ln: real -> real): Vector {
    map t | t in Vocabulary(corpus) :: IdfOf(|corpus|, DocFreq(corpus, t), ln)
  }

  /** A document's terms, weighted by how often they occur in it and how rare they are. */
  function Weights(doc: string, idf: Vector): Vector {
    var words := Words(doc);
    map t | t in Terms(words) ::
      Product(multiset(words)[t] as real / |words| as real, if t in idf then idf[t] else 1.0)
  }

  ghost predicate CountsDocs(m: map<string, nat>, corpus: seq<string>, words: seq<string>) {
    && m.Keys == Vocabulary(corpus) + Terms(words)
    && forall t :: t in m ==> m[t] == DocFreq(corpus, t) + if t in words then 1 else 0
  }

  lemma {:induction false} UnknownTermIsNowhere(corpus: seq<string>, t: string)
    requires t !in Vocabulary(corpus)
    ensures DocFreq(corpus, t) == 0
  {
    if corpus != [] { UnknownTermIsNowhere(corpus[..|corpus| - 1], t); }
  }

  lemma CountWord(m: map<string, nat>, corpus: seq<string>, words: seq<string>, t: string)
    requires CountsDocs(m, corpus, words)
    ensures CountsDocs(if t in words then m else Bump(m, t), corpus, words + [t])
  {
    if t !in Vocabulary(corpus) { UnknownTermIsNowhere(corpus, t); }
    hide Vocabulary, DocFreq;
    assert Terms(words + [t]) == Terms(words) + {t};
  }

  lemma CloseDoc(m: map<string, nat>, corpus: seq<string>, i: nat)
    requires i < |corpus| && CountsDocs(m, corpus[..i], Words(corpus[i]))
    ensures CountsDocs(m, corpus[..i + 1], [])
  {
    assert corpus[..i + 1][..i] == corpus[..i];
  }

  method ComputeIdf(corpus: seq<string>, ln: real -> real) returns (idf: Vector)
    ensures idf == Idf(corpus, ln)
  {
    if |corpus| == 0 {
      return map[];
    }
    var docFreq: map<string, nat> := map[];
    for i := 0 to |corpus|
      invariant CountsDocs(docFreq, corpus[..i], [])
    {
      docFreq := CountDoc(Words(corpus[i]), docFreq, corpus[..i]);
      CloseDoc(docFreq, corpus, i);
    }
    assert corpus[..|corpus|] == corpus;
    idf := map t | t in docFreq :: IdfOf(|corpus|, docFreq[t], ln);
  }

  method CountDoc(words: seq<string>, df: map<string, nat>, ghost corpus: seq<string>)
    returns (docFreq: map<string, nat>)
    requires CountsDocs(df, corpus, [])
    ensures CountsDocs(docFreq, corpus, words)
  {
    hide CountsDocs;
    docFreq := df;
    var seen: set<string> := {};
    for k := 0 to |words|
      invariant seen == Terms(words[..k])
      invariant CountsDocs(docFreq, corpus, words[..k])
    {
      CountWord(docFreq, corpus, words[..k], words[k]);
      assert words[..k + 1] == words[..k] + [words[k]];
      if words[k] !in seen {
        seen := seen + {words[k]};
        docFreq := Bump(docFreq, words[k]);
      }
    }
    assert words[..|words|] == words;
  }

  ghost predicate CountsTerms(tf: map<string, nat>, words: seq<string>) {
    tf.Keys == Terms(words) && forall t :: t in tf ==> tf[t] == multiset(words)[t]
  }

  lemma CountsNothing()
    ensures CountsTerms(map[], [])
  {
  }

  lemma CountTerm(tf: map<string, nat>, words: seq<string>, k: nat)
    requires k < |words| && CountsTerms(tf, words[..k])
    ensures CountsTerms(Bump(tf, words[k]), words[..k + 1])
  {
    assert words[..k + 1] == words[..k] + [words[k]];
    assert words[k] !in tf ==> multiset(words[..k])[words[k]] == 0;
  }

  method WeightDocument(doc: string, idf: Vector) returns (weights: Vector)
    ensures weights == Weights(doc, idf)
  {
    var words := Words(doc);
    if |words| == 0 {
      return map[];
    }
    var tf: map<string, nat> := map[];
    CountsNothing();
    for k := 0 to |words|
      invariant CountsTerms(tf, words[..k])
    {
      CountTerm(tf, words, k);
      tf := Bump(tf, words[k]);
    }
    assert words[..|words|] == words;
    weights := map t | t in tf :: Product(tf[t] as real / |words| as real, if t in idf then idf[t] else 1.0);
  }

  // The pairs

  datatype Duplicate = Duplicate(first: string, second: string, score: real)

  type Score = (nat, nat) -> real

  /** The scores of any two of `vectors`, `orders` giving each union of terms its iteration order. */
  function Scores(vectors: seq<Vector>, orders: (nat, nat) -> seq<string>, sqrt: real -> real): Score {
    (i: nat, j: nat) =>
      if i < |vectors| && j < |vectors| then Similarity(vectors[i], vectors[j], orders(i, j), sqrt) else 0.0
  }

  /** The pairs (i, k) with i < k < j that reach the threshold. */
  function RowPairs(i: nat, j: nat, score: Score, threshold: real): seq<(nat, nat)> {
    if j <= i + 1 then []
    else RowPairs(i, j - 1, score, threshold) + if score(i, j - 1) >= threshold then [(i, j - 1)] else []
  }

  /** The pairs (k, j) with k < i and k < j < n that reach the threshold. */
  function PairsAbove(i: nat, n: nat, score: Score, threshold: real): seq<(nat, nat)> {
    if i == 0 then [] else PairsAbove(i - 1, n, score, threshold) + RowPairs(i - 1, n, score, threshold)
  }

  predicate InRange(pairs: seq<(nat, nat)>, n: nat) {
    forall p :: p in pairs ==> p.0 < n && p.1 < n
  }

  function Found(files: seq<(string, string)>, pairs: seq<(nat, nat)>, score: Score): seq<Duplicate>
    requires InRange(pairs, |files|)
  {
    seq(|pairs|, k requires 0 <= k < |pairs| =>
      assert pairs[k] in pairs;
      Duplicate(files[pairs[k].0].0, files[pairs[k].1].0, score(pairs[k].0, pairs[k].1)))
  }

  predicate Before(p: (nat, nat), q: (nat, nat)) {
    p.0 < q.0 || (p.0 == q.0 && p.1 < q.1)
  }

  predicate InLoopOrder(pairs: seq<(nat, nat)>) {
    forall a, b :: 0 <= a < b < |pairs| ==> Before(pairs[a], pairs[b])
  }

  lemma {:induction false} RowPairsAre(i: nat, j: nat, score: Score, threshold: real)
    ensures forall p :: p in RowPairs(i, j, score, threshold) <==> p.0 == i < p.1 < j && score(i, p.1) >= threshold
    ensures InLoopOrder(RowPairs(i, j, score, threshold))
  {
    if j > i + 1 {
      RowPairsAre(i, j - 1, score, threshold);
      var r := RowPairs(i, j - 1, score, threshold);
      assert forall a :: 0 <= a < |r| ==> r[a] in r;
    }
  }

  /** The pairs at or above the threshold, each exactly once and in the order of the two loops. */
  lemma {:induction false} PairsAboveAre(i: nat, n: nat, score: Score, threshold: real)
    ensures forall p :: p in PairsAbove(i, n, score, threshold)
                   <==> p.0 < i && p.0 < p.1 < n && score(p.0, p.1) >= threshold
    ensures InLoopOrder(PairsAbove(i, n, score, threshold))
  {
    if i > 0 {
      PairsAboveAre(i - 1, n, score, threshold);
      RowPairsAre(i - 1, n, score, threshold);
      var r, row := PairsAbove(i - 1, n, score, threshold), RowPairs(i - 1, n, score, threshold);
      RowComesLater(r, row, i - 1);
    }
  }

  lemma RowComesLater(r: seq<(nat, nat)>, row: seq<(nat, nat)>, i: nat)
    requires InLoopOrder(r) && InLoopOrder(row)
    requires (forall p :: p in r ==> p.0 < i) && forall p :: p in row ==> p.0 == i
    ensures InLoopOrder(r + row)
  {
    assert forall a :: 0 <= a < |r| ==> r[a] in r;
    assert forall a :: 0 <= a < |row| ==> row[a] in row;
  }

  function MoreSimilar(): (Duplicate, Duplicate) -> bool {
    (a: Duplicate, b: Duplicate) => a.score > b.score
  }

  function Contents(files: seq<(string, string)>): seq<string> {
    seq(|files|, i requires 0 <= i < |files| => files[i].1)
  }

  function Vectors(files: seq<(string, string)>, ln: real -> real): seq<Vector> {
    seq(|files|, i requires 0 <= i < |files| => Weights(files[i].1, Idf(Contents(files), ln)))
  }

  function ScoresOf(files: seq<(string, string)>, orders: (nat, nat) -> seq<string>,
                    ln: real -> real, sqrt: real -> real): Score {
    Scores(Vectors(files, ln), orders, sqrt)
  }

  method FindSemanticDuplicates(files: seq<(string, string)>, threshold: real, orders: (nat, nat) -> seq<string>,
                                ln: real -> real, sqrt: real -> real) returns (duplicates: seq<Duplicate>)
    ensures var n, score := |files|, ScoresOf(files, orders, ln, sqrt);
            && InRange(PairsAbove(n, n, score, threshold), n)
            && duplicates == Sort(Found(files, PairsAbove(n, n, score, threshold), score), MoreSimilar())
  {
    hide Vectors, Similarity, Sort;
    var vectors := WeightAll(files, ln);
    duplicates := ComparePairs(files, threshold, vectors, orders, sqrt);
    duplicates := Sort(duplicates, MoreSimilar());
  }

  method WeightAll(files: seq<(string, string)>, ln: real -> real) returns (vectors: seq<Vector>)
    ensures |vectors| == |files| && vectors == Vectors(files, ln)
  {
    hide Weights, Idf;
    var idf := ComputeIdf(Contents(files), ln);
    vectors := [];
    for i := 0 to |files|
      invariant vectors == Vectors(files, ln)[..i]
    {
      var v := WeightDocument(files[i].1, idf);
      vectors := vectors + [v];
    }
  }

  /** The double loop over the files. */
  method ComparePairs(files: seq<(string, string)>, threshold: real, vectors: seq<Vector>,
                      orders: (nat, nat) -> seq<string>, sqrt: real -> real) returns (duplicates: seq<Duplicate>)
    requires |vectors| == |files|
    ensures var n, score := |files|, Scores(vectors, orders, sqrt);
            && InRange(PairsAbove(n, n, score, threshold), n)
            && duplicates == Found(files, PairsAbove(n, n, score, threshold), score)
  {
    hide Found, Similarity, InRange, Scores, PairsAbove, RowPairs;
    var n := |files|;
    ghost var score := Scores(vectors, orders, sqrt);
    duplicates := [];
    FoundNone(files, score, threshold);
    for i := 0 to n
      invariant InRange(PairsAbove(i, n, score, threshold), n)
      invariant duplicates == Found(files, PairsAbove(i, n, score, threshold), score)
    {
      ghost var past := PairsAbove(i, n, score, threshold);
      RowsFrom(i, n, score, threshold);
      for j := i + 1 to n
        invariant InRange(past + RowPairs(i, j, score, threshold), n)
        invariant duplicates == Found(files, past + RowPairs(i, j, score, threshold), score)
      {
        var sim := CosineFromVectors(vectors[i], vectors[j], orders(i, j), sqrt);
        ScoreOfPair(vectors, orders, sqrt, i, j);
        FoundOne(files, past + RowPairs(i, j, score, threshold), i, j, score);
        RowStep(past, i, j, score, threshold);
        if sim >= threshold {
          duplicates := duplicates + [Duplicate(files[i].0, files[j].0, sim)];
        }
      }
    }
  }

  lemma ScoreOfPair(vectors: seq<Vector>, orders: (nat, nat) -> seq<string>, sqrt: real -> real, i: nat, j: nat)
    requires i < |vectors| && j < |vectors|
    ensures Scores(vectors, orders, sqrt)(i, j) == Similarity(vectors[i], vectors[j], orders(i, j), sqrt)
  {
    hide Similarity;
  }

  lemma RowsFrom(i: nat, n: nat, score: Score, threshold: real)
    ensures PairsAbove(i, n, score, threshold) + RowPairs(i, i + 1, score, threshold)
         == PairsAbove(i, n, score, threshold)
    ensures PairsAbove(i + 1, n, score, threshold)
         == PairsAbove(i, n, score, threshold) + RowPairs(i, n, score, threshold)
  {
  }

  lemma RowStep(past: seq<(nat, nat)>, i: nat, j: nat, score: Score, threshold: real)
    requires i < j
    ensures past + RowPairs(i, j + 1, score, threshold) ==
            if score(i, j) >= threshold then past + RowPairs(i, j, score, threshold) + [(i, j)]
            else past + RowPairs(i, j, score, threshold)
  {
  }

  lemma FoundNone(files: seq<(string, string)>, score: Score, threshold: real)
    ensures PairsAbove(0, |files|, score, threshold) == [] && InRange([], |files|) && Found(files, [], score) == []
  {
  }

  lemma FoundOne(files: seq<(string, string)>, pairs: seq<(nat, nat)>, i: nat, j: nat, score: Score)
    requires InRange(pairs, |files|) && i < |files| && j < |files|
    ensures InRange(pairs + [(i, j)], |files|)
    ensures Found(files, pairs + [(i, j)], score)
         == Found(files, pairs, score) + [Duplicate(files[i].0, files[j].0, score(i, j))]
  {
    assert forall k :: 0 <= k < |pairs| ==> (pairs + [(i, j)])[k] == pairs[k] && pairs[k] in pairs;
  }

  /** All the logarithm has to satisfy: ln(1/2) is about -0.69. */
  ghost predicate LnBounded(ln: real -> real) {
    forall x: real :: x >= 0.5 ==> ln(x) >= -1.0
  }

  lemma {:induction false} DocFreqIsAtMostDocs(corpus: seq<string>, t: string)
    ensures DocFreq(corpus, t) <= |corpus|
  {
    if corpus != [] { DocFreqIsAtMostDocs(corpus[..|corpus| - 1], t); }
  }

  lemma IdfIsNonNegative(documents: nat, docFreq: nat, ln: real -> real)
    requires LnBounded(ln) && docFreq <= documents && documents > 0
    ensures IdfOf(documents, docFreq, ln) >= 0.0
  {
    var n, d := documents as real, 1.0 + docFreq as real;
    assert d <= 2.0 * n;
    assert (n / d) * d == n;
    assert n / d >= 0.5 by { if n / d < 0.5 { Scaled(n / d, 0.5, d); } }
  }

  lemma Scaled(x: real, y: real, d: real)
    requires x < y && d > 0.0
    ensures x * d < y * d
  {
    PositiveProduct(y - x, d);
  }

  /** No weight is negative, whatever the document and the corpus. */
  lemma WeightsAreNonNegative(corpus: seq<string>, doc: string, ln: real -> real)
    requires LnBounded(ln)
    ensures NonNegative(Weights(doc, Idf(corpus, ln)))
  {
    hide Product, IdfOf;
    var weights, idf, words := Weights(doc, Idf(corpus, ln)), Idf(corpus, ln), Words(doc);
    forall t | t in weights
      ensures weights[t] >= 0.0
    {
      if t in idf {
        DocFreqIsAtMostDocs(corpus, t);
        IdfIsNonNegative(|corpus|, DocFreq(corpus, t), ln);
      }
      Ratio(multiset(words)[t], |words|);
      ProductIsNonNegative(multiset(words)[t] as real / |words| as real, if t in idf then idf[t] else 1.0);
    }
  }

  lemma Ratio(m: nat, n: nat)
    requires n > 0
    ensures m as real / n as real >= 0.0
  {
  }

  /** The similarity of two documents over any corpus lies in [0, 1]. */
  lemma DocumentSimilarityIsBounded(corpus: seq<string>, docA: string, docB: string, terms: seq<string>,
                                    ln: real -> real, sqrt: real -> real)
    requires LnBounded(ln) && IsSquareRoot(sqrt)
    ensures var idf := Idf(corpus, ln);
            0.0 <= Similarity(Weights(docA, idf), Weights(docB, idf), terms, sqrt) <= 1.0
  {
    var idf := Idf(corpus, ln);
    WeightsAreNonNegative(corpus, docA, ln);
    WeightsAreNonNegative(corpus, docB, ln);
    SimilarityIsBounded(Weights(docA, idf), Weights(docB, idf), terms, sqrt);
  }

  lemma MoreSimilarIsAnOrder()
    ensures StrictWeakOrder(MoreSimilar())
  {
  }

  predicate Descends(duplicates: seq<Duplicate>) {
    forall i, j :: 0 <= i < j < |duplicates| ==> duplicates[i].score >= duplicates[j].score
  }

  lemma SortedDescends(duplicates: seq<Duplicate>)
    requires Sorted(duplicates, MoreSimilar())
    ensures Descends(duplicates)
  {
    forall i, j | 0 <= i < j < |duplicates|
      ensures duplicates[i].score >= duplicates[j].score
    {
      assert !MoreSimilar()(duplicates[j], duplicates[i]);
    }
  }

  /** What is reported: exactly the pairs at or above the threshold, each once, the most similar
      first, with scores in [0, 1]. */
  lemma DuplicatesAreExact(files: seq<(string, string)>, threshold: real, orders: (nat, nat) -> seq<string>,
                           ln: real -> real, sqrt: real -> real)
    requires LnBounded(ln) && IsSquareRoot(sqrt)
    ensures var n, score := |files|, ScoresOf(files, orders, ln, sqrt);
            var pairs := PairsAbove(n, n, score, threshold);
            && Distinct(pairs)
            && (forall p :: p in pairs <==> p.0 < p.1 < n && score(p.0, p.1) >= threshold)
            && multiset(Sort(Found(files, pairs, score), MoreSimilar())) == multiset(Found(files, pairs, score))
            && Descends(Sort(Found(files, pairs, score), MoreSimilar()))
            && forall p :: p in pairs ==> 0.0 <= score(p.0, p.1) <= 1.0
  {
    hide Similarity, Weights, Idf, PairsAbove, Found, MoreSimilar, Sort, Sorted;
    MoreSimilarIsAnOrder();
    var n, score := |files|, ScoresOf(files, orders, ln, sqrt);
    PairsAboveAre(n, n, score, threshold);
    var pairs := PairsAbove(n, n, score, threshold);
    SortPermutes(Found(files, pairs, score), MoreSimilar());
    SortSorts(Found(files, pairs, score), MoreSimilar());
    SortedDescends(Sort(Found(files, pairs, score), MoreSimilar()));
    forall p | p in pairs
      ensures 0.0 <= score(p.0, p.1) <= 1.0
    {
      DocumentSimilarityIsBounded(Contents(files), files[p.0].1, files[p.1].1, orders(p.0, p.1), ln, sqrt);
    }
  }

  // What a weight is made of

  /** The documents that contain the term. */
  function Containing(corpus: seq<string>, t: string): set<nat> {
    set i: nat | i < |corpus| && t in Words(corpus[i])
  }

  lemma {:induction false} DocFreqCounts(corpus: seq<string>, t: string)
    ensures DocFreq(corpus, t) == |Containing(corpus, t)|
    ensures t in Vocabulary(corpus) <==> Containing(corpus, t) != {}
  {
    hide Words, Containing;
    if corpus == [] {
      NoneContains(t);
    } else {
      DocFreqCounts(corpus[..|corpus| - 1], t);
      OneMoreContains(corpus, t);
    }
  }

  lemma NoneContains(t: string)
    ensures Containing([], t) == {}
  {
  }

  lemma OneMoreContains(corpus: seq<string>, t: string)
    requires corpus != []
    ensures var n := |corpus| - 1;
            && Containing(corpus, t) == Containing(corpus[..n], t) + (if t in Words(corpus[n]) then {n} else {})
            && n !in Containing(corpus[..n], t)
  {
    hide Words;
    var n := |corpus| - 1;
    assert forall i: nat :: i < n ==> corpus[..n][i] == corpus[i];
  }

  /** A document weighs exactly its own terms: how often one occurs among its words, times one more than
      the logarithm of the number of documents over one more than those that contain the term. A term no
      document contains counts as it is. */
  lemma WeightsAre(corpus: seq<string>, doc: string, ln: real -> real, t: string)
    ensures var weights, words, found := Weights(doc, Idf(corpus, ln)), Words(doc), |Containing(corpus, t)|;
            && (t in weights <==> t in words)
            && (t in weights ==>
                  weights[t] == Product(multiset(words)[t] as real / |words| as real,
                                        if found == 0 then 1.0
                                        else ln(|corpus| as real / (1.0 + found as real)) + 1.0))
  {
    hide Words, Product, Containing, DocFreq, Vocabulary;
    DocFreqCounts(corpus, t);
  }
}
