/** Cosine similarity of term vectors. Numbers are reals; square root and logarithm are parameters,
    constrained only where a result needs it. */
module Cosine {
  import opened Sequences

  /** The machine epsilon of a 64-bit float. */
  const EPSILON: real := 1.0 / 4503599627370496.0

  type Vector = map<string, real>

  ghost predicate IsSquareRoot(sqrt: real -> real) {
    forall x: real :: x >= 0.0 ==> sqrt(x) >= 0.0 && sqrt(x) * sqrt(x) == x
  }

  function At(v: Vector, term: string): real {
    if term in v then v[term] else 0.0
  }

  function Product(x: real, y: real): real {
    x * y
  }

  function Dot(a: Vector, b: Vector, terms: seq<string>): real {
    if terms == [] then 0.0
    else
      var n := |terms| - 1;
      Dot(a, b, terms[..n]) + Product(At(a, terms[n]), At(b, terms[n]))
  }

  /** `terms` lists the terms of `a` and of `b`, each once. */
  ghost predicate ListsTerms(terms: seq<string>, a: Vector, b: Vector) {
    Distinct(terms) && forall t :: t in terms <==> t in a || t in b
  }

  function Score(dot: real, magA: real, magB: real, sqrt: real -> real): real {
    var magnitude := sqrt(Product(magA, magB));
    if magnitude < EPSILON then 0.0 else dot / magnitude
  }

  function Similarity(a: Vector, b: Vector, terms: seq<string>, sqrt: real -> real): real {
    if terms == [] then 0.0 else Score(Dot(a, b, terms), Dot(a, a, terms), Dot(b, b, terms), sqrt)
  }

  method CosineFromVectors(a: Vector, b: Vector, terms: seq<string>, sqrt: real -> real) returns (score: real)
    ensures score == Similarity(a, b, terms, sqrt)
  {
    if terms == [] {
      return 0.0;
    }
    hide Product;
    var dot, magA, magB := 0.0, 0.0, 0.0;
    for k := 0 to |terms|
      invariant dot == Dot(a, b, terms[..k])
      invariant magA == Dot(a, a, terms[..k])
      invariant magB == Dot(b, b, terms[..k])
    {
      assert terms[..k + 1][..k] == terms[..k];
      var va, vb := At(a, terms[k]), At(b, terms[k]);
      dot := dot + Product(va, vb);
      magA := magA + Product(va, va);
      magB := magB + Product(vb, vb);
    }
    assert terms[..|terms|] == terms;
    var magnitude := sqrt(Product(magA, magB));
    if magnitude < EPSILON {
      return 0.0;
    }
    score := dot / magnitude;
  }

  // The Cauchy-Schwarz inequality

  lemma ProductIsNonNegative(x: real, y: real)
    requires (x >= 0.0 && y >= 0.0) || x == y
    ensures Product(x, y) >= 0.0
  {
  }

  lemma {:induction false} MagnitudeIsNonNegative(a: Vector, terms: seq<string>)
    ensures Dot(a, a, terms) >= 0.0
  {
    hide Product;
    if terms != [] {
      MagnitudeIsNonNegative(a, terms[..|terms| - 1]);
      ProductIsNonNegative(At(a, terms[|terms| - 1]), At(a, terms[|terms| - 1]));
    }
  }

  /** The squared magnitude of `a - t b`, given those of `a` and `b` and their dot product. */
  function DifferenceMagnitude(magA: real, dot: real, magB: real, t: real): real {
    magA - 2.0 * (t * dot) + t * t * magB
  }

  lemma DifferenceGrows(magA: real, dot: real, magB: real, x: real, y: real, t: real)
    ensures DifferenceMagnitude(magA + Product(x, x), dot + Product(x, y), magB + Product(y, y), t)
         >= DifferenceMagnitude(magA, dot, magB, t)
  {
    var d := x - t * y;
    ProductIsNonNegative(d, d);
    assert d * d == x * x - 2.0 * (t * (x * y)) + t * t * (y * y);
    assert t * (dot + x * y) == t * dot + t * (x * y);
    assert t * t * (magB + y * y) == t * t * magB + t * t * (y * y);
  }

  lemma {:induction false} DifferenceIsNonNegative(a: Vector, b: Vector, terms: seq<string>, t: real)
    ensures DifferenceMagnitude(Dot(a, a, terms), Dot(a, b, terms), Dot(b, b, terms), t) >= 0.0
  {
    if terms == [] {
      NothingDiffers(t);
    } else {
      hide Product, DifferenceMagnitude;
      var past, x, y := terms[..|terms| - 1], At(a, terms[|terms| - 1]), At(b, terms[|terms| - 1]);
      DifferenceIsNonNegative(a, b, past, t);
      DifferenceGrows(Dot(a, a, past), Dot(a, b, past), Dot(b, b, past), x, y, t);
    }
  }

  lemma NothingDiffers(t: real)
    ensures DifferenceMagnitude(0.0, 0.0, 0.0, t) == 0.0
  {
  }

  /** The dot product squared is at most the product of the squared magnitudes. */
  lemma CauchySchwarz(a: Vector, b: Vector, terms: seq<string>)
    ensures var dot := Dot(a, b, terms); Product(dot, dot) <= Product(Dot(a, a, terms), Dot(b, b, terms))
  {
    hide Product, DifferenceMagnitude, Dot;
    var dot, magA, magB := Dot(a, b, terms), Dot(a, a, terms), Dot(b, b, terms);
    MagnitudeIsNonNegative(a, terms);
    MagnitudeIsNonNegative(b, terms);
    if magB > 0.0 {
      DifferenceIsNonNegative(a, b, terms, dot / magB);
      ClearDenominator(magA, dot, magB);
    } else {
      ZeroProducts(magA);
      if dot != 0.0 {
        DifferenceIsNonNegative(a, b, terms, (magA + 1.0) / (2.0 * dot));
        SomeDifferenceIsNegative(magA, dot);
      }
    }
  }

  lemma ClearDenominator(magA: real, dot: real, magB: real)
    requires magB > 0.0 && DifferenceMagnitude(magA, dot, magB, dot / magB) >= 0.0
    ensures Product(dot, dot) <= Product(magA, magB)
  {
    var t := dot / magB;
    assert t * magB == dot;
    assert t * t * magB == t * dot by { assert t * (t * magB) == t * t * magB; }
    ProductIsNonNegative(magA - t * dot, magB);
    assert (magA - t * dot) * magB == magA * magB - t * dot * magB;
    assert t * dot * magB == (t * magB) * dot;
  }

  lemma SomeDifferenceIsNegative(magA: real, dot: real)
    requires magA >= 0.0 && dot != 0.0
    ensures DifferenceMagnitude(magA, dot, 0.0, (magA + 1.0) / (2.0 * dot)) < 0.0
  {
    var t := (magA + 1.0) / (2.0 * dot);
    assert t * (2.0 * dot) == magA + 1.0;
  }

  lemma ZeroProducts(magA: real)
    ensures Product(0.0, 0.0) <= Product(magA, 0.0)
  {
  }

  lemma LargerSquare(x: real, m: real)
    requires x > m >= 0.0
    ensures Product(x, x) > Product(m, m)
  {
    var d := x - m;
    PositiveProduct(d, d);
    ProductIsNonNegative(d, m);
    assert Product(x, x) == Product(m, m) + 2.0 * (d * m) + d * d;
  }

  lemma PositiveProduct(x: real, y: real)
    requires x > 0.0 && y > 0.0
    ensures x * y > 0.0
  {
  }

  lemma OppositeSquare(x: real)
    ensures Product(-x, -x) == Product(x, x)
  {
    assert (-x) * (-x) == x * x;
  }

  lemma SmallerSquare(x: real, m: real)
    requires m > 0.0 && Product(x, x) <= Product(m, m)
    ensures -m <= x <= m
  {
    hide Product;
    assert Product(-x, -x) == Product(x, x) by { OppositeSquare(x); }
    if x > m { LargerSquare(x, m); }
    if -x > m { LargerSquare(-x, m); }
  }

  /** The score of any two vectors lies in [-1, 1], and in [0, 1] when no weight is negative. */
  lemma SimilarityIsBounded(a: Vector, b: Vector, terms: seq<string>, sqrt: real -> real)
    requires IsSquareRoot(sqrt)
    ensures -1.0 <= Similarity(a, b, terms, sqrt) <= 1.0
    ensures NonNegative(a) && NonNegative(b) ==> Similarity(a, b, terms, sqrt) >= 0.0
  {
    hide Dot, Score, Product;
    var dot, magA, magB := Dot(a, b, terms), Dot(a, a, terms), Dot(b, b, terms);
    CauchySchwarz(a, b, terms);
    MagnitudeIsNonNegative(a, terms);
    MagnitudeIsNonNegative(b, terms);
    if NonNegative(a) && NonNegative(b) { DotIsNonNegative(a, b, terms); }
    ScoreIsBounded(dot, magA, magB, sqrt);
  }

  lemma ScoreIsBounded(dot: real, magA: real, magB: real, sqrt: real -> real)
    requires IsSquareRoot(sqrt)
    requires magA >= 0.0 && magB >= 0.0 && Product(dot, dot) <= Product(magA, magB)
    ensures -1.0 <= Score(dot, magA, magB, sqrt) <= 1.0
    ensures dot >= 0.0 ==> Score(dot, magA, magB, sqrt) >= 0.0
  {
    ProductIsNonNegative(magA, magB);
    var magnitude := sqrt(Product(magA, magB));
    assert Product(magnitude, magnitude) == Product(magA, magB);
    hide Product;
    if magnitude >= EPSILON {
      SmallerSquare(dot, magnitude);
      DivideBounds(dot, magnitude);
    }
  }

  lemma DivideBounds(x: real, m: real)
    requires m > 0.0 && -m <= x <= m
    ensures -1.0 <= x / m <= 1.0 && (x >= 0.0 ==> x / m >= 0.0)
  {
    assert (x / m) * m == x;
  }

  predicate NonNegative(v: Vector) {
    forall t :: t in v ==> v[t] >= 0.0
  }

  lemma {:induction false} DotIsNonNegative(a: Vector, b: Vector, terms: seq<string>)
    requires NonNegative(a) && NonNegative(b)
    ensures Dot(a, b, terms) >= 0.0
  {
    hide Product;
    if terms != [] {
      DotIsNonNegative(a, b, terms[..|terms| - 1]);
      ProductIsNonNegative(At(a, terms[|terms| - 1]), At(b, terms[|terms| - 1]));
    }
  }

  // Symmetry, whatever order the hash sets are iterated in

  lemma {:induction false} DotWithout(a: Vector, b: Vector, terms: seq<string>, k: nat)
    requires k < |terms|
    ensures Dot(a, b, terms) == Dot(a, b, terms[..k] + terms[k + 1..]) + Product(At(a, terms[k]), At(b, terms[k]))
  {
    hide Product;
    var n := |terms| - 1;
    if k == n {
      assert terms[..k] + terms[k + 1..] == terms[..n];
    } else {
      var rest := terms[..k] + terms[k + 1..];
      DotWithout(a, b, terms[..n], k);
      assert rest[..n - 1] == terms[..n][..k] + terms[..n][k + 1..];
      assert rest[n - 1] == terms[n];
    }
  }

  lemma {:induction false} DotIgnoresOrder(a: Vector, b: Vector, s: seq<string>, t: seq<string>)
    requires Distinct(s) && Distinct(t) && forall w :: w in s <==> w in t
    ensures Dot(a, b, s) == Dot(a, b, t)
    decreases |s|
  {
    hide Product, Dot, At, Distinct;
    assert |t| > 0 ==> t[0] in t;
    if s != [] {
      var n := |s| - 1;
      assert s[n] in s;
      var k :| 0 <= k < |t| && t[k] == s[n];
      var rest := t[..k] + t[k + 1..];
      DotWithout(a, b, t, k);
      WithoutElement(t, k);
      WithoutElement(s, n);
      DotWithout(a, b, s, n);
      assert s[..n] + s[n + 1..] == s[..n];
      DotIgnoresOrder(a, b, s[..n], rest);
    }
  }

  lemma WithoutElement(s: seq<string>, k: nat)
    requires Distinct(s) && k < |s|
    ensures var rest := s[..k] + s[k + 1..];
            Distinct(rest) && forall w :: w in rest <==> w in s && w != s[k]
  {
    var rest := s[..k] + s[k + 1..];
    assert forall i :: 0 <= i < |rest| ==> rest[i] == s[if i < k then i else i + 1];
    forall w | w in s && w != s[k]
      ensures w in rest
    {
      var i :| 0 <= i < |s| && s[i] == w;
      assert rest[if i < k then i else i - 1] == w;
    }
  }

  lemma {:induction false} DotIsSymmetric(a: Vector, b: Vector, terms: seq<string>)
    ensures Dot(a, b, terms) == Dot(b, a, terms)
  {
    if terms != [] {
      var x, y := At(a, terms[|terms| - 1]), At(b, terms[|terms| - 1]);
      assert Product(x, y) == Product(y, x);
      hide Product;
      DotIsSymmetric(a, b, terms[..|terms| - 1]);
    }
  }

  /** The score does not depend on the iteration order, nor on which vector comes first. */
  lemma SimilarityIsSymmetric(a: Vector, b: Vector, s: seq<string>, t: seq<string>, sqrt: real -> real)
    requires ListsTerms(s, a, b) && ListsTerms(t, b, a)
    ensures Similarity(a, b, s, sqrt) == Similarity(b, a, t, sqrt)
    ensures Similarity(a, b, s, sqrt) == Similarity(a, b, t, sqrt)
  {
    assert Product(Dot(a, a, t), Dot(b, b, t)) == Product(Dot(b, b, t), Dot(a, a, t));
    hide Dot, Product;
    DotIgnoresOrder(a, b, s, t);
    DotIgnoresOrder(a, a, s, t);
    DotIgnoresOrder(b, b, s, t);
    DotIsSymmetric(a, b, t);
    assert |s| > 0 ==> s[0] in s;
    assert |t| > 0 ==> t[0] in t;
  }

  /** A vector is wholly similar to itself, unless its magnitude is negligible. */
  lemma SelfSimilarity(a: Vector, terms: seq<string>, sqrt: real -> real)
    requires IsSquareRoot(sqrt)
    ensures Similarity(a, a, terms, sqrt) == if Dot(a, a, terms) < EPSILON then 0.0 else 1.0
  {
    hide Dot, Product;
    var mag := Dot(a, a, terms);
    MagnitudeIsNonNegative(a, terms);
    EmptyDot(a);
    RootOfSquare(mag, sqrt);
  }

  lemma RootOfSquare(x: real, sqrt: real -> real)
    requires IsSquareRoot(sqrt) && x >= 0.0
    ensures sqrt(Product(x, x)) == x
  {
    ProductIsNonNegative(x, x);
    var root := sqrt(Product(x, x));
    assert Product(root, root) == Product(x, x);
    hide Product;
    SameSquare(root, x);
  }

  lemma EmptyDot(a: Vector)
    ensures Dot(a, a, []) == 0.0
  {
  }

  lemma SameSquare(x: real, y: real)
    requires x >= 0.0 && y >= 0.0 && Product(x, x) == Product(y, y)
    ensures x == y
  {
    hide Product;
    if x > y { LargerSquare(x, y); }
    if y > x { LargerSquare(y, x); }
  }

  /** Vectors without a common term are not similar at all. */
  lemma {:induction false} DisjointVectors(a: Vector, b: Vector, terms: seq<string>, sqrt: real -> real)
    requires a.Keys !! b.Keys
    ensures Dot(a, b, terms) == 0.0 && Similarity(a, b, terms, sqrt) == 0.0
  {
    if terms != [] {
      DisjointVectors(a, b, terms[..|terms| - 1], sqrt);
      var w := terms[|terms| - 1];
      assert w in a.Keys ==> w !in b.Keys;
    }
  }

  /** The score is the cosine: times the product of the two lengths it is the dot product. */
  lemma ScoreIsTheCosine(a: Vector, b: Vector, terms: seq<string>, sqrt: real -> real)
    requires IsSquareRoot(sqrt)
    ensures var lengths := Product(sqrt(Dot(a, a, terms)), sqrt(Dot(b, b, terms)));
            if lengths < EPSILON then Similarity(a, b, terms, sqrt) == 0.0
            else Product(Similarity(a, b, terms, sqrt), lengths) == Dot(a, b, terms)
  {
    hide Dot, Product;
    var magA, magB := Dot(a, a, terms), Dot(b, b, terms);
    MagnitudeIsNonNegative(a, terms);
    MagnitudeIsNonNegative(b, terms);
    RootOfProduct(magA, magB, sqrt);
    var dot, lengths := Dot(a, b, terms), Product(sqrt(magA), sqrt(magB));
    if terms == [] {
      NoTermsNoScore(a, b, lengths);
    } else if lengths >= EPSILON {
      assert Similarity(a, b, terms, sqrt) == dot / lengths;
      QuotientTimes(dot, lengths);
    }
  }

  lemma NoTermsNoScore(a: Vector, b: Vector, lengths: real)
    ensures Dot(a, b, []) == 0.0 && Product(0.0, lengths) == 0.0
  {
  }

  lemma QuotientTimes(x: real, y: real)
    requires y > 0.0
    ensures Product(x / y, y) == x
  {
  }

  lemma RootOfProduct(x: real, y: real, sqrt: real -> real)
    requires IsSquareRoot(sqrt) && x >= 0.0 && y >= 0.0
    ensures sqrt(Product(x, y)) == Product(sqrt(x), sqrt(y))
  {
    ProductIsNonNegative(x, y);
    var p, q := sqrt(x), sqrt(y);
    ProductIsNonNegative(p, q);
    SquareOfProduct(p, q);
    hide Product;
    SameSquare(sqrt(Product(x, y)), Product(p, q));
  }

  lemma SquareOfProduct(p: real, q: real)
    ensures Product(Product(p, q), Product(p, q)) == Product(Product(p, p), Product(q, q))
  {
    assert (p * q) * (p * q) == (p * p) * (q * q);
  }
}
