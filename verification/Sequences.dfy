/** Outcomes shared by every component of the model. */
module Wrappers {
  datatype Option<+T> = None | Some(value: T) {
    function GetOr(default: T): T {
      if None? then default else value
    }
  }

  datatype Result<+T, +E> = Ok(value: T) | Err(error: E)
}

/** The sequence operations of the Rust standard library that the model relies on:
    `find`, `replace`, `trim_*` and `concat`, each fixed by its contract. */
module Sequences {
  import opened Wrappers

  predicate OccursAt<T(==)>(s: seq<T>, pat: seq<T>, i: nat) {
    i + |pat| <= |s| && s[i..i + |pat|] == pat
  }

  /** The leftmost occurrence of `pat` in `s`. */
  function Find<T(==)>(s: seq<T>, pat: seq<T>): (r: Option<nat>)
    ensures r.Some? ==> OccursAt(s, pat, r.value)
    ensures forall i: nat :: OccursAt(s, pat, i) ==> r.Some? && r.value <= i
  {
    FindFrom(s, pat, 0)
  }

  function FindFrom<T(==)>(s: seq<T>, pat: seq<T>, start: nat): (r: Option<nat>)
    requires start <= |s|
    ensures r.Some? ==> start <= r.value && OccursAt(s, pat, r.value)
    ensures forall i: nat :: start <= i && OccursAt(s, pat, i) ==> r.Some? && r.value <= i
    decreases |s| - start
  {
    if OccursAt(s, pat, start) then Some(start)
    else if start == |s| then None
    else FindFrom(s, pat, start + 1)
  }

  predicate Contains<T(==)>(s: seq<T>, pat: seq<T>) {
    Find(s, pat).Some?
  }

  /** The first position holding `x`. */
  function IndexOf<T(==)>(s: seq<T>, x: T): (r: Option<nat>)
    ensures r.Some? ==> r.value < |s| && s[r.value] == x && forall i :: 0 <= i < r.value ==> s[i] != x
    ensures r.None? ==> x !in s
  {
    IndexFrom(s, x, 0)
  }

  function IndexFrom<T(==)>(s: seq<T>, x: T, start: nat): (r: Option<nat>)
    requires start <= |s|
    ensures r.Some? ==> start <= r.value < |s| && s[r.value] == x && forall i :: start <= i < r.value ==> s[i] != x
    ensures r.None? ==> forall i :: start <= i < |s| ==> s[i] != x
    decreases |s| - start
  {
    if start == |s| then None
    else if s[start] == x then Some(start)
    else IndexFrom(s, x, start + 1)
  }

  /** An offset found from `start` on, counted from the beginning. */
  function Shifted(offset: Option<nat>, start: nat): Option<nat> {
    match offset
    case None => None
    case Some(k) => Some(start + k)
  }

  /** `IndexOf` is determined by what its contract says. */
  lemma IndexOfIs<T>(s: seq<T>, x: T, k: nat)
    requires k < |s| && s[k] == x && forall i :: 0 <= i < k ==> s[i] != x
    ensures IndexOf(s, x) == Some(k)
  {
  }

  lemma IndexOfNone<T>(s: seq<T>, x: T)
    requires x !in s
    ensures IndexOf(s, x) == None
  {
  }

  /** `Find` is determined by what its contract says. */
  lemma FindIs<T>(s: seq<T>, pat: seq<T>, k: nat)
    requires OccursAt(s, pat, k)
    requires forall i: nat :: i < k ==> !OccursAt(s, pat, i)
    ensures Find(s, pat) == Some(k)
  {
  }

  /** Leftmost, non-overlapping replacement of every occurrence of `from`. */
  function Replace<T(==)>(s: seq<T>, from: seq<T>, to: seq<T>): seq<T>
    requires from != []
    decreases |s|
  {
    if |s| < |from| then s
    else if s[..|from|] == from then to + Replace(s[|from|..], from, to)
    else [s[0]] + Replace(s[1..], from, to)
  }

  /** `trim_start_matches`: drop the longest prefix whose elements satisfy `p`. */
  function StripStart<T>(s: seq<T>, p: T -> bool): (r: seq<T>)
    ensures |r| <= |s|
    ensures r != [] ==> !p(r[0])
  {
    if s != [] && p(s[0]) then StripStart(s[1..], p) else s
  }

  /** `trim_end_matches`: drop the longest suffix whose elements satisfy `p`. */
  function StripEnd<T>(s: seq<T>, p: T -> bool): (r: seq<T>)
    ensures |r| <= |s|
    ensures r != [] ==> !p(r[|r| - 1])
  {
    if s != [] && p(s[|s| - 1]) then StripEnd(s[..|s| - 1], p) else s
  }

  /** `trim_matches`. */
  function Strip<T>(s: seq<T>, p: T -> bool): (r: seq<T>) {
    StripStart(StripEnd(s, p), p)
  }

  lemma {:induction false} StripStartIsSuffix<T>(s: seq<T>, p: T -> bool)
    ensures var r := StripStart(s, p);
            s[|s| - |r|..] == r && forall i :: 0 <= i < |s| - |r| ==> p(s[i])
  {
    if s != [] && p(s[0]) {
      StripStartIsSuffix(s[1..], p);
      var r := StripStart(s[1..], p);
      assert s[1..][|s| - 1 - |r|..] == s[|s| - |r|..];
      forall i | 0 <= i < |s| - |r|
        ensures p(s[i])
      {
        assert i > 0 ==> s[i] == s[1..][i - 1];
      }
    }
  }

  lemma {:induction false} StripEndIsPrefix<T>(s: seq<T>, p: T -> bool)
    ensures var r := StripEnd(s, p);
            s[..|r|] == r && forall i :: |r| <= i < |s| ==> p(s[i])
  {
    if s != [] && p(s[|s| - 1]) {
      var init := s[..|s| - 1];
      StripEndIsPrefix(init, p);
      var r := StripEnd(init, p);
      assert init[..|r|] == s[..|r|];
      forall i | |r| <= i < |s|
        ensures p(s[i])
      {
        assert i < |s| - 1 ==> s[i] == init[i];
      }
    }
  }

  /** A trimmed sequence has nothing to trim at either end. */
  lemma StripMeets<T>(s: seq<T>, p: T -> bool)
    ensures var r := Strip(s, p);
            && |r| <= |s| && (r != [] ==> !p(r[0]) && !p(r[|r| - 1]))
            && (r == [] <==> forall i :: 0 <= i < |s| ==> p(s[i]))
  {
    var t := StripEnd(s, p);
    StripEndIsPrefix(s, p);
    StripStartIsSuffix(t, p);
    assert forall i :: 0 <= i < |t| ==> t[i] == s[i];
  }

  lemma StripIdentity<T>(s: seq<T>, p: T -> bool)
    requires s != [] ==> !p(s[0]) && !p(s[|s| - 1])
    ensures Strip(s, p) == s && StripStart(s, p) == s && StripEnd(s, p) == s
  {
  }

  /** The last `n` elements, or all of them when there are fewer. */
  function KeepLast<T>(s: seq<T>, n: nat): seq<T> {
    if |s| > n then s[|s| - n..] else s
  }

  /** `*table.entry(k).or_insert(0) += 1`. */
  function Bump<K>(table: map<K, nat>, k: K): map<K, nat> {
    table[k := (if k in table then table[k] else 0) + 1]
  }

  lemma Reassociate<T>(a: seq<T>, b: seq<T>, c: seq<T>)
    ensures a + b + c == a + (b + c)
  {
  }

  predicate Distinct<T(==)>(s: seq<T>) {
    forall i, j :: 0 <= i < j < |s| ==> s[i] != s[j]
  }
}

/** Decimal numerals, most significant digit first. */
module Decimals {
  function Digits(n: nat): (d: seq<nat>)
    ensures d != [] && forall i :: 0 <= i < |d| ==> d[i] < 10
  {
    if n < 10 then [n] else Digits(n / 10) + [n % 10]
  }

  function Value(d: seq<nat>): nat {
    if d == [] then 0 else Value(d[..|d| - 1]) * 10 + d[|d| - 1]
  }

  /** Printing then reading a number gives it back, so no two numbers print alike. */
  lemma {:induction false} ValueOfDigits(n: nat)
    ensures Value(Digits(n)) == n
  {
    if n < 10 {
      assert Value([]) == 0;
      assert Digits(n)[..0] == [];
    } else {
      ValueOfDigits(n / 10);
      assert Digits(n)[..|Digits(n)| - 1] == Digits(n / 10);
    }
  }

  function DigitChar(d: nat): char
    requires d < 10
  {
    '0' + d as char
  }

  /** `format!("{n}")`. */
  function Print(n: nat): string {
    var d := Digits(n);
    seq(|d|, i requires 0 <= i < |d| => DigitChar(d[i]))
  }

  lemma PrintIsInjective(m: nat, n: nat)
    ensures Print(m) == Print(n) ==> m == n
  {
    var a, b := Digits(m), Digits(n);
    if Print(m) == Print(n) {
      forall i | 0 <= i < |a|
        ensures a[i] == b[i]
      {
        assert Print(m)[i] == Print(n)[i];
      }
      assert a == b;
    }
    ValueOfDigits(m);
    ValueOfDigits(n);
  }
}
