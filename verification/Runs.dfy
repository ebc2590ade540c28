/** Collapsing runs of a repeated character by replacing pairs until none is left. */
module Runs {
  import opened Sequences

  /** Every run of `c` shortened to one. */
  function Collapse(s: string, c: char): string {
    if s == [] then []
    else if |s| >= 2 && s[0] == c && s[1] == c then Collapse(s[1..], c)
    else [s[0]] + Collapse(s[1..], c)
  }

  predicate NoPair(s: string, c: char) {
    forall i :: 0 < i < |s| ==> s[i - 1] != c || s[i] != c
  }

  function HalfPairs(s: string, c: char): string {
    Replace(s, [c, c], [c])
  }

  lemma PairAt(s: string, c: char, i: nat)
    ensures OccursAt(s, [c, c], i) <==> i + 1 < |s| && s[i] == c && s[i + 1] == c
  {
    if i + 2 <= |s| { assert s[i..i + 2] == [s[i], s[i + 1]]; }
  }

  lemma ContainsPair(s: string, c: char)
    ensures Contains(s, [c, c]) <==> !NoPair(s, c)
  {
    if !NoPair(s, c) {
      var i :| 0 < i < |s| && s[i - 1] == c && s[i] == c;
      PairAt(s, c, i - 1);
    }
    var found := Find(s, [c, c]);
    if found.Some? {
      PairAt(s, c, found.value);
      assert s[found.value + 1 - 1] == c;
    }
  }

  lemma {:induction false} CollapseKeepsFirst(s: string, c: char)
    ensures Collapse(s, c) == [] <==> s == []
    ensures s != [] ==> Collapse(s, c)[0] == s[0]
  {
    if |s| >= 2 && s[0] == c && s[1] == c { CollapseKeepsFirst(s[1..], c); }
  }

  lemma {:induction false} CollapseLeavesNoPair(s: string, c: char)
    ensures NoPair(Collapse(s, c), c)
  {
    if s != [] {
      CollapseLeavesNoPair(s[1..], c);
      CollapseKeepsFirst(s[1..], c);
      var tail := Collapse(s[1..], c);
      if |s| < 2 || s[0] != c || s[1] != c {
        var r := [s[0]] + tail;
        assert forall i :: 0 < i < |r| ==> r[i] == tail[i - 1];
      }
    }
  }

  lemma {:induction false} CollapseFixesPairless(s: string, c: char)
    requires NoPair(s, c)
    ensures Collapse(s, c) == s
  {
    if s != [] {
      assert forall i :: 0 <= i < |s[1..]| ==> s[1..][i] == s[i + 1];
      CollapseFixesPairless(s[1..], c);
    }
  }

  lemma {:induction false} HalfKeepsFirst(s: string, c: char)
    ensures HalfPairs(s, c) == [] <==> s == []
    ensures s != [] ==> HalfPairs(s, c)[0] == s[0]
  {
  }

  lemma CollapseCons(c: char, x: string)
    ensures Collapse([c] + x, c) == if x != [] && x[0] == c then Collapse(x, c) else [c] + Collapse(x, c)
  {
    assert ([c] + x)[1..] == x;
  }

  /** One round of replacing pairs does not change what the runs collapse to. */
  lemma {:induction false} HalvingKeepsCollapse(s: string, c: char)
    ensures Collapse(HalfPairs(s, c), c) == Collapse(s, c)
    decreases |s|
  {
    if |s| >= 2 {
      if s[..2] == [c, c] {
        assert s[0] == s[..2][0] && s[1] == s[..2][1];
        var t := s[2..];
        HalvingKeepsCollapse(t, c);
        HalfKeepsFirst(t, c);
        CollapseCons(c, HalfPairs(t, c));
        CollapseCons(c, t);
        assert s[1..] == [c] + t;
      } else {
        assert s[..2] == [s[0], s[1]];
        var t := s[1..];
        HalvingKeepsCollapse(t, c);
        HalfKeepsFirst(t, c);
        assert ([s[0]] + HalfPairs(t, c))[1..] == HalfPairs(t, c);
      }
    }
  }

  lemma {:induction false} HalvingShrinks(s: string, c: char)
    ensures |HalfPairs(s, c)| <= |s|
    ensures !NoPair(s, c) ==> |HalfPairs(s, c)| < |s|
    decreases |s|
  {
    if |s| >= 2 {
      if s[..2] == [c, c] {
        HalvingShrinks(s[2..], c);
      } else {
        assert s[..2] == [s[0], s[1]];
        HalvingShrinks(s[1..], c);
        if NoPair(s[1..], c) {
          assert forall i :: 0 < i < |s| ==> s[i] == s[1..][i - 1];
        }
      }
    }
  }

  /** Replacing pairs until none is left ends, and collapses every run. */
  method CollapsePairs(s: string, c: char) returns (r: string)
    ensures r == Collapse(s, c)
  {
    r := s;
    while Contains(r, [c, c])
      invariant Collapse(r, c) == Collapse(s, c)
      decreases |r|
    {
      ContainsPair(r, c);
      HalvingKeepsCollapse(r, c);
      HalvingShrinks(r, c);
      r := Replace(r, [c, c], [c]);
    }
    ContainsPair(r, c);
    CollapseFixesPairless(r, c);
  }
}
