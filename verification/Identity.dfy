/** Identity tokens of promoted memories: normalised, joined by colons, and hashed. */
module Identity {
  import opened Sequences
  import opened Text
  import opened Runs

  const UNKNOWN := "unknown"

  function ToLower(c: char): char {
    if 'A' <= c <= 'Z' then c - 'A' + 'a' else c
  }

  predicate IsAlphanumeric(c: char) {
    'a' <= c <= 'z' || 'A' <= c <= 'Z' || '0' <= c <= '9'
  }

  predicate IsDash(c: char) {
    c == '-'
  }

  /** The tables of Unicode that `trim` and `to_lowercase` go by. */
  datatype Tables = Tables(blank: char -> bool, lower: char -> string)

  /** On ASCII they are the ASCII ones, and no lower-casing yields an ASCII capital. */
  ghost predicate AgreeOnAscii(u: Tables) {
    && (forall c :: c as int < 128 ==> u.blank(c) == IsBlank(c) && u.lower(c) == [ToLower(c)])
    && (forall c, i :: 0 <= i < |u.lower(c)| ==> !('A' <= u.lower(c)[i] <= 'Z'))
  }

  function Lowered(value: string, u: Tables): string {
    if value == "" then "" else u.lower(value[0]) + Lowered(value[1..], u)
  }

  /** A dash for every character that is not an ASCII letter or digit. */
  function Dashed(lowered: string): string {
    seq(|lowered|, i requires 0 <= i < |lowered| => if IsAlphanumeric(lowered[i]) then lowered[i] else '-')
  }

  function OrUnknown(s: string): string {
    if s == "" then UNKNOWN else s
  }

  function NormalizedToken(value: string, u: Tables): string {
    OrUnknown(Strip(Collapse(Dashed(Lowered(Strip(value, u.blank), u)), '-'), IsDash))
  }

  method NormalizeIdentityToken(value: string, u: Tables) returns (token: string)
    ensures token == NormalizedToken(value, u)
  {
    var normalized := CollapsePairs(Dashed(Lowered(Strip(value, u.blank), u)), '-');
    var trimmed := Strip(normalized, IsDash);
    return if trimmed == "" then UNKNOWN else trimmed;
  }

  predicate TokenChars(s: string) {
    forall i :: 0 <= i < |s| ==> 'a' <= s[i] <= 'z' || '0' <= s[i] <= '9' || s[i] == '-'
  }

  /** What a normalised token looks like. */
  predicate IsToken(s: string) {
    s != "" && s[0] != '-' && s[|s| - 1] != '-' && NoPair(s, '-') && TokenChars(s)
  }

  lemma {:induction false} CollapseKeepsTokenChars(s: string)
    requires TokenChars(s)
    ensures TokenChars(Collapse(s, '-'))
  {
    if s != [] { CollapseKeepsTokenChars(s[1..]); }
  }

  lemma NoPairSlice(s: string, i: nat, j: nat)
    requires NoPair(s, '-') && i <= j <= |s|
    ensures NoPair(s[i..j], '-')
  {
    assert forall k :: 0 <= k < j - i ==> s[i..j][k] == s[i + k];
  }

  lemma StripIsSlice(s: string, p: char -> bool) returns (i: nat, j: nat)
    ensures i <= j <= |s| && Strip(s, p) == s[i..j]
  {
    var t := StripEnd(s, p);
    var u := StripStart(t, p);
    StripEndIsPrefix(s, p);
    StripStartIsSuffix(t, p);
    i, j := |t| - |u|, |t|;
    assert s[i..j] == t[i..];
  }

  lemma {:induction false} LoweredHasNoCapitals(value: string, u: Tables)
    requires AgreeOnAscii(u)
    ensures forall i :: 0 <= i < |Lowered(value, u)| ==> !('A' <= Lowered(value, u)[i] <= 'Z')
  {
    if value != "" { LoweredHasNoCapitals(value[1..], u); }
  }

  lemma {:induction false} TokensAreLowered(s: string, u: Tables)
    requires AgreeOnAscii(u) && TokenChars(s)
    ensures Lowered(s, u) == s
  {
    if s != "" {
      LowerOfToken(s[0], u);
      hide AgreeOnAscii;
      TokensAreLowered(s[1..], u);
      assert s == [s[0]] + s[1..];
    }
  }

  lemma LowerOfToken(c: char, u: Tables)
    requires AgreeOnAscii(u) && TokenChars([c])
    ensures u.lower(c) == [c]
  {
    assert [c][0] == c;
  }

  /** The output is a token: lower-case letters, digits and single inner dashes. */
  lemma NormalizedIsToken(value: string, u: Tables)
    requires AgreeOnAscii(u)
    ensures IsToken(NormalizedToken(value, u))
  {
    hide Lowered, Strip, Dashed, Collapse, TokenChars, NoPair, IsToken, OrUnknown, AgreeOnAscii;
    var lowered := Lowered(Strip(value, u.blank), u);
    var dashed := Dashed(lowered);
    LoweredHasNoCapitals(Strip(value, u.blank), u);
    DashedHasTokenChars(lowered);
    CollapseKeepsTokenChars(dashed);
    CollapseLeavesNoPair(dashed, '-');
    StrippedIsToken(Collapse(dashed, '-'));
  }

  lemma DashedHasTokenChars(lowered: string)
    requires forall i :: 0 <= i < |lowered| ==> !('A' <= lowered[i] <= 'Z')
    ensures TokenChars(Dashed(lowered))
  {
  }

  lemma StrippedIsToken(collapsed: string)
    requires TokenChars(collapsed) && NoPair(collapsed, '-')
    ensures IsToken(OrUnknown(Strip(collapsed, IsDash)))
  {
    hide Strip, NoPair;
    var s := Strip(collapsed, IsDash);
    var i, j := StripIsSlice(collapsed, IsDash);
    NoPairSlice(collapsed, i, j);
    StripMeets(collapsed, IsDash);
    UnknownHasNoPair();
    assert forall k :: 0 <= k < |s| ==> s[k] == collapsed[i + k];
  }

  lemma UnknownHasNoPair()
    ensures NoPair(UNKNOWN, '-')
  {
  }

  /** Tokens are exactly the fixed points of the normaliser. */
  lemma TokensAreFixedPoints(s: string, u: Tables)
    requires AgreeOnAscii(u)
    ensures NormalizedToken(s, u) == s <==> IsToken(s)
  {
    NormalizedIsToken(s, u);
    if IsToken(s) {
      StripIdentity(s, u.blank);
      TokensAreLowered(s, u);
      assert Dashed(s) == s;
      CollapseFixesPairless(s, '-');
      StripIdentity(s, IsDash);
    }
  }

  lemma NormalizingIsIdempotent(value: string, u: Tables)
    requires AgreeOnAscii(u)
    ensures NormalizedToken(NormalizedToken(value, u), u) == NormalizedToken(value, u)
  {
    NormalizedIsToken(value, u);
    TokensAreFixedPoints(NormalizedToken(value, u), u);
  }

  // The identity of four fields

  function Canonical(a: string, b: string, c: string, d: string, u: Tables): string {
    NormalizedToken(a, u) + ":" + NormalizedToken(b, u) + ":" + NormalizedToken(c, u) + ":" + NormalizedToken(d, u)
  }

  /** `hex` is the lower-case hexadecimal digest of a text. */
  function PromotionIdentity(
    a: string, b: string, c: string, d: string, u: Tables, hex: string -> string): string
  {
    Canonical(a, b, c, d, u) + ":" + hex(Canonical(a, b, c, d, u))
  }

  lemma TokenHasNoColon(s: string)
    requires IsToken(s)
    ensures ':' !in s
  {
  }

  /** Text before the first colon is determined by the whole. */
  lemma SplitAtColon(a: string, x: string, b: string, y: string)
    requires ':' !in a && ':' !in b && a + ":" + x == b + ":" + y
    ensures a == b && x == y
  {
    var s := a + ":" + x;
    assert s[|a|] == ':' && (b + ":" + y)[|b|] == ':';
    assert forall i :: 0 <= i < |a| ==> s[i] == a[i];
    assert forall i :: 0 <= i < |b| ==> s[i] == b[i];
    assert |a| == |b|;
    assert a == s[..|a|] && b == s[..|b|] && x == s[|a| + 1..] && y == s[|b| + 1..];
  }

  /** Unique encoding: two identities are equal exactly when all four tokens are. */
  lemma IdentitiesAreUnique(
    a: string, b: string, c: string, d: string, a': string, b': string, c': string, d': string,
    u: Tables, hex: string -> string)
    requires AgreeOnAscii(u)
    ensures PromotionIdentity(a, b, c, d, u, hex) == PromotionIdentity(a', b', c', d', u, hex)
       <==> && NormalizedToken(a, u) == NormalizedToken(a', u) && NormalizedToken(b, u) == NormalizedToken(b', u)
            && NormalizedToken(c, u) == NormalizedToken(c', u) && NormalizedToken(d, u) == NormalizedToken(d', u)
  {
    hide NormalizedToken, AgreeOnAscii;
    var p, q, r, s := NormalizedToken(a, u), NormalizedToken(b, u), NormalizedToken(c, u), NormalizedToken(d, u);
    var p', q', r', s' := NormalizedToken(a', u), NormalizedToken(b', u), NormalizedToken(c', u), NormalizedToken(d', u);
    if PromotionIdentity(a, b, c, d, u, hex) == PromotionIdentity(a', b', c', d', u, hex) {
      forall v
        ensures ':' !in NormalizedToken(v, u)
      {
        NormalizedIsToken(v, u);
        TokenHasNoColon(NormalizedToken(v, u));
      }
      var h, h' := hex(Canonical(a, b, c, d, u)), hex(Canonical(a', b', c', d', u));
      assert p + ":" + (q + ":" + (r + ":" + (s + ":" + h))) == p' + ":" + (q' + ":" + (r' + ":" + (s' + ":" + h'))) by {
        FiveParts(p, q, r, s, h);
        FiveParts(p', q', r', s', h');
      }
      SplitAtColon(p, q + ":" + (r + ":" + (s + ":" + h)), p', q' + ":" + (r' + ":" + (s' + ":" + h')));
      SplitAtColon(q, r + ":" + (s + ":" + h), q', r' + ":" + (s' + ":" + h'));
      SplitAtColon(r, s + ":" + h, r', s' + ":" + h');
      SplitAtColon(s, h, s', h');
    }
  }

  lemma FiveParts(a: string, b: string, c: string, d: string, e: string)
    ensures a + ":" + b + ":" + c + ":" + d + ":" + e == a + ":" + (b + ":" + (c + ":" + (d + ":" + e)))
  {
  }

  // What a token is made of

  function Flushed(run: string): seq<string> {
    if run == "" then [] else [run]
  }

  /** The runs of letters and digits, the first of them continuing `run`. */
  function RunsFrom(s: string, run: string): seq<string>
    decreases |s|
  {
    if s == "" then Flushed(run)
    else if IsAlphanumeric(s[0]) then RunsFrom(s[1..], run + [s[0]])
    else Flushed(run) + RunsFrom(s[1..], "")
  }

  function DashJoined(runs: seq<string>): string {
    if runs == [] then ""
    else if |runs| == 1 then runs[0]
    else runs[0] + "-" + DashJoined(runs[1..])
  }

  lemma {:induction false} RunsOfDashed(s: string, run: string)
    ensures RunsFrom(Dashed(s), run) == RunsFrom(s, run)
    decreases |s|
  {
    if s != "" {
      assert Dashed(s)[1..] == Dashed(s[1..]);
      RunsOfDashed(s[1..], if IsAlphanumeric(s[0]) then run + [s[0]] else "");
    }
  }

  lemma {:induction false} RunsOfCollapsed(s: string, run: string)
    ensures RunsFrom(Collapse(s, '-'), run) == RunsFrom(s, run)
    decreases |s|
  {
    if s != "" {
      if |s| >= 2 && s[0] == '-' && s[1] == '-' {
        RunsOfCollapsed(s[1..], run);
        assert RunsFrom(s, run) == Flushed(run) + RunsFrom(s[1..], "");
        assert s[1..][0] == '-' && [] + RunsFrom(s[1..][1..], "") == RunsFrom(s[1..][1..], "");
      } else {
        RunsOfCollapsed(s[1..], if IsAlphanumeric(s[0]) then run + [s[0]] else "");
        assert Collapse(s, '-')[1..] == Collapse(s[1..], '-');
      }
    }
  }

  lemma {:induction false} RunsBeforeDash(s: string, run: string)
    ensures RunsFrom(s + "-", run) == RunsFrom(s, run)
    decreases |s|
  {
    var t := s + "-";
    if s == "" {
      assert t[1..] == "" && Flushed(run) + [] == Flushed(run);
    } else {
      assert t[1..] == s[1..] + "-";
      RunsBeforeDash(s[1..], if IsAlphanumeric(s[0]) then run + [s[0]] else "");
    }
  }

  lemma {:induction false} RunsOfStripEnd(s: string)
    ensures RunsFrom(StripEnd(s, IsDash), "") == RunsFrom(s, "")
  {
    if s != "" && IsDash(s[|s| - 1]) {
      RunsOfStripEnd(s[..|s| - 1]);
      RunsBeforeDash(s[..|s| - 1], "");
      assert s == s[..|s| - 1] + "-";
    }
  }

  lemma {:induction false} RunsOfStripStart(s: string)
    ensures RunsFrom(StripStart(s, IsDash), "") == RunsFrom(s, "")
  {
    if s != "" && IsDash(s[0]) {
      RunsOfStripStart(s[1..]);
      assert [] + RunsFrom(s[1..], "") == RunsFrom(s[1..], "");
    }
  }

  predicate DashedRuns(t: string) {
    && (forall i :: 0 <= i < |t| ==> IsAlphanumeric(t[i]) || t[i] == '-')
    && NoPair(t, '-') && (t != "" ==> t[|t| - 1] != '-')
  }

  lemma TailOfRuns(t: string)
    requires t != "" && DashedRuns(t)
    ensures DashedRuns(t[1..]) && (t[0] == '-' ==> t[1..] != "" && t[1..][0] != '-')
  {
    var rest := t[1..];
    assert forall i :: 0 <= i < |rest| ==> rest[i] == t[i + 1];
  }

  lemma JoinFirst(run: string, runs: seq<string>)
    requires runs != []
    ensures DashJoined(Flushed(run) + runs) == (if run == "" then "" else run + "-") + DashJoined(runs)
  {
    if run != "" {
      assert ([run] + runs)[1..] == runs;
    } else {
      assert [] + runs == runs && "" + DashJoined(runs) == DashJoined(runs);
    }
  }

  /** Single dashes between runs, and none at the ends. */
  lemma {:induction false} RunsRebuild(t: string, run: string)
    requires DashedRuns(t) && (run == "" ==> t != "" && t[0] != '-')
    ensures DashJoined(RunsFrom(t, run)) == run + t && RunsFrom(t, run) != []
    decreases |t|
  {
    hide DashJoined, DashedRuns;
    if t == "" {
      OneRun(run);
    } else {
      var rest := t[1..];
      TailOfRuns(t);
      CharOfRuns(t);
      if t[0] != '-' {
        RunsRebuild(rest, run + [t[0]]);
        assert run + [t[0]] + rest == run + t;
      } else {
        RunsRebuild(rest, "");
        JoinFirst(run, RunsFrom(rest, ""));
        assert run + "-" + ("" + rest) == run + t;
      }
    }
  }

  lemma OneRun(run: string)
    requires run != ""
    ensures DashJoined(RunsFrom("", run)) == run + "" && RunsFrom("", run) != []
  {
  }

  lemma CharOfRuns(t: string)
    requires t != "" && DashedRuns(t)
    ensures IsAlphanumeric(t[0]) <==> t[0] != '-'
  {
  }

  /** A token is the runs of lower-case letters and digits of the text, in order, joined by dashes; the
      fallback stands for a text that has none. */
  lemma TokenIsItsRuns(value: string, u: Tables)
    requires AgreeOnAscii(u)
    ensures var runs := RunsFrom(Lowered(Strip(value, u.blank), u), "");
            NormalizedToken(value, u) == if runs == [] then "unknown" else DashJoined(runs)
  {
    hide Strip, Lowered, Collapse, Dashed, AgreeOnAscii;
    var lowered := Lowered(Strip(value, u.blank), u);
    var collapsed := Collapse(Dashed(lowered), '-');
    RunsOfDashed(lowered, "");
    RunsOfCollapsed(Dashed(lowered), "");
    RunsOfStripped(collapsed);
    LoweredHasNoCapitals(Strip(value, u.blank), u);
    DashedHasTokenChars(lowered);
    CollapseKeepsTokenChars(Dashed(lowered));
    CollapseLeavesNoPair(Dashed(lowered), '-');
    var t := Strip(collapsed, IsDash);
    StrippedShape(collapsed);
    if t != "" { RunsRebuild(t, ""); assert "" + t == t; }
  }

  lemma RunsOfStripped(s: string)
    ensures RunsFrom(Strip(s, IsDash), "") == RunsFrom(s, "")
  {
    hide RunsFrom, StripStart, StripEnd;
    RunsOfStripEnd(s);
    RunsOfStripStart(StripEnd(s, IsDash));
  }

  lemma StrippedShape(collapsed: string)
    requires TokenChars(collapsed) && NoPair(collapsed, '-')
    ensures var t := Strip(collapsed, IsDash);
            && (forall i :: 0 <= i < |t| ==> IsAlphanumeric(t[i]) || t[i] == '-')
            && NoPair(t, '-') && (t != "" ==> t[|t| - 1] != '-' && t[0] != '-')
  {
    hide Strip, NoPair;
    var t := Strip(collapsed, IsDash);
    var i, j := StripIsSlice(collapsed, IsDash);
    NoPairSlice(collapsed, i, j);
    StripMeets(collapsed, IsDash);
    assert forall k :: 0 <= k < |t| ==> t[k] == collapsed[i + k];
  }

  /** The identity is the four tokens in their order and the digest of the four, between colons. */
  lemma IdentityReads(a: string, b: string, c: string, d: string, u: Tables, hex: string -> string)
    ensures var four := NormalizedToken(a, u) + ":" + NormalizedToken(b, u) + ":" + NormalizedToken(c, u)
                        + ":" + NormalizedToken(d, u);
            PromotionIdentity(a, b, c, d, u, hex) == four + ":" + hex(four)
  {
    hide NormalizedToken;
  }
}
