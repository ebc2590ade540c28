/** Path normalisation, which gives the session cache its keys. */
module ToolPaths {
  import opened Text
  import opened Runs

  function Slash(c: char): char {
    if c == '\\' then '/' else c
  }

  function Slashed(s: string): string {
    seq(|s|, i requires 0 <= i < |s| => Slash(s[i]))
  }

  /** Drop a Windows verbatim prefix, if there is one. */
  function WithoutVerbatim(path: string): string {
    var normalized := Slashed(path);
    if StartsWith(normalized, "//?/UNC/") then "//" + normalized[8..]
    else if StartsWith(normalized, "//?/") then normalized[4..]
    else path
  }

  predicate IsLetter(c: char) {
    'a' <= c <= 'z' || 'A' <= c <= 'Z'
  }

  function ToUpper(c: char): char {
    if 'a' <= c <= 'z' then c - 'a' + 'A' else c
  }

  /** `/c/...`, as Git Bash writes a drive. */
  predicate MsysDrive(p: string) {
    |p| >= 3 && p[0] == '/' && IsLetter(p[1]) && p[2] == '/'
  }

  function FromMsys(p: string): string {
    if MsysDrive(p) then [ToUpper(p[1]), ':'] + p[2..] else p
  }

  /** Single slashes, except in a path that starts with two. */
  function SingleSlashes(p: string): string {
    if StartsWith(p, "//") then p else Collapse(p, '/')
  }

  predicate StrayTrailingSlash(p: string) {
    |p| > 1 && p[|p| - 1] == '/' && p[|p| - 2] != ':'
  }

  function NormalizeToolPath(path: string): string {
    var p := SingleSlashes(Slashed(FromMsys(WithoutVerbatim(path))));
    if StrayTrailingSlash(p) then p[..|p| - 1] else p
  }

  /** What every normalised path satisfies. */
  predicate Normalish(p: string) {
    '\\' !in p && (StartsWith(p, "//") || NoPair(p, '/'))
  }

  lemma {:induction false} CollapseShrinks(s: string, c: char)
    ensures |Collapse(s, c)| <= |s| && forall x :: x in Collapse(s, c) ==> x in s
  {
    if s != [] {
      CollapseShrinks(s[1..], c);
      assert forall x :: x in s[1..] ==> x in s;
      assert s[0] in s;
    }
  }

  lemma NormalizedIsNormalish(path: string)
    ensures Normalish(NormalizeToolPath(path))
  {
    var q := Slashed(FromMsys(WithoutVerbatim(path)));
    var p := SingleSlashes(q);
    assert '\\' !in q;
    CollapseShrinks(q, '/');
    CollapseLeavesNoPair(q, '/');
    var r := NormalizeToolPath(path);
    assert r == p || r == p[..|p| - 1];
    if StartsWith(p, "//") && !StartsWith(r, "//") {
      assert |r| <= 1;
    }
  }

  lemma SlashedFixes(p: string)
    requires '\\' !in p
    ensures Slashed(p) == p
  {
  }

  /** The second pass changes nothing before the trailing slash when no guard fires. */
  lemma SecondPass(p: string)
    requires Normalish(p) && !StartsWith(p, "//?/")
    ensures WithoutVerbatim(p) == p
    ensures !MsysDrive(p) ==> SingleSlashes(Slashed(FromMsys(p))) == p
  {
    SlashedFixes(p);
    assert StartsWith(p, "//?/UNC/") ==> StartsWith(p, "//?/") by {
      assert StartsWith("//?/UNC/", "//?/");
    }
    if !StartsWith(p, "//") { CollapseFixesPairless(p, '/'); }
  }

  lemma PassShrinks(path: string)
    ensures |NormalizeToolPath(path)| <= |WithoutVerbatim(path)|
  {
    CollapseShrinks(Slashed(FromMsys(WithoutVerbatim(path))), '/');
  }

  lemma DriveChangesFirst(p: string)
    requires Normalish(p) && MsysDrive(p)
    ensures NormalizeToolPath(p) != p
  {
    SecondPass(p);
    var q := Slashed(FromMsys(p));
    assert q[0] == ToUpper(p[1]) != '/';
    CollapseKeepsFirst(q, '/');
  }

  predicate KeyIsSettled(key: string) {
    !StartsWith(key, "//?/") && !MsysDrive(key) && !StrayTrailingSlash(key)
  }

  /** Normalising is idempotent at a path exactly when the first pass leaves no verbatim prefix,
      no Git Bash drive and no stray trailing slash. */
  lemma IdempotentExactlyWhen(path: string)
    ensures var key := NormalizeToolPath(path);
            (NormalizeToolPath(key) == key) == KeyIsSettled(key)
  {
    hide Collapse;
    var key := NormalizeToolPath(path);
    NormalizedIsNormalish(path);
    SlashedFixes(key);
    if StartsWith(key, "//?/") {
      PassShrinks(key);
      assert |WithoutVerbatim(key)| < |key|;
    } else if MsysDrive(key) {
      DriveChangesFirst(key);
    } else {
      SecondPass(key);
    }
  }

  /** A path written with backslashes is one whose first pass is not the last. */
  lemma NotIdempotentEverywhere()
    ensures NormalizeToolPath("\\c\\d") == "/c/d" && NormalizeToolPath("/c/d") == "C:/d"
  {
    BackslashesBecomeSlashes();
    DriveIsReadAgain();
  }

  lemma BackslashesBecomeSlashes()
    ensures NormalizeToolPath("\\c\\d") == "/c/d"
  {
    assert Slashed("\\c\\d") == "/c/d";
    CollapseFixesPairless("/c/d", '/');
  }

  lemma DriveIsReadAgain()
    ensures NormalizeToolPath("/c/d") == "C:/d"
  {
    var key := "/c/d";
    assert Slashed(key) == key;
    assert FromMsys(key) == "C:/d";
    assert Slashed("C:/d") == "C:/d";
    CollapseFixesPairless("C:/d", '/');
  }

  // Spellings of one path

  /** The ways to write a path on a drive: as Git Bash does, and with either slash. */
  lemma SpellingsOfADrive(c: char, rest: string)
    requires IsLetter(c)
    ensures NormalizeToolPath("/" + [c] + "/" + rest) == NormalizeToolPath([ToUpper(c)] + ":/" + rest)
    ensures NormalizeToolPath([ToUpper(c)] + ":\\" + rest) == NormalizeToolPath([ToUpper(c)] + ":/" + rest)
  {
    hide SingleSlashes;
    var bash, slash, back := "/" + [c] + "/" + rest, [ToUpper(c)] + ":/" + rest, [ToUpper(c)] + ":\\" + rest;
    PlainStart(bash);
    PlainStart(slash);
    PlainStart(back);
    assert FromMsys(bash) == slash;
    assert Slashed(back) == Slashed(slash);
  }

  /** A path that begins with no more than one slash has no verbatim prefix. */
  lemma PlainStart(p: string)
    requires |p| < 2 || Slash(p[0]) != '/' || Slash(p[1]) != '/'
    ensures WithoutVerbatim(p) == p
  {
    var q := Slashed(p);
    assert "//?/UNC/"[0] == '/' && "//?/UNC/"[1] == '/' && "//?/"[0] == '/' && "//?/"[1] == '/';
  }

  lemma SlashedAppends(a: string, b: string)
    ensures Slashed(a + b) == Slashed(a) + Slashed(b)
  {
  }

  /** A verbatim prefix changes nothing. */
  lemma VerbatimSpelling(p: string)
    requires p == "" || (Slash(p[0]) != '/' && p[0] != 'U')
    ensures NormalizeToolPath("\\\\?\\" + p) == NormalizeToolPath(p)
  {
    hide SingleSlashes;
    SlashedAppends("\\\\?\\", p);
    assert Slashed("\\\\?\\") == "//?/";
    var q := "//?/" + Slashed(p);
    assert q[4..] == Slashed(p);
    assert p != "" ==> q[4] == Slash(p[0]);
    assert "//?/UNC/"[4] == 'U';
    PlainStart(p);
    assert Slashed(Slashed(p)) == Slashed(p);
    assert WithoutVerbatim("\\\\?\\" + p) == Slashed(p);
  }

  /** Nor does the verbatim form of a network path. */
  lemma NetworkSpelling(p: string)
    requires p == "" || p[0] != '?'
    ensures NormalizeToolPath("\\\\?\\UNC\\" + p) == NormalizeToolPath("\\\\" + p)
  {
    hide SingleSlashes;
    SlashedAppends("\\\\?\\UNC\\", p);
    SlashedAppends("\\\\", p);
    assert Slashed("\\\\?\\UNC\\") == "//?/UNC/" && Slashed("\\\\") == "//";
    var q := "//?/UNC/" + Slashed(p);
    assert q[8..] == Slashed(p);
    assert WithoutVerbatim("\\\\?\\UNC\\" + p) == "//" + Slashed(p);
    var r := "//" + Slashed(p);
    assert p != "" ==> r[2] == Slash(p[0]) != '?';
    assert "//?/"[2] == '?' && "//?/UNC/"[2] == '?';
    assert WithoutVerbatim("\\\\" + p) == "\\\\" + p;
    assert FromMsys(r) == r && FromMsys("\\\\" + p) == "\\\\" + p;
    assert Slashed(r) == r;
  }

  lemma {:induction false} CollapseIgnoresRepeats(a: string, b: string)
    ensures Collapse(a + "//" + b, '/') == Collapse(a + "/" + b, '/')
    decreases |a|
  {
    var s, t := a + "//" + b, a + "/" + b;
    if a == "" {
      assert s[1..] == t;
    } else {
      assert s[1..] == a[1..] + "//" + b && t[1..] == a[1..] + "/" + b;
      CollapseIgnoresRepeats(a[1..], b);
    }
  }

  /** A repeated slash counts as one, except at the start. */
  lemma RepeatedSlashes(a: string, b: string)
    requires a != "" && Slash(a[0]) != '/'
    ensures NormalizeToolPath(a + "//" + b) == NormalizeToolPath(a + "/" + b)
  {
    hide Collapse;
    var s, t := a + "//" + b, a + "/" + b;
    PlainStart(s);
    PlainStart(t);
    assert Slashed(s) == Slashed(a) + "//" + Slashed(b) && Slashed(t) == Slashed(a) + "/" + Slashed(b);
    CollapseIgnoresRepeats(Slashed(a), Slashed(b));
  }

  lemma {:induction false} CollapseBeforeSlash(a: string)
    requires a != "" && a[|a| - 1] != '/'
    ensures Collapse(a + "/", '/') == Collapse(a, '/') + "/"
    ensures Collapse(a, '/') != "" && Collapse(a, '/')[|Collapse(a, '/')| - 1] == a[|a| - 1]
    decreases |a|
  {
    assert (a + "/")[1..] == a[1..] + "/";
    if |a| == 1 {
      assert a[1..] == "" && "" + "/" == "/";
      assert Collapse("/", '/') == "/" && Collapse("", '/') == "";
    } else {
      CollapseBeforeSlash(a[1..]);
    }
  }

  /** A slash at the end counts for nothing, except after a colon. */
  lemma TrailingSlash(a: string)
    requires a != "" && Slash(a[0]) != '/' && Slash(a[|a| - 1]) != '/' && a[|a| - 1] != ':'
    ensures NormalizeToolPath(a + "/") == NormalizeToolPath(a)
  {
    hide Collapse;
    PlainStart(a + "/");
    PlainStart(a);
    var q := Slashed(a);
    assert Slashed(a + "/") == q + "/";
    CollapseBeforeSlash(q);
    CollapseKeepsFirst(q, '/');
    var c := Collapse(q, '/');
    assert (c + "/")[..|c|] == c;
  }
}
