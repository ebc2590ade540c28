/** The commands whose output the hook compresses. */
module CommandRegistry {
  import opened Sequences
  import opened Text

  const TOOL_COMMANDS: seq<string> := [
    "git", "gh", "cargo", "npm", "pnpm", "yarn", "bun", "bunx", "deno", "vite",
    "pip", "pip3", "pytest", "mypy", "ruff", "go", "golangci-lint"]

  const PLATFORM_COMMANDS: seq<string> := [
    "docker", "docker-compose", "kubectl", "helm", "aws", "terraform", "tofu",
    "eslint", "prettier", "tsc", "biome", "curl", "wget", "php", "composer",
    "dotnet", "bundle", "rake", "mix", "swift", "zig", "cmake", "make"]

  /** Every registered command except the search category, which hooks leave alone. */
  const HOOK_COMMANDS := TOOL_COMMANDS + PLATFORM_COMMANDS

  predicate Matches(cmd: string, name: string) {
    StartsWith(cmd, name + " ") || cmd == name
  }

  predicate IsRewritable(cmd: string) {
    exists i :: 0 <= i < |HOOK_COMMANDS| && Matches(cmd, HOOK_COMMANDS[i])
  }

  /** The loop of `is_rewritable_command`, which skips the search category. */
  method IsRewritableCommand(cmd: string) returns (r: bool)
    ensures r == IsRewritable(cmd)
  {
    hide HOOK_COMMANDS, Matches;
    for i := 0 to |HOOK_COMMANDS|
      invariant forall j :: 0 <= j < i ==> !Matches(cmd, HOOK_COMMANDS[j])
    {
      if Matches(cmd, HOOK_COMMANDS[i]) {
        return true;
      }
    }
    return false;
  }

  /** What stands before the first blank. */
  function FirstWord(cmd: string): string {
    match IndexOf(cmd, ' ')
    case None => cmd
    case Some(k) => cmd[..k]
  }

  lemma MatchesTheFirstWord(cmd: string, name: string)
    requires ' ' !in name
    ensures Matches(cmd, name) <==> FirstWord(cmd) == name
  {
    if StartsWith(cmd, name + " ") {
      assert forall i :: 0 <= i < |name| ==> cmd[i] == (name + " ")[i] == name[i];
      assert cmd[|name|] == ' ' && cmd[..|name|] == name;
      IndexOfIs(cmd, ' ', |name|);
    }
    if FirstWord(cmd) == name && IndexOf(cmd, ' ').Some? {
      var k := IndexOf(cmd, ' ').value;
      assert cmd[..k + 1] == name + " ";
    }
    if cmd == name { IndexOfNone(cmd, ' '); }
  }

  /** A command is rewritable if and only if its first word is registered. */
  lemma RewritableExactlyWhen(cmd: string)
    ensures IsRewritable(cmd) <==> FirstWord(cmd) in HOOK_COMMANDS
  {
    NamesArePlain();
    forall k | 0 <= k < |HOOK_COMMANDS|
      ensures Matches(cmd, HOOK_COMMANDS[k]) <==> FirstWord(cmd) == HOOK_COMMANDS[k]
    {
      assert PlainName(HOOK_COMMANDS[k]);
      MatchesTheFirstWord(cmd, HOOK_COMMANDS[k]);
    }
    hide Matches, HOOK_COMMANDS, FirstWord;
  }

  predicate PlainChar(c: char) {
    'a' <= c <= 'z' || '0' <= c <= '9' || c == '-'
  }

  predicate PlainName(name: string) {
    name != [] && name[0] != '-' && forall i :: 0 <= i < |name| ==> PlainChar(name[i])
  }

  lemma NamesArePlain()
    ensures forall k :: 0 <= k < |HOOK_COMMANDS| ==> PlainName(HOOK_COMMANDS[k])
  {
    ToolNamesArePlain();
    PlatformNamesArePlain();
    hide TOOL_COMMANDS, PLATFORM_COMMANDS, PlainName;
  }

  lemma ToolNamesArePlain()
    ensures forall k :: 0 <= k < |TOOL_COMMANDS| ==> PlainName(TOOL_COMMANDS[k])
  {
  }

  lemma PlatformNamesArePlain()
    ensures forall k :: 0 <= k < |PLATFORM_COMMANDS| ==> PlainName(PLATFORM_COMMANDS[k])
  {
  }

  /** Following a command by a blank and anything does not make it rewritable. */
  lemma RewritabilityIsSettledByTheFirstWord(cmd: string, more: string)
    requires cmd != [] && IsRewritable(cmd + " " + more)
    ensures IsRewritable(cmd)
  {
    NamesArePlain();
    var s := cmd + " " + more;
    var k :| 0 <= k < |HOOK_COMMANDS| && Matches(s, HOOK_COMMANDS[k]);
    var name := HOOK_COMMANDS[k];
    assert PlainName(name);
    assert s[|cmd|] == ' ';
    assert s != name by { assert forall i :: 0 <= i < |name| ==> PlainChar(name[i]); }
    assert s[..|name| + 1] == name + " ";
    assert forall i :: 0 <= i < |name| ==> s[i] == name[i];
    if |cmd| == |name| {
      assert cmd == s[..|cmd|] && name == s[..|name|];
    } else if |cmd| > |name| {
      assert cmd[..|name| + 1] == s[..|name| + 1];
    }
    assert Matches(cmd, name);
  }

  lemma RewritableStartsPlain(cmd: string)
    requires IsRewritable(cmd)
    ensures cmd != [] && PlainChar(cmd[0]) && cmd[0] != '-'
  {
    NamesArePlain();
    var k :| 0 <= k < |HOOK_COMMANDS| && Matches(cmd, HOOK_COMMANDS[k]);
    var name := HOOK_COMMANDS[k];
    assert PlainName(name);
    if cmd != name {
      assert cmd[..|name| + 1] == name + " ";
    }
    assert cmd[0] == name[0];
  }

  lemma MatchesUpToBlank(lead: string, more: string, name: string)
    requires lead != [] && lead[|lead| - 1] == ' ' && PlainName(name)
    ensures Matches(lead + more, name) <==> Matches(lead, name)
  {
    var s := lead + more;
    assert s[|lead| - 1] == ' ';
    assert s != name && lead != name by { assert forall i :: 0 <= i < |name| ==> PlainChar(name[i]); }
    if name + " " <= s {
      assert forall i :: 0 <= i < |name| ==> s[i] == name[i];
      assert |name| < |lead|;
      assert s[..|name| + 1] == lead[..|name| + 1];
    }
  }

  /** After a blank nothing matters any more. */
  lemma RewritabilityIsSettledByTheFirstBlank(lead: string, more: string)
    requires lead != [] && lead[|lead| - 1] == ' '
    ensures IsRewritable(lead + more) <==> IsRewritable(lead)
  {
    NamesArePlain();
    forall k | 0 <= k < |HOOK_COMMANDS|
      ensures Matches(lead + more, HOOK_COMMANDS[k]) <==> Matches(lead, HOOK_COMMANDS[k])
    {
      MatchesUpToBlank(lead, more, HOOK_COMMANDS[k]);
    }
    hide Matches, HOOK_COMMANDS;
  }

  /** Two shell commands that are not registered, and the prefix of commands that are wrapped. */
  lemma SomeAreNotRewritable()
    ensures !IsRewritable("ls") && !IsRewritable("echo") && !IsRewritable("echo ") && !IsRewritable("lean-ctx ")
  {
    NotInTools();
    NotInPlatforms();
    hide TOOL_COMMANDS, PLATFORM_COMMANDS;
  }

  predicate Unlike(name: string) {
    !Matches("ls", name) && !Matches("echo", name) && !Matches("echo ", name) && !Matches("lean-ctx ", name)
  }

  lemma NotInTools()
    ensures forall k :: 0 <= k < |TOOL_COMMANDS| ==> Unlike(TOOL_COMMANDS[k])
  {
    forall k | 0 <= k < |TOOL_COMMANDS|
      ensures Unlike(TOOL_COMMANDS[k])
    {
      UnlikeByTheFirstLetters(TOOL_COMMANDS[k]);
    }
  }

  lemma NotInPlatforms()
    ensures forall k :: 0 <= k < |PLATFORM_COMMANDS| ==> Unlike(PLATFORM_COMMANDS[k])
  {
    forall k | 0 <= k < |PLATFORM_COMMANDS|
      ensures Unlike(PLATFORM_COMMANDS[k])
    {
      UnlikeByTheFirstLetters(PLATFORM_COMMANDS[k]);
    }
  }

  lemma UnlikeByTheFirstLetters(name: string)
    requires |name| >= 2 && name[0] != 'l' && (name[0] != 'e' || name[1] != 'c')
    ensures Unlike(name)
  {
    assert forall cmd :: Matches(cmd, name) && |cmd| >= 2 ==> cmd[0] == name[0] && cmd[1] == name[1];
  }
}
