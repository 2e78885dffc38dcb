/**
 * Alias resolution (`BorgHelper.resolve_alias`): a one-level rewrite of the first
 * argument, and the two-tier use of it that `execute_borg` makes (the repository's
 * own table first, then the global table).
 */
module Aliases {
  import opened Text

  /** Alias name to expansion string. */
  type AliasTable = map<string, string>

  /** The words an expansion string stands for: the string cut at every single space. */
  function Expansion(aliases: AliasTable, name: string): seq<string>
    requires name in aliases
  {
    Split(aliases[name], ' ')
  }

  /** Replaces a leading alias by its expansion followed by the remaining arguments.
      The expansion itself is not looked up again. */
  function ResolveAlias(arguments: seq<string>, aliases: AliasTable): (r: seq<string>)
    ensures arguments == [] ==> r == []
    ensures arguments != [] && arguments[0] !in aliases ==> r == arguments
    ensures arguments != [] && arguments[0] in aliases ==> r == Expansion(aliases, arguments[0]) + arguments[1..]
  {
    if |arguments| == 0 then []
    else if arguments[0] !in aliases then arguments
    else Expansion(aliases, arguments[0]) + arguments[1..]
  }

  /** Resolution against the repository's table, then the global one: one pass per table. */
  function ResolveTwoTier(arguments: seq<string>, repositoryAliases: AliasTable, globalAliases: AliasTable): seq<string>
  {
    ResolveAlias(ResolveAlias(arguments, repositoryAliases), globalAliases)
  }

  /** Whatever followed the first argument is kept, in order, at the end of the result. */
  lemma ResolveKeepsRest(arguments: seq<string>, aliases: AliasTable)
    requires arguments != []
    ensures var r := ResolveAlias(arguments, aliases);
      |r| >= |arguments| && r[|r| - (|arguments| - 1)..] == arguments[1..]
  {
    var r := ResolveAlias(arguments, aliases);
    if arguments[0] in aliases {
      assert r[|r| - (|arguments| - 1)..] == arguments[1..];
    }
  }

  /** The expansion is not resolved again, even when its first word is itself an alias:
      resolving a command whose alias expands to `w ...` leaves `w` in place. */
  lemma ResolveIsOneLevel(arguments: seq<string>, aliases: AliasTable)
    requires arguments != [] && arguments[0] in aliases
    ensures var r := ResolveAlias(arguments, aliases);
      var e := Expansion(aliases, arguments[0]);
      r[..|e|] == e && r[0] == e[0]
  {
  }

  /** On the command line the rewrite is a textual one: the alias's expansion string takes the
      alias's place, and the rest of the line is unchanged. */
  lemma {:induction false} ResolveAsText(arguments: seq<string>, aliases: AliasTable)
    requires arguments != [] && arguments[0] in aliases
    ensures Join(ResolveAlias(arguments, aliases), ' ') ==
      if |arguments| == 1 then aliases[arguments[0]]
      else aliases[arguments[0]] + " " + Join(arguments[1..], ' ')
  {
    var e := Expansion(aliases, arguments[0]);
    JoinSplit(aliases[arguments[0]], ' ');
    if |arguments| == 1 {
      assert ResolveAlias(arguments, aliases) == e;
    } else {
      JoinAppend(e, arguments[1..], ' ');
    }
  }

  /** A repository alias shadows a global alias of the same name: the global table is only
      consulted for the first word of the repository's expansion. */
  lemma RepositoryAliasShadowsGlobal(arguments: seq<string>, repositoryAliases: AliasTable, globalAliases: AliasTable)
    requires arguments != [] && arguments[0] in repositoryAliases
    requires Expansion(repositoryAliases, arguments[0])[0] !in globalAliases
    ensures ResolveTwoTier(arguments, repositoryAliases, globalAliases) ==
      Expansion(repositoryAliases, arguments[0]) + arguments[1..]
  {
  }

  /** A repository alias can feed a global one: when the repository expansion starts with a
      global alias name, that word is expanded by the global table. */
  lemma RepositoryAliasFeedsGlobal(arguments: seq<string>, repositoryAliases: AliasTable, globalAliases: AliasTable)
    requires arguments != [] && arguments[0] in repositoryAliases
    requires Expansion(repositoryAliases, arguments[0])[0] in globalAliases
    ensures var e := Expansion(repositoryAliases, arguments[0]);
      ResolveTwoTier(arguments, repositoryAliases, globalAliases) ==
      Expansion(globalAliases, e[0]) + e[1..] + arguments[1..]
  {
    var e := Expansion(repositoryAliases, arguments[0]);
    assert (e + arguments[1..])[1..] == e[1..] + arguments[1..];
  }

  /** `create --stats` splits into its two words. */
  lemma SplitCreateStats()
    ensures Split("create --stats", ' ') == ["create", "--stats"]
  {
    var expansion := ["create", "--stats"];
    assert Join(expansion, ' ') == "create --stats";
    SplitJoin(expansion, ' ');
  }

  /** `backup` standing for `create --stats`, with and without trailing arguments, and an
      unknown command. */
  lemma ResolveExamples()
    ensures ResolveAlias(["backup"], map["backup" := "create --stats"]) == ["create", "--stats"]
    ensures ResolveAlias(["backup", "--dry-run"], map["backup" := "create --stats"]) == ["create", "--stats", "--dry-run"]
    ensures ResolveAlias(["unknown"], map["backup" := "create --stats"]) == ["unknown"]
  {
    var aliases := map["backup" := "create --stats"];
    assert Expansion(aliases, "backup") == ["create", "--stats"] by {
      SplitCreateStats();
    }
    assert ResolveAlias(["backup"], aliases) == ["create", "--stats"] by {
      assert ["backup"][1..] == [];
    }
    assert ResolveAlias(["backup", "--dry-run"], aliases) == ["create", "--stats", "--dry-run"] by {
      assert ["backup", "--dry-run"][1..] == ["--dry-run"];
    }
    assert "unknown" !in aliases;
  }
}
