/**
 * Layered configuration: the parsed content of one config file, the merged engine state,
 * and the merge that `load_config`, `add_alias` and `add_repository` perform, stated as
 * folds over the document's entries. Later entries and later documents win, per alias
 * name and, inside a repository profile, per field.
 */
module Config {
  import opened Wrappers
  import opened Aliases

  /** One repository profile; a field is `Some` once some config file has set that key. */
  datatype RepoConfig = RepoConfig(
    repository: Option<string>,
    passphrase: Option<string>,
    sshKey: Option<string>,
    aliases: Option<AliasTable>)

  /** The profile `add_repository` creates for a name seen for the first time. */
  const EmptyRepo := RepoConfig(None, None, None, None)

  /** A parsed config file: `borg_binary` if present, and the entries of its `aliases` and
      `repositories` objects in document order (an absent object has no entries). A parsed JSON
      object holds one entry per key, the last one written for a repeated key, so a document
      names each alias and each repository at most once. */
  datatype ConfigDoc = ConfigDoc(
    borgBinary: Option<string>,
    aliases: seq<(string, string)>,
    repositories: seq<(string, RepoConfig)>)

  /** What loading configs builds up: binary path, global aliases, repository profiles. */
  datatype EngineState = EngineState(
    borgBinary: string,
    aliases: AliasTable,
    repositories: map<string, RepoConfig>)

  const DefaultBinary := "borg"
  const InitialState := EngineState(DefaultBinary, map[], map[])

  function Overwrite<T>(earlier: Option<T>, later: Option<T>): Option<T> {
    if later.Some? then later else earlier
  }

  /** `dict.update` on a profile: each key the later config has replaces the earlier value. */
  function UpdateRepo(earlier: RepoConfig, later: RepoConfig): RepoConfig {
    RepoConfig(
      Overwrite(earlier.repository, later.repository),
      Overwrite(earlier.passphrase, later.passphrase),
      Overwrite(earlier.sshKey, later.sshKey),
      Overwrite(earlier.aliases, later.aliases))
  }

  /** The profile a name has so far, or the empty one. */
  function Base(repositories: map<string, RepoConfig>, name: string): RepoConfig {
    if name in repositories then repositories[name] else EmptyRepo
  }

  /** One `add_repository`: create the profile empty if absent, then update it. */
  function WithRepository(repositories: map<string, RepoConfig>, name: string, config: RepoConfig): (r: map<string, RepoConfig>)
    ensures r.Keys == repositories.Keys + {name}
    ensures forall other :: other in repositories && other != name ==> r[other] == repositories[other]
  {
    repositories[name := UpdateRepo(Base(repositories, name), config)]
  }

  /** The names the entries mention. */
  function Names<V>(entries: seq<(string, V)>): set<string> {
    if entries == [] then {} else Names(entries[..|entries| - 1]) + {entries[|entries| - 1].0}
  }

  /** The value of the last entry with this name. */
  function LastValue<V>(entries: seq<(string, V)>, name: string): (r: Option<V>)
    ensures r.Some? <==> name in Names(entries)
    ensures r.Some? ==> exists i :: 0 <= i < |entries| && entries[i] == (name, r.value) &&
                          (forall j :: i < j < |entries| ==> entries[j].0 != name)
  {
    if entries == [] then None
    else if entries[|entries| - 1].0 == name then Some(entries[|entries| - 1].1)
    else LastValue(entries[..|entries| - 1], name)
  }

  /** The configs the entries give for one name, in order. */
  function ConfigsFor(entries: seq<(string, RepoConfig)>, name: string): seq<RepoConfig> {
    if entries == [] then []
    else
      var e := entries[|entries| - 1];
      ConfigsFor(entries[..|entries| - 1], name) + (if e.0 == name then [e.1] else [])
  }

  /** `add_alias` for every entry, in order. */
  function PutAll(aliases: AliasTable, entries: seq<(string, string)>): AliasTable {
    if entries == [] then aliases
    else
      var e := entries[|entries| - 1];
      PutAll(aliases, entries[..|entries| - 1])[e.0 := e.1]
  }

  /** `add_repository` for every entry, in order. */
  function UpdateAll(repositories: map<string, RepoConfig>, entries: seq<(string, RepoConfig)>): map<string, RepoConfig> {
    if entries == [] then repositories
    else
      var e := entries[|entries| - 1];
      WithRepository(UpdateAll(repositories, entries[..|entries| - 1]), e.0, e.1)
  }

  /** A profile updated by a list of configs in turn. */
  function UpdateRepoAll(base: RepoConfig, configs: seq<RepoConfig>): RepoConfig {
    if configs == [] then base else UpdateRepo(UpdateRepoAll(base, configs[..|configs| - 1]), configs[|configs| - 1])
  }

  /** The last `Some` among the values, or `init` when there is none. */
  function Latest<T>(init: Option<T>, values: seq<Option<T>>): Option<T> {
    if values == [] then init
    else if values[|values| - 1].Some? then values[|values| - 1]
    else Latest(init, values[..|values| - 1])
  }

  /** No value after position `i` is set. */
  predicate NoneAfter<T>(values: seq<Option<T>>, i: nat) {
    forall j :: i < j < |values| ==> values[j].None?
  }

  /** The last setting wins: with no setting the initial value stays, and otherwise the result
      is a setting that no later one follows. */
  lemma {:induction false} LatestIsLastSetting<T>(init: Option<T>, values: seq<Option<T>>)
    ensures (forall i :: 0 <= i < |values| ==> values[i].None?) ==> Latest(init, values) == init
    ensures (exists i :: 0 <= i < |values| && values[i].Some?) ==>
      exists i :: 0 <= i < |values| && values[i] == Latest(init, values) && values[i].Some? && NoneAfter(values, i)
  {
    if values != [] {
      var n := |values| - 1;
      var prefix := values[..n];
      var r := Latest(init, values);
      if values[n].Some? {
        assert values[n] == r && NoneAfter(values, n);
      } else {
        assert r == Latest(init, prefix);
        LatestIsLastSetting(init, prefix);
        assert forall i :: 0 <= i < n ==> prefix[i] == values[i];
        if exists k :: 0 <= k < |values| && values[k].Some? {
          var k :| 0 <= k < |values| && values[k].Some?;
          assert prefix[k].Some?;
          var i :| 0 <= i < n && prefix[i] == r && prefix[i].Some? && NoneAfter(prefix, i);
          assert NoneAfter(values, i) by {
            forall j | i < j < |values|
              ensures values[j].None?
            {
              if j < n {
                assert prefix[j] == values[j];
              }
            }
          }
          assert values[i] == r;
        }
      }
    }
  }

  /** One config file folded into the state (`load_config` on a file that exists). */
  function ApplyConfig(s: EngineState, doc: ConfigDoc): EngineState {
    EngineState(
      if doc.borgBinary.Some? then doc.borgBinary.value else s.borgBinary,
      PutAll(s.aliases, doc.aliases),
      UpdateAll(s.repositories, doc.repositories))
  }

  /** Several config files folded in order. */
  function ApplyConfigs(s: EngineState, docs: seq<ConfigDoc>): EngineState {
    if docs == [] then s else ApplyConfig(ApplyConfigs(s, docs[..|docs| - 1]), docs[|docs| - 1])
  }

  /** All alias entries of the documents, in load order. */
  function AliasEntries(docs: seq<ConfigDoc>): seq<(string, string)> {
    if docs == [] then [] else AliasEntries(docs[..|docs| - 1]) + docs[|docs| - 1].aliases
  }

  /** All repository entries of the documents, in load order. */
  function RepositoryEntries(docs: seq<ConfigDoc>): seq<(string, RepoConfig)> {
    if docs == [] then [] else RepositoryEntries(docs[..|docs| - 1]) + docs[|docs| - 1].repositories
  }

  /** The `borg_binary` setting of each document (`None` where it has none). */
  function BinarySettings(docs: seq<ConfigDoc>): seq<Option<string>> {
    seq(|docs|, i requires 0 <= i < |docs| => docs[i].borgBinary)
  }

  /** Each alias name ends up with the value of its last entry; names no entry mentions keep
      their earlier value, and no name disappears. */
  lemma {:induction false} PutAllAt(aliases: AliasTable, entries: seq<(string, string)>, name: string)
    ensures name in PutAll(aliases, entries) <==> name in aliases || name in Names(entries)
    ensures name in PutAll(aliases, entries) ==>
      PutAll(aliases, entries)[name] == if name in Names(entries) then LastValue(entries, name).value else aliases[name]
  {
    if entries != [] {
      PutAllAt(aliases, entries[..|entries| - 1], name);
    }
  }

  /** Aliases of one document after another: the same as one document holding both lists. */
  lemma {:induction false} PutAllAppend(aliases: AliasTable, a: seq<(string, string)>, b: seq<(string, string)>)
    ensures PutAll(PutAll(aliases, a), b) == PutAll(aliases, a + b)
    decreases |b|
  {
    if b != [] {
      PutAllAppend(aliases, a, b[..|b| - 1]);
      assert (a + b)[..|a + b| - 1] == a + b[..|b| - 1];
      assert (a + b)[|a + b| - 1] == b[|b| - 1];
    } else {
      assert a + b == a;
    }
  }

  /** Every name a repository entry mentions has a profile afterwards, and no profile disappears. */
  lemma {:induction false} UpdateAllKeys(repositories: map<string, RepoConfig>, entries: seq<(string, RepoConfig)>)
    ensures UpdateAll(repositories, entries).Keys == repositories.Keys + Names(entries)
  {
    if entries != [] {
      UpdateAllKeys(repositories, entries[..|entries| - 1]);
    }
  }

  /** A repository profile is the fold of the configs for its name over what it had before;
      names the entries do not mention keep their profile. */
  lemma {:induction false} UpdateAllAt(repositories: map<string, RepoConfig>, entries: seq<(string, RepoConfig)>, name: string)
    requires name in repositories || name in Names(entries)
    ensures name in UpdateAll(repositories, entries)
    ensures UpdateAll(repositories, entries)[name] == UpdateRepoAll(Base(repositories, name), ConfigsFor(entries, name))
  {
    UpdateAllKeys(repositories, entries);
    if entries != [] {
      var prefix := entries[..|entries| - 1];
      var e := entries[|entries| - 1];
      var cs := ConfigsFor(prefix, name);
      var before := UpdateAll(repositories, prefix);
      UpdateAllKeys(repositories, prefix);
      if name in repositories || name in Names(prefix) {
        UpdateAllAt(repositories, prefix, name);
        assert Base(before, name) == UpdateRepoAll(Base(repositories, name), cs);
      } else {
        ConfigsForUnnamed(prefix, name);
        assert Base(before, name) == UpdateRepoAll(Base(repositories, name), cs);
      }
      if e.0 == name {
        assert ConfigsFor(entries, name) == cs + [e.1];
        UpdateRepoAllSnoc(Base(repositories, name), cs, e.1);
      } else {
        assert ConfigsFor(entries, name) == cs + [];
        assert cs + [] == cs;
      }
    }
  }

  lemma UpdateRepoAllSnoc(base: RepoConfig, configs: seq<RepoConfig>, last: RepoConfig)
    ensures UpdateRepoAll(base, configs + [last]) == UpdateRepo(UpdateRepoAll(base, configs), last)
  {
    assert (configs + [last])[..|configs + [last]| - 1] == configs;
  }

  lemma {:induction false} ConfigsForUnnamed(entries: seq<(string, RepoConfig)>, name: string)
    requires name !in Names(entries)
    ensures ConfigsFor(entries, name) == []
  {
    if entries != [] {
      ConfigsForUnnamed(entries[..|entries| - 1], name);
    }
  }

  /** Repository entries of one document after another: the same as one document holding both. */
  lemma {:induction false} UpdateAllAppend(repositories: map<string, RepoConfig>, a: seq<(string, RepoConfig)>, b: seq<(string, RepoConfig)>)
    ensures UpdateAll(UpdateAll(repositories, a), b) == UpdateAll(repositories, a + b)
    decreases |b|
  {
    if b != [] {
      UpdateAllAppend(repositories, a, b[..|b| - 1]);
      assert (a + b)[..|a + b| - 1] == a + b[..|b| - 1];
      assert (a + b)[|a + b| - 1] == b[|b| - 1];
    } else {
      assert a + b == a;
    }
  }

  /** Inside a profile the later config wins field by field: each field holds the last value
      any config set for it, or the earlier value when none did. */
  lemma {:induction false} UpdateRepoAllFields(base: RepoConfig, configs: seq<RepoConfig>)
    ensures UpdateRepoAll(base, configs).repository == Latest(base.repository, seq(|configs|, i requires 0 <= i < |configs| => configs[i].repository))
    ensures UpdateRepoAll(base, configs).passphrase == Latest(base.passphrase, seq(|configs|, i requires 0 <= i < |configs| => configs[i].passphrase))
    ensures UpdateRepoAll(base, configs).sshKey == Latest(base.sshKey, seq(|configs|, i requires 0 <= i < |configs| => configs[i].sshKey))
    ensures UpdateRepoAll(base, configs).aliases == Latest(base.aliases, seq(|configs|, i requires 0 <= i < |configs| => configs[i].aliases))
  {
    if configs != [] {
      var prefix := configs[..|configs| - 1];
      UpdateRepoAllFields(base, prefix);
      assert seq(|configs|, i requires 0 <= i < |configs| => configs[i].repository)[..|configs| - 1] ==
        seq(|prefix|, i requires 0 <= i < |prefix| => prefix[i].repository);
      assert seq(|configs|, i requires 0 <= i < |configs| => configs[i].passphrase)[..|configs| - 1] ==
        seq(|prefix|, i requires 0 <= i < |prefix| => prefix[i].passphrase);
      assert seq(|configs|, i requires 0 <= i < |configs| => configs[i].sshKey)[..|configs| - 1] ==
        seq(|prefix|, i requires 0 <= i < |prefix| => prefix[i].sshKey);
      assert seq(|configs|, i requires 0 <= i < |configs| => configs[i].aliases)[..|configs| - 1] ==
        seq(|prefix|, i requires 0 <= i < |prefix| => prefix[i].aliases);
    }
  }

  /** Loading several files is one merge over all their alias entries and all their
      repository entries, in load order; the binary path is the last one any file sets. */
  lemma {:induction false} ApplyConfigsMerged(s: EngineState, docs: seq<ConfigDoc>)
    ensures ApplyConfigs(s, docs).aliases == PutAll(s.aliases, AliasEntries(docs))
    ensures ApplyConfigs(s, docs).repositories == UpdateAll(s.repositories, RepositoryEntries(docs))
    ensures Some(ApplyConfigs(s, docs).borgBinary) == Latest(Some(s.borgBinary), BinarySettings(docs))
  {
    if docs != [] {
      var prefix := docs[..|docs| - 1];
      var d := docs[|docs| - 1];
      ApplyConfigsMerged(s, prefix);
      PutAllAppend(s.aliases, AliasEntries(prefix), d.aliases);
      UpdateAllAppend(s.repositories, RepositoryEntries(prefix), d.repositories);
      assert BinarySettings(docs)[..|docs| - 1] == BinarySettings(prefix);
    }
  }

  /** An alias defined in several loaded files has the value of the last definition. */
  lemma LaterAliasWins(s: EngineState, docs: seq<ConfigDoc>, name: string)
    requires name in Names(AliasEntries(docs))
    ensures name in ApplyConfigs(s, docs).aliases
    ensures ApplyConfigs(s, docs).aliases[name] == LastValue(AliasEntries(docs), name).value
  {
    ApplyConfigsMerged(s, docs);
    PutAllAt(s.aliases, AliasEntries(docs), name);
  }

  /** Alias runs with no name in common can be added in either order. */
  lemma PutAllDisjointCommutes(aliases: AliasTable, a: seq<(string, string)>, b: seq<(string, string)>)
    requires Names(a) !! Names(b)
    ensures PutAll(PutAll(aliases, a), b) == PutAll(PutAll(aliases, b), a)
  {
    var ab := PutAll(PutAll(aliases, a), b);
    var ba := PutAll(PutAll(aliases, b), a);
    forall name
      ensures name in ab <==> name in ba
      ensures name in ab ==> ab[name] == ba[name]
    {
      PutAllAt(aliases, a, name);
      PutAllAt(aliases, b, name);
      PutAllAt(PutAll(aliases, a), b, name);
      PutAllAt(PutAll(aliases, b), a, name);
    }
  }

  /** With no profile name in common, each profile ends up the same in either load order. */
  lemma UpdateAllDisjointCommutesAt(repositories: map<string, RepoConfig>, a: seq<(string, RepoConfig)>,
                                    b: seq<(string, RepoConfig)>, name: string)
    requires Names(a) !! Names(b)
    requires name in repositories || name in Names(a) || name in Names(b)
    ensures name in UpdateAll(UpdateAll(repositories, a), b) && name in UpdateAll(UpdateAll(repositories, b), a)
    ensures UpdateAll(UpdateAll(repositories, a), b)[name] == UpdateAll(UpdateAll(repositories, b), a)[name]
  {
    var ra := UpdateAll(repositories, a);
    var rb := UpdateAll(repositories, b);
    UpdateAllKeys(repositories, a);
    UpdateAllKeys(repositories, b);
    UpdateAllKeys(ra, b);
    UpdateAllKeys(rb, a);
    if name in Names(a) {
      ConfigsForUnnamed(b, name);
      UpdateAllAt(repositories, a, name);
      UpdateAllAt(ra, b, name);
      UpdateAllAt(rb, a, name);
      if name in repositories {
        UpdateAllAt(repositories, b, name);
      }
    } else if name in Names(b) {
      ConfigsForUnnamed(a, name);
      UpdateAllAt(repositories, b, name);
      UpdateAllAt(rb, a, name);
      UpdateAllAt(ra, b, name);
      if name in repositories {
        UpdateAllAt(repositories, a, name);
      }
    } else {
      ConfigsForUnnamed(a, name);
      ConfigsForUnnamed(b, name);
      UpdateAllAt(repositories, a, name);
      UpdateAllAt(ra, b, name);
      UpdateAllAt(repositories, b, name);
      UpdateAllAt(rb, a, name);
    }
  }

  /** Profile runs with no name in common can be loaded in either order. */
  lemma UpdateAllDisjointCommutes(repositories: map<string, RepoConfig>, a: seq<(string, RepoConfig)>, b: seq<(string, RepoConfig)>)
    requires Names(a) !! Names(b)
    ensures UpdateAll(UpdateAll(repositories, a), b) == UpdateAll(UpdateAll(repositories, b), a)
  {
    var rab := UpdateAll(UpdateAll(repositories, a), b);
    var rba := UpdateAll(UpdateAll(repositories, b), a);
    UpdateAllKeys(repositories, a);
    UpdateAllKeys(repositories, b);
    UpdateAllKeys(UpdateAll(repositories, a), b);
    UpdateAllKeys(UpdateAll(repositories, b), a);
    forall name | name in rab
      ensures rab[name] == rba[name]
    {
      UpdateAllDisjointCommutesAt(repositories, a, b, name);
    }
  }

  /** Two files that share no alias name and no repository name, and do not both set the
      binary, can be loaded in either order with the same result. */
  lemma ApplyConfigDisjointCommutes(s: EngineState, a: ConfigDoc, b: ConfigDoc)
    requires Names(a.aliases) !! Names(b.aliases)
    requires Names(a.repositories) !! Names(b.repositories)
    requires a.borgBinary.None? || b.borgBinary.None?
    ensures ApplyConfig(ApplyConfig(s, a), b) == ApplyConfig(ApplyConfig(s, b), a)
  {
    PutAllDisjointCommutes(s.aliases, a.aliases, b.aliases);
    UpdateAllDisjointCommutes(s.repositories, a.repositories, b.repositories);
  }

}
