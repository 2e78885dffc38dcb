/**
 * The command-line front end: `parse_arguments`, which reads leading `-xyz` option tokens
 * into a set of option letters, and the split of `BORG_HELPER_CONFIGS` into extra config paths.
 */
module Cli {
  import opened Text

  /** The characters `str.strip("-")` removes. */
  const Dashes: set<char> := {'-'}

  /** The environment variable that names extra config files, separated by `:`. */
  const ConfigsVariable: string := "BORG_HELPER_CONFIGS"

  /** A token that counts as options: it starts with `-` and is longer than one character,
      so a lone `-` is an ordinary argument. */
  predicate IsOptionToken(token: string) {
    |token| > 1 && token[0] == '-'
  }

  /** How many tokens at the front of `argv` are option tokens. */
  function LeadingOptionCount(argv: seq<string>): (k: nat)
    ensures k <= |argv|
    ensures forall i :: 0 <= i < k ==> IsOptionToken(argv[i])
    ensures k < |argv| ==> !IsOptionToken(argv[k])
    decreases |argv|
  {
    if argv != [] && IsOptionToken(argv[0]) then 1 + LeadingOptionCount(argv[1..]) else 0
  }

  /** The set of characters of a string. */
  function CharsOf(s: string): set<char> {
    if s == [] then {} else CharsOf(s[..|s| - 1]) + {s[|s| - 1]}
  }

  /** A character is in `CharsOf(s)` exactly when it occurs in `s`. */
  lemma {:induction false} CharsOfMembership(s: string, c: char)
    ensures c in CharsOf(s) <==> c in s
    decreases |s|
  {
    if s != [] {
      CharsOfMembership(s[..|s| - 1], c);
      assert s == s[..|s| - 1] + [s[|s| - 1]];
    }
  }

  /** The option letters a run of option tokens contributes: the characters of each token
      with its leading and trailing dashes stripped. */
  function OptionChars(tokens: seq<string>): set<char> {
    if tokens == [] then {}
    else OptionChars(tokens[..|tokens| - 1]) + CharsOf(Strip(tokens[|tokens| - 1], Dashes))
  }

  /** One more option token adds the letters of that token. */
  lemma OptionCharsSnoc(tokens: seq<string>, token: string)
    ensures OptionChars(tokens + [token]) == OptionChars(tokens) + CharsOf(Strip(token, Dashes))
  {
    assert (tokens + [token])[..|tokens|] == tokens;
  }

  /** A letter is an option exactly when some option token holds it once its dashes are stripped. */
  lemma {:induction false} OptionCharsMembership(tokens: seq<string>, c: char)
    ensures c in OptionChars(tokens) <==> exists i :: 0 <= i < |tokens| && c in Strip(tokens[i], Dashes)
    decreases |tokens|
  {
    if tokens != [] {
      var init := tokens[..|tokens| - 1];
      OptionCharsMembership(init, c);
      CharsOfMembership(Strip(tokens[|tokens| - 1], Dashes), c);
      if c in OptionChars(tokens) && c !in OptionChars(init) {
        assert c in Strip(tokens[|tokens| - 1], Dashes);
      }
      if exists i :: 0 <= i < |tokens| && c in Strip(tokens[i], Dashes) {
        var i :| 0 <= i < |tokens| && c in Strip(tokens[i], Dashes);
        if i < |tokens| - 1 {
          assert init[i] == tokens[i];
        }
      }
    }
  }

  /** The option run is the longest prefix of option tokens: any `k` with only option tokens
      before it and a non-option token (or the end) at it is that count. */
  lemma {:induction false} LeadingOptionCountUnique(argv: seq<string>, k: nat)
    requires k <= |argv|
    requires forall i :: 0 <= i < k ==> IsOptionToken(argv[i])
    requires k < |argv| ==> !IsOptionToken(argv[k])
    ensures LeadingOptionCount(argv) == k
    decreases k
  {
    if k > 0 {
      LeadingOptionCountUnique(argv[1..], k - 1);
    }
  }

  /** The inner loop of `parse_arguments`: adds each letter of the dash-stripped token. */
  method AddOptionLetters(options: set<char>, token: string) returns (result: set<char>)
    ensures result == options + CharsOf(Strip(token, Dashes))
  {
    var letters := Strip(token, Dashes);
    result := options;
    for j := 0 to |letters|
      invariant result == options + CharsOf(letters[..j])
    {
      result := result + {letters[j]};
      assert letters[..j + 1][..j] == letters[..j];
    }
    assert letters[..|letters|] == letters;
  }

  /** `parse_arguments` over the arguments after the program name: leading option tokens add
      their letters to `options`; the first other token and everything after it, option-like
      or not, become `arguments` unchanged. */
  method ParseArguments(argv: seq<string>) returns (options: set<char>, arguments: seq<string>)
    ensures arguments == argv[LeadingOptionCount(argv)..]
    ensures options == OptionChars(argv[..LeadingOptionCount(argv)])
  {
    options := {};
    arguments := [];
    var index := 0;
    while index < |argv|
      invariant 0 <= index <= LeadingOptionCount(argv)
      invariant options == OptionChars(argv[..index])
      invariant arguments == []
    {
      var argument := argv[index];
      if IsOptionToken(argument) {
        assert index < LeadingOptionCount(argv);
        options := AddOptionLetters(options, argument);
        assert options == OptionChars(argv[..index + 1]) by {
          TakeOneMore(argv, index);
          OptionCharsSnoc(argv[..index], argument);
        }
      } else {
        assert LeadingOptionCount(argv) == index;
        arguments := argv[index..];
        return;
      }
      index := index + 1;
    }
    assert LeadingOptionCount(argv) == index;
  }

  /** Prepending option tokens to an argument list that starts with a non-option token leaves
      that list intact as the arguments, and the options are the letters of the prepended tokens. */
  lemma ParseOptionsThenArguments(optionTokens: seq<string>, rest: seq<string>)
    requires forall i :: 0 <= i < |optionTokens| ==> IsOptionToken(optionTokens[i])
    requires rest == [] || !IsOptionToken(rest[0])
    ensures LeadingOptionCount(optionTokens + rest) == |optionTokens|
    ensures (optionTokens + rest)[LeadingOptionCount(optionTokens + rest)..] == rest
    ensures (optionTokens + rest)[..LeadingOptionCount(optionTokens + rest)] == optionTokens
  {
    var argv := optionTokens + rest;
    assert forall i :: 0 <= i < |optionTokens| ==> argv[i] == optionTokens[i];
    LeadingOptionCountUnique(argv, |optionTokens|);
    assert argv[|optionTokens|..] == rest;
    assert argv[..|optionTokens|] == optionTokens;
  }

  /** The usage examples: `-di repo list` and `-i repo -d`, where the late `-d` is passed on. */
  lemma ParseExamples()
    ensures LeadingOptionCount(["-di", "repo", "list"]) == 1
    ensures OptionChars(["-di"]) == {'d', 'i'}
    ensures LeadingOptionCount(["-i", "repo", "-d"]) == 1
    ensures LeadingOptionCount(["-", "repo"]) == 0
  {
    StripUntrimmed("di", Dashes);
    assert Strip("-di", Dashes) == Strip("di", Dashes);
    assert OptionChars(["-di"]) == OptionChars([]) + CharsOf(Strip("-di", Dashes));
  }

  /** The parts of a split that are left once surrounding whitespace is stripped, the empty
      ones dropped. */
  function CleanPaths(parts: seq<string>): (paths: seq<string>)
    ensures |paths| <= |parts|
    ensures forall i :: 0 <= i < |paths| ==> paths[i] != [] && Strip(paths[i], Whitespace) == paths[i]
  {
    if parts == [] then []
    else
      var init := CleanPaths(parts[..|parts| - 1]);
      var path := Strip(parts[|parts| - 1], Whitespace);
      StripIdempotent(parts[|parts| - 1], Whitespace);
      if path == [] then init else init + [path]
  }

  /** One part is kept, stripped, when something is left of it, and dropped otherwise. */
  lemma CleanPathsSingle(part: string)
    ensures CleanPaths([part]) ==
      if Strip(part, Whitespace) == [] then [] else [Strip(part, Whitespace)]
  {
    assert [part][..0] == [];
  }

  /** The parts are cleaned one after the other, so every kept part keeps its place. */
  lemma {:induction false} CleanPathsAppend(a: seq<string>, b: seq<string>)
    ensures CleanPaths(a + b) == CleanPaths(a) + CleanPaths(b)
    decreases |b|
  {
    if b == [] {
      assert a + b == a;
    } else {
      var init := b[..|b| - 1];
      assert (a + b)[..|a + b| - 1] == a + init;
      CleanPathsAppend(a, init);
    }
  }

  /** A character none of the parts holds is in none of the cleaned paths. */
  lemma {:induction false} CleanPathsWithout(parts: seq<string>, c: char)
    requires forall j :: 0 <= j < |parts| ==> c !in parts[j]
    ensures forall i :: 0 <= i < |CleanPaths(parts)| ==> c !in CleanPaths(parts)[i]
    decreases |parts|
  {
    if parts != [] {
      CleanPathsWithout(parts[..|parts| - 1], c);
      StripAddsNothing(parts[|parts| - 1], Whitespace, c);
    }
  }

  /** The extra config paths `main` reads from `BORG_HELPER_CONFIGS`: the value (empty when
      unset) split at every `:`, each part stripped, empty parts dropped. */
  function ConfigPathsFromEnvironment(environ: map<string, string>): (paths: seq<string>)
    ensures forall i :: 0 <= i < |paths| ==> paths[i] != [] && ':' !in paths[i]
    ensures forall i :: 0 <= i < |paths| ==> Strip(paths[i], Whitespace) == paths[i]
  {
    var value := if ConfigsVariable in environ then environ[ConfigsVariable] else "";
    var parts := Split(value, ':');
    CleanPathsWithout(parts, ':');
    CleanPaths(parts)
  }

  /** Without the variable, or with it empty, there are no extra paths. */
  lemma NoExtraConfigPaths(environ: map<string, string>)
    requires ConfigsVariable !in environ || environ[ConfigsVariable] == ""
    ensures ConfigPathsFromEnvironment(environ) == []
  {
    assert Split("", ':') == [""];
    assert CleanPaths([""]) == CleanPaths([]);
  }

  /** The value `" a : :b"` splits at `:` into three parts. */
  lemma SplitConfigsExample()
    ensures Split(" a : :b", ':') == [" a ", " ", "b"]
  {
    var parts := [" a ", " ", "b"];
    assert parts[1..][1..] == ["b"];
    assert Join(parts, ':') == " a : :b";
    SplitJoin(parts, ':');
  }

  /** A character between two spaces is what stripping leaves, and a lone space strips to nothing. */
  lemma StripPaddedExample(c: char)
    requires c !in Whitespace
    ensures Strip([' ', c, ' '], Whitespace) == [c]
    ensures Strip([' '], Whitespace) == []
  {
    assert [' ', c, ' '][1..] == [c, ' '];
    assert TrimStart([' ', c, ' '], Whitespace) == [c, ' '];
    assert [c, ' '][..1] == [c];
    assert TrimEnd([c, ' '], Whitespace) == [c];
    assert TrimStart([' '], Whitespace) == [];
  }

  /** Three parts clean to what each cleans to, in order. */
  lemma CleanThreeParts(p: string, q: string, r: string)
    ensures CleanPaths([p, q, r]) == CleanPaths([p]) + CleanPaths([q]) + CleanPaths([r])
  {
    CleanPathsAppend([p], [q]);
    assert [p] + [q] == [p, q];
    CleanPathsAppend([p, q], [r]);
    assert [p, q] + [r] == [p, q, r];
  }

  /** Of three parts, the middle one blank once stripped, the outer two are kept, stripped. */
  lemma CleanPathsDropsBlank(p: string, q: string, r: string)
    requires Strip(p, Whitespace) != [] && Strip(q, Whitespace) == [] && Strip(r, Whitespace) != []
    ensures CleanPaths([p, q, r]) == [Strip(p, Whitespace), Strip(r, Whitespace)]
  {
    CleanThreeParts(p, q, r);
    CleanPathsSingle(p);
    CleanPathsSingle(q);
    CleanPathsSingle(r);
  }

  /** `" a : :b"` splits into a part that strips to `a`, a blank part and the part `b`. */
  lemma ConfigPartsExample(value: string)
    requires value == " a : :b"
    ensures var parts := Split(value, ':');
      |parts| == 3 && Strip(parts[0], Whitespace) == "a" && Strip(parts[1], Whitespace) == []
      && Strip(parts[2], Whitespace) == "b"
  {
    assert 'a' !in Whitespace && 'b' !in Whitespace;
    var parts := Split(value, ':');
    assert |parts| == 3 && parts[0] == " a " && parts[1] == " " && parts[2] == "b" by {
      SplitConfigsExample();
    }
    assert Strip(parts[0], Whitespace) == "a" && Strip(parts[1], Whitespace) == [] by {
      StripPaddedExample('a');
    }
    StripUntrimmed(parts[2], Whitespace);
  }

  /** `" a : :b"` gives the paths `a` and `b`: the blank part is dropped, the others stripped. */
  lemma ConfigPathsExample(environ: map<string, string>)
    requires ConfigsVariable in environ && environ[ConfigsVariable] == " a : :b"
    ensures ConfigPathsFromEnvironment(environ) == ["a", "b"]
  {
    var parts := Split(environ[ConfigsVariable], ':');
    ConfigPartsExample(environ[ConfigsVariable]);
    CleanPathsDropsBlank(parts[0], parts[1], parts[2]);
    assert parts == [parts[0], parts[1], parts[2]];
  }

  /** Parts that are already clean are kept, in order. */
  lemma {:induction false} CleanPathsKeepsClean(parts: seq<string>)
    requires forall i :: 0 <= i < |parts| ==> parts[i] != [] && Strip(parts[i], Whitespace) == parts[i]
    ensures CleanPaths(parts) == parts
    decreases |parts|
  {
    if parts != [] {
      var n := |parts| - 1;
      var init := parts[..n];
      assert forall i :: 0 <= i < |init| ==> init[i] == parts[i];
      CleanPathsKeepsClean(init);
      assert CleanPaths(parts) == CleanPaths(init) + [parts[n]];
      Snoc(parts);
    }
  }

  /** Any list of non-empty, colon-free paths without surrounding whitespace, joined with `:`
      into the variable, is read back exactly. */
  lemma ConfigPathsRoundTrip(environ: map<string, string>, paths: seq<string>)
    requires |paths| >= 1
    requires forall i :: 0 <= i < |paths| ==> paths[i] != [] && ':' !in paths[i]
    requires forall i :: 0 <= i < |paths| ==> paths[i][0] !in Whitespace && paths[i][|paths[i]| - 1] !in Whitespace
    requires ConfigsVariable in environ && environ[ConfigsVariable] == Join(paths, ':')
    ensures ConfigPathsFromEnvironment(environ) == paths
  {
    SplitJoin(paths, ':');
    forall i | 0 <= i < |paths|
      ensures Strip(paths[i], Whitespace) == paths[i]
    {
      StripUntrimmed(paths[i], Whitespace);
    }
    CleanPathsKeepsClean(paths);
  }
}
