/**
 * The changelog renderer of braulio/files.py: reStructuredText titles, the bullet
 * list of one action's commits (scopeless commits first, then one entry per scope),
 * the markup of a release, and the splice of that markup under the changelog's
 * three-line heading. braulio/changelog.py carries identical copies of the title,
 * sublist and list helpers and of the splice; these members model both.
 */
module Markup {
  import opened Wrappers
  import opened Text
  import opened Dicts
  import opened GitLog
  import opened Grouping
  import opened Versions

  // ---------------------------------------------------------------------------
  // _make_title

  /** `['=', '-', '~'][level - 1]`, negative indices counting from the end as in Python. */
  function UnderlineChar(level: int): char
    requires -2 <= level <= 3
  {
    var underlines := ['=', '-', '~'];
    underlines[if level >= 1 then level - 1 else level + 2]
  }

  /** `_make_title(title, level)`: the title, an underline as long as it, and a blank line. */
  function MakeTitle(title: string, level: int): (r: string)
    requires -2 <= level <= 3
    ensures |r| == 2 * |title| + 3
    ensures r[..|title|] == title && r[|title|] == '\n' && r[|r| - 2..] == "\n\n"
    ensures forall i :: |title| < i < |r| - 2 ==> r[i] == UnderlineChar(level)
  {
    var r := title + "\n" + Repeat(UnderlineChar(level), |title|) + "\n\n";
    assert forall i :: |title| < i < |r| - 2 ==> r[i] == Repeat(UnderlineChar(level), |title|)[i - |title| - 1];
    r
  }

  /** A one-line title renders as exactly three lines: the title, its underline and a blank one. */
  lemma TitleLines(title: string, level: int)
    requires -2 <= level <= 3 && '\n' !in title
    ensures Split(MakeTitle(title, level), '\n') == [title, Repeat(UnderlineChar(level), |title|), "", ""]
  {
    var u := Repeat(UnderlineChar(level), |title|);
    assert Lines([""]) == "\n";
    assert Lines([u, ""]) == u + "\n" + "\n" by { assert [u, ""][1..] == [""]; }
    assert Lines([title, u, ""]) == title + "\n" + Lines([u, ""]) by { assert [title, u, ""][1..] == [u, ""]; }
    assert MakeTitle(title, level) == Lines([title, u, ""]);
    SplitLines([title, u, ""]);
  }

  lemma TitleExamples()
    ensures MakeTitle("Title", 1) == "Title\n=====\n\n"
    ensures MakeTitle("Title", 2) == "Title\n-----\n\n"
    ensures MakeTitle("Title", 3) == "Title\n~~~~~\n\n"
  {
    assert Repeat('=', 5) == "=====";
    assert Repeat('-', 5) == "-----";
    assert Repeat('~', 5) == "~~~~~";
  }

  // ---------------------------------------------------------------------------
  // _make_sublist

  function SublistLines(cs: seq<Commit>): (lines: seq<string>)
    ensures |lines| == |cs| && forall i :: 0 <= i < |cs| ==> lines[i] == "  - " + cs[i].subject
  {
    seq(|cs|, i requires 0 <= i < |cs| => "  - " + cs[i].subject)
  }

  /** `_make_sublist(commits)`: one `  - subject` line per commit, in order. */
  method MakeSublist(commits: seq<Commit>) returns (markup: string)
    ensures markup == Lines(SublistLines(commits))
  {
    markup := "";
    for i := 0 to |commits|
      invariant markup == Lines(SublistLines(commits[..i]))
    {
      var line := "  - " + commits[i].subject;
      assert SublistLines(commits[..i + 1]) == SublistLines(commits[..i]) + [line];
      LinesAppend(SublistLines(commits[..i]), [line]);
      markup := markup + "  - " + commits[i].subject + "\n";
    }
    assert commits[..|commits|] == commits;
  }

  /** With one-line subjects, the sublist's lines are the commits' items, in order. */
  lemma SublistRoundTrip(cs: seq<Commit>)
    requires forall i :: 0 <= i < |cs| ==> '\n' !in cs[i].subject
    ensures Split(Lines(SublistLines(cs)), '\n') == SublistLines(cs) + [""]
  {
    var lines := SublistLines(cs);
    forall i | 0 <= i < |lines| ensures '\n' !in lines[i] {
      assert '\n' !in "  - ";
    }
    SplitLines(lines);
  }

  // ---------------------------------------------------------------------------
  // _make_list

  /** What `_make_list` needs: a `scopeless` bucket and at least one commit in every other. */
  ghost predicate Listable(d: ScopeDict) {
    d.Valid() && Scopeless in d.values && forall s :: s in d.values && s != Scopeless ==> d.values[s] != []
  }

  /** Every listed key has a value, and that value holds at least one commit. */
  predicate Filled(d: ScopeDict) {
    forall i :: 0 <= i < |d.keys| ==> d.keys[i] in d.values && d.values[d.keys[i]] != []
  }

  /** Once `scopeless` is deleted, every scope left has commits to list. */
  lemma RestFilled(d: ScopeDict)
    requires Listable(d)
    ensures Filled(d.Remove(Scopeless))
  {
    var rest := d.Remove(Scopeless);
    forall i | 0 <= i < |rest.keys| ensures rest.keys[i] in rest.values && rest.values[rest.keys[i]] != [] {
      assert rest.keys[i] in rest.keys;
    }
  }

  function ScopelessLines(cs: seq<Commit>): (lines: seq<string>)
    ensures |lines| == |cs| && forall i :: 0 <= i < |cs| ==> lines[i] == "* " + cs[i].subject
  {
    seq(|cs|, i requires 0 <= i < |cs| => "* " + cs[i].subject)
  }

  /** One scope: `* scope - subject` for a single commit, else `* scope`, a blank line and the sublist. */
  function ScopeEntry(name: string, commits: seq<Commit>): string
    requires commits != []
  {
    if |commits| > 1 then "* " + name + "\n\n" + Lines(SublistLines(commits))
    else "* " + name + " - " + commits[0].subject + "\n"
  }

  /** The entries of the first `n` scopes of `d`, in key order. */
  function Entries(d: ScopeDict, n: nat): string
    requires n <= |d.keys| && Filled(d)
  {
    if n == 0 then ""
    else
      var name := d.keys[n - 1];
      Entries(d, n - 1) + ScopeEntry(name, d.values[name])
  }

  /** One more scope: its entry follows the entries before it. */
  lemma EntriesStep(d: ScopeDict, i: nat)
    requires i < |d.keys| && Filled(d)
    ensures d.keys[i] in d.values && d.values[d.keys[i]] != []
    ensures Entries(d, i + 1) == Entries(d, i) + ScopeEntry(d.keys[i], d.values[d.keys[i]])
  {
  }

  /** The list markup of a scope dict: scopeless items, the other scopes in order, a final newline. */
  ghost function ListMarkup(d: ScopeDict): string
    requires Listable(d)
  {
    var rest := d.Remove(Scopeless);
    RestFilled(d);
    Lines(ScopelessLines(d.values[Scopeless])) + Entries(rest, |rest.keys|) + "\n"
  }

  /** The scopeless items, as the first loop of `_make_list` writes them. */
  method MakeScopelessItems(scopeless: seq<Commit>) returns (markup: string)
    ensures markup == Lines(ScopelessLines(scopeless))
  {
    markup := "";
    for i := 0 to |scopeless|
      invariant markup == Lines(ScopelessLines(scopeless[..i]))
    {
      var line := "* " + scopeless[i].subject;
      assert ScopelessLines(scopeless[..i + 1]) == ScopelessLines(scopeless[..i]) + [line];
      LinesAppend(ScopelessLines(scopeless[..i]), [line]);
      markup := markup + "* " + scopeless[i].subject + "\n";
    }
    assert scopeless[..|scopeless|] == scopeless;
  }

  /** The scope entries, as the second loop of `_make_list` writes them. */
  method MakeEntries(rest: ScopeDict) returns (markup: string)
    requires Filled(rest)
    ensures markup == Entries(rest, |rest.keys|)
  {
    markup := "";
    for i := 0 to |rest.keys|
      invariant markup == Entries(rest, i)
    {
      EntriesStep(rest, i);
      var scopeName := rest.keys[i];
      var entry := MakeEntry(scopeName, rest.values[scopeName]);
      markup := markup + entry;
    }
  }

  /** The body of the second loop of `_make_list`: one scope's entry. */
  method MakeEntry(scopeName: string, commitList: seq<Commit>) returns (entry: string)
    requires commitList != []
    ensures entry == ScopeEntry(scopeName, commitList)
  {
    entry := "* " + scopeName;
    if |commitList| > 1 {
      var sublist := MakeSublist(commitList);
      entry := entry + "\n\n" + sublist;
    } else {
      entry := entry + " - " + commitList[0].subject + "\n";
    }
  }

  /**
   * `_make_list(scope_dict)`: the list markup, and the dict as the call leaves it, with
   * its `scopeless` entry deleted and every other entry as it was.
   */
  method MakeList(scopeDict: ScopeDict) returns (markup: string, rest: ScopeDict)
    requires Listable(scopeDict)
    ensures rest.keys == Without(scopeDict.keys, Scopeless) && rest.values == scopeDict.values - {Scopeless}
    ensures markup == ListMarkup(scopeDict)
  {
    markup := MakeScopelessItems(scopeDict.values[Scopeless]);
    rest := scopeDict.Remove(Scopeless);
    RestFilled(scopeDict);
    var entries := MakeEntries(rest);
    markup := markup + entries + "\n";
  }

  function EntryLines(name: string, commits: seq<Commit>): seq<string>
    requires commits != []
  {
    if |commits| > 1 then ["* " + name, ""] + SublistLines(commits) else ["* " + name + " - " + commits[0].subject]
  }

  function AllEntryLines(d: ScopeDict, n: nat): seq<string>
    requires n <= |d.keys| && Filled(d)
  {
    if n == 0 then []
    else
      var name := d.keys[n - 1];
      AllEntryLines(d, n - 1) + EntryLines(name, d.values[name])
  }

  /** The lines of the list: scopeless items, each scope's entry lines, then a blank line. */
  ghost function ListLines(d: ScopeDict): seq<string>
    requires Listable(d)
  {
    var rest := d.Remove(Scopeless);
    RestFilled(d);
    ScopelessLines(d.values[Scopeless]) + AllEntryLines(rest, |rest.keys|) + [""]
  }

  lemma {:induction false} EntriesAreLines(d: ScopeDict, n: nat)
    requires n <= |d.keys| && Filled(d)
    ensures Entries(d, n) == Lines(AllEntryLines(d, n))
  {
    if n > 0 {
      var i := n - 1;
      EntriesStep(d, i);
      var name := d.keys[i];
      var cs := d.values[name];
      EntriesAreLines(d, i);
      EntryIsLines(name, cs);
      AllEntryLinesStep(d, i);
      ConcatLines(Entries(d, i), ScopeEntry(name, cs), AllEntryLines(d, i), EntryLines(name, cs));
    }
  }

  /** One more scope: its entry lines follow the lines before it. */
  lemma AllEntryLinesStep(d: ScopeDict, i: nat)
    requires i < |d.keys| && Filled(d)
    ensures d.keys[i] in d.values && d.values[d.keys[i]] != []
    ensures AllEntryLines(d, i + 1) == AllEntryLines(d, i) + EntryLines(d.keys[i], d.values[d.keys[i]])
  {
  }

  /** Two texts that are each their lines join into the lines of both. */
  lemma ConcatLines(e1: string, e2: string, l1: seq<string>, l2: seq<string>)
    requires e1 == Lines(l1) && e2 == Lines(l2)
    ensures e1 + e2 == Lines(l1 + l2)
  {
    LinesAppend(l1, l2);
  }

  lemma EntryIsLines(name: string, cs: seq<Commit>)
    requires cs != []
    ensures ScopeEntry(name, cs) == Lines(EntryLines(name, cs))
  {
    if |cs| > 1 {
      LinesAppend(["* " + name, ""], SublistLines(cs));
      PairLines("* " + name, "");
    } else {
      SingleLine("* " + name + " - " + cs[0].subject);
    }
  }

  /** The list markup is its lines, each ended by a newline. */
  lemma ListMarkupLines(d: ScopeDict)
    requires Listable(d)
    ensures ListMarkup(d) == Lines(ListLines(d))
  {
    var rest := d.Remove(Scopeless);
    RestFilled(d);
    var a := ScopelessLines(d.values[Scopeless]);
    var b := AllEntryLines(rest, |rest.keys|);
    EntriesAreLines(rest, |rest.keys|);
    LinesAppend(a, b);
    LinesAppend(a + b, [""]);
    SingleLine("");
  }

  lemma SingleLine(a: string)
    ensures Lines([a]) == a + "\n"
  {
    assert [a][1..] == [];
  }

  lemma PairLines(a: string, b: string)
    ensures Lines([a, b]) == a + "\n" + b + "\n"
  {
    SingleLine(b);
    assert [a, b][1..] == [b];
  }

  lemma ScopelessPair(c0: Commit, c1: Commit)
    ensures Lines(ScopelessLines([c0, c1])) == "* " + c0.subject + "\n" + "* " + c1.subject + "\n"
  {
    var lines := ScopelessLines([c0, c1]);
    assert lines == [lines[0], lines[1]];
    PairLines(lines[0], lines[1]);
  }

  /** A scope with two commits: its name, a blank line and a two-item sublist. */
  lemma PairEntry(name: string, c0: Commit, c1: Commit)
    ensures ScopeEntry(name, [c0, c1]) == "* " + name + "\n\n" + "  - " + c0.subject + "\n" + "  - " + c1.subject + "\n"
  {
    var lines := SublistLines([c0, c1]);
    assert lines == [lines[0], lines[1]];
    PairLines(lines[0], lines[1]);
  }

  /** The scope dict the tests list: two scopeless commits and three scopes. */
  function ExampleScopes(c0: Commit, c1: Commit): ScopeDict {
    Dict(["scopeless", "scope1", "scope2", "scope3"],
      map["scopeless" := [c0, c1], "scope1" := [c0, c1], "scope2" := [c1], "scope3" := [c0, c1]])
  }

  lemma ExampleListable(c0: Commit, c1: Commit)
    ensures Listable(ExampleScopes(c0, c1))
  {
    var d := ExampleScopes(c0, c1);
    assert d.values.Keys == {"scopeless", "scope1", "scope2", "scope3"};
  }

  lemma ExampleRestValues(c0: Commit, c1: Commit)
    ensures ExampleScopes(c0, c1).values - {Scopeless} == map["scope1" := [c0, c1], "scope2" := [c1], "scope3" := [c0, c1]]
  {
    var m := ExampleScopes(c0, c1).values - {Scopeless};
    var expected := map["scope1" := [c0, c1], "scope2" := [c1], "scope3" := [c0, c1]];
    assert m.Keys == expected.Keys;
    assert forall k :: k in m ==> m[k] == expected[k];
  }

  lemma ExampleRest(c0: Commit, c1: Commit)
    ensures Listable(ExampleScopes(c0, c1))
    ensures ExampleScopes(c0, c1).Remove(Scopeless)
      == Dict(["scope1", "scope2", "scope3"], map["scope1" := [c0, c1], "scope2" := [c1], "scope3" := [c0, c1]])
  {
    ExampleListable(c0, c1);
    ExampleRestValues(c0, c1);
    var d := ExampleScopes(c0, c1);
    WithoutFirst(d.keys);
    assert d.keys[1..] == ["scope1", "scope2", "scope3"];
  }

  /** The list the tests expect for that dict. */
  lemma ListExample(c0: Commit, c1: Commit)
    ensures var pair := "  - " + c0.subject + "\n" + "  - " + c1.subject + "\n";
      Listable(ExampleScopes(c0, c1))
      && ListMarkup(ExampleScopes(c0, c1)) ==
        ("* " + c0.subject + "\n" + "* " + c1.subject + "\n")
        + ("* scope1\n\n" + pair)
        + ("* scope2 - " + c1.subject + "\n")
        + ("* scope3\n\n" + pair)
        + "\n"
  {
    ExampleRest(c0, c1);
    var rest := ExampleScopes(c0, c1).Remove(Scopeless);
    RestFilled(ExampleScopes(c0, c1));
    ScopelessPair(c0, c1);
    var e1, e2, e3 := ScopeEntry("scope1", [c0, c1]), ScopeEntry("scope2", [c1]), ScopeEntry("scope3", [c0, c1]);
    ExampleRestEntries(c0, c1);
    var head := Lines(ScopelessLines([c0, c1]));
    assert ListMarkup(ExampleScopes(c0, c1)) == head + (e1 + e2 + e3) + "\n";
    Reassociate(head, e1, e2, e3);
    ExampleEntries(c0, c1);
  }

  /** The three scope entries of the example, in key order. */
  lemma ExampleRestEntries(c0: Commit, c1: Commit)
    ensures var rest := Dict(["scope1", "scope2", "scope3"], map["scope1" := [c0, c1], "scope2" := [c1], "scope3" := [c0, c1]]);
      Filled(rest)
      && Entries(rest, |rest.keys|) == ScopeEntry("scope1", [c0, c1]) + ScopeEntry("scope2", [c1]) + ScopeEntry("scope3", [c0, c1])
  {
    var rest := Dict(["scope1", "scope2", "scope3"], map["scope1" := [c0, c1], "scope2" := [c1], "scope3" := [c0, c1]]);
    assert Filled(rest);
    ThreeEntries(rest);
    assert rest.values[rest.keys[0]] == [c0, c1] && rest.values[rest.keys[1]] == [c1] && rest.values[rest.keys[2]] == [c0, c1];
  }

  /** The entries of a dict of three scopes, in key order. */
  lemma ThreeEntries(d: ScopeDict)
    requires |d.keys| == 3 && Filled(d)
    ensures Entries(d, |d.keys|) == ScopeEntry(d.keys[0], d.values[d.keys[0]]) + ScopeEntry(d.keys[1], d.values[d.keys[1]])
      + ScopeEntry(d.keys[2], d.values[d.keys[2]])
  {
    EntriesStep(d, 0);
    EntriesStep(d, 1);
    EntriesStep(d, 2);
    var e0, e1, e2 := ScopeEntry(d.keys[0], d.values[d.keys[0]]), ScopeEntry(d.keys[1], d.values[d.keys[1]]),
      ScopeEntry(d.keys[2], d.values[d.keys[2]]);
    assert Entries(d, 1) == e0 by {
      assert Entries(d, 0) == "";
      assert "" + e0 == e0;
    }
    assert Entries(d, 2) == e0 + e1;
  }

  lemma Reassociate(a: string, b: string, c: string, d: string)
    ensures a + (b + c + d) == a + b + c + d
  {
  }

  lemma ExampleEntries(c0: Commit, c1: Commit)
    ensures var pair := "  - " + c0.subject + "\n" + "  - " + c1.subject + "\n";
      ScopeEntry("scope1", [c0, c1]) == "* scope1\n\n" + pair
      && ScopeEntry("scope2", [c1]) == "* scope2 - " + c1.subject + "\n"
      && ScopeEntry("scope3", [c0, c1]) == "* scope3\n\n" + pair
  {
    PairEntry("scope1", c0, c1);
    PairEntry("scope3", c0, c1);
  }

  // ---------------------------------------------------------------------------
  // _make_release_markup

  /** The sections rendered from a grouping can be listed. */
  ghost predicate SectionsListable<A>(grouped: Tree<A>, fix: A, feat: A) {
    (fix in grouped.values ==> Listable(grouped.values[fix]))
    && (feat in grouped.values ==> Listable(grouped.values[feat]))
  }

  /** The section of one action: a level-3 heading and its list, or nothing when the action is absent. */
  ghost function Section<A>(grouped: Tree<A>, action: A, heading: string): string
    requires action in grouped.values ==> Listable(grouped.values[action])
  {
    if action in grouped.values then MakeTitle(heading, 3) + ListMarkup(grouped.values[action]) else ""
  }

  /**
   * The markup of a release: a level-2 title `version (date)`, then a `Bug Fixes`
   * section when there are fixes and a `Features` section when there are features.
   * Other actions do not appear.
   */
  ghost function ReleaseMarkup<A>(versionText: string, today: string, grouped: Tree<A>, fix: A, feat: A): string
    requires SectionsListable(grouped, fix, feat)
  {
    MakeTitle(versionText + " (" + today + ")", 2) + Section(grouped, fix, "Bug Fixes") + Section(grouped, feat, "Features")
  }

  /** A grouping of commits can always be rendered. */
  lemma GroupingListable<A>(tree: Tree<A>, cs: seq<Commit>, key: Commit -> Option<A>, fix: A, feat: A)
    requires IsGrouping(tree, cs, key)
    ensures SectionsListable(tree, fix, feat)
  {
    if fix in tree.values {
      GroupedScopesNonEmpty(tree.values[fix], cs, key, fix);
    }
    if feat in tree.values {
      GroupedScopesNonEmpty(tree.values[feat], cs, key, feat);
    }
  }

  /**
   * The grouping once `_make_list` has run on the scope dict of `action`: that dict
   * has lost its `scopeless` entry, the actions and every other dict are as they were.
   */
  function Listed<A(==)>(grouped: Tree<A>, action: A): (after: Tree<A>)
    requires grouped.Valid() && (action in grouped.values ==> Listable(grouped.values[action]))
    ensures after.Valid() && after.keys == grouped.keys && after.values.Keys == grouped.values.Keys
    ensures action in grouped.values ==> after.values[action] == grouped.values[action].Remove(Scopeless)
    ensures forall a :: a in grouped.values && a != action ==> after.values[a] == grouped.values[a]
  {
    if action in grouped.values then grouped.Put(action, grouped.values[action].Remove(Scopeless)) else grouped
  }

  /** One `if action in grouped_commits` block: the heading and the list, and the dict as `_make_list` leaves it. */
  method AddSection<A(==)>(markup: string, grouped: Tree<A>, action: A, heading: string)
    returns (extended: string, after: Tree<A>)
    requires grouped.Valid() && (action in grouped.values ==> Listable(grouped.values[action]))
    ensures extended == markup + Section(grouped, action, heading)
    ensures after == Listed(grouped, action)
  {
    extended := markup;
    after := grouped;
    if action in grouped.values {
      extended := extended + MakeTitle(heading, 3);
      var list, rest := MakeList(grouped.values[action]);
      extended := extended + list;
      after := after.Put(action, rest);
    }
  }

  /**
   * `_make_release_markup(version, grouped_commits)` with `str(date.today())` given:
   * the markup, and the dict as the call leaves it, where the `fix` and `feat` scope
   * dicts have lost their `scopeless` entries and every other action is as it was.
   */
  method MakeReleaseMarkup(version: Version, today: string, grouped: Tree<string>)
    returns (markup: string, after: Tree<string>)
    requires grouped.Valid() && SectionsListable(grouped, "fix", "feat")
    ensures markup == ReleaseMarkup(version.text, today, grouped, "fix", "feat")
    ensures after == Listed(Listed(grouped, "fix"), "feat")
  {
    var title := version.text + " (" + today + ")";
    markup := MakeTitle(title, 2);
    markup, after := AddSection(markup, grouped, "fix", "Bug Fixes");
    assert Section(after, "feat", "Features") == Section(grouped, "feat", "Features");
    markup, after := AddSection(markup, after, "feat", "Features");
  }

  // ---------------------------------------------------------------------------
  // update_changelog

  /** A line as iterating over a text file yields it: not empty, a newline at most at its end. */
  predicate IsFileLine(line: string) {
    line != [] && '\n' !in line[..|line| - 1]
  }

  /** The lines of a file: every one ends with a newline except possibly the last. */
  predicate AreFileLines(lines: seq<string>) {
    (forall i :: 0 <= i < |lines| ==> IsFileLine(lines[i]))
    && forall i :: 0 <= i < |lines| - 1 ==> lines[i][|lines[i]| - 1] == '\n'
  }

  /** `list(f)` for a file with the given content. */
  function FileLines(content: string): (lines: seq<string>)
    ensures AreFileLines(lines)
    ensures Concat(lines) == content
  {
    if content == [] then []
    else
      var rest := FileLines(content[1..]);
      var c := content[0];
      PrependChar(c, rest);
      if c == '\n' || rest == [] then
        assert [c] + Concat(rest) == content;
        [[c]] + rest
      else
        assert [c] + rest[0] + Concat(rest[1..]) == content;
        [[c] + rest[0]] + rest[1..]
  }

  /** A character put in front of file lines: a line of its own after a newline or at the end, else part of the first line. */
  lemma PrependChar(c: char, rest: seq<string>)
    requires AreFileLines(rest)
    ensures c == '\n' || rest == [] ==> AreFileLines([[c]] + rest)
    ensures c != '\n' && rest != [] ==> AreFileLines([[c] + rest[0]] + rest[1..])
  {
    if c == '\n' || rest == [] {
      var lines := [[c]] + rest;
      forall i | 0 <= i < |lines| ensures IsFileLine(lines[i]) {
        if i > 0 { assert lines[i] == rest[i - 1]; }
      }
      forall i | 0 <= i < |lines| - 1 ensures lines[i][|lines[i]| - 1] == '\n' {
        if i > 0 { assert lines[i] == rest[i - 1]; }
      }
    } else {
      var first := [c] + rest[0];
      var lines := [first] + rest[1..];
      assert IsFileLine(first) by {
        assert first[..|first| - 1] == [c] + rest[0][..|rest[0]| - 1];
      }
      forall i | 0 <= i < |lines| ensures IsFileLine(lines[i]) {
        if i > 0 { assert lines[i] == rest[i]; }
      }
      forall i | 0 <= i < |lines| - 1 ensures lines[i][|lines[i]| - 1] == '\n' {
        if i > 0 { assert lines[i] == rest[i]; }
      }
    }
  }

  /** Cutting the concatenation of file lines gives back the lines. */
  lemma {:induction false} FileLinesConcat(lines: seq<string>)
    requires AreFileLines(lines)
    ensures FileLines(Concat(lines)) == lines
  {
    if lines != [] {
      var first, rest := lines[0], lines[1..];
      assert AreFileLines(rest) by {
        forall i | 0 <= i < |rest| - 1 ensures rest[i][|rest[i]| - 1] == '\n' {
          assert rest[i] == lines[i + 1];
        }
        forall i | 0 <= i < |rest| ensures IsFileLine(rest[i]) {
          assert rest[i] == lines[i + 1];
        }
      }
      FileLinesConcat(rest);
      LineThenLines(first, rest);
    }
  }

  lemma {:induction false} LineThenLines(line: string, rest: seq<string>)
    requires IsFileLine(line) && AreFileLines(rest) && FileLines(Concat(rest)) == rest
    requires rest != [] ==> line[|line| - 1] == '\n'
    ensures FileLines(line + Concat(rest)) == [line] + rest
    decreases |line|
  {
    var s := line + Concat(rest);
    assert s[1..] == line[1..] + Concat(rest);
    if |line| == 1 {
      assert line[1..] == [] && [] + Concat(rest) == Concat(rest);
      assert [line[0]] == line;
    } else {
      FileLineTail(line);
      LineThenLines(line[1..], rest);
      assert [line[0]] + line[1..] == line;
    }
  }

  /** A line of more than one character starts with something other than a newline, and the rest is a line too. */
  lemma FileLineTail(line: string)
    requires IsFileLine(line) && |line| > 1
    ensures line[0] != '\n' && IsFileLine(line[1..])
  {
    assert line[0] in line[..|line| - 1];
    assert line[1..][..|line| - 2] == line[1..|line| - 1];
    forall k | 1 <= k < |line| - 1 ensures line[k] != '\n' {
      assert line[k] in line[..|line| - 1];
    }
  }

  function Min(a: nat, b: nat): nat { if a < b then a else b }

  /** `''.join(lines[:3])`: the changelog's heading, the first three lines. */
  function Heading(content: string): string {
    var lines := FileLines(content);
    Concat(lines[..Min(3, |lines|)])
  }

  /**
   * `update_changelog` on a changelog that is there (`Some` content) or not (`None`):
   * the text it writes, the markup inserted after the first three lines, or nothing.
   */
  function UpdatedChangelog(content: Option<string>, markup: string): (written: Option<string>)
    ensures written.None? <==> content.None?
    ensures content.Some? ==> var k := |Heading(content.value)|;
      k <= |content.value| && written.value == content.value[..k] + markup + content.value[k..]
  {
    match content
    case None => None
    case Some(c) =>
      var lines := FileLines(c);
      var n := Min(3, |lines|);
      var top := Concat(lines[..n]);
      var bottom := Concat(lines[n..]);
      ConcatAppend(lines[..n], lines[n..]);
      assert lines[..n] + lines[n..] == lines;
      assert c == top + bottom;
      Some(top + markup + bottom)
  }

  /** The heading is the first three lines of the file, or the whole file when it is shorter. */
  lemma HeadingLines(content: string)
    ensures var lines := FileLines(content);
      FileLines(Heading(content)) == lines[..Min(3, |lines|)]
      && (|lines| <= 3 ==> Heading(content) == content)
  {
    var lines := FileLines(content);
    var n := Min(3, |lines|);
    var top := lines[..n];
    assert AreFileLines(top) by {
      forall i | 0 <= i < |top| ensures IsFileLine(top[i]) {
        assert top[i] == lines[i];
      }
      forall i | 0 <= i < |top| - 1 ensures top[i][|top[i]| - 1] == '\n' {
        assert top[i] == lines[i];
      }
    }
    FileLinesConcat(top);
    if |lines| <= 3 {
      assert top == lines;
    }
  }
}
