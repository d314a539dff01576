/**
 * What braulio/changelog.py has beyond the helpers it shares with braulio/files.py
 * (those are modelled once, in Markup): `_make_tree`, which groups every commit by
 * its action, and `_make_release_markup`, which renders a release from a list of
 * commits. As written, the latter reads an attribute `Version` does not have; the
 * corrected version reads `string`, as braulio/files.py does.
 */
module Changelog {
  import opened Wrappers
  import opened Text
  import opened Dicts
  import opened GitLog
  import opened Grouping
  import opened Versions
  import opened Markup

  /** `_make_tree` files every commit, under its action as it is, `None` included. */
  function TreeKey(c: Commit): Option<Option<string>> {
    Some(c.action)
  }

  /** With every commit filed, the keys are the commits' actions, one per commit. */
  lemma {:induction false} EveryCommitFiled(cs: seq<Commit>)
    ensures |GroupedKeys(cs, TreeKey)| == |cs|
    ensures forall i :: 0 <= i < |cs| ==> GroupedKeys(cs, TreeKey)[i] == cs[i].action
  {
    if cs != [] {
      EveryCommitFiled(cs[..|cs| - 1]);
    }
  }

  /**
   * `_make_tree(commits)`: the commits grouped by action, then by scope, in input
   * order; unlike `_organize_commits` no commit is left out.
   */
  method MakeTree(commits: seq<Commit>) returns (tree: Tree<Option<string>>)
    ensures IsGrouping(tree, commits, TreeKey)
    ensures TreeTotal(tree) == |commits|
  {
    tree := Empty();
    for i := 0 to |commits|
      invariant IsGrouping(tree, commits[..i], TreeKey)
      invariant TreeTotal(tree) == |GroupedKeys(commits[..i], TreeKey)|
    {
      var commit := commits[i];
      var action := commit.action;
      ghost var before := tree;
      ReadyToFile(tree, commits[..i], TreeKey, action);
      tree := FileCommit(tree, action, commit);
      FiledStep(before, commits, i, TreeKey);
    }
    assert commits[..|commits|] == commits;
    EveryCommitFiled(commits);
  }

  // ---------------------------------------------------------------------------
  // _make_release_markup

  /** `AttributeError: '<type>' object has no attribute '<name>'` */
  datatype AttributeError = AttributeError(typeName: string, name: string)

  /**
   * Names a `Version` object answers with something other than a data attribute: its
   * three methods, and the `__`-prefixed names Python gives every object.
   */
  predicate IsMethodOrSpecialName(name: string)
  {
    name in ["bump", "_update_version_string", "_is_comparable"] || (|name| >= 2 && name[0] == '_' && name[1] == '_')
  }

  /**
   * `f'{version.<name>}'` for a name that is not a method or special name: the data
   * attributes a `Version` object has, formatted; any other such name fails.
   */
  function VersionAttribute(version: Version, name: string): (r: Result<string, AttributeError>)
    requires !IsMethodOrSpecialName(name)
    reads version
    ensures r.Ok? <==> name in ["string", "major", "minor", "patch"]
    ensures name == "string" ==> r == Ok(version.text)
    ensures r.Err? ==> r.error == AttributeError("Version", name)
  {
    if name == "string" then Ok(version.text)
    else if name == "major" then Ok(NatToString(version.major))
    else if name == "minor" then Ok(NatToString(version.minor))
    else if name == "patch" then Ok(NatToString(version.patch))
    else Err(AttributeError("Version", name))
  }

  /** `f'{version.<name>} ({today})'`: the release title, or the failed attribute lookup. */
  function FormatTitle(attribute: Result<string, AttributeError>, today: string): (r: Result<string, AttributeError>)
    ensures r.Ok? <==> attribute.Ok?
    ensures r.Ok? ==> r.value == attribute.value + " (" + today + ")"
    ensures r.Err? ==> r.error == attribute.error
  {
    match attribute
    case Ok(v) => Ok(v + " (" + today + ")")
    case Err(e) => Err(e)
  }

  /** Line 90 as written: the release title from `version.version`. */
  function ReleaseTitleAsWritten(version: Version, today: string): Result<string, AttributeError>
    reads version
  {
    FormatTitle(VersionAttribute(version, "version"), today)
  }

  /** Line 90 as intended: the release title from `version.string`. */
  function ReleaseTitle(version: Version, today: string): (r: Result<string, AttributeError>)
    reads version
    ensures r == Ok(version.text + " (" + today + ")")
  {
    FormatTitle(VersionAttribute(version, "string"), today)
  }

  /**
   * As written, `_make_release_markup` fails on every `Version` before it renders
   * anything, so `update_changelog` never writes; the intended title is the one the
   * tests expect.
   */
  lemma TitleAsWrittenFails(version: Version, today: string)
    ensures ReleaseTitleAsWritten(version, today) == Err(AttributeError("Version", "version"))
    ensures version.text == "10.3.0" ==> ReleaseTitle(version, today) == Ok("10.3.0 (" + today + ")")
  {
    assert "version" !in ["string", "major", "minor", "patch"];
    assert "10.3.0" + " (" == "10.3.0 (";
  }

  /**
   * `_make_release_markup(version, commits)` with line 90 reading `version.string` and
   * `str(date.today())` given: the release rendered from the grouping of all the
   * commits, the one `_make_tree` builds.
   */
  method MakeReleaseMarkup(version: Version, today: string, commits: seq<Commit>) returns (markup: string)
    ensures SectionsListable(Grouped(commits, TreeKey), Some("fix"), Some("feat"))
    ensures markup == ReleaseMarkup(version.text, today, Grouped(commits, TreeKey), Some("fix"), Some("feat"))
  {
    var title := ReleaseTitle(version, today).value;
    markup := MakeTitle(title, 2);
    var tree := MakeTree(commits);
    GroupingUnique(tree, Grouped(commits, TreeKey), commits, TreeKey);
    GroupingListable(tree, commits, TreeKey, Some("fix"), Some("feat"));
    ghost var grouped := tree;
    markup, tree := AddSection(markup, tree, Some("fix"), "Bug Fixes");
    assert Section(tree, Some("feat"), "Features") == Section(grouped, Some("feat"), "Features");
    markup, tree := AddSection(markup, tree, Some("feat"), "Features");
  }
}
