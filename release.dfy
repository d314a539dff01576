/**
 * `_organize_commits` (braulio/release.py): the commits that carry an action, grouped
 * by action and scope, and the part of the version the release bumps.
 */
module Release {
  import opened Wrappers
  import opened Text
  import opened Dicts
  import opened GitLog
  import opened Grouping

  /** The key a commit is grouped under: its action, when that is truthy; otherwise it is skipped. */
  function OrganizeKey(c: Commit): Option<string> {
    if c.action.Some? && c.action.value != "" then Some(c.action.value) else None
  }

  const BreakingMarker := "BREAKING CHANGE"

  /** A commit that takes part and whose message mentions a breaking change. */
  predicate IsBreaking(c: Commit) {
    OrganizeKey(c).Some? && Contains(c.message, BreakingMarker)
  }

  predicate HasBreakingChange(cs: seq<Commit>) {
    exists i :: 0 <= i < |cs| && IsBreaking(cs[i])
  }

  /** `major` for a breaking change, else `minor` when some commit is a feature, else `patch`. */
  function BumpType(cs: seq<Commit>): string {
    if HasBreakingChange(cs) then "major"
    else if "feat" in GroupedKeys(cs, OrganizeKey) then "minor"
    else "patch"
  }

  /** The dict `_organize_commits` returns, with its two keys as fields. */
  datatype ReleaseData = ReleaseData(bumpVersionTo: string, byAction: Tree<string>)

  method OrganizeCommits(commits: seq<Commit>) returns (data: ReleaseData)
    ensures IsGrouping(data.byAction, commits, OrganizeKey)
    ensures TreeTotal(data.byAction) == |GroupedKeys(commits, OrganizeKey)|
    ensures data.bumpVersionTo == BumpType(commits)
  {
    var byAction: Tree<string> := Empty();
    var hasBreakingChanges := false;
    for i := 0 to |commits|
      invariant IsGrouping(byAction, commits[..i], OrganizeKey)
      invariant TreeTotal(byAction) == |GroupedKeys(commits[..i], OrganizeKey)|
      invariant hasBreakingChanges == HasBreakingChange(commits[..i])
    {
      var commit := commits[i];
      if commit.action.Some? && commit.action.value != "" {
        hasBreakingChanges := hasBreakingChanges || Contains(commit.message, BreakingMarker);
        var action := commit.action.value;
        ghost var before := byAction;
        ReadyToFile(byAction, commits[..i], OrganizeKey, action);
        byAction := FileCommit(byAction, action, commit);
        FiledStep(before, commits, i, OrganizeKey);
      } else {
        SkippedStep(byAction, commits, i, OrganizeKey);
      }
      BreakingStep(commits, i);
    }
    assert commits[..|commits|] == commits;
    FirstOccurrencesMembers(GroupedKeys(commits, OrganizeKey), "feat");
    var bumpType := if hasBreakingChanges then "major" else if "feat" in byAction.values then "minor" else "patch";
    data := ReleaseData(bumpType, byAction);
  }

  lemma BreakingStep(commits: seq<Commit>, i: nat)
    requires i < |commits|
    ensures HasBreakingChange(commits[..i + 1]) <==> HasBreakingChange(commits[..i]) || IsBreaking(commits[i])
  {
    var cs := commits[..i + 1];
    if IsBreaking(commits[i]) {
      assert cs[i] == commits[i];
    }
    if HasBreakingChange(cs) && !IsBreaking(commits[i]) {
      var j :| 0 <= j < i + 1 && IsBreaking(cs[j]);
      assert commits[..i][j] == cs[j];
    }
    if HasBreakingChange(commits[..i]) {
      var j :| 0 <= j < i && IsBreaking(commits[..i][j]);
      assert cs[j] == commits[..i][j];
    }
  }

  /** A commit without an action changes neither the grouping nor the bump. */
  lemma IgnoredCommit(cs: seq<Commit>, c: Commit)
    requires !(c.action.Some? && c.action.value != "")
    ensures GroupedKeys(cs + [c], OrganizeKey) == GroupedKeys(cs, OrganizeKey)
    ensures BumpType(cs + [c]) == BumpType(cs)
  {
    var cs' := cs + [c];
    assert cs'[..|cs|] == cs;
    if HasBreakingChange(cs') {
      var j :| 0 <= j < |cs'| && IsBreaking(cs'[j]);
      assert j < |cs| && cs[j] == cs'[j];
    }
    if HasBreakingChange(cs) {
      var j :| 0 <= j < |cs| && IsBreaking(cs[j]);
      assert cs'[j] == cs[j];
    }
  }

  /** The marker is found inside `BREAKING CHANGES` too. */
  lemma PluralIsBreaking(before: string, after: string)
    ensures Contains(before + "BREAKING CHANGES" + after, BreakingMarker)
  {
    assert before + "BREAKING CHANGES" + after == before + BreakingMarker + ("S" + after);
    ContainsInfix(before, BreakingMarker, "S" + after);
  }

  /** Only the major bump needs a breaking change; a feature gives minor, anything else patch. */
  lemma BumpTypeCases(cs: seq<Commit>)
    ensures BumpType(cs) == "major" <==> exists c :: c in cs && IsBreaking(c)
    ensures BumpType(cs) == "minor" <==>
      !HasBreakingChange(cs) && exists c :: c in cs && OrganizeKey(c) == Some("feat")
  {
    if exists c :: c in cs && IsBreaking(c) {
      var c :| c in cs && IsBreaking(c);
      var i :| 0 <= i < |cs| && cs[i] == c;
    }
    FeatureKeys(cs);
  }

  lemma {:induction false} FeatureKeys(cs: seq<Commit>)
    ensures "feat" in GroupedKeys(cs, OrganizeKey) <==> exists c :: c in cs && OrganizeKey(c) == Some("feat")
  {
    if cs != [] {
      var init := cs[..|cs| - 1];
      FeatureKeys(init);
      assert cs == init + [cs[|cs| - 1]];
      assert forall c :: c in init ==> c in cs;
      if exists c :: c in cs && OrganizeKey(c) == Some("feat") {
        var c :| c in cs && OrganizeKey(c) == Some("feat");
        if c != cs[|cs| - 1] {
          assert c in init;
        }
      }
    }
  }
}
