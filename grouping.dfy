/**
 * What grouping commits by action and then by scope produces, as `_organize_commits`
 * (braulio/release.py) and `_make_tree` (braulio/changelog.py) both build it: a dict
 * from action to a dict from scope to the commits of that action and scope, in input
 * order. The two differ only in which commits take part and under which key, so the
 * description is given once, for a key function `key` that returns `None` for a
 * commit that is skipped.
 */
module Grouping {
  import opened Wrappers
  import opened Dicts
  import opened GitLog

  /** A dict from scope name to the commits in that scope. */
  type ScopeDict = Dict<string, seq<Commit>>

  /** A dict from action key to its scope dict. */
  type Tree<A(==)> = Dict<A, ScopeDict>

  const Scopeless := "scopeless"

  /** `{'scopeless': []}` */
  function NewScopes(): (d: ScopeDict)
    ensures d.Valid() && d.keys == [Scopeless] && d.values == map[Scopeless := []]
  {
    Dict([Scopeless], map[Scopeless := []])
  }

  /** The scope a commit is filed under: `scopeless` when its scope is `None` or empty. */
  function ScopeKey(c: Commit): string {
    if c.scope.Some? && c.scope.value != "" then c.scope.value else Scopeless
  }

  /** The action keys of the commits that take part, in input order, repeats included. */
  function GroupedKeys<A>(cs: seq<Commit>, key: Commit -> Option<A>): seq<A> {
    if cs == [] then []
    else
      var last := cs[|cs| - 1];
      GroupedKeys(cs[..|cs| - 1], key) + (if key(last).Some? then [key(last).value] else [])
  }

  /** Each element at its first appearance: the order in which a dict receives its keys. */
  function FirstOccurrences<T(==)>(xs: seq<T>): seq<T> {
    if xs == [] then []
    else
      var init := FirstOccurrences(xs[..|xs| - 1]);
      if xs[|xs| - 1] in init then init else init + [xs[|xs| - 1]]
  }

  /** The scopes of the commits filed under action `a`, in input order. */
  function ScopesOf<A(==)>(cs: seq<Commit>, key: Commit -> Option<A>, a: A): seq<string> {
    if cs == [] then []
    else
      var last := cs[|cs| - 1];
      ScopesOf(cs[..|cs| - 1], key, a) + (if key(last) == Some(a) then [ScopeKey(last)] else [])
  }

  /** The commits filed under action `a` and scope `s`, in input order. */
  function Bucket<A(==)>(cs: seq<Commit>, key: Commit -> Option<A>, a: A, s: string): seq<Commit> {
    if cs == [] then []
    else
      var last := cs[|cs| - 1];
      Bucket(cs[..|cs| - 1], key, a, s) + (if key(last) == Some(a) && ScopeKey(last) == s then [last] else [])
  }

  /** The scope dict of action `a` holds exactly its buckets, `scopeless` first, then scopes as they appear. */
  ghost predicate ScopesMatch<A>(d: ScopeDict, cs: seq<Commit>, key: Commit -> Option<A>, a: A) {
    d.Valid()
    && d.keys == FirstOccurrences([Scopeless] + ScopesOf(cs, key, a))
    && forall s :: s in d.values ==> d.values[s] == Bucket(cs, key, a, s)
  }

  /** `tree` is the grouping of `cs`: actions in order of first appearance, each with its buckets. */
  ghost predicate IsGrouping<A>(tree: Tree<A>, cs: seq<Commit>, key: Commit -> Option<A>) {
    tree.Valid()
    && tree.keys == FirstOccurrences(GroupedKeys(cs, key))
    && forall a :: a in tree.values ==> ScopesMatch(tree.values[a], cs, key, a)
  }

  // ---------------------------------------------------------------------------
  // facts about the description

  lemma {:induction false} FirstOccurrencesMembers<T>(xs: seq<T>, x: T)
    ensures x in FirstOccurrences(xs) <==> x in xs
  {
    if xs != [] {
      FirstOccurrencesMembers(xs[..|xs| - 1], x);
      assert xs == xs[..|xs| - 1] + [xs[|xs| - 1]];
    }
  }

  lemma {:induction false} FirstOccurrencesDistinct<T>(xs: seq<T>)
    ensures NoDuplicates(FirstOccurrences(xs))
  {
    if xs != [] {
      FirstOccurrencesDistinct(xs[..|xs| - 1]);
    }
  }

  /** One more commit: the scopes of action `a` gain the commit's scope when it is filed under `a`. */
  lemma ScopesStep<A>(cs: seq<Commit>, key: Commit -> Option<A>, c: Commit, a: A)
    ensures ScopesOf(cs + [c], key, a) == ScopesOf(cs, key, a) + (if key(c) == Some(a) then [ScopeKey(c)] else [])
  {
    var cs' := cs + [c];
    assert cs'[..|cs'| - 1] == cs;
    assert cs'[|cs'| - 1] == c;
  }

  /** One more commit: bucket `t` of action `a` gains it when it is filed there. */
  lemma BucketStep<A>(cs: seq<Commit>, key: Commit -> Option<A>, c: Commit, a: A, t: string)
    ensures Bucket(cs + [c], key, a, t) == Bucket(cs, key, a, t) + (if key(c) == Some(a) && ScopeKey(c) == t then [c] else [])
  {
    var cs' := cs + [c];
    assert cs'[..|cs'| - 1] == cs;
    assert cs'[|cs'| - 1] == c;
  }

  /** One more element: it is listed unless it was already. */
  lemma FirstOccurrencesStep<T>(xs: seq<T>, x: T)
    ensures FirstOccurrences(xs + [x]) == if x in FirstOccurrences(xs) then FirstOccurrences(xs) else FirstOccurrences(xs) + [x]
  {
    var ys := xs + [x];
    assert ys[..|ys| - 1] == xs;
    assert ys[|ys| - 1] == x;
  }

  /** An action that no commit carries has no scopes. */
  lemma {:induction false} ScopesOfAbsent<A>(cs: seq<Commit>, key: Commit -> Option<A>, a: A)
    requires a !in GroupedKeys(cs, key)
    ensures ScopesOf(cs, key, a) == []
  {
    if cs != [] {
      ScopesOfAbsent(cs[..|cs| - 1], key, a);
    }
  }

  /** A scope that no commit of action `a` carries has an empty bucket. */
  lemma {:induction false} BucketAbsent<A>(cs: seq<Commit>, key: Commit -> Option<A>, a: A, s: string)
    requires s !in ScopesOf(cs, key, a)
    ensures Bucket(cs, key, a, s) == []
  {
    if cs != [] {
      BucketAbsent(cs[..|cs| - 1], key, a, s);
    }
  }

  /** Every commit of a bucket carries its action and scope. */
  lemma {:induction false} BucketMembers<A>(cs: seq<Commit>, key: Commit -> Option<A>, a: A, s: string)
    ensures forall c :: c in Bucket(cs, key, a, s) ==> c in cs && key(c) == Some(a) && ScopeKey(c) == s
  {
    if cs != [] {
      BucketMembers(cs[..|cs| - 1], key, a, s);
      assert forall c :: c in cs[..|cs| - 1] ==> c in cs;
    }
  }

  /** A scope listed for action `a` has at least one commit. */
  lemma {:induction false} ScopesHaveCommits<A>(cs: seq<Commit>, key: Commit -> Option<A>, a: A, s: string)
    requires s in ScopesOf(cs, key, a)
    ensures Bucket(cs, key, a, s) != []
  {
    var init := cs[..|cs| - 1];
    if s in ScopesOf(init, key, a) {
      ScopesHaveCommits(init, key, a, s);
    }
  }

  /** The scope dict of a grouping has a commit in every bucket but `scopeless`. */
  lemma GroupedScopesNonEmpty<A>(d: ScopeDict, cs: seq<Commit>, key: Commit -> Option<A>, a: A)
    requires ScopesMatch(d, cs, key, a)
    ensures Scopeless in d.values
    ensures forall s :: s in d.values && s != Scopeless ==> d.values[s] != []
  {
    FirstOccurrencesMembers([Scopeless] + ScopesOf(cs, key, a), Scopeless);
    forall s | s in d.values && s != Scopeless
      ensures d.values[s] != []
    {
      FirstOccurrencesMembers([Scopeless] + ScopesOf(cs, key, a), s);
      ScopesHaveCommits(cs, key, a, s);
    }
  }

  /** A grouping meets what filing one more commit under `a` needs. */
  lemma ReadyToFile<A>(tree: Tree<A>, cs: seq<Commit>, key: Commit -> Option<A>, a: A)
    requires IsGrouping(tree, cs, key)
    ensures tree.Valid() && forall b :: b in tree.values ==> tree.values[b].Valid()
    ensures a in tree.values ==> Scopeless in tree.values[a].values
  {
    if a in tree.values {
      GroupedScopesNonEmpty(tree.values[a], cs, key, a);
    }
  }

  // ---------------------------------------------------------------------------
  // one more commit

  /**
   * The tree once commit `c` is filed under action `a`: the action gets
   * `{'scopeless': []}` if new, the scope gets `[]` if new, and the commit is appended
   * to its bucket.
   */
  function AddCommit<A(==)>(tree: Tree<A>, a: A, c: Commit): (r: Tree<A>)
    requires tree.Valid() && forall b :: b in tree.values ==> tree.values[b].Valid()
    ensures r.Valid() && forall b :: b in r.values ==> r.values[b].Valid()
  {
    var t := if a in tree.values then tree else tree.Put(a, NewScopes());
    t.Put(a, FileInScope(t.values[a], c))
  }

  /** The scope dict once `c` is appended to the bucket of its scope, which is added if new. */
  function FileInScope(scopes: ScopeDict, c: Commit): (r: ScopeDict)
    requires scopes.Valid()
    ensures r.Valid()
    ensures var s := ScopeKey(c);
      r.values == scopes.values[s := (if s in scopes.values then scopes.values[s] else []) + [c]]
      && r.keys == if s in scopes.values then scopes.keys else scopes.keys + [s]
  {
    var s := ScopeKey(c);
    var scopes1 := if s in scopes.values then scopes else scopes.Put(s, []);
    scopes1.Put(s, scopes1.values[s] + [c])
  }

  /**
   * The body both loops share: create the action's `{'scopeless': []}` if it is new,
   * then append the commit to its scope's list (created if new; `scopeless` is assumed
   * present, as the code does).
   */
  method FileCommit<A(==)>(tree: Tree<A>, action: A, commit: Commit) returns (r: Tree<A>)
    requires tree.Valid() && forall b :: b in tree.values ==> tree.values[b].Valid()
    requires action in tree.values ==> Scopeless in tree.values[action].values
    ensures r == AddCommit(tree, action, commit)
  {
    var scope := commit.scope;
    r := tree;
    if action !in r.values {
      r := r.Put(action, NewScopes());
    }
    var scopes := r.values[action];
    if !(scope.Some? && scope.value != "") {
      scopes := scopes.Put(Scopeless, scopes.values[Scopeless] + [commit]);
    } else {
      if scope.value !in scopes.values {
        scopes := scopes.Put(scope.value, []);
      }
      scopes := scopes.Put(scope.value, scopes.values[scope.value] + [commit]);
    }
    r := r.Put(action, scopes);
  }

  /** A new action's `{'scopeless': []}` matches the commits so far, none of which carries it. */
  lemma NewScopesMatch<A>(cs: seq<Commit>, key: Commit -> Option<A>, a: A)
    requires a !in GroupedKeys(cs, key)
    ensures ScopesMatch(NewScopes(), cs, key, a)
  {
    var d := NewScopes();
    ScopesOfAbsent(cs, key, a);
    assert d.keys == FirstOccurrences([Scopeless] + ScopesOf(cs, key, a)) by {
      assert [Scopeless] + ScopesOf(cs, key, a) == [] + [Scopeless];
      FirstOccurrencesStep([], Scopeless);
    }
    BucketAbsent(cs, key, a, Scopeless);
    forall t | t in d.values ensures d.values[t] == Bucket(cs, key, a, t) {
      assert t == Scopeless;
    }
  }

  /** Filing `c` under `a` keeps the scope dict of `a` in step with the commits. */
  lemma ScopesAppend<A>(d: ScopeDict, cs: seq<Commit>, key: Commit -> Option<A>, a: A, c: Commit)
    requires key(c) == Some(a) && ScopesMatch(d, cs, key, a)
    ensures ScopesMatch(FileInScope(d, c), cs + [c], key, a)
  {
    var r := FileInScope(d, c);
    ScopesAppendKeys(d, cs, key, a, c);
    var s := ScopeKey(c);
    if s !in d.values {
      FirstOccurrencesMembers([Scopeless] + ScopesOf(cs, key, a), s);
      BucketAbsent(cs, key, a, s);
    }
    BucketsAppend(d.values, cs, key, a, c);
    assert forall t :: t in r.values ==> r.values[t] == Bucket(cs + [c], key, a, t);
  }

  /** Filing `c` under `a` lists a new scope after the others, as its first appearance. */
  lemma ScopesAppendKeys<A>(d: ScopeDict, cs: seq<Commit>, key: Commit -> Option<A>, a: A, c: Commit)
    requires key(c) == Some(a) && ScopesMatch(d, cs, key, a)
    ensures FileInScope(d, c).keys == FirstOccurrences([Scopeless] + ScopesOf(cs + [c], key, a))
  {
    var s := ScopeKey(c);
    var xs := [Scopeless] + ScopesOf(cs, key, a);
    ScopesStep(cs, key, c, a);
    assert [Scopeless] + ScopesOf(cs + [c], key, a) == xs + [s];
    FirstOccurrencesStep(xs, s);
    d.KeyListed(s);
  }

  /** The buckets once `c` is appended to its own: each bucket is still the commits of its scope. */
  lemma BucketsAppend<A>(m: map<string, seq<Commit>>, cs: seq<Commit>, key: Commit -> Option<A>, a: A, c: Commit)
    requires key(c) == Some(a)
    requires forall t :: t in m ==> m[t] == Bucket(cs, key, a, t)
    requires ScopeKey(c) !in m ==> Bucket(cs, key, a, ScopeKey(c)) == []
    ensures var s := ScopeKey(c);
      var m' := m[s := (if s in m then m[s] else []) + [c]];
      forall t :: t in m' ==> m'[t] == Bucket(cs + [c], key, a, t)
  {
    var s := ScopeKey(c);
    var m' := m[s := (if s in m then m[s] else []) + [c]];
    forall t | t in m' ensures m'[t] == Bucket(cs + [c], key, a, t) {
      BucketStep(cs, key, c, a, t);
    }
  }

  /** Filing `c` elsewhere leaves the scope dict of `b` in step. */
  lemma ScopesUnaffected<A>(d: ScopeDict, cs: seq<Commit>, key: Commit -> Option<A>, b: A, c: Commit)
    requires key(c) != Some(b) && ScopesMatch(d, cs, key, b)
    ensures ScopesMatch(d, cs + [c], key, b)
  {
    var cs' := cs + [c];
    assert cs'[..|cs'| - 1] == cs;
    assert cs'[|cs'| - 1] == c;
    assert ScopesOf(cs', key, b) == ScopesOf(cs, key, b);
    forall s ensures Bucket(cs', key, b, s) == Bucket(cs, key, b, s) {
      assert Bucket(cs', key, b, s) == Bucket(cs, key, b, s) + [];
    }
  }

  /** A commit that takes part is filed under its action and scope and nowhere else. */
  lemma GroupingAppend<A>(tree: Tree<A>, cs: seq<Commit>, key: Commit -> Option<A>, c: Commit)
    requires IsGrouping(tree, cs, key) && key(c).Some?
    ensures IsGrouping(AddCommit(tree, key(c).value, c), cs + [c], key)
  {
    var a := key(c).value;
    var cs' := cs + [c];
    assert cs'[..|cs'| - 1] == cs;
    var ks := GroupedKeys(cs, key);
    assert GroupedKeys(cs', key) == ks + [a];
    assert (ks + [a])[..|ks|] == ks;
    FirstOccurrencesMembers(ks, a);
    var t := if a in tree.values then tree else tree.Put(a, NewScopes());
    if a !in tree.values {
      NewScopesMatch(cs, key, a);
    }
    assert ScopesMatch(t.values[a], cs, key, a);
    ScopesAppend(t.values[a], cs, key, a, c);
    var r := AddCommit(tree, a, c);
    forall b | b in r.values
      ensures ScopesMatch(r.values[b], cs', key, b)
    {
      if b != a {
        ScopesUnaffected(tree.values[b], cs, key, b, c);
      }
    }
  }

  /** A commit that does not take part leaves the grouping as it is. */
  lemma GroupingSkip<A>(tree: Tree<A>, cs: seq<Commit>, key: Commit -> Option<A>, c: Commit)
    requires IsGrouping(tree, cs, key) && key(c).None?
    ensures IsGrouping(tree, cs + [c], key)
  {
    var cs' := cs + [c];
    assert cs'[..|cs'| - 1] == cs;
    assert cs'[|cs'| - 1] == c;
    assert GroupedKeys(cs', key) == GroupedKeys(cs, key);
    forall b | b in tree.values
      ensures ScopesMatch(tree.values[b], cs', key, b)
    {
      ScopesUnaffected(tree.values[b], cs, key, b, c);
    }
  }

  lemma GroupingEmpty<A>(key: Commit -> Option<A>)
    ensures IsGrouping(Empty(), [], key)
  {
  }
  /** The loop step of the grouping functions for a commit that is filed. */
  lemma FiledStep<A>(tree: Tree<A>, commits: seq<Commit>, i: nat, key: Commit -> Option<A>)
    requires i < |commits| && key(commits[i]).Some?
    requires IsGrouping(tree, commits[..i], key)
    requires TreeTotal(tree) == |GroupedKeys(commits[..i], key)|
    ensures var next := AddCommit(tree, key(commits[i]).value, commits[i]);
      IsGrouping(next, commits[..i + 1], key)
      && TreeTotal(next) == |GroupedKeys(commits[..i + 1], key)|
  {
    assert commits[..i + 1] == commits[..i] + [commits[i]];
    GroupingAppend(tree, commits[..i], key, commits[i]);
    AddCommitTotal(tree, key(commits[i]).value, commits[i]);
    var cs := commits[..i + 1];
    assert cs[..|cs| - 1] == commits[..i];
  }

  /** The loop step of the grouping functions for a commit that is skipped. */
  lemma SkippedStep<A>(tree: Tree<A>, commits: seq<Commit>, i: nat, key: Commit -> Option<A>)
    requires i < |commits| && key(commits[i]).None?
    requires IsGrouping(tree, commits[..i], key)
    requires TreeTotal(tree) == |GroupedKeys(commits[..i], key)|
    ensures IsGrouping(tree, commits[..i + 1], key)
    ensures TreeTotal(tree) == |GroupedKeys(commits[..i + 1], key)|
  {
    assert commits[..i + 1] == commits[..i] + [commits[i]];
    GroupingSkip(tree, commits[..i], key, commits[i]);
    var cs := commits[..i + 1];
    assert cs[..|cs| - 1] == commits[..i];
  }

  /** The grouping built one commit at a time, as both loops build it: it meets the description. */
  function Grouped<A(==)>(cs: seq<Commit>, key: Commit -> Option<A>): (tree: Tree<A>)
    ensures IsGrouping(tree, cs, key)
    ensures TreeTotal(tree) == |GroupedKeys(cs, key)|
  {
    if cs == [] then
      GroupingEmpty(key);
      Empty()
    else
      var i := |cs| - 1;
      var init := Grouped(cs[..i], key);
      assert cs[..i + 1] == cs;
      if key(cs[i]).Some? then
        FiledStep(init, cs, i, key);
        AddCommit(init, key(cs[i]).value, cs[i])
      else
        SkippedStep(init, cs, i, key);
        init
  }

  /** The description fixes the dict: two groupings of the same commits are equal. */
  lemma GroupingUnique<A>(t1: Tree<A>, t2: Tree<A>, cs: seq<Commit>, key: Commit -> Option<A>)
    requires IsGrouping(t1, cs, key) && IsGrouping(t2, cs, key)
    ensures t1 == t2
  {
    forall a | a in t1.values
      ensures a in t2.values && t1.values[a] == t2.values[a]
    {
      var d1, d2 := t1.values[a], t2.values[a];
      assert a in t2.values;
      assert d2 == t2.values[a];
      assert d1.values == d2.values by {
        forall s | s in d1.values ensures s in d2.values {
          assert s in d1.keys;
        }
        forall s | s in d2.values ensures s in d1.values {
          assert s in d2.keys;
        }
      }
    }
    assert t1.values == t2.values by {
      forall a | a in t2.values ensures a in t1.values {
        assert a in t2.keys;
      }
    }
  }

  // ---------------------------------------------------------------------------
  // counting the filed commits

  function Sum<K>(ks: seq<K>, f: K -> nat): nat {
    if ks == [] then 0 else f(ks[0]) + Sum(ks[1..], f)
  }

  function BucketSize(d: ScopeDict): string -> nat {
    s => if s in d.values then |d.values[s]| else 0
  }

  /** Number of commits across the buckets of a scope dict. */
  function ScopeTotal(d: ScopeDict): nat {
    Sum(d.keys, BucketSize(d))
  }

  function ActionSize<A(==)>(tree: Tree<A>): A -> nat {
    a => if a in tree.values then ScopeTotal(tree.values[a]) else 0
  }

  /** Number of commits across every bucket of every action. */
  function TreeTotal<A(==)>(tree: Tree<A>): nat {
    Sum(tree.keys, ActionSize(tree))
  }

  lemma {:induction false} SumAppend<K>(ks: seq<K>, k: K, f: K -> nat)
    ensures Sum(ks + [k], f) == Sum(ks, f) + f(k)
  {
    if ks != [] {
      assert (ks + [k])[1..] == ks[1..] + [k];
      SumAppend(ks[1..], k, f);
    }
  }

  /** Changing the summand at one key changes the sum by the difference at that key. */
  lemma {:induction false} SumUpdate<K>(ks: seq<K>, f: K -> nat, g: K -> nat, k: K)
    requires NoDuplicates(ks)
    requires forall x :: x in ks && x != k ==> f(x) == g(x)
    ensures k in ks ==> Sum(ks, g) + f(k) == Sum(ks, f) + g(k)
    ensures k !in ks ==> Sum(ks, g) == Sum(ks, f)
  {
    if ks != [] {
      assert NoDuplicates(ks[1..]) by {
        forall i, j | 0 <= i < j < |ks| - 1 ensures ks[1..][i] != ks[1..][j] {
          assert ks[1..][i] == ks[i + 1] && ks[1..][j] == ks[j + 1];
        }
      }
      assert ks[0] !in ks[1..];
      SumUpdate(ks[1..], f, g, k);
    }
  }

  lemma PutNewScope(d: ScopeDict, s: string)
    requires d.Valid() && s !in d.values
    ensures ScopeTotal(d.Put(s, [])) == ScopeTotal(d)
  {
    var d1 := d.Put(s, []);
    SumAppend(d.keys, s, BucketSize(d1));
    SumUpdate(d.keys, BucketSize(d), BucketSize(d1), s);
  }

  lemma AppendToBucket(d: ScopeDict, s: string, c: Commit)
    requires d.Valid() && s in d.values
    ensures ScopeTotal(d.Put(s, d.values[s] + [c])) == ScopeTotal(d) + 1
  {
    var d1 := d.Put(s, d.values[s] + [c]);
    SumUpdate(d.keys, BucketSize(d), BucketSize(d1), s);
  }

  lemma PutAction<A>(tree: Tree<A>, a: A, d: ScopeDict)
    requires tree.Valid()
    ensures a in tree.values ==>
      TreeTotal(tree.Put(a, d)) + ScopeTotal(tree.values[a]) == TreeTotal(tree) + ScopeTotal(d)
    ensures a !in tree.values ==> TreeTotal(tree.Put(a, d)) == TreeTotal(tree) + ScopeTotal(d)
  {
    var t1 := tree.Put(a, d);
    if a !in tree.values {
      SumAppend(tree.keys, a, ActionSize(t1));
    }
    SumUpdate(tree.keys, ActionSize(tree), ActionSize(t1), a);
  }

  /** Filing one commit adds exactly one to the number of filed commits. */
  lemma AddCommitTotal<A>(tree: Tree<A>, a: A, c: Commit)
    requires tree.Valid() && forall b :: b in tree.values ==> tree.values[b].Valid()
    ensures TreeTotal(AddCommit(tree, a, c)) == TreeTotal(tree) + 1
  {
    var t := if a in tree.values then tree else tree.Put(a, NewScopes());
    if a !in tree.values {
      PutAction(tree, a, NewScopes());
      assert ScopeTotal(NewScopes()) == 0;
    }
    var s := ScopeKey(c);
    var scopes := t.values[a];
    var scopes1 := if s in scopes.values then scopes else scopes.Put(s, []);
    if s !in scopes.values {
      PutNewScope(scopes, s);
    }
    AppendToBucket(scopes1, s, c);
    PutAction(t, a, FileInScope(scopes, c));
  }
}
