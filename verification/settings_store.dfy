/**
 * The user settings store of src/stores/settingsStore.ts: the most recently
 * opened repositories, editor and diff preferences, and panel sizes. The
 * store is an object whose actions replace one field each; the recent-list
 * arithmetic is given as functions on sequences, with its properties as
 * lemmas, and the store's actions are proved to apply them.
 */
module SettingsStore {

  datatype DiffViewMode = Unified | Split

  /** Every field of the store at one moment. */
  datatype Settings = Settings(
    recentRepos: seq<string>,
    fontSize: int,
    tabSize: int,
    diffContextLines: int,
    showWhitespace: bool,
    diffViewMode: DiffViewMode,
    sidebarWidth: int,
    detailsPanelHeight: int)

  /** The length the recent-repository list is cut to. */
  const MaxRecentRepos: nat := 10

  /** The settings a fresh store starts from. */
  const Defaults: Settings := Settings([], 13, 4, 3, false, Unified, 280, 300)

  // ---------------------------------------------------------------------
  // The recent-repository list
  // ---------------------------------------------------------------------

  /** No path occurs twice. */
  predicate NoDuplicates(repos: seq<string>)
  {
    forall i, j :: 0 <= i < j < |repos| ==> repos[i] != repos[j]
  }

  /** `sub` is `repos` with some entries dropped and the rest in their order. */
  predicate IsSubsequence(sub: seq<string>, repos: seq<string>)
    decreases |repos|
  {
    if sub == [] then true
    else if repos == [] then false
    else if sub[0] == repos[0] then IsSubsequence(sub[1..], repos[1..])
    else IsSubsequence(sub, repos[1..])
  }

  /** The list with every occurrence of `path` filtered out. */
  function Without(repos: seq<string>, path: string): (r: seq<string>)
    ensures path !in r
    ensures |r| <= |repos|
    ensures forall x :: x in r <==> x in repos && x != path
    ensures multiset(r) == multiset(repos)[path := 0]
    decreases |repos|
  {
    if repos == [] then []
    else
      assert repos == [repos[0]] + repos[1..];
      (if repos[0] == path then [] else [repos[0]]) + Without(repos[1..], path)
  }

  /** `path` moved (or added) to the front, the list cut to MaxRecentRepos. */
  function WithRecent(repos: seq<string>, path: string): (r: seq<string>)
    ensures 1 <= |r| <= MaxRecentRepos
    ensures r[0] == path
  {
    var moved := [path] + Without(repos, path);
    if |moved| <= MaxRecentRepos then moved else moved[..MaxRecentRepos]
  }

  /** Filtering out a path the list does not hold changes nothing. */
  lemma {:induction false} WithoutAbsent(repos: seq<string>, path: string)
    requires path !in repos
    ensures Without(repos, path) == repos
    decreases |repos|
  {
    if repos != [] {
      assert path !in repos[1..] by {
        assert forall x :: x in repos[1..] ==> x in repos;
      }
      WithoutAbsent(repos[1..], path);
      assert [repos[0]] + repos[1..] == repos;
    }
  }

  /** Filtering keeps the remaining entries in their order. */
  lemma {:induction false} WithoutIsSubsequence(repos: seq<string>, path: string)
    ensures IsSubsequence(Without(repos, path), repos)
    decreases |repos|
  {
    if repos != [] {
      var rest := Without(repos[1..], path);
      WithoutIsSubsequence(repos[1..], path);
      if repos[0] == path {
        assert Without(repos, path) == rest;
        SubsequenceSkip(rest, repos);
      } else {
        assert Without(repos, path) == [repos[0]] + rest;
        assert ([repos[0]] + rest)[1..] == rest;
      }
    }
  }

  /** A subsequence of the tail is a subsequence of the whole list. */
  lemma {:induction false} SubsequenceSkip(sub: seq<string>, repos: seq<string>)
    requires repos != []
    requires IsSubsequence(sub, repos[1..])
    ensures IsSubsequence(sub, repos)
    decreases |repos|, 0
  {
    if sub != [] && sub[0] == repos[0] {
      assert IsSubsequence(sub[1..], repos[1..]) by {
        SubsequenceDropFirst(sub, repos[1..]);
      }
    }
  }

  /** Dropping the first entry of a subsequence leaves a subsequence. */
  lemma {:induction false} SubsequenceDropFirst(sub: seq<string>, repos: seq<string>)
    requires sub != []
    requires IsSubsequence(sub, repos)
    ensures IsSubsequence(sub[1..], repos)
    decreases |repos|, 1
  {
    if sub[0] == repos[0] {
      if repos[1..] != [] {
        SubsequenceSkip(sub[1..], repos);
      } else {
        assert sub[1..] == [];
      }
    } else {
      SubsequenceDropFirst(sub, repos[1..]);
      SubsequenceSkip(sub[1..], repos);
    }
  }

  /** Filtering a list without duplicates leaves one without duplicates. */
  lemma {:induction false} WithoutNoDuplicates(repos: seq<string>, path: string)
    requires NoDuplicates(repos)
    ensures NoDuplicates(Without(repos, path))
    decreases |repos|
  {
    if repos != [] {
      var rest := Without(repos[1..], path);
      WithoutNoDuplicates(repos[1..], path);
      if repos[0] != path {
        assert repos[0] !in repos[1..] by {
          forall k | 0 <= k < |repos[1..]|
            ensures repos[1..][k] != repos[0]
          {
            assert repos[1..][k] == repos[k + 1];
          }
        }
        assert repos[0] !in rest;
        var r := [repos[0]] + rest;
        forall i, j | 0 <= i < j < |r|
          ensures r[i] != r[j]
        {
          if i == 0 {
            assert r[j] == rest[j - 1];
          } else {
            assert r[i] == rest[i - 1] && r[j] == rest[j - 1];
          }
        }
      }
    }
  }

  /**
   * addRecentRepo puts the path first, exactly once, and keeps the other
   * entries in their order after it, cut to at most MaxRecentRepos entries.
   */
  lemma WithRecentSpec(repos: seq<string>, path: string)
    ensures multiset(WithRecent(repos, path))[path] == 1
    ensures var r := WithRecent(repos, path);
            var others := Without(repos, path);
            && r[1..] == others[..|r| - 1]
            && |r| == if |others| < MaxRecentRepos then |others| + 1 else MaxRecentRepos
  {
    var r := WithRecent(repos, path);
    var others := Without(repos, path);
    var kept := others[..|r| - 1];
    assert r == [path] + kept;
    assert path !in kept by {
      assert forall x :: x in kept ==> x in others;
    }
    assert multiset(r) == multiset{path} + multiset(kept);
  }

  /** Adding keeps the list free of duplicates. */
  lemma WithRecentNoDuplicates(repos: seq<string>, path: string)
    requires NoDuplicates(repos)
    ensures NoDuplicates(WithRecent(repos, path))
  {
    var others := Without(repos, path);
    WithoutNoDuplicates(repos, path);
    var r := WithRecent(repos, path);
    var kept := others[..|r| - 1];
    assert r == [path] + kept;
    forall i, j | 0 <= i < j < |r|
      ensures r[i] != r[j]
    {
      assert r[j] == kept[j - 1] == others[j - 1];
      if i == 0 {
        assert others[j - 1] in others;
      } else {
        assert r[i] == others[i - 1];
      }
    }
  }

  /** Adding the same path twice in a row is adding it once. */
  lemma WithRecentIdempotent(repos: seq<string>, path: string)
    ensures WithRecent(WithRecent(repos, path), path) == WithRecent(repos, path)
  {
    var r := WithRecent(repos, path);
    WithRecentSpec(repos, path);
    var kept := r[1..];
    assert r == [path] + kept;
    assert path !in kept by {
      assert multiset(r) == multiset{path} + multiset(kept);
    }
    assert Without(r, path) == Without(kept, path);
    WithoutAbsent(kept, path);
  }

  /** Removing a path that was just added leaves the other entries as they were, cut to one less than the cap. */
  lemma RemoveAfterAdd(repos: seq<string>, path: string)
    ensures var others := Without(repos, path);
            Without(WithRecent(repos, path), path)
              == if |others| < MaxRecentRepos then others else others[..MaxRecentRepos - 1]
  {
    var r := WithRecent(repos, path);
    WithRecentSpec(repos, path);
    var kept := r[1..];
    assert r == [path] + kept;
    assert path !in kept by {
      assert multiset(r) == multiset{path} + multiset(kept);
    }
    assert Without(r, path) == Without(kept, path);
    WithoutAbsent(kept, path);
  }

  // ---------------------------------------------------------------------
  // The store
  // ---------------------------------------------------------------------

  class SettingsStore {
    var recentRepos: seq<string>
    var fontSize: int
    var tabSize: int
    var diffContextLines: int
    var showWhitespace: bool
    var diffViewMode: DiffViewMode
    var sidebarWidth: int
    var detailsPanelHeight: int

    /** The store's fields as one value. */
    function Snapshot(): Settings
      reads this
    {
      Settings(recentRepos, fontSize, tabSize, diffContextLines, showWhitespace,
               diffViewMode, sidebarWidth, detailsPanelHeight)
    }

    /** The recent list is short and names each repository once. */
    predicate RecentListValid()
      reads this
    {
      |recentRepos| <= MaxRecentRepos && NoDuplicates(recentRepos)
    }

    /** A fresh store holds the defaults. */
    constructor()
      ensures Snapshot() == Defaults
      ensures RecentListValid()
    {
      recentRepos := [];
      fontSize := 13;
      tabSize := 4;
      diffContextLines := 3;
      showWhitespace := false;
      diffViewMode := Unified;
      sidebarWidth := 280;
      detailsPanelHeight := 300;
    }

    /** addRecentRepo: move `path` to the front of the recent list. */
    method AddRecentRepo(path: string)
      modifies this
      ensures Snapshot() == old(Snapshot()).(recentRepos := WithRecent(old(recentRepos), path))
      ensures recentRepos[0] == path && path !in recentRepos[1..]
      ensures old(RecentListValid()) ==> RecentListValid()
    {
      WithRecentSpec(recentRepos, path);
      if NoDuplicates(recentRepos) {
        WithRecentNoDuplicates(recentRepos, path);
      }
      recentRepos := WithRecent(recentRepos, path);
      assert recentRepos == [path] + recentRepos[1..];
      assert multiset(recentRepos) == multiset{path} + multiset(recentRepos[1..]);
    }

    /** removeRecentRepo: drop `path` from the recent list, keeping the order of the rest. */
    method RemoveRecentRepo(path: string)
      modifies this
      ensures Snapshot() == old(Snapshot()).(recentRepos := Without(old(recentRepos), path))
      ensures path !in recentRepos
      ensures IsSubsequence(recentRepos, old(recentRepos))
      ensures old(RecentListValid()) ==> RecentListValid()
    {
      WithoutIsSubsequence(recentRepos, path);
      if NoDuplicates(recentRepos) {
        WithoutNoDuplicates(recentRepos, path);
      }
      recentRepos := Without(recentRepos, path);
    }

    /** clearRecentRepos: empty the recent list. */
    method ClearRecentRepos()
      modifies this
      ensures Snapshot() == old(Snapshot()).(recentRepos := [])
      ensures RecentListValid()
    {
      recentRepos := [];
    }

    method SetFontSize(size: int)
      modifies this
      ensures Snapshot() == old(Snapshot()).(fontSize := size)
    {
      fontSize := size;
    }

    method SetTabSize(size: int)
      modifies this
      ensures Snapshot() == old(Snapshot()).(tabSize := size)
    {
      tabSize := size;
    }

    method SetDiffContextLines(lines: int)
      modifies this
      ensures Snapshot() == old(Snapshot()).(diffContextLines := lines)
    {
      diffContextLines := lines;
    }

    method SetShowWhitespace(show: bool)
      modifies this
      ensures Snapshot() == old(Snapshot()).(showWhitespace := show)
    {
      showWhitespace := show;
    }

    method SetDiffViewMode(mode: DiffViewMode)
      modifies this
      ensures Snapshot() == old(Snapshot()).(diffViewMode := mode)
    {
      diffViewMode := mode;
    }

    method SetSidebarWidth(width: int)
      modifies this
      ensures Snapshot() == old(Snapshot()).(sidebarWidth := width)
    {
      sidebarWidth := width;
    }

    method SetDetailsPanelHeight(height: int)
      modifies this
      ensures Snapshot() == old(Snapshot()).(detailsPanelHeight := height)
    {
      detailsPanelHeight := height;
    }
  }
}
