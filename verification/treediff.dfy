/** The tree differ of `handle_dirs` (its nested `recurse_on_rel_path`):
    walk the current and the candidate directory in lock-step and record,
    for every item, what replacing one with the other would do to it. */
module TreeDiff {
  import opened Paths
  import opened Wrappers
  import opened FileSystem

  /** The four verbs of `handle_dirs`. */
  datatype Verb = Delete | Create | Alter | Leave

  /** `action_for_item_`, reduced to its verbs: relative path to verb. */
  type Actions = map<string, Verb>

  /** The differ either finishes or meets an item present on both sides
      that is neither a regular file on both nor a directory on both, where
      the source stops on an `assert`. */
  datatype DiffResult = Diffed(actions: Actions) | KindClash(at: string)

  /** The names of one directory level the differ looks at. */
  function Visible(t: Tree): set<string>
  {
    set name | name in t && !IsSwapName(name)
  }

  /** The names of one level on either side, swap files dropped, in the
      sorted order `recurse_on_rel_path` visits them. */
  function LevelNames(c: Tree, n: Tree): (r: seq<string>)
    ensures StrictlySorted(r)
    ensures forall name :: name in r <==> (name in c || name in n) && !IsSwapName(name)
  {
    SortedSeq(Visible(c) + Visible(n))
  }

  /** Every name is on some side and none is a swap file. */
  predicate ListedNames(c: Tree, n: Tree, names: seq<string>)
  {
    forall i | 0 <= i < |names| :: (names[i] in c || names[i] in n) && !IsSwapName(names[i])
  }

  /** The items `names` of the level whose relative path is `rel`, in
      order; a later item's entries overwrite an earlier one's, as in the
      source's dictionary. */
  function DiffNames(c: Tree, n: Tree, rel: string, names: seq<string>): DiffResult
    requires ListedNames(c, n, names)
    decreases Dir(c), |names|
  {
    if names == [] then Diffed(map[])
    else
      match DiffEntry(c, n, rel, names[0])
      case KindClash(at) => KindClash(at)
      case Diffed(here) =>
        match DiffNames(c, n, rel, names[1..])
        case KindClash(at) => KindClash(at)
        case Diffed(rest) => Diffed(here + rest)
  }

  /** One item: deleted, created, left, altered, or a directory on both
      sides to descend into. */
  function DiffEntry(c: Tree, n: Tree, rel: string, name: string): DiffResult
    requires (name in c || name in n) && !IsSwapName(name)
    decreases Dir(c), 0
  {
    var key := rel + "/" + name;
    if name !in n then Diffed(map[key := Delete])
    else if name !in c then Diffed(map[key := Create])
    else
      match (c[name], n[name])
      case (File(a), File(b)) => Diffed(map[key := if a == b then Leave else Alter])
      case (Dir(ce), Dir(ne)) => DiffNames(ce, ne, key, LevelNames(ce, ne))
      case _ => KindClash(key)
  }

  /** `recurse_on_rel_path('.')` over the entries of the two roots. */
  function Diff(c: Tree, n: Tree): DiffResult
  {
    DiffNames(c, n, ".", LevelNames(c, n))
  }

  // ---------------------------------------------------------------------
  // The reference: what each path should map to, one path at a time.

  /** "/a/b/c" for the names ["a", "b", "c"]. */
  function Suffix(p: seq<string>): string
  {
    if p == [] then "" else "/" + p[0] + Suffix(p[1..])
  }

  /** The key the differ uses for the item reached by `p` from the level
      whose relative path is `rel`. */
  function PathKey(rel: string, p: seq<string>): string
  {
    rel + Suffix(p)
  }

  /** The verb the item at path `p` (names from the roots down) deserves,
      or None when no key belongs to it: a swap file on the way, a path
      absent from both trees, a directory on both sides, or a kind clash. */
  function Classify(c: Tree, n: Tree, p: seq<string>): Option<Verb>
    decreases |p|
  {
    if p == [] || IsSwapName(p[0]) || (p[0] !in c && p[0] !in n) then None
    else
      var name := p[0];
      if |p| == 1 then
        if name !in n then Some(Delete)
        else if name !in c then Some(Create)
        else if c[name].File? && n[name].File? then
          Some(if c[name].bytes == n[name].bytes then Leave else Alter)
        else None
      else if name in c && name in n && c[name].Dir? && n[name].Dir? then
        Classify(c[name].entries, n[name].entries, p[1..])
      else None
  }

  /** The item `name` of a level is a file on both sides, or a directory
      on both sides whose contents agree in the same way. */
  predicate SameKind(c: Tree, n: Tree, name: string)
    decreases Dir(c), 0
  {
    name in c && name in n ==>
      (c[name].File? && n[name].File?) ||
      (c[name].Dir? && n[name].Dir? && Compatible(c[name].entries, n[name].entries))
  }

  /** Every non-swap item present on both sides is a regular file on both
      sides, or a directory on both sides with compatible contents. */
  predicate Compatible(c: Tree, n: Tree)
    decreases Dir(c), 1
  {
    forall name | name in c && !IsSwapName(name) :: SameKind(c, n, name)
  }

  // ---------------------------------------------------------------------
  // Paths and keys

  lemma PathKeyStep(rel: string, name: string, q: seq<string>)
    ensures PathKey(rel + "/" + name, q) == PathKey(rel, [name] + q)
  {
    var p := [name] + q;
    assert p[0] == name && p[1..] == q;
  }

  /** Where two spellings of one string differ in length, the shorter
      word's follower sits opposite a letter of the longer word. */
  lemma FollowerFacesLetter(a: string, x: string, b: string, y: string)
    requires a + x == b + y && |a| < |b|
    ensures x != [] && x[0] == b[|a|] && x[0] in b
  {
    assert (a + x)[|a|] == (b + y)[|a|];
  }

  /** Two words without a separator, each followed by nothing or by a
      separator, are told apart by the separator. */
  lemma SplitAtSlash(a: string, x: string, b: string, y: string)
    requires SlashFree(a) && SlashFree(b)
    requires x == [] || x[0] == '/'
    requires y == [] || y[0] == '/'
    requires a + x == b + y
    ensures a == b && x == y
  {
    if |a| < |b| {
      FollowerFacesLetter(a, x, b, y);
      assert false;
    } else if |b| < |a| {
      FollowerFacesLetter(b, y, a, x);
      assert false;
    }
    assert a == (a + x)[..|a|];
    assert b == (b + y)[..|b|];
    assert x == (a + x)[|a|..];
    assert y == (b + y)[|b|..];
  }

  lemma {:induction false} SuffixInjective(p: seq<string>, q: seq<string>)
    requires forall i | 0 <= i < |p| :: SlashFree(p[i])
    requires forall i | 0 <= i < |q| :: SlashFree(q[i])
    requires Suffix(p) == Suffix(q)
    ensures p == q
  {
    if p == [] || q == [] {
      assert |Suffix(p)| == 0 <==> p == [];
      assert |Suffix(q)| == 0 <==> q == [];
    } else {
      var x, y := Suffix(p[1..]), Suffix(q[1..]);
      assert "/" + p[0] + x == Suffix(p) == Suffix(q) == "/" + q[0] + y;
      assert p[0] + x == ("/" + p[0] + x)[1..];
      assert q[0] + y == ("/" + q[0] + y)[1..];
      SplitAtSlash(p[0], x, q[0], y);
      SuffixInjective(p[1..], q[1..]);
      assert p == [p[0]] + p[1..] && q == [q[0]] + q[1..];
    }
  }

  /** Different slash-free paths never share a key. */
  lemma PathKeyInjective(rel: string, p: seq<string>, q: seq<string>)
    requires forall i | 0 <= i < |p| :: SlashFree(p[i])
    requires forall i | 0 <= i < |q| :: SlashFree(q[i])
    requires PathKey(rel, p) == PathKey(rel, q)
    ensures p == q
  {
    assert Suffix(p) == PathKey(rel, p)[|rel|..];
    assert Suffix(q) == PathKey(rel, q)[|rel|..];
    SuffixInjective(p, q);
  }

  /** A classified path runs through names both trees can hold, none of
      them a swap file. */
  lemma {:induction false} ClassifiedPathNames(c: Tree, n: Tree, p: seq<string>)
    requires NamesSlashFree(c) && NamesSlashFree(n)
    requires Classify(c, n, p).Some?
    ensures forall i | 0 <= i < |p| :: SlashFree(p[i]) && !IsSwapName(p[i])
    decreases |p|
  {
    if |p| > 1 {
      var ce, ne := c[p[0]].entries, n[p[0]].entries;
      ClassifiedPathNames(ce, ne, p[1..]);
      forall i | 1 <= i < |p|
        ensures SlashFree(p[i]) && !IsSwapName(p[i])
      {
        assert p[i] == p[1..][i - 1];
      }
    }
  }

  // ---------------------------------------------------------------------
  // Success exactly on compatible trees

  lemma {:induction false} DiffEntrySucceeds(c: Tree, n: Tree, rel: string, name: string)
    requires (name in c || name in n) && !IsSwapName(name)
    ensures DiffEntry(c, n, rel, name).Diffed? <==> SameKind(c, n, name)
    decreases Dir(c), 0
  {
    if name in c && name in n && c[name].Dir? && n[name].Dir? {
      var ce, ne := c[name].entries, n[name].entries;
      var names := LevelNames(ce, ne);
      DiffNamesSucceeds(ce, ne, rel + "/" + name, names);
      LevelSameKindIffCompatible(ce, ne);
    }
  }

  /** A level's items all keep their kind exactly when the trees are
      compatible. */
  lemma LevelSameKindIffCompatible(c: Tree, n: Tree)
    ensures (forall i | 0 <= i < |LevelNames(c, n)| :: SameKind(c, n, LevelNames(c, n)[i])) <==> Compatible(c, n)
  {
    var names := LevelNames(c, n);
    if forall i | 0 <= i < |names| :: SameKind(c, n, names[i]) {
      forall x | x in c && !IsSwapName(x)
        ensures SameKind(c, n, x)
      {
        assert x in names;
      }
    }
  }

  lemma {:induction false} DiffNamesSucceeds(c: Tree, n: Tree, rel: string, names: seq<string>)
    requires ListedNames(c, n, names)
    ensures DiffNames(c, n, rel, names).Diffed? <==>
              forall i | 0 <= i < |names| :: SameKind(c, n, names[i])
    decreases Dir(c), |names|
  {
    if names != [] {
      DiffEntrySucceeds(c, n, rel, names[0]);
      DiffNamesSucceeds(c, n, rel, names[1..]);
      assert forall i | 1 <= i < |names| :: names[i] == names[1..][i - 1];
    }
  }

  /** The differ stops on an `assert` exactly when the trees are not
      compatible: some item on both sides, at any depth, is not a pair of
      regular files or a pair of directories. */
  lemma DiffSucceedsIffCompatible(c: Tree, n: Tree)
    ensures Diff(c, n).Diffed? <==> Compatible(c, n)
  {
    DiffNamesSucceeds(c, n, ".", LevelNames(c, n));
    LevelSameKindIffCompatible(c, n);
  }

  /** A tree of files and directories can be compared with itself. */
  lemma {:induction false} PlainTreeSelfCompatible(t: Tree)
    requires PlainTree(t)
    ensures Compatible(t, t)
    decreases Dir(t)
  {
    forall name | name in t && !IsSwapName(name)
      ensures SameKind(t, t, name)
    {
      if t[name].Dir? {
        PlainTreeSelfCompatible(t[name].entries);
      }
    }
  }

  // ---------------------------------------------------------------------
  // Soundness: every key is explained by a classified path

  /** Every key of `acts` belongs to a path starting with one of `first`
      from the level whose relative path is `rel`, and the reference
      classifies that path as recorded. */
  ghost predicate KeysExplained(c: Tree, n: Tree, rel: string, acts: Actions, first: seq<string>)
  {
    forall k | k in acts :: KeyExplained(c, n, rel, k, acts[k], first)
  }

  /** The key `k` with verb `v` belongs to such a path. */
  ghost predicate KeyExplained(c: Tree, n: Tree, rel: string, k: string, v: Verb, first: seq<string>)
  {
    exists p :: |p| >= 1 && p[0] in first && PathKey(rel, p) == k && Classify(c, n, p) == Some(v)
  }

  lemma ExplainedWiden(c: Tree, n: Tree, rel: string, k: string, v: Verb, a: seq<string>, b: seq<string>)
    requires KeyExplained(c, n, rel, k, v, a)
    requires forall x | x in a :: x in b
    ensures KeyExplained(c, n, rel, k, v, b)
  {
    var p :| |p| >= 1 && p[0] in a && PathKey(rel, p) == k && Classify(c, n, p) == Some(v);
  }

  lemma {:induction false} DiffEntrySound(c: Tree, n: Tree, rel: string, name: string)
    requires (name in c || name in n) && !IsSwapName(name)
    requires DiffEntry(c, n, rel, name).Diffed?
    ensures KeysExplained(c, n, rel, DiffEntry(c, n, rel, name).actions, [name])
    decreases Dir(c), 0, 1
  {
    if name in c && name in n && c[name].Dir? && n[name].Dir? {
      DirEntrySound(c, n, rel, name);
    } else {
      LeafEntrySound(c, n, rel, name);
    }
  }

  /** A directory on both sides: its keys are those of its contents. */
  lemma {:induction false} DirEntrySound(c: Tree, n: Tree, rel: string, name: string)
    requires name in c && name in n && c[name].Dir? && n[name].Dir? && !IsSwapName(name)
    requires DiffEntry(c, n, rel, name).Diffed?
    ensures KeysExplained(c, n, rel, DiffEntry(c, n, rel, name).actions, [name])
    decreases Dir(c), 0, 0
  {
    var ce, ne := c[name].entries, n[name].entries;
    var key, names := rel + "/" + name, LevelNames(ce, ne);
    var acts := DiffNames(ce, ne, key, names).actions;
    assert acts == DiffEntry(c, n, rel, name).actions;
    DiffNamesSound(ce, ne, key, names);
    forall k | k in acts
      ensures KeyExplained(c, n, rel, k, acts[k], [name])
    {
      var q :| |q| >= 1 && q[0] in names && PathKey(key, q) == k && Classify(ce, ne, q) == Some(acts[k]);
      ClassifyDescends(c, n, rel, name, q, k, acts[k]);
    }
    assert KeysExplained(c, n, rel, acts, [name]);
  }

  /** A path explained below a directory on both sides, with that
      directory's name in front, is explained one level up. */
  lemma ClassifyDescends(c: Tree, n: Tree, rel: string, name: string, q: seq<string>, k: string, v: Verb)
    requires name in c && name in n && c[name].Dir? && n[name].Dir? && !IsSwapName(name)
    requires |q| >= 1 && PathKey(rel + "/" + name, q) == k
    requires Classify(c[name].entries, n[name].entries, q) == Some(v)
    ensures KeyExplained(c, n, rel, k, v, [name])
  {
    var p := [name] + q;
    PathKeyStep(rel, name, q);
    assert p[1..] == q;
    assert |p| >= 1 && p[0] in [name] && PathKey(rel, p) == k && Classify(c, n, p) == Some(v);
  }

  /** An item that is not a directory on both sides has one key, its own. */
  lemma LeafEntrySound(c: Tree, n: Tree, rel: string, name: string)
    requires (name in c || name in n) && !IsSwapName(name)
    requires !(name in c && name in n && c[name].Dir? && n[name].Dir?)
    requires DiffEntry(c, n, rel, name).Diffed?
    ensures KeysExplained(c, n, rel, DiffEntry(c, n, rel, name).actions, [name])
  {
    var acts := DiffEntry(c, n, rel, name).actions;
    var p := [name];
    assert p[1..] == [];
    assert Suffix(p) == "/" + name;
    assert PathKey(rel, p) == rel + "/" + name;
    assert acts.Keys == {PathKey(rel, p)};
    assert Classify(c, n, p) == Some(acts[PathKey(rel, p)]);
  }

  lemma {:induction false} DiffNamesSound(c: Tree, n: Tree, rel: string, names: seq<string>)
    requires ListedNames(c, n, names)
    requires DiffNames(c, n, rel, names).Diffed?
    ensures KeysExplained(c, n, rel, DiffNames(c, n, rel, names).actions, names)
    decreases Dir(c), |names|, 2
  {
    if names != [] {
      var acts := DiffNames(c, n, rel, names).actions;
      var here := DiffEntry(c, n, rel, names[0]).actions;
      var rest := DiffNames(c, n, rel, names[1..]).actions;
      assert acts == here + rest;
      DiffEntrySound(c, n, rel, names[0]);
      DiffNamesSound(c, n, rel, names[1..]);
      forall k | k in acts
        ensures KeyExplained(c, n, rel, k, acts[k], names)
      {
        if k in rest {
          ExplainedWiden(c, n, rel, k, acts[k], names[1..], names);
        } else {
          ExplainedWiden(c, n, rel, k, acts[k], [names[0]], names);
        }
      }
      assert KeysExplained(c, n, rel, acts, names);
    }
  }

  // ---------------------------------------------------------------------
  // Completeness: every classified path has its key

  lemma {:induction false} DiffEntryComplete(c: Tree, n: Tree, rel: string, name: string, p: seq<string>)
    requires (name in c || name in n) && !IsSwapName(name)
    requires DiffEntry(c, n, rel, name).Diffed?
    requires |p| >= 1 && p[0] == name && Classify(c, n, p).Some?
    ensures PathKey(rel, p) in DiffEntry(c, n, rel, name).actions
    decreases Dir(c), 0
  {
    var key := rel + "/" + name;
    if |p| == 1 {
      LeafEntryComplete(c, n, rel, name, p);
    } else {
      var ce, ne := c[name].entries, n[name].entries;
      var q := p[1..];
      assert p == [name] + q;
      PathKeyStep(rel, name, q);
      DiffNamesComplete(ce, ne, key, LevelNames(ce, ne), q);
    }
  }

  /** A one-name path has the item's own key. */
  lemma LeafEntryComplete(c: Tree, n: Tree, rel: string, name: string, p: seq<string>)
    requires (name in c || name in n) && !IsSwapName(name)
    requires DiffEntry(c, n, rel, name).Diffed?
    requires p == [name] && Classify(c, n, p).Some?
    ensures PathKey(rel, p) in DiffEntry(c, n, rel, name).actions
  {
    assert p[1..] == [];
    assert Suffix(p) == "/" + name;
    assert PathKey(rel, p) == rel + "/" + name;
  }

  lemma {:induction false} DiffNamesComplete(c: Tree, n: Tree, rel: string, names: seq<string>, p: seq<string>)
    requires ListedNames(c, n, names)
    requires DiffNames(c, n, rel, names).Diffed?
    requires |p| >= 1 && p[0] in names && Classify(c, n, p).Some?
    ensures PathKey(rel, p) in DiffNames(c, n, rel, names).actions
    decreases Dir(c), |names|
  {
    if p[0] == names[0] {
      DiffEntryComplete(c, n, rel, names[0], p);
    } else {
      assert p[0] in names[1..];
      DiffNamesComplete(c, n, rel, names[1..], p);
    }
  }

  // ---------------------------------------------------------------------
  // The differ against the reference

  /** Every key of the differ's map names a path, rooted at ".", whose
      classification is the recorded verb. */
  lemma DiffKeysExplained(c: Tree, n: Tree)
    requires Diff(c, n).Diffed?
    ensures forall k | k in Diff(c, n).actions ::
              exists p :: |p| >= 1 && PathKey(".", p) == k && Classify(c, n, p) == Some(Diff(c, n).actions[k])
  {
    DiffNamesSound(c, n, ".", LevelNames(c, n));
  }

  /** The key of a non-empty path from the roots starts with "./". */
  lemma RootedKey(p: seq<string>)
    requires |p| >= 1
    ensures |PathKey(".", p)| >= 2 && PathKey(".", p)[..2] == "./"
  {
    assert Suffix(p) == "/" + p[0] + Suffix(p[1..]);
  }

  /** Every key of the differ's map starts with "./". */
  lemma DiffKeysRooted(c: Tree, n: Tree)
    requires Diff(c, n).Diffed?
    ensures forall k | k in Diff(c, n).actions :: |k| >= 2 && k[..2] == "./"
  {
    var acts := Diff(c, n).actions;
    DiffKeysExplained(c, n);
    forall k | k in acts
      ensures |k| >= 2 && k[..2] == "./"
    {
      var p :| |p| >= 1 && PathKey(".", p) == k && Classify(c, n, p) == Some(acts[k]);
      RootedKey(p);
    }
  }

  /** Every classified path has its key in the differ's map. */
  lemma DiffCoversClassified(c: Tree, n: Tree, p: seq<string>)
    requires Diff(c, n).Diffed? && Classify(c, n, p).Some?
    ensures PathKey(".", p) in Diff(c, n).actions
  {
    var names := LevelNames(c, n);
    assert p[0] in names;
    DiffNamesComplete(c, n, ".", names, p);
  }

  /** For every path of real names, the differ records a key exactly when
      the reference classifies the path, and records that verb: delete
      for an item only in the current tree, create for one only in the
      candidate, leave or alter for a file on both sides by equality of
      their bytes; and nothing for a directory on both sides or anything
      under a swap file. */
  lemma DiffMatchesClassify(c: Tree, n: Tree, p: seq<string>)
    requires NamesSlashFree(c) && NamesSlashFree(n)
    requires forall i | 0 <= i < |p| :: SlashFree(p[i])
    requires Diff(c, n).Diffed?
    ensures PathKey(".", p) in Diff(c, n).actions <==> Classify(c, n, p).Some?
    ensures PathKey(".", p) in Diff(c, n).actions ==>
              Diff(c, n).actions[PathKey(".", p)] == Classify(c, n, p).value
  {
    var acts := Diff(c, n).actions;
    var k := PathKey(".", p);
    if Classify(c, n, p).Some? {
      DiffCoversClassified(c, n, p);
    }
    if k in acts {
      DiffKeysExplained(c, n);
      var q :| |q| >= 1 && PathKey(".", q) == k && Classify(c, n, q) == Some(acts[k]);
      ClassifiedPathNames(c, n, q);
      PathKeyInjective(".", p, q);
    }
  }

  /** A classified path never runs through a swap file. */
  lemma {:induction false} ClassifiedPathAvoidsSwapFiles(c: Tree, n: Tree, p: seq<string>)
    requires Classify(c, n, p).Some?
    ensures forall i | 0 <= i < |p| :: !IsSwapName(p[i])
    decreases |p|
  {
    if |p| > 1 {
      ClassifiedPathAvoidsSwapFiles(c[p[0]].entries, n[p[0]].entries, p[1..]);
      assert forall i | 1 <= i < |p| :: p[i] == p[1..][i - 1];
    }
  }

  /** Comparing a tree with an identical copy leaves every item. */
  lemma {:induction false} ClassifySelfLeaves(t: Tree, p: seq<string>)
    ensures Classify(t, t, p) == None || Classify(t, t, p) == Some(Leave)
    decreases |p|
  {
    if |p| > 1 && p[0] in t && t[p[0]].Dir? && !IsSwapName(p[0]) {
      ClassifySelfLeaves(t[p[0]].entries, p[1..]);
    }
  }

  /** Diffing a plain tree against itself succeeds with only `leave`. */
  lemma DiffOfIdenticalTrees(t: Tree)
    requires PlainTree(t)
    ensures Diff(t, t).Diffed?
    ensures forall k | k in Diff(t, t).actions :: Diff(t, t).actions[k] == Leave
  {
    PlainTreeSelfCompatible(t);
    DiffSucceedsIffCompatible(t, t);
    var acts := Diff(t, t).actions;
    DiffNamesSound(t, t, ".", LevelNames(t, t));
    forall k | k in acts
      ensures acts[k] == Leave
    {
      var p :| |p| >= 1 && p[0] in LevelNames(t, t) && PathKey(".", p) == k &&
               Classify(t, t, p) == Some(acts[k]);
      ClassifySelfLeaves(t, p);
    }
  }
}
