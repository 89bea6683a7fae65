/** What `handle_dirs` does with the differ's map before asking anything:
    group the paths by verb (`would_`), decide whether replacing would
    have any effect, and render the summary. */
module Aggregate {
  import opened Paths
  import opened TreeDiff

  /** The verbs in the order `would_` lists them. */
  const Verbs: seq<Verb> := [Delete, Create, Alter, Leave]

  /** `would_`: the relative paths of each verb, in the order appended. */
  datatype Groups = Groups(delete: seq<string>, create: seq<string>, alter: seq<string>, leave: seq<string>)
  {
    function Of(v: Verb): seq<string>
    {
      match v
      case Delete => delete
      case Create => create
      case Alter => alter
      case Leave => leave
    }
  }

  const NoGroups := Groups([], [], [], [])

  lemma SortedAppend(xs: seq<string>, x: string)
    requires StrictlySorted(xs)
    requires forall y | y in xs :: Below(y, x)
    ensures StrictlySorted(xs + [x])
  {
    forall i, j | 0 <= i < j < |xs + [x]|
      ensures Below((xs + [x])[i], (xs + [x])[j])
    {
      if j == |xs| {
        assert (xs + [x])[i] in xs;
      }
    }
  }

  /** Appends each of `keys`, in order, to the group of its verb. */
  function GroupKeys(acts: Actions, keys: seq<string>): Groups
    requires forall i | 0 <= i < |keys| :: keys[i] in acts
    decreases |keys|
  {
    if keys == [] then NoGroups
    else
      var init, last := keys[..|keys| - 1], keys[|keys| - 1];
      var g, v := GroupKeys(acts, init), acts[last];
      Groups(if v == Delete then g.delete + [last] else g.delete,
             if v == Create then g.create + [last] else g.create,
             if v == Alter then g.alter + [last] else g.alter,
             if v == Leave then g.leave + [last] else g.leave)
  }

  /** A group collects exactly the keys of its verb. */
  lemma {:induction false} GroupKeysCollects(acts: Actions, keys: seq<string>, v: Verb, k: string)
    requires forall i | 0 <= i < |keys| :: keys[i] in acts
    ensures k in GroupKeys(acts, keys).Of(v) <==> k in keys && acts[k] == v
    decreases |keys|
  {
    if keys != [] {
      var init, last := keys[..|keys| - 1], keys[|keys| - 1];
      assert keys == init + [last];
      GroupKeysCollects(acts, init, v, k);
    }
  }

  lemma GroupKeysCollectVerb(acts: Actions, keys: seq<string>, v: Verb)
    requires forall i | 0 <= i < |keys| :: keys[i] in acts
    requires forall k | k in acts :: k in keys
    ensures forall k :: k in GroupKeys(acts, keys).Of(v) <==> k in acts && acts[k] == v
  {
    forall k
      ensures k in GroupKeys(acts, keys).Of(v) <==> k in acts && acts[k] == v
    {
      GroupKeysCollects(acts, keys, v, k);
    }
  }

  /** Appending in ascending order keeps every group ascending. */
  lemma {:induction false} GroupKeysSorted(acts: Actions, keys: seq<string>, v: Verb)
    requires forall i | 0 <= i < |keys| :: keys[i] in acts
    requires StrictlySorted(keys)
    ensures StrictlySorted(GroupKeys(acts, keys).Of(v))
    decreases |keys|
  {
    if keys != [] {
      var init, last := keys[..|keys| - 1], keys[|keys| - 1];
      var g := GroupKeys(acts, init);
      GroupKeysSorted(acts, init, v);
      if acts[last] == v {
        forall y | y in g.Of(v)
          ensures Below(y, last)
        {
          GroupKeysCollects(acts, init, v, y);
          var i :| 0 <= i < |init| && init[i] == y;
          assert keys[i] == y;
        }
        SortedAppend(g.Of(v), last);
      }
    }
  }

  lemma GroupKeysProperties(acts: Actions, keys: seq<string>)
    requires forall i | 0 <= i < |keys| :: keys[i] in acts
    requires forall k | k in acts :: k in keys
    requires StrictlySorted(keys)
    ensures forall v: Verb, k :: k in GroupKeys(acts, keys).Of(v) <==> k in acts && acts[k] == v
    ensures forall v: Verb :: StrictlySorted(GroupKeys(acts, keys).Of(v))
  {
    GroupKeysCollectVerb(acts, keys, Delete);
    GroupKeysCollectVerb(acts, keys, Create);
    GroupKeysCollectVerb(acts, keys, Alter);
    GroupKeysCollectVerb(acts, keys, Leave);
    GroupKeysSorted(acts, keys, Delete);
    GroupKeysSorted(acts, keys, Create);
    GroupKeysSorted(acts, keys, Alter);
    GroupKeysSorted(acts, keys, Leave);
  }

  /** The grouping loop over `sorted(action_for_item_.items())`: each group
      holds exactly the paths of its verb, in ascending order. */
  function Group(acts: Actions): (g: Groups)
    ensures forall v: Verb, k :: k in g.Of(v) <==> k in acts && acts[k] == v
    ensures forall v: Verb :: StrictlySorted(g.Of(v))
  {
    var keys := SortedSeq(acts.Keys);
    GroupKeysProperties(acts, keys);
    GroupKeys(acts, keys)
  }

  /** Each group holds exactly the keys of its verb, in ascending order. */
  ghost predicate GroupedBy(g: Groups, acts: Actions)
  {
    && (forall v: Verb, k :: k in g.Of(v) <==> k in acts && acts[k] == v)
    && (forall v: Verb :: StrictlySorted(g.Of(v)))
  }

  lemma GroupedDisjoint(g: Groups, acts: Actions)
    requires GroupedBy(g, acts)
    ensures forall v: Verb, w: Verb, k | k in g.Of(v) && k in g.Of(w) :: v == w
  {
    forall v: Verb, w: Verb, k | k in g.Of(v) && k in g.Of(w)
      ensures v == w
    {
      assert acts[k] == v && acts[k] == w;
    }
  }

  lemma GroupedCovers(g: Groups, acts: Actions)
    requires GroupedBy(g, acts)
    ensures forall k | k in acts :: k in g.Of(acts[k])
    ensures (set v: Verb, k | k in g.Of(v) :: k) == acts.Keys
  {
    var all := set v: Verb, k | k in g.Of(v) :: k;
    forall k | k in acts.Keys
      ensures k in all
    {
      assert k in g.Of(acts[k]);
    }
    forall k | k in all
      ensures k in acts.Keys
    {
      var v: Verb :| k in g.Of(v);
    }
    assert all == acts.Keys;
  }

  lemma GroupedDistinct(g: Groups, acts: Actions)
    requires GroupedBy(g, acts)
    ensures forall v: Verb, i, j | 0 <= i < j < |g.Of(v)| :: g.Of(v)[i] != g.Of(v)[j]
  {
    forall v: Verb, i, j | 0 <= i < j < |g.Of(v)|
      ensures g.Of(v)[i] != g.Of(v)[j]
    {
      assert StrictlySorted(g.Of(v));
      assert Below(g.Of(v)[i], g.Of(v)[j]);
      BelowIrreflexive(g.Of(v)[i]);
    }
  }

  /** The groups partition the differ's keys: every path lies in the group
      of its verb and in no other, the groups together hold exactly the
      keys, and no group repeats a path. */
  lemma GroupsPartition(acts: Actions)
    ensures forall v: Verb, w: Verb, k | k in Group(acts).Of(v) && k in Group(acts).Of(w) :: v == w
    ensures forall k | k in acts :: k in Group(acts).Of(acts[k])
    ensures (set v: Verb, k | k in Group(acts).Of(v) :: k) == acts.Keys
    ensures forall v: Verb, i, j | 0 <= i < j < |Group(acts).Of(v)| :: Group(acts).Of(v)[i] != Group(acts).Of(v)[j]
  {
    GroupedDisjoint(Group(acts), acts);
    GroupedCovers(Group(acts), acts);
    GroupedDistinct(Group(acts), acts);
  }

  /** Line 170's test: nothing would be deleted, created or altered. */
  predicate NoEffect(g: Groups)
  {
    g.delete == [] && g.create == [] && g.alter == []
  }

  /** Replacing has no effect exactly when the differ found only items to
      leave. */
  lemma NoEffectIffOnlyLeave(acts: Actions)
    ensures NoEffect(Group(acts)) <==> forall k | k in acts :: acts[k] == Leave
  {
    var g := Group(acts);
    if NoEffect(g) {
      forall k | k in acts
        ensures acts[k] == Leave
      {
        assert k in g.Of(acts[k]);
      }
    } else {
      var v := if g.delete != [] then Delete else if g.create != [] then Create else Alter;
      var k := g.Of(v)[0];
      assert k in g.Of(v);
      assert k in acts && acts[k] != Leave;
    }
  }

  // ---------------------------------------------------------------------
  // The summary

  /** Above this many paths the `leave` group shows only its size. */
  const LeaveListLimit := 10

  /** One group's body in the summary. */
  datatype Listing = Nothing | Lines(shown: seq<string>) | ItemCount(count: nat)

  /** The printed report: "have no effect", or the four groups in order. */
  datatype Report = HasNoEffect | Summary(sections: seq<(Verb, Listing)>)

  /** How a relative path is displayed: the leading "./" dropped. */
  function ShownPath(path: string): (r: string)
    ensures |path| >= 2 && path[..2] == "./" ==> "./" + r == path
  {
    if |path| >= 2 && path[..2] == "./" then path[2..] else path
  }

  /** The display of the paths in `group`, one line each. */
  function ShownPaths(group: seq<string>): (r: seq<string>)
    ensures |r| == |group|
  {
    seq(|group|, i requires 0 <= i < |group| => ShownPath(group[i]))
  }

  function ListingOf(v: Verb, group: seq<string>): Listing
  {
    if group == [] then Nothing
    else if v == Leave && |group| > LeaveListLimit then ItemCount(|group|)
    else Lines(ShownPaths(group))
  }

  /** Lines 168-186 as data: no effect exactly when delete, create and
      alter are empty; otherwise one section per verb, a large `leave`
      group reduced to its count. */
  function Render(g: Groups): (r: Report)
    ensures r.HasNoEffect? <==> NoEffect(g)
    ensures r.Summary? ==> |r.sections| == 4 && forall i | 0 <= i < 4 :: r.sections[i].0 == Verbs[i]
  {
    if NoEffect(g) then HasNoEffect
    else Summary(seq(4, i requires 0 <= i < 4 => (Verbs[i], ListingOf(Verbs[i], g.Of(Verbs[i])))))
  }

  /** All paths of a group start with "./", as the differ's keys do. */
  predicate Rooted(group: seq<string>)
  {
    forall i | 0 <= i < |group| :: |group[i]| >= 2 && group[i][..2] == "./"
  }

  /** The summary loses nothing but the names of a long `leave` group:
      "(nothing)" stands for exactly the empty group, a count for exactly
      a `leave` group of more than ten paths, and every other listing
      gives back its group when "./" is put in front of each line. */
  lemma RenderKeepsGroups(g: Groups, i: nat)
    requires forall v: Verb :: Rooted(g.Of(v))
    requires Render(g).Summary? && i < 4
    ensures var (v, listing) := Render(g).sections[i];
      listing.Nothing? <==> g.Of(v) == []
    ensures var (v, listing) := Render(g).sections[i];
      listing.ItemCount? <==> v == Leave && |g.Of(v)| > LeaveListLimit
    ensures var (v, listing) := Render(g).sections[i];
      match listing
      case Nothing => g.Of(v) == []
      case ItemCount(count) => v == Leave && count == |g.Of(v)| > LeaveListLimit
      case Lines(shown) => seq(|shown|, j requires 0 <= j < |shown| => "./" + shown[j]) == g.Of(v)
  {
    var v := Verbs[i];
    var group := g.Of(v);
    if group != [] && !(v == Leave && |group| > LeaveListLimit) {
      var shown := ShownPaths(group);
      assert forall j | 0 <= j < |group| :: "./" + shown[j] == group[j];
    }
  }

  // ---------------------------------------------------------------------
  // The display as written

  /** `path.replace("./", "")`: every "./" removed, scanning from the left. */
  function ReplaceDotSlash(path: string): (r: string)
    ensures |r| <= |path|
    ensures |path| >= 2 && path[..2] == "./" ==> |r| <= |path| - 2
  {
    if |path| >= 2 && path[..2] == "./" then ReplaceDotSlash(path[2..])
    else if path == [] then []
    else [path[0]] + ReplaceDotSlash(path[1..])
  }

  /** The display as written confuses two items: a file `y` in a directory
      named `x.` and a file named `xy` both show as "xy". The corrected
      display keeps them apart. */
  lemma ReplaceDotSlashConflates()
    ensures ReplaceDotSlash("./x./y") == ReplaceDotSlash("./xy") == "xy"
    ensures ShownPath("./x./y") != ShownPath("./xy")
  {
    assert ReplaceDotSlash("./x./y") == ReplaceDotSlash("x./y");
    assert ReplaceDotSlash("x./y") == "x" + ReplaceDotSlash("./y");
    assert ReplaceDotSlash("./y") == ReplaceDotSlash("y") == "y";
    assert ReplaceDotSlash("./xy") == ReplaceDotSlash("xy") == "x" + ReplaceDotSlash("y");
    assert ShownPath("./x./y") == "x./y";
    assert ShownPath("./xy") == "xy";
  }

  /** `s` holds no "./" anywhere. */
  predicate NoDotSlash(s: string)
  {
    forall i | 0 <= i < |s| - 1 :: !(s[i] == '.' && s[i + 1] == '/')
  }

  lemma {:induction false} ReplaceDotSlashKeepsPlain(s: string)
    requires NoDotSlash(s)
    ensures ReplaceDotSlash(s) == s
  {
    if s != [] {
      assert NoDotSlash(s[1..]) by {
        forall i | 0 <= i < |s[1..]| - 1
          ensures !(s[1..][i] == '.' && s[1..][i + 1] == '/')
        {
          assert s[1..][i] == s[i + 1] && s[1..][i + 1] == s[i + 2];
        }
      }
      ReplaceDotSlashKeepsPlain(s[1..]);
      assert s == [s[0]] + s[1..];
    }
  }

  /** The two displays agree on every key whose only "./" is the leading
      one, so they differ only on keys like the one the lemma above shows. */
  lemma ReplaceDotSlashAgreesOnPlainKeys(path: string)
    requires |path| >= 2 && path[..2] == "./" && NoDotSlash(path[2..])
    ensures ReplaceDotSlash(path) == ShownPath(path)
  {
    ReplaceDotSlashKeepsPlain(path[2..]);
  }
}
