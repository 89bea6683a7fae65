/** The driver of compare_and_replace.py: infer each argument's pair of
    paths, dispatch on what exists there, and run the file workflow
    (`handle_files`) or the directory workflow (`handle_dirs`), reading
    the operator's answers from a finite sequence of console lines. */
module CompareAndReplace {
  import opened Paths
  import opened Wrappers
  import opened FileSystem
  import opened TreeDiff
  import opened Aggregate
  import opened Prompt

  /** One call of the external viewer (`gdiff`) on two paths; it shows
      them and changes nothing. */
  datatype View = View(left: string, right: string)

  /** The run so far: the filesystem, the console lines not yet read, the
      viewer calls made and the summaries printed. */
  datatype Session = Session(fs: FileSystem, lines: seq<string>, views: seq<View>, reports: seq<Report>)

  /** Why a run ends before its last argument. */
  datatype Halt =
    | Quit                                  // `q` at a file prompt: sys.exit(1)
    | KindClashAt(path: string)             // the differ's `assert`
    | EndOfInput                            // `input` raising EOFError
    | RenameFailed(src: string, dst: string) // `os.rename` onto the empty path

  datatype Outcome = Next(s: Session) | Stop(s: Session, why: Halt)

  const NewSuffix := ".new"

  /** The two paths of one argument: the current object and its candidate. */
  datatype Pair = Pair(cur: string, cand: string)

  /** A path ending in ".new" is the candidate and the current path is
      what precedes the suffix; any other path is the current one. */
  function Counterpart(path: string): (r: Pair)
    ensures r.cand == r.cur + NewSuffix
    ensures EndsWith(path, NewSuffix) ==> r.cand == path
    ensures !EndsWith(path, NewSuffix) ==> r.cur == path
  {
    if EndsWith(path, NewSuffix) then
      assert path == path[..|path| - 4] + NewSuffix;
      Pair(path[..|path| - 4], path)
    else Pair(path, path + NewSuffix)
  }

  /** Naming an argument by its candidate gives the same pair. */
  lemma CounterpartOfCandidate(path: string)
    ensures Counterpart(Counterpart(path).cand) == Counterpart(path)
  {
    var p := Counterpart(path);
    assert EndsWith(p.cand, NewSuffix) by {
      assert p.cand[|p.cand| - 4..] == NewSuffix;
    }
    assert p.cand[..|p.cand| - 4] == p.cur;
  }

  const FileAnswers: set<string> := {"y", "b", "n", "q"}
  const DirAnswers: set<string> := {"d", "c", "a", "l", "y", "n"}
  const YesOrNo: set<string> := {"y", "n"}

  /** The lines still unread are what is left of `lines` after some were read. */
  predicate ReadFrom(lines: seq<string>, rest: seq<string>)
  {
    |rest| <= |lines| && rest == lines[|lines| - |rest|..]
  }

  // ---------------------------------------------------------------------
  // handle_files

  /** The candidate path is never the backup path. */
  lemma NewIsNotBackup(cur: string)
    ensures cur + NewSuffix != BackupPath(cur)
  {
    assert (cur + NewSuffix)[|cur| + 1] != BackupPath(cur)[|cur| + 1];
  }

  /** Two regular files at `cur` and `cand`. Identical bytes: the
      candidate is removed. Otherwise the viewer shows the pair and the
      first valid answer decides: `y` moves the candidate onto `cur`, `b`
      first moves `cur` to its backup path (dropping any older backup),
      `n` changes nothing, `q` stops the run. */
  function HandleFiles(s: Session, cur: string, cand: string): (o: Outcome)
    requires cur in s.fs && cand in s.fs && s.fs[cur].File? && s.fs[cand].File?
    requires cand == cur + NewSuffix
    ensures o.s.reports == s.reports && ReadFrom(s.lines, o.s.lines)
    ensures s.fs[cur].bytes == s.fs[cand].bytes ==>
      o.Next? && cand !in o.s.fs && Frame(s.fs, o.s.fs, {cand}) && o.s.lines == s.lines && o.s.views == s.views
    ensures s.fs[cur].bytes != s.fs[cand].bytes ==> o.s.views == s.views + [View(cur, cand)]
    ensures var r := GetInput(s.lines, FileAnswers);
      s.fs[cur].bytes != s.fs[cand].bytes ==>
        && (r.None? ==> o.Stop? && o.why == EndOfInput && o.s.fs == s.fs)
        && (r.Some? ==> o.s.lines == s.lines[r.value.used..])
        && (r.Some? && r.value.answer == "y" ==>
              o.Next? && cur in o.s.fs && o.s.fs[cur] == s.fs[cand] && cand !in o.s.fs && Frame(s.fs, o.s.fs, {cur, cand}))
        && (r.Some? && r.value.answer == "b" ==>
              o.Next? && cur in o.s.fs && o.s.fs[cur] == s.fs[cand] &&
              BackupPath(cur) in o.s.fs && o.s.fs[BackupPath(cur)] == s.fs[cur] &&
              cand !in o.s.fs && Frame(s.fs, o.s.fs, {cur, cand, BackupPath(cur)}))
        && (r.Some? && r.value.answer == "n" ==> o.Next? && o.s.fs == s.fs)
        && (r.Some? && r.value.answer == "q" ==> o.Stop? && o.why == Quit && o.s.fs == s.fs)
  {
    if s.fs[cur].bytes == s.fs[cand].bytes then
      Next(s.(fs := Remove(s.fs, cand)))
    else
      var shown := s.(views := s.views + [View(cur, cand)]);
      match GetInput(shown.lines, FileAnswers)
      case None => Stop(shown.(lines := []), EndOfInput)
      case Some(Reply(answer, used)) =>
        var asked := shown.(lines := shown.lines[used..]);
        if answer == "y" then Next(asked.(fs := Rename(asked.fs, cand, cur)))
        else if answer == "b" then
          NewIsNotBackup(cur);
          Next(asked.(fs := BackupThenReplace(asked.fs, cur, cand)))
        else if answer == "n" then Next(asked)
        else Stop(asked, Quit)
  }

  // ---------------------------------------------------------------------
  // handle_dirs

  /** The verb a group-selecting answer examines. */
  function GroupVerb(answer: string): Verb
  {
    if answer == "d" then Delete
    else if answer == "c" then Create
    else if answer == "a" then Alter
    else Leave
  }

  /** The viewer calls for examining one group, one per path, in order. */
  function Inspect(cur: string, cand: string, paths: seq<string>): seq<View>
  {
    seq(|paths|, i requires 0 <= i < |paths| => View(cur + "/" + paths[i], cand + "/" + paths[i]))
  }

  /** The lines left after `k` are read are what remains of `lines`. */
  lemma ReadFromDrop(lines: seq<string>, k: nat)
    requires k <= |lines|
    ensures ReadFrom(lines, lines[k..])
  {
  }

  lemma ReadFromTrans(a: seq<string>, b: seq<string>, c: seq<string>)
    requires ReadFrom(a, b) && ReadFrom(b, c)
    ensures ReadFrom(a, c)
  {
    assert a[|a| - |b|..][|b| - |c|..] == a[|a| - |c|..];
  }

  /** Showing one group: a viewer call per path in it. */
  function Examine(s: Session, cur: string, cand: string, paths: seq<string>): (r: Session)
    ensures r.fs == s.fs && r.lines == s.lines && r.reports == s.reports
    ensures |s.views| <= |r.views| && r.views[..|s.views|] == s.views
  {
    s.(views := s.views + Inspect(cur, cand, paths))
  }

  /** The selection loop: `d`, `c`, `a`, `l` show a group and ask again,
      `y` installs the candidate tree, `n` skips it. */
  function Select(s: Session, cur: string, cand: string, g: Groups): (o: Outcome)
    requires cur in s.fs && cand in s.fs && cand != cur
    ensures o.s.reports == s.reports && ReadFrom(s.lines, o.s.lines)
    ensures |s.views| <= |o.s.views| && o.s.views[..|s.views|] == s.views
    decreases |s.lines|
  {
    match GetInput(s.lines, DirAnswers)
    case None => Stop(s.(lines := []), EndOfInput)
    case Some(Reply(answer, used)) =>
      ReadFromDrop(s.lines, used);
      var asked := s.(lines := s.lines[used..]);
      if answer == "y" then Next(asked.(fs := InstallTree(asked.fs, cur, cand)))
      else if answer == "n" then Next(asked)
      else
        var next := Examine(asked, cur, cand, g.Of(GroupVerb(answer)));
        var o := Select(next, cur, cand, g);
        ReadFromTrans(s.lines, next.lines, o.s.lines);
        assert o.s.views[..|s.views|] == s.views by {
          assert o.s.views[..|next.views|] == next.views;
          assert next.views[..|s.views|] == s.views;
        }
        o
  }

  /** What the selection loop promises once the first `y` or `n` is known. */
  ghost predicate DecidedBy(s: Session, cur: string, cand: string, o: Outcome, r: Option<Reply>)
    requires cur in s.fs && cand in s.fs && cand != cur
  {
    && (r.None? ==> o.Stop? && o.why == EndOfInput && o.s.fs == s.fs)
    && (r.Some? ==> o.Next? && r.value.used <= |s.lines| && o.s.lines == s.lines[r.value.used..])
    && (r.Some? && r.value.answer == "y" ==> o.s.fs == InstallTree(s.fs, cur, cand))
    && (r.Some? && r.value.answer == "n" ==> o.s.fs == s.fs)
  }

  /** Examining groups changes nothing: the selection loop ends as the
      first `y` or `n` among the lines says, or at the end of input with
      the filesystem as it was. */
  lemma {:induction false} SelectionDecidedByFirstYesOrNo(s: Session, cur: string, cand: string, g: Groups)
    requires cur in s.fs && cand in s.fs && cand != cur
    ensures DecidedBy(s, cur, cand, Select(s, cur, cand, g), GetInput(s.lines, YesOrNo))
    decreases |s.lines|
  {
    var rd := GetInput(s.lines, DirAnswers);
    if rd.None? {
      NoAnswerNoDecision(s.lines);
    } else if rd.value.answer in YesOrNo {
      SelectionAnswered(s, cur, cand, g);
    } else {
      var answer, used := rd.value.answer, rd.value.used;
      var next := Examine(s.(lines := s.lines[used..]), cur, cand, g.Of(GroupVerb(answer)));
      assert Select(s, cur, cand, g) == Select(next, cur, cand, g);
      SelectionDecidedByFirstYesOrNo(next, cur, cand, g);
      ExaminingSkipsLines(s.lines, used);
      DecisionDelayed(s, next, cur, cand, Select(next, cur, cand, g),
                      GetInput(s.lines, YesOrNo), GetInput(next.lines, YesOrNo), used);
    }
  }

  /** The first answer the selection loop reads is `y` or `n`. */
  lemma SelectionAnswered(s: Session, cur: string, cand: string, g: Groups)
    requires cur in s.fs && cand in s.fs && cand != cur
    requires GetInput(s.lines, DirAnswers).Some? && GetInput(s.lines, DirAnswers).value.answer in YesOrNo
    ensures DecidedBy(s, cur, cand, Select(s, cur, cand, g), GetInput(s.lines, YesOrNo))
  {
    var rd := GetInput(s.lines, DirAnswers);
    GetInputNarrowed(s.lines, DirAnswers, YesOrNo);
    var asked := s.(lines := s.lines[rd.value.used..]);
    if rd.value.answer == "y" {
      assert Select(s, cur, cand, g) == Next(asked.(fs := InstallTree(asked.fs, cur, cand)));
    } else {
      assert Select(s, cur, cand, g) == Next(asked);
      assert rd.value.answer != "y" by {
        assert rd.value.answer[0] != "y"[0];
      }
    }
  }

  /** A decision read from the lines after the first `used` ones is the
      same decision read `used` lines later from all of them. */
  lemma DecisionDelayed(s: Session, next: Session, cur: string, cand: string, o: Outcome,
                        r: Option<Reply>, r': Option<Reply>, used: nat)
    requires cur in s.fs && cand in s.fs && cand != cur
    requires used <= |s.lines| && next.fs == s.fs && next.lines == s.lines[used..]
    requires r == Later(r', used)
    requires DecidedBy(next, cur, cand, o, r')
    ensures DecidedBy(s, cur, cand, o, r)
  {
    if r'.Some? {
      assert s.lines[used..][r'.value.used..] == s.lines[used + r'.value.used..];
    }
  }

  lemma NoAnswerNoDecision(lines: seq<string>)
    requires GetInput(lines, DirAnswers).None?
    ensures GetInput(lines, YesOrNo).None?
  {
    forall j | 0 <= j < |lines|
      ensures lines[j] !in YesOrNo
    {
      assert lines[j] !in DirAnswers;
    }
  }

  /** An answer that examines a group is not `y` or `n`, and neither is
      any line rejected before it. */
  lemma ExaminingSkipsLines(lines: seq<string>, used: nat)
    requires GetInput(lines, DirAnswers).Some?
    requires GetInput(lines, DirAnswers).value.answer !in YesOrNo
    requires used == GetInput(lines, DirAnswers).value.used
    ensures GetInput(lines, YesOrNo) == Later(GetInput(lines[used..], YesOrNo), used)
  {
    forall j | 0 <= j < used
      ensures lines[j] !in YesOrNo
    {
      if j < used - 1 {
        assert lines[j] !in DirAnswers;
      }
    }
    GetInputSkips(lines, YesOrNo, used);
  }

  /** The trees compare without a clash and every item is left alone. */
  predicate NothingToDo(c: Tree, n: Tree)
  {
    Diff(c, n).Diffed? && forall k | k in Diff(c, n).actions :: Diff(c, n).actions[k] == Leave
  }

  /** Two directories at `cur` and `cand`. A kind clash below them stops
      the run untouched. If every item would be left, the candidate tree
      is removed without a question. Otherwise the summary is printed and
      the first `y` or `n` decides: `y` puts the candidate tree at `cur`,
      `n` changes nothing (the candidate stays where it is). */
  function HandleDirs(s: Session, cur: string, cand: string): (o: Outcome)
    requires cur in s.fs && cand in s.fs && s.fs[cur].Dir? && s.fs[cand].Dir?
    requires cand == cur + NewSuffix
    ensures ReadFrom(s.lines, o.s.lines)
    ensures var c, n := s.fs[cur].entries, s.fs[cand].entries;
      && (!Compatible(c, n) ==> o.Stop? && o.why.KindClashAt? && o.s == s)
      && (NothingToDo(c, n) ==>
            o.Next? && cand !in o.s.fs && Frame(s.fs, o.s.fs, {cand}) &&
            o.s.lines == s.lines && o.s.views == s.views)
    ensures var c, n := s.fs[cur].entries, s.fs[cand].entries;
      Compatible(c, n) && !NothingToDo(c, n) ==> DecidedBy(s, cur, cand, o, GetInput(s.lines, YesOrNo))
    ensures Frame(s.fs, o.s.fs, {cur, cand})
  {
    var c, n := s.fs[cur].entries, s.fs[cand].entries;
    DiffSucceedsIffCompatible(c, n);
    match Diff(c, n)
    case KindClash(at) => Stop(s, KindClashAt(at))
    case Diffed(acts) =>
      NoEffectIffOnlyLeave(acts);
      Settle(s, cur, cand, Group(acts))
  }

  /** After a comparison without a clash: print the summary, then remove
      the candidate tree if nothing would change, or else ask. */
  function Settle(s: Session, cur: string, cand: string, g: Groups): (o: Outcome)
    requires cur in s.fs && cand in s.fs && cand != cur
    ensures ReadFrom(s.lines, o.s.lines) && Frame(s.fs, o.s.fs, {cur, cand})
    ensures o.s.reports == s.reports + [Render(g)]
    ensures NoEffect(g) ==>
      o.Next? && cand !in o.s.fs && Frame(s.fs, o.s.fs, {cand}) && o.s.lines == s.lines && o.s.views == s.views
    ensures !NoEffect(g) ==> DecidedBy(s, cur, cand, o, GetInput(s.lines, YesOrNo))
  {
    var reported := s.(reports := s.reports + [Render(g)]);
    if NoEffect(g) then
      Next(reported.(fs := Remove(reported.fs, cand)))
    else
      SelectionDecidedByFirstYesOrNo(reported, cur, cand, g);
      Select(reported, cur, cand, g)
  }

  /** Comparing a directory with an identical copy of itself removes the
      copy without asking anything. */
  lemma IdenticalTreesRemoveCandidate(s: Session, cur: string, cand: string)
    requires cur in s.fs && cand in s.fs && s.fs[cur].Dir? && s.fs[cand] == s.fs[cur]
    requires cand == cur + NewSuffix
    requires PlainTree(s.fs[cur].entries)
    ensures var o := HandleDirs(s, cur, cand);
      o.Next? && cand !in o.s.fs && cur in o.s.fs && o.s.fs[cur] == s.fs[cur] && o.s.lines == s.lines
  {
    var t := s.fs[cur].entries;
    DiffOfIdenticalTrees(t);
    assert NothingToDo(t, t);
  }

  // ---------------------------------------------------------------------
  // main

  /** The paths one argument may touch: its pair and the backup path. */
  function Touches(path: string): set<string>
  {
    var p := Counterpart(path);
    {p.cur, p.cand, BackupPath(p.cur)}
  }

  /** One argument of the loop in `main`. A missing candidate, an object
      that is neither file nor directory, or a file facing a directory
      changes nothing. A missing current object receives the candidate.
      Two regular files go to `HandleFiles`, two directories to
      `HandleDirs`. Nothing outside the
      argument's pair and backup path changes. */
  function ProcessArg(s: Session, path: string): (o: Outcome)
    ensures var p := Counterpart(path);
      && Frame(s.fs, o.s.fs, Touches(path))
      && ReadFrom(s.lines, o.s.lines)
      && (p.cand !in s.fs ==> o == Next(s))
      && (p.cand in s.fs && p.cur !in s.fs && p.cur != "" ==>
            o.Next? && p.cur in o.s.fs && o.s.fs[p.cur] == s.fs[p.cand] && p.cand !in o.s.fs &&
            Frame(s.fs, o.s.fs, {p.cur, p.cand}) && o.s.lines == s.lines)
      && (p.cand in s.fs && p.cur == "" ==> o.Stop? && o.s == s)
      && (p.cand in s.fs && p.cur in s.fs &&
          (s.fs[p.cur].Other? || s.fs[p.cand].Other? || s.fs[p.cur].File? != s.fs[p.cand].File?) ==>
            o == Next(s))
    ensures var p := Counterpart(path);
      p.cand in s.fs && p.cur in s.fs && s.fs[p.cur].File? && s.fs[p.cand].File? ==>
        o == HandleFiles(s, p.cur, p.cand)
    ensures var p := Counterpart(path);
      p.cand in s.fs && p.cur in s.fs && s.fs[p.cur].Dir? && s.fs[p.cand].Dir? ==>
        o == HandleDirs(s, p.cur, p.cand)
  {
    var p := Counterpart(path);
    var cur, cand := p.cur, p.cand;
    if cand !in s.fs then Next(s)
    else if cur !in s.fs then
      if cur == "" then Stop(s, RenameFailed(cand, cur))
      else Next(s.(fs := Rename(s.fs, cand, cur)))
    else Dispatch(s, cur, cand)
  }

  /** Both objects of the pair exist: skip unless they are two regular
      files or two directories, and run the matching workflow. */
  function Dispatch(s: Session, cur: string, cand: string): (o: Outcome)
    requires cur in s.fs && cand in s.fs && cand == cur + NewSuffix
    ensures Frame(s.fs, o.s.fs, {cur, cand, BackupPath(cur)}) && ReadFrom(s.lines, o.s.lines)
    ensures s.fs[cur].Other? || s.fs[cand].Other? || s.fs[cur].File? != s.fs[cand].File? ==> o == Next(s)
    ensures s.fs[cur].File? && s.fs[cand].File? ==> o == HandleFiles(s, cur, cand)
    ensures s.fs[cur].Dir? && s.fs[cand].Dir? ==> o == HandleDirs(s, cur, cand)
  {
    var curKind, candKind := KindOf(s.fs[cur]), KindOf(s.fs[cand]);
    if curKind == Unsupported || candKind == Unsupported || curKind != candKind then Next(s)
    else if curKind == Reg then HandleFiles(s, cur, cand)
    else
      var o := HandleDirs(s, cur, cand);
      FrameWiden(s.fs, o.s.fs, {cur, cand}, {cur, cand, BackupPath(cur)});
      o
  }

  /** Every path the arguments may touch. */
  function TouchedBy(args: seq<string>): set<string>
  {
    if args == [] then {} else Touches(args[0]) + TouchedBy(args[1..])
  }

  /** The loop of `main` over the arguments, in order, until one stops the
      run. Only the arguments' pairs and backup paths change, and the
      console is read from the front. */
  function Run(s: Session, args: seq<string>): (o: Outcome)
    ensures Frame(s.fs, o.s.fs, TouchedBy(args))
    ensures ReadFrom(s.lines, o.s.lines)
    decreases |args|
  {
    if args == [] then Next(s)
    else
      var first := ProcessArg(s, args[0]);
      FrameWiden(s.fs, first.s.fs, Touches(args[0]), TouchedBy(args));
      match first
      case Stop(_, _) => first
      case Next(s') =>
        var o := Run(s', args[1..]);
        FrameWiden(s'.fs, o.s.fs, TouchedBy(args[1..]), TouchedBy(args));
        FrameTrans(s.fs, s'.fs, o.s.fs, TouchedBy(args));
        ReadFromTrans(s.lines, s'.lines, o.s.lines);
        o
  }

  /** An argument whose candidate is missing is reported and skipped; the
      run carries on with the next argument. */
  lemma MissingCandidateSkipped(s: Session, path: string, rest: seq<string>)
    requires Counterpart(path).cand !in s.fs
    ensures Run(s, [path] + rest) == Run(s, rest)
  {
    assert ([path] + rest)[1..] == rest;
  }
}
