/** The abstract filesystem the tool works on, `get_type`, and the
    replacer's mutations (`os.rename`, `os.remove`, `shutil.rmtree`). */
module FileSystem {
  import opened Paths

  newtype byte = b: int | 0 <= b < 256

  /** What `lstat` shows at a path: a regular file with its bytes, a
      directory with its entries by name, or anything else (symlink, device,
      socket, fifo). */
  datatype Node = File(bytes: seq<byte>) | Dir(entries: map<string, Node>) | Other

  /** The entries of one directory. */
  type Tree = map<string, Node>

  /** The objects the tool's path arguments name, keyed by path. The empty
      path names nothing. */
  type FileSystem = fs: map<string, Node> | "" !in fs witness map[]

  /** `get_type`'s three answers: 'reg', 'dir', 'other'. */
  datatype Kind = Reg | Directory | Unsupported

  function KindOf(n: Node): (k: Kind)
    ensures k == Directory <==> n.Dir?
    ensures k == Reg <==> n.File?
    ensures k == Unsupported <==> n.Other?
  {
    match n
    case Dir(_) => Directory
    case File(_) => Reg
    case Other => Unsupported
  }

  /** Every name at every level of `t` is a name a real directory can hold. */
  predicate NamesSlashFree(t: Tree)
    decreases Dir(t)
  {
    forall name | name in t :: SlashFree(name) && (t[name].Dir? ==> NamesSlashFree(t[name].entries))
  }

  /** `t` holds only regular files and directories, at every level. */
  predicate PlainTree(t: Tree)
    decreases Dir(t)
  {
    forall name | name in t :: !t[name].Other? && (t[name].Dir? ==> PlainTree(t[name].entries))
  }

  /** `os.remove` or `shutil.rmtree`; removing what is absent is modelled
      as a no-op (the tool only removes what it has seen exist). */
  function Remove(fs: FileSystem, p: string): (r: FileSystem)
    ensures p !in r
    ensures forall q | q != p :: (q in r <==> q in fs) && (q in r ==> r[q] == fs[q])
  {
    fs - {p}
  }

  /** `os.rename(src, dst)`: the object at `src` now sits at `dst`,
      replacing whatever was there. */
  function Rename(fs: FileSystem, src: string, dst: string): (r: FileSystem)
    requires src in fs && dst != ""
    ensures dst in r && r[dst] == fs[src]
    ensures src != dst ==> src !in r
    ensures forall q | q != src && q != dst :: (q in r <==> q in fs) && (q in r ==> r[q] == fs[q])
  {
    (fs - {src})[dst := fs[src]]
  }

  /** `p` and everything at it is the same in both filesystems. */
  predicate SameAt(fs: FileSystem, fs': FileSystem, p: string)
  {
    (p in fs <==> p in fs') && (p in fs ==> fs[p] == fs'[p])
  }

  /** Nothing outside `touched` differs between the two filesystems. */
  ghost predicate Frame(fs: FileSystem, fs': FileSystem, touched: set<string>)
  {
    forall q | q !in touched :: SameAt(fs, fs', q)
  }

  lemma FrameWiden(fs: FileSystem, fs': FileSystem, a: set<string>, b: set<string>)
    requires Frame(fs, fs', a) && a <= b
    ensures Frame(fs, fs', b)
  {
  }

  lemma FrameTrans(fs: FileSystem, fs': FileSystem, fs'': FileSystem, a: set<string>)
    requires Frame(fs, fs', a) && Frame(fs', fs'', a)
    ensures Frame(fs, fs'', a)
  {
  }

  /** The backup path `handle_files` uses for `cur`. */
  function BackupPath(cur: string): string
  {
    cur + ".bak"
  }

  /** The `b` answer: drop any previous backup (file or directory), move
      the current object to the backup path, then move the candidate onto
      the current path. */
  function BackupThenReplace(fs: FileSystem, cur: string, cand: string): (r: FileSystem)
    requires cur in fs && cand in fs && cand != cur && cand != BackupPath(cur)
    ensures cur in r && r[cur] == fs[cand] && BackupPath(cur) in r && r[BackupPath(cur)] == fs[cur] && cand !in r
    ensures Frame(fs, r, {cur, cand, BackupPath(cur)})
  {
    var bak := BackupPath(cur);
    var cleared := Remove(fs, bak);
    var saved := Rename(cleared, cur, bak);
    Rename(saved, cand, cur)
  }

  /** The directory `y` answer: `shutil.rmtree(cur)` then
      `os.rename(cand, cur)`. */
  function InstallTree(fs: FileSystem, cur: string, cand: string): (r: FileSystem)
    requires cur in fs && cand in fs && cand != cur
    ensures cur in r && r[cur] == fs[cand] && cand !in r
    ensures Frame(fs, r, {cur, cand})
  {
    Rename(Remove(fs, cur), cand, cur)
  }
}
