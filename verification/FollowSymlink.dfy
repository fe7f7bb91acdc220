/**
 * Copying a tree with symbolic links followed. The walk's callback learns from thread variables below which followed
 * link it is and how many links have been followed; each followed link sets them and restores them when it is done.
 */
module FollowSymlink {
  import opened PathMap
  import opened WalkCodes

  const MAX_NUM_FOLLOWED_SYMLINKS := 20

  /** What lstat() and a physical tree walk see. */
  datatype Tree = File | Dir(entries: seq<Entry>) | Link(target: string) | Special | NoStat
  datatype Entry = Entry(name: string, node: Tree)

  datatype Op =
    | CreatePath(dst: string)
    | CopyFile(src: string, dst: string)
    | MakeDir(dst: string)
    | ChangeOwner(dst: string)

  /** Tolerated: the path exists already, or the owner may not be changed. */
  datatype Outcome = Fine | Tolerated | Failed

  /** The link being followed: its target and the path that is copied to. */
  datatype LinkPaths = NoLink | LinkPaths(source: string, dest: string)

  /** Operations done, in order, and the return value. */
  datatype Copied = Copied(log: seq<Op>, ret: int)

  function DirName(path: string): string {
    var i := LastSlash(Trimmed(path));
    if i < 0 then "." else if i == 0 then "/" else path[..i]
  }

  /** Where a link leads, as an absolute path. */
  function LinkTarget(fs: string -> RealPath, link: string, target: string): Mapped {
    if target == [] || target[0] != '/' then MakePathAbsolute(DirName(link) + "/" + target, fs)
      else Mapped(true, target)
  }

  /** Where the callback copies a path to: below the followed link's own place, or below the other mount. */
  function DestOf(fs: string -> RealPath, sourceMount: string, destMount: string, paths: LinkPaths,
      path: string): Mapped
  {
    if paths.LinkPaths? then ReplaceCleanRootPath(path, paths.source, paths.dest, fs)
    else ReplaceRootPath(path, sourceMount, destMount, fs)
  }

  /**
   * What the copy depends on: the file system, how links and destinations are resolved, which paths are on the source
   * mount, and how the k-th operation ends. What is proved below holds for every such environment; EnvOf is the real
   * one.
   */
  datatype Env = Env(
    at: map<string, Tree>,
    target: (string, string) -> Mapped,
    onMount: string -> bool,
    dest: (LinkPaths, string) -> Mapped,
    outcome: nat -> Outcome)

  function EnvOf(at: map<string, Tree>, fs: string -> RealPath, sourceMount: string, destMount: string,
      outcome: nat -> Outcome): Env
  {
    Env(
      at,
      (link, target) => LinkTarget(fs, link, target),
      path => IsRootPath(path, sourceMount),
      (paths, path) => DestOf(fs, sourceMount, destMount, paths, path),
      outcome)
  }

  // the meaning of the copy, with link paths and count as arguments

  function DoCopyFile(env: Env, src: string, dst: string, log: seq<Op>): Copied {
    Copied(log + [CopyFile(src, dst)], if env.outcome(|log|) == Failed then ERROR else SUCCESS)
  }

  function DoCreatePath(env: Env, dst: string, log: seq<Op>): Copied {
    Copied(log + [CreatePath(dst)], if env.outcome(|log|) == Failed then ERROR else SUCCESS)
  }

  /** One directory; an owner that may not be changed is reported like an error of the call and ends the walk. */
  function DoDirectory(env: Env, dst: string, log: seq<Op>): Copied {
    if env.outcome(|log|) == Failed then Copied(log + [MakeDir(dst)], FTW_STOP)
    else
      var both := log + [MakeDir(dst), ChangeOwner(dst)];
      match env.outcome(|log| + 1)
      case Failed => Copied(both, FTW_STOP)
      case Tolerated => Copied(both, ERROR)
      case Fine => Copied(both, FTW_CONTINUE)
  }

  /** What is found out about a link before it is followed. */
  datatype Checked = Ends(ret: int) | Goes(path: string)

  function CheckLink(env: Env, link: string, target: string): (c: Checked)
    ensures c.Goes? ==> c.path in env.at && env.onMount(c.path)
  {
    var path := env.target(link, target);
    if !path.ok then Ends(ERROR)
    else if !env.onMount(path.path) then Ends(SUCCESS) // outside of the mount: only logged
    else if path.path !in env.at || env.at[path.path].NoStat? then Ends(ERROR)
    else Goes(path.path)
  }

  function Follow(env: Env, link: string, target: string, dest: string, count: nat, ignoreDir: bool,
      log: seq<Op>): Copied
    requires count <= MAX_NUM_FOLLOWED_SYMLINKS
    decreases MAX_NUM_FOLLOWED_SYMLINKS - count, 0
  {
    match CheckLink(env, link, target)
    case Ends(ret) => Copied(log, ret)
    case Goes(path) =>
      if count == MAX_NUM_FOLLOWED_SYMLINKS then Copied(log, ERROR)
      else
        match env.at[path]
        case Dir(_) => if ignoreDir then Copied(log, ERROR)
          else CopyTree(env, path, dest, LinkPaths(path, dest), count + 1, log)
        case File => DoCopyFile(env, path, dest, log)
        case Link(next) => Follow(env, path, next, dest, count + 1, ignoreDir, log)
        case _ => Copied(log, ERROR)
  }

  function CopyTree(env: Env, source: string, dest: string, paths: LinkPaths, count: nat, log: seq<Op>): Copied
    requires count <= MAX_NUM_FOLLOWED_SYMLINKS
    decreases MAX_NUM_FOLLOWED_SYMLINKS - count, 2
  {
    if source !in env.at || env.at[source].NoStat? then Copied(log, ERROR)
    else
      var created := DoCreatePath(env, dest, log);
      if created.ret != SUCCESS then Copied(created.log, ERROR)
      else
        match env.at[source]
        case File => DoCopyFile(env, source, dest, created.log)
        case Link(target) => Follow(env, source, target, dest, count, false, created.log)
        case _ => Walk(env, source, env.at[source], paths, count, created.log)
  }

  /** One entry, as the callback of the walk handles it. */
  function Visit(env: Env, path: string, tree: Tree, paths: LinkPaths, count: nat, log: seq<Op>): Copied
    requires count <= MAX_NUM_FOLLOWED_SYMLINKS
    decreases MAX_NUM_FOLLOWED_SYMLINKS - count, 1, tree, 0
  {
    var dest := env.dest(paths, path);
    if !dest.ok then Copied(log, FTW_STOP)
    else
      match tree
      case File => var c := DoCopyFile(env, path, dest.path, log); c.(ret := if c.ret == ERROR then FTW_STOP else c.ret)
      case Special =>
        var c := DoCopyFile(env, path, dest.path, log);
        c.(ret := if c.ret == ERROR then FTW_STOP else c.ret)
      case Dir(_) => DoDirectory(env, dest.path, log)
      case Link(target) =>
        var c := Follow(env, path, target, dest.path, count, false, log);
        c.(ret := if c.ret == ERROR then FTW_STOP else c.ret)
      case NoStat => Copied(log, FTW_CONTINUE)
  }

  /** Pre-order, until a return value other than 0. */
  function Walk(env: Env, path: string, tree: Tree, paths: LinkPaths, count: nat, log: seq<Op>): Copied
    requires count <= MAX_NUM_FOLLOWED_SYMLINKS
    decreases MAX_NUM_FOLLOWED_SYMLINKS - count, 1, tree, if tree.Dir? then |tree.entries| + 2 else 1
  {
    var c := Visit(env, path, tree, paths, count, log);
    if c.ret == 0 && tree.Dir? then WalkEntries(env, path, tree, 0, paths, count, c.log) else c
  }

  function WalkEntries(env: Env, path: string, tree: Tree, k: nat, paths: LinkPaths, count: nat, log: seq<Op>): Copied
    requires count <= MAX_NUM_FOLLOWED_SYMLINKS && tree.Dir? && k <= |tree.entries|
    decreases MAX_NUM_FOLLOWED_SYMLINKS - count, 1, tree, |tree.entries| - k + 1
  {
    if k == |tree.entries| then Copied(log, FTW_CONTINUE)
    else
      var c := Walk(env, path + "/" + tree.entries[k].name, tree.entries[k].node, paths, count, log);
      if c.ret != 0 then c else WalkEntries(env, path, tree, k + 1, paths, count, c.log)
  }

  /** The thread variables, and what has been done to the file system. */
  class DeeperCache {
    const env: Env
    var linkPaths: LinkPaths
    var numFollowedSymlinks: nat
    var log: seq<Op>

    constructor (env: Env)
      ensures this.env == env && linkPaths == NoLink && numFollowedSymlinks == 0 && log == []
    {
      this.env := env;
      linkPaths, numFollowedSymlinks, log := NoLink, 0, [];
    }

    method TestAndIncrementNumFollowedSymlinks() returns (ok: bool)
      modifies this`numFollowedSymlinks
      ensures ok <==> old(numFollowedSymlinks) < MAX_NUM_FOLLOWED_SYMLINKS
      ensures numFollowedSymlinks == old(numFollowedSymlinks) + if ok then 1 else 0
    {
      ok := numFollowedSymlinks + 1 <= MAX_NUM_FOLLOWED_SYMLINKS;
      if ok {
        numFollowedSymlinks := numFollowedSymlinks + 1;
      }
    }

    method Do(op: Op) returns (outcome: Outcome)
      modifies this`log
      ensures log == old(log) + [op] && outcome == env.outcome(|old(log)|)
    {
      outcome := env.outcome(|log|);
      log := log + [op];
    }

    method HandleFollowSymlink(source: string, target: string, dest: string, ignoreDir: bool) returns (ret: int)
      requires numFollowedSymlinks <= MAX_NUM_FOLLOWED_SYMLINKS
      modifies this
      ensures Copied(log, ret) == Follow(env, source, target, dest, old(numFollowedSymlinks), ignoreDir, old(log))
      ensures linkPaths == old(linkPaths) && numFollowedSymlinks == old(numFollowedSymlinks)
      decreases MAX_NUM_FOLLOWED_SYMLINKS - numFollowedSymlinks, 0
    {
      var checked := CheckLink(env, source, target);
      if checked.Ends? {
        return checked.ret;
      }
      var path := checked.path;
      var backupNumFollowedSymlinks, backupLinkPaths := numFollowedSymlinks, linkPaths;
      linkPaths := LinkPaths(path, dest);
      var mayFollow := TestAndIncrementNumFollowedSymlinks();
      if !mayFollow {
        ret := ERROR;
      } else {
        match env.at[path] {
          case Dir(_) =>
            if ignoreDir {
              ret := ERROR;
            } else {
              ret := CopyDir(path, dest);
            }
          case File =>
            var outcome := Do(CopyFile(path, dest));
            ret := if outcome == Failed then ERROR else SUCCESS;
          case Link(next) => ret := HandleFollowSymlink(path, next, dest, ignoreDir);
          case _ => ret := ERROR;
        }
      }
      numFollowedSymlinks := backupNumFollowedSymlinks;
      linkPaths := backupLinkPaths;
    }

    method CopyDir(source: string, dest: string) returns (ret: int)
      requires numFollowedSymlinks <= MAX_NUM_FOLLOWED_SYMLINKS
      modifies this
      ensures Copied(log, ret) == CopyTree(env, source, dest, old(linkPaths), old(numFollowedSymlinks), old(log))
      ensures linkPaths == old(linkPaths) && numFollowedSymlinks == old(numFollowedSymlinks)
      decreases MAX_NUM_FOLLOWED_SYMLINKS - numFollowedSymlinks, 2
    {
      if source !in env.at || env.at[source].NoStat? {
        return ERROR;
      }
      var created := Do(CreatePath(dest));
      if created == Failed {
        return ERROR;
      }
      if env.at[source].File? {
        var outcome := Do(CopyFile(source, dest));
        ret := if outcome == Failed then ERROR else SUCCESS;
      } else if env.at[source].Link? {
        ret := HandleFollowSymlink(source, env.at[source].target, dest, false);
      } else {
        ret := Nftw(source, env.at[source]);
      }
    }

    /** The callback of the walk. */
    method NftwCopyFile(path: string, tree: Tree) returns (ret: int)
      requires numFollowedSymlinks <= MAX_NUM_FOLLOWED_SYMLINKS
      modifies this
      ensures Copied(log, ret) == Visit(env, path, tree, old(linkPaths), old(numFollowedSymlinks), old(log))
      ensures linkPaths == old(linkPaths) && numFollowedSymlinks == old(numFollowedSymlinks)
      decreases MAX_NUM_FOLLOWED_SYMLINKS - numFollowedSymlinks, 1, tree, 0
    {
      var dest := env.dest(linkPaths, path);
      if !dest.ok {
        return FTW_STOP;
      }
      ret := FTW_CONTINUE;
      match tree {
        case File =>
          var outcome := Do(CopyFile(path, dest.path));
          ret := if outcome == Failed then FTW_STOP else SUCCESS;
        case Special =>
          var outcome := Do(CopyFile(path, dest.path));
          ret := if outcome == Failed then FTW_STOP else SUCCESS;
        case Dir(_) =>
          var made := Do(MakeDir(dest.path));
          if made == Failed {
            return FTW_STOP;
          }
          var owned := Do(ChangeOwner(dest.path));
          ret := if owned == Fine then FTW_CONTINUE else if owned == Failed then FTW_STOP else ERROR;
        case Link(target) =>
          ret := HandleFollowSymlink(path, target, dest.path, false);
          if ret == ERROR {
            return FTW_STOP;
          }
        case NoStat =>
      }
    }

    method Nftw(path: string, tree: Tree) returns (ret: int)
      requires numFollowedSymlinks <= MAX_NUM_FOLLOWED_SYMLINKS
      modifies this
      ensures Copied(log, ret) == Walk(env, path, tree, old(linkPaths), old(numFollowedSymlinks), old(log))
      ensures linkPaths == old(linkPaths) && numFollowedSymlinks == old(numFollowedSymlinks)
      decreases MAX_NUM_FOLLOWED_SYMLINKS - numFollowedSymlinks, 1, tree, if tree.Dir? then |tree.entries| + 2 else 1
    {
      ret := NftwCopyFile(path, tree);
      if ret != 0 || !tree.Dir? {
        return;
      }
      var k := 0;
      while k < |tree.entries|
        invariant k <= |tree.entries| && ret == 0
        invariant linkPaths == old(linkPaths) && numFollowedSymlinks == old(numFollowedSymlinks)
        invariant WalkEntries(env, path, tree, k, linkPaths, numFollowedSymlinks, log) ==
          Walk(env, path, tree, old(linkPaths), old(numFollowedSymlinks), old(log))
      {
        ret := Nftw(path + "/" + tree.entries[k].name, tree.entries[k].node);
        if ret != 0 {
          return;
        }
        k := k + 1;
      }
    }
  }

  // what the copy means

  /** The operation did what it is for. */
  predicate Done(env: Env, op: Op, outcome: Outcome) {
    outcome == Fine || (outcome == Tolerated && !op.ChangeOwner?)
  }

  /** c extends the log, and if it reports success every operation it added was done. */
  ghost predicate Honest(env: Env, log: seq<Op>, c: Copied) {
    && log <= c.log
    && (c.ret == 0 ==> forall i :: |log| <= i < |c.log| ==> Done(env, c.log[i], env.outcome(i)))
  }

  lemma HonestThen(env: Env, log: seq<Op>, c: Copied, d: Copied)
    requires Honest(env, log, c) && c.ret == 0 && Honest(env, c.log, d)
    ensures Honest(env, log, d)
  {
  }

  lemma {:induction false} FollowIsHonest(env: Env, link: string, target: string, dest: string, count: nat,
      ignoreDir: bool, log: seq<Op>)
    requires count <= MAX_NUM_FOLLOWED_SYMLINKS
    ensures Honest(env, log, Follow(env, link, target, dest, count, ignoreDir, log))
    decreases MAX_NUM_FOLLOWED_SYMLINKS - count, 0
  {
    var checked := CheckLink(env, link, target);
    if count < MAX_NUM_FOLLOWED_SYMLINKS && checked.Goes? {
      var path := checked.path;
      if env.at[path].Dir? {
        CopyIsHonest(env, path, dest, LinkPaths(path, dest), count + 1, log);
      } else if env.at[path].Link? {
        FollowIsHonest(env, path, env.at[path].target, dest, count + 1, ignoreDir, log);
      }
    }
  }

  /** A copy that reports success has done everything it began, the owners of directories included. */
  lemma {:induction false} CopyIsHonest(env: Env, source: string, dest: string, paths: LinkPaths, count: nat,
      log: seq<Op>)
    requires count <= MAX_NUM_FOLLOWED_SYMLINKS
    ensures Honest(env, log, CopyTree(env, source, dest, paths, count, log))
    decreases MAX_NUM_FOLLOWED_SYMLINKS - count, 2
  {
    if source in env.at && !env.at[source].NoStat? {
      var created := DoCreatePath(env, dest, log);
      if created.ret == SUCCESS {
        var rest := CopyTree(env, source, dest, paths, count, log);
        if env.at[source].Link? {
          FollowIsHonest(env, source, env.at[source].target, dest, count, false, created.log);
        } else if !env.at[source].File? {
          WalkIsHonest(env, source, env.at[source], paths, count, created.log);
        }
        HonestThen(env, log, created, rest);
      }
    }
  }

  lemma {:induction false} VisitIsHonest(env: Env, path: string, tree: Tree, paths: LinkPaths, count: nat, log: seq<Op>)
    requires count <= MAX_NUM_FOLLOWED_SYMLINKS
    ensures Honest(env, log, Visit(env, path, tree, paths, count, log))
    decreases MAX_NUM_FOLLOWED_SYMLINKS - count, 1, tree, 0
  {
    var dest := env.dest(paths, path);
    if dest.ok {
      match tree {
        case File => CopyFileIsHonest(env, path, dest.path, log);
        case Special => CopyFileIsHonest(env, path, dest.path, log);
        case Dir(_) => DirectoryIsHonest(env, dest.path, log);
        case Link(target) => FollowIsHonest(env, path, target, dest.path, count, false, log);
        case NoStat =>
      }
    }
  }

  lemma CopyFileIsHonest(env: Env, src: string, dst: string, log: seq<Op>)
    ensures Honest(env, log, DoCopyFile(env, src, dst, log))
  {
  }

  lemma DirectoryIsHonest(env: Env, dst: string, log: seq<Op>)
    ensures Honest(env, log, DoDirectory(env, dst, log))
  {
  }

  lemma {:induction false} WalkIsHonest(env: Env, path: string, tree: Tree, paths: LinkPaths, count: nat, log: seq<Op>)
    requires count <= MAX_NUM_FOLLOWED_SYMLINKS
    ensures Honest(env, log, Walk(env, path, tree, paths, count, log))
    decreases MAX_NUM_FOLLOWED_SYMLINKS - count, 1, tree, if tree.Dir? then |tree.entries| + 2 else 1
  {
    var c := Visit(env, path, tree, paths, count, log);
    VisitIsHonest(env, path, tree, paths, count, log);
    if c.ret == 0 && tree.Dir? {
      EntriesAreHonest(env, path, tree, 0, paths, count, c.log);
      HonestThen(env, log, c, WalkEntries(env, path, tree, 0, paths, count, c.log));
    }
  }

  lemma {:induction false} EntriesAreHonest(env: Env, path: string, tree: Tree, k: nat, paths: LinkPaths,
      count: nat, log: seq<Op>)
    requires count <= MAX_NUM_FOLLOWED_SYMLINKS && tree.Dir? && k <= |tree.entries|
    ensures Honest(env, log, WalkEntries(env, path, tree, k, paths, count, log))
    decreases MAX_NUM_FOLLOWED_SYMLINKS - count, 1, tree, |tree.entries| - k + 1
  {
    if k < |tree.entries| {
      WalkIsHonest(env, path + "/" + tree.entries[k].name, tree.entries[k].node, paths, count, log);
      var c := Walk(env, path + "/" + tree.entries[k].name, tree.entries[k].node, paths, count, log);
      if c.ret == 0 {
        EntriesAreHonest(env, path, tree, k + 1, paths, count, c.log);
        HonestThen(env, log, c, WalkEntries(env, path, tree, k + 1, paths, count, c.log));
      }
    }
  }

  predicate IsCode(ret: int) {
    ret == SUCCESS || ret == FTW_STOP || ret == ERROR
  }

  /** The walk goes on, or is stopped as a callback should, or by an owner that may not be changed. */
  predicate StopsWell(env: Env, c: Copied) {
    var n := |c.log| - 1;
    || c.ret == FTW_CONTINUE || c.ret == FTW_STOP
    || (c.ret == ERROR && n >= 0 && c.log[n].ChangeOwner? && env.outcome(n) == Tolerated)
  }

  lemma {:induction false} FollowIsCode(env: Env, link: string, target: string, dest: string, count: nat,
      ignoreDir: bool, log: seq<Op>)
    requires count <= MAX_NUM_FOLLOWED_SYMLINKS
    ensures IsCode(Follow(env, link, target, dest, count, ignoreDir, log).ret)
    decreases MAX_NUM_FOLLOWED_SYMLINKS - count, 0
  {
    var checked := CheckLink(env, link, target);
    if count < MAX_NUM_FOLLOWED_SYMLINKS && checked.Goes? {
      var path := checked.path;
      if env.at[path].Dir? {
        CopyIsCode(env, path, dest, LinkPaths(path, dest), count + 1, log);
      } else if env.at[path].Link? {
        FollowIsCode(env, path, env.at[path].target, dest, count + 1, ignoreDir, log);
      }
    }
  }

  /** A copy returns one of these three values. */
  lemma {:induction false} CopyIsCode(env: Env, source: string, dest: string, paths: LinkPaths, count: nat,
      log: seq<Op>)
    requires count <= MAX_NUM_FOLLOWED_SYMLINKS
    ensures IsCode(CopyTree(env, source, dest, paths, count, log).ret)
    decreases MAX_NUM_FOLLOWED_SYMLINKS - count, 2
  {
    var created := DoCreatePath(env, dest, log);
    if source in env.at && !env.at[source].NoStat? && created.ret == SUCCESS {
      if env.at[source].Link? {
        FollowIsCode(env, source, env.at[source].target, dest, count, false, created.log);
      } else if !env.at[source].File? {
        WalkStopsWell(env, source, env.at[source], paths, count, created.log);
      }
    }
  }

  /** Only an owner that may not be changed ends a walk with another value than FTW_STOP. */
  lemma {:induction false} WalkStopsWell(env: Env, path: string, tree: Tree, paths: LinkPaths, count: nat,
      log: seq<Op>)
    requires count <= MAX_NUM_FOLLOWED_SYMLINKS
    ensures StopsWell(env, Walk(env, path, tree, paths, count, log))
    decreases MAX_NUM_FOLLOWED_SYMLINKS - count, 1, tree, if tree.Dir? then |tree.entries| + 2 else 1
  {
    var dest, c := env.dest(paths, path), Visit(env, path, tree, paths, count, log);
    if tree.Link? {
      FollowIsCode(env, path, tree.target, dest.path, count, false, log);
    } else if tree.Dir? && c.ret == 0 {
      EntriesStopWell(env, path, tree, 0, paths, count, c.log);
    }
  }

  lemma {:induction false} EntriesStopWell(env: Env, path: string, tree: Tree, k: nat, paths: LinkPaths,
      count: nat, log: seq<Op>)
    requires count <= MAX_NUM_FOLLOWED_SYMLINKS && tree.Dir? && k <= |tree.entries|
    ensures StopsWell(env, WalkEntries(env, path, tree, k, paths, count, log))
    decreases MAX_NUM_FOLLOWED_SYMLINKS - count, 1, tree, |tree.entries| - k + 1
  {
    if k < |tree.entries| {
      WalkStopsWell(env, path + "/" + tree.entries[k].name, tree.entries[k].node, paths, count, log);
      var c := Walk(env, path + "/" + tree.entries[k].name, tree.entries[k].node, paths, count, log);
      if c.ret == 0 {
        EntriesStopWell(env, path, tree, k + 1, paths, count, c.log);
      }
    }
  }

  /** Links of `ring` lead to links of `ring`. */
  ghost predicate IsRing(env: Env, ring: set<string>) {
    forall p <- ring :: p in env.at && env.at[p].Link? &&
      var t := env.target(p, env.at[p].target); t.ok && t.path in ring && env.onMount(t.path)
  }

  /** Links that lead in a circle are an error, and nothing is copied for them. */
  lemma {:induction false} RingIsError(env: Env, ring: set<string>, p: string, dest: string, count: nat,
      ignoreDir: bool, log: seq<Op>)
    requires IsRing(env, ring) && p in ring && count <= MAX_NUM_FOLLOWED_SYMLINKS
    ensures Follow(env, p, env.at[p].target, dest, count, ignoreDir, log) == Copied(log, ERROR)
    decreases MAX_NUM_FOLLOWED_SYMLINKS - count
  {
    if count < MAX_NUM_FOLLOWED_SYMLINKS {
      RingIsError(env, ring, env.target(p, env.at[p].target).path, dest, count + 1, ignoreDir, log);
    }
  }

  /** A link somewhere in this tree leads into `trap`. */
  ghost predicate LeadsInto(env: Env, trap: set<string>, path: string, tree: Tree)
    decreases tree
  {
    match tree
    case Link(target) => var t := env.target(path, target); t.ok && t.path in trap
    case Dir(entries) =>
      exists i :: 0 <= i < |entries| && LeadsInto(env, trap, path + "/" + entries[i].name, entries[i].node)
    case _ => false
  }

  /** Each path of the set is a link that leads into it, or a directory with such a link in it, at any depth. */
  ghost predicate IsTrap(env: Env, trap: set<string>) {
    forall p <- trap :: p in env.at && env.onMount(p) && LeadsInto(env, trap, p, env.at[p])
  }

  /**
   * Links that lead back into what is being copied: the copy ends, however its operations go, and reports a failure.
   */
  lemma {:induction false} TrapIsReported(env: Env, trap: set<string>, p: string, dest: string, paths: LinkPaths,
      count: nat,
      log: seq<Op>)
    requires IsTrap(env, trap) && p in trap && count <= MAX_NUM_FOLLOWED_SYMLINKS
    ensures CopyTree(env, p, dest, paths, count, log).ret != 0
    decreases MAX_NUM_FOLLOWED_SYMLINKS - count, 2
  {
    var created := DoCreatePath(env, dest, log);
    match env.at[p] {
      case Link(target) => TrapFollowed(env, trap, p, target, dest, count, false, created.log);
      case Dir(_) => TrapWalked(env, trap, p, env.at[p], paths, count, created.log);
    }
  }

  lemma {:induction false} TrapFollowed(env: Env, trap: set<string>, link: string, target: string, dest: string,
      count: nat,
      ignoreDir: bool, log: seq<Op>)
    requires IsTrap(env, trap) && LeadsInto(env, trap, link, Link(target)) && count <= MAX_NUM_FOLLOWED_SYMLINKS
    ensures Follow(env, link, target, dest, count, ignoreDir, log).ret != 0
    decreases MAX_NUM_FOLLOWED_SYMLINKS - count, 0
  {
    var path := env.target(link, target).path;
    if count < MAX_NUM_FOLLOWED_SYMLINKS {
      match env.at[path] {
        case Dir(_) => TrapIsReported(env, trap, path, dest, LinkPaths(path, dest), count + 1, log);
        case Link(next) => TrapFollowed(env, trap, path, next, dest, count + 1, ignoreDir, log);
      }
    }
  }

  lemma {:induction false} TrapWalked(env: Env, trap: set<string>, path: string, tree: Tree, paths: LinkPaths,
      count: nat,
      log: seq<Op>)
    requires IsTrap(env, trap) && LeadsInto(env, trap, path, tree) && count <= MAX_NUM_FOLLOWED_SYMLINKS
    ensures Walk(env, path, tree, paths, count, log).ret != 0
    decreases MAX_NUM_FOLLOWED_SYMLINKS - count, 1, tree, if tree.Dir? then |tree.entries| + 2 else 1
  {
    match tree {
      case Link(target) =>
        var dest := env.dest(paths, path);
        TrapFollowed(env, trap, path, target, dest.path, count, false, log);
      case Dir(entries) =>
        var i :| 0 <= i < |entries| && LeadsInto(env, trap, path + "/" + entries[i].name, entries[i].node);
        TrapInEntries(env, trap, path, tree, 0, i, paths, count, Visit(env, path, tree, paths, count, log).log);
    }
  }

  lemma {:induction false} TrapInEntries(env: Env, trap: set<string>, path: string, tree: Tree, k: nat, i: nat,
      paths: LinkPaths, count: nat, log: seq<Op>)
    requires IsTrap(env, trap) && count <= MAX_NUM_FOLLOWED_SYMLINKS && tree.Dir? && k <= i < |tree.entries|
    requires LeadsInto(env, trap, path + "/" + tree.entries[i].name, tree.entries[i].node)
    ensures WalkEntries(env, path, tree, k, paths, count, log).ret != 0
    decreases MAX_NUM_FOLLOWED_SYMLINKS - count, 1, tree, |tree.entries| - k + 1
  {
    var sub := path + "/" + tree.entries[k].name;
    if k < i {
      var c := Walk(env, sub, tree.entries[k].node, paths, count, log);
      TrapInEntries(env, trap, path, tree, k + 1, i, paths, count, c.log);
    } else {
      TrapWalked(env, trap, sub, tree.entries[k].node, paths, count, log);
    }
  }

  lemma {:induction false} LastSlashOf(dir: string, name: string)
    requires '/' !in name
    ensures LastSlash(dir + "/" + name) == |dir|
  {
    var s := dir + "/" + name;
    if name == [] {
      assert s[|s| - 1] == '/';
    } else {
      assert s[..|s| - 1] == dir + "/" + name[..|name| - 1] && s[|s| - 1] == name[|name| - 1];
      LastSlashOf(dir, name[..|name| - 1]);
    }
  }

  /** A relative text is meant from the link's own directory. */
  lemma RelativeTarget(fs: string -> RealPath, dir: string, name: string, target: string)
    requires name != [] && '/' !in name && (target == [] || target[0] != '/')
    ensures LinkTarget(fs, dir + "/" + name, target) ==
      MakePathAbsolute((if dir == [] then "/" else dir) + "/" + target, fs)
  {
    var s := dir + "/" + name;
    LastSlashOf(dir, name);
    assert s[|s| - 1] == name[|name| - 1] && Trimmed(s) == s && s[..|dir|] == dir;
  }

  /** A path on the source mount that links lead to as it is. */
  ghost predicate IsAbsolute(env: Env, p: string) {
    env.onMount(p) && forall link: string :: env.target(link, p) == Mapped(true, p)
  }

  lemma AbsolutePaths(at: map<string, Tree>, fs: string -> RealPath, sourceMount: string, destMount: string,
      outcome: nat -> Outcome, p: string)
    requires p != [] && p[0] == '/' && IsRootPath(p, sourceMount)
    ensures IsAbsolute(EnvOf(at, fs, sourceMount, destMount, outcome), p)
  {
  }

  /** The simplest trap: a directory with a link back to it. */
  lemma LoopIsReported(env: Env, p: string, dest: string, paths: LinkPaths, count: nat, log: seq<Op>)
    requires IsAbsolute(env, p) && count <= MAX_NUM_FOLLOWED_SYMLINKS
    requires p in env.at && env.at[p].Dir? && exists e <- env.at[p].entries :: e.node == Link(p)
    ensures CopyTree(env, p, dest, paths, count, log).ret != 0
  {
    var e :| e in env.at[p].entries && e.node == Link(p);
    var i :| 0 <= i < |env.at[p].entries| && env.at[p].entries[i] == e;
    assert LeadsInto(env, {p}, p + "/" + e.name, e.node);
    TrapIsReported(env, {p}, p, dest, paths, count, log);
  }

  // where links lead

  /** The link leads to p in n steps, each of them to something that is there and on the mount. */
  ghost predicate LeadsTo(env: Env, link: string, target: string, p: string, n: nat): (r: bool)
    ensures r ==> p in env.at && env.onMount(p) && !env.at[p].NoStat?
    decreases n
  {
    var t := env.target(link, target);
    && n > 0 && t.ok && env.onMount(t.path) && t.path in env.at && !env.at[t.path].NoStat?
    && if n == 1 then t.path == p else env.at[t.path].Link? && LeadsTo(env, t.path, env.at[t.path].target, p, n - 1)
  }

  datatype End = At(path: string, steps: nat) | Outside | Broken

  /** What is at the end of the link, in at most so many steps. */
  function EndOf(env: Env, link: string, target: string, steps: nat): (e: End)
    ensures e.At? ==> 0 < e.steps <= steps && e.path in env.at && !env.at[e.path].Link? && !env.at[e.path].NoStat?
    decreases steps
  {
    var t := env.target(link, target);
    if !t.ok then Broken
    else if !env.onMount(t.path) then Outside
    else if t.path !in env.at || env.at[t.path].NoStat? || steps == 0 then Broken
    else if env.at[t.path].Link? then
      var e := EndOf(env, t.path, env.at[t.path].target, steps - 1);
      if e.At? then At(e.path, e.steps + 1) else e
    else At(t.path, 1)
  }

  lemma {:induction false} EndIsReached(env: Env, link: string, target: string, steps: nat, p: string, n: nat)
    ensures EndOf(env, link, target, steps) == At(p, n) <==>
      n <= steps && LeadsTo(env, link, target, p, n) && !env.at[p].Link?
    decreases steps
  {
    var t := env.target(link, target);
    if steps > 0 && t.ok && env.onMount(t.path) && t.path in env.at && env.at[t.path].Link? && n > 0 {
      EndIsReached(env, t.path, env.at[t.path].target, steps - 1, p, n - 1);
    }
  }

  // what a copy does

  /** An operation to begin, or an error that no operation reports. */
  datatype Item = Begin(op: Op) | Stuck

  /** The copy of what is at the end of a link to `dest`. */
  function LinkItems(env: Env, link: string, target: string, dest: string, count: nat, ignoreDir: bool): seq<Item>
    requires count <= MAX_NUM_FOLLOWED_SYMLINKS
    decreases MAX_NUM_FOLLOWED_SYMLINKS - count, 0
  {
    match EndOf(env, link, target, MAX_NUM_FOLLOWED_SYMLINKS - count)
    case Broken => [Stuck]
    case Outside => []
    case At(p, n) =>
      match env.at[p]
      case File => [Begin(CopyFile(p, dest))]
      case Dir(_) =>
        if ignoreDir then [Stuck]
        else [Begin(CreatePath(dest))] + TreeItems(env, LinkPaths(p, dest), p, env.at[p], count + n)
      case _ => [Stuck]
  }

  /** Each entry once, at the place the callback finds for it, in tree order, with what is at the end of its links. */
  function TreeItems(env: Env, paths: LinkPaths, path: string, tree: Tree, count: nat): seq<Item>
    requires count <= MAX_NUM_FOLLOWED_SYMLINKS
    decreases MAX_NUM_FOLLOWED_SYMLINKS - count, 1, tree, if tree.Dir? then |tree.entries| + 1 else 0
  {
    var dest := env.dest(paths, path);
    if !dest.ok then [Stuck]
    else
      match tree
      case Dir(_) => [Begin(MakeDir(dest.path)), Begin(ChangeOwner(dest.path))] +
        EntryItems(env, paths, path, tree, 0, count)
      case Link(target) => LinkItems(env, path, target, dest.path, count, false)
      case NoStat => []
      case _ => [Begin(CopyFile(path, dest.path))]
  }

  function EntryItems(env: Env, paths: LinkPaths, path: string, tree: Tree, k: nat, count: nat): seq<Item>
    requires count <= MAX_NUM_FOLLOWED_SYMLINKS && tree.Dir? && k <= |tree.entries|
    decreases MAX_NUM_FOLLOWED_SYMLINKS - count, 1, tree, |tree.entries| - k
  {
    if k == |tree.entries| then []
    else
      TreeItems(env, paths, path + "/" + tree.entries[k].name, tree.entries[k].node, count) +
      EntryItems(env, paths, path, tree, k + 1, count)
  }

  /** A whole copy: the destination first. */
  function CopyItems(env: Env, source: string, dest: string, paths: LinkPaths, count: nat): seq<Item>
    requires count <= MAX_NUM_FOLLOWED_SYMLINKS
  {
    if source !in env.at || env.at[source].NoStat? then [Stuck]
    else
      [Begin(CreatePath(dest))] +
      match env.at[source]
      case File => [Begin(CopyFile(source, dest))]
      case Link(target) => LinkItems(env, source, target, dest, count, false)
      case _ => TreeItems(env, paths, source, env.at[source], count)
  }

  /** The operations of the log from number `from` up to number `to` are done. */
  ghost predicate DoneBetween(env: Env, log: seq<Op>, from: nat, to: nat) {
    to <= |log| && forall i :: from <= i < to ==> Done(env, log[i], env.outcome(i))
  }

  /**
   * The items are begun in their order, up to the first operation that is not done or the first error; the return value
   * says if there is one.
   */
  ghost predicate Performs(env: Env, log: seq<Op>, items: seq<Item>, c: Copied) {
    var n := |c.log| - |log|;
    && log <= c.log && n <= |items| && (forall i :: 0 <= i < n ==> items[i] == Begin(c.log[|log| + i]))
    && if c.ret == 0 then n == |items| && DoneBetween(env, c.log, |log|, |c.log|)
       else
         || (n > 0 && DoneBetween(env, c.log, |log|, |c.log| - 1) &&
           !Done(env, c.log[|c.log| - 1], env.outcome(|c.log| - 1)))
         || (n < |items| && items[n].Stuck? && DoneBetween(env, c.log, |log|, |c.log|))
  }

  /** All of these items are operations, and done if the first is number `from` of all. */
  ghost predicate AllPerformed(env: Env, from: nat, items: seq<Item>) {
    forall i :: 0 <= i < |items| ==> items[i].Begin? && Done(env, items[i].op, env.outcome(from + i))
  }

  lemma PerformsIff(env: Env, log: seq<Op>, items: seq<Item>, c: Copied)
    requires Performs(env, log, items, c)
    ensures c.ret == 0 <==> AllPerformed(env, |log|, items)
  {
    var n := |c.log| - |log|;
    if c.ret != 0 && n > 0 {
      assert items[n - 1] == Begin(c.log[|log| + (n - 1)]);
    }
  }

  lemma PerformsThen(env: Env, log: seq<Op>, a: seq<Item>, b: seq<Item>, c: Copied, d: Copied)
    requires Performs(env, log, a, c) && c.ret == 0 && Performs(env, c.log, b, d)
    ensures Performs(env, log, a + b, d)
  {
    var m, n := |c.log| - |log|, |d.log| - |log|;
    forall i | 0 <= i < n ensures (a + b)[i] == Begin(d.log[|log| + i]) {
      if i >= m {
        assert b[i - m] == Begin(d.log[|c.log| + (i - m)]);
      }
    }
    assert n < |a + b| ==> (a + b)[n] == b[n - m];
  }

  lemma PerformsStop(env: Env, log: seq<Op>, a: seq<Item>, b: seq<Item>, c: Copied)
    requires Performs(env, log, a, c) && c.ret != 0
    ensures Performs(env, log, a + b, c)
  {
  }

  /** Following a link copies what is at its end, whatever the links on the way are. */
  lemma {:induction false} FollowPerforms(env: Env, link: string, target: string, dest: string, count: nat,
      ignoreDir: bool, log: seq<Op>)
    requires count <= MAX_NUM_FOLLOWED_SYMLINKS
    ensures Performs(env, log, LinkItems(env, link, target, dest, count, ignoreDir),
      Follow(env, link, target, dest, count, ignoreDir, log))
    decreases MAX_NUM_FOLLOWED_SYMLINKS - count, 0
  {
    var checked := CheckLink(env, link, target);
    if count < MAX_NUM_FOLLOWED_SYMLINKS && checked.Goes? {
      var p := checked.path;
      if env.at[p].Link? {
        FollowPerforms(env, p, env.at[p].target, dest, count + 1, ignoreDir, log);
        OneStepOn(env, link, target, dest, count, ignoreDir);
      } else if env.at[p].Dir? && !ignoreDir {
        CopyIsExpected(env, p, dest, LinkPaths(p, dest), count + 1, log);
      }
    }
  }

  lemma OneStepOn(env: Env, link: string, target: string, dest: string, count: nat, ignoreDir: bool)
    requires count < MAX_NUM_FOLLOWED_SYMLINKS && CheckLink(env, link, target).Goes?
    requires env.at[CheckLink(env, link, target).path].Link?
    ensures var p := CheckLink(env, link, target).path;
      LinkItems(env, link, target, dest, count, ignoreDir) ==
      LinkItems(env, p, env.at[p].target, dest, count + 1, ignoreDir)
  {
  }

  /** The copy of a file, of a link or of a tree, with links followed: complete in every case, and in this order. */
  lemma {:induction false} CopyIsExpected(env: Env, source: string, dest: string, paths: LinkPaths, count: nat,
      log: seq<Op>)
    requires count <= MAX_NUM_FOLLOWED_SYMLINKS
    ensures var items, c := CopyItems(env, source, dest, paths, count), CopyTree(env, source, dest, paths, count, log);
      Performs(env, log, items, c) && (c.ret == 0 <==> AllPerformed(env, |log|, items))
    decreases MAX_NUM_FOLLOWED_SYMLINKS - count, 2
  {
    var items, c := CopyItems(env, source, dest, paths, count), CopyTree(env, source, dest, paths, count, log);
    if source in env.at && !env.at[source].NoStat? {
      var created, first := DoCreatePath(env, dest, log), [Begin(CreatePath(dest))];
      assert Performs(env, log, first, created);
      if created.ret != SUCCESS {
        PerformsStop(env, log, first, items[1..], created);
      } else {
        if env.at[source].File? {
          CopyFilePerforms(env, source, dest, created.log);
        } else if env.at[source].Link? {
          FollowPerforms(env, source, env.at[source].target, dest, count, false, created.log);
        } else {
          WalkIsExpected(env, source, env.at[source], paths, count, created.log);
        }
        PerformsThen(env, log, first, items[1..], created, c);
      }
      assert items == first + items[1..];
    }
    PerformsIff(env, log, items, c);
  }

  lemma CopyFilePerforms(env: Env, src: string, dst: string, log: seq<Op>)
    ensures Performs(env, log, [Begin(CopyFile(src, dst))], DoCopyFile(env, src, dst, log))
  {
  }

  lemma DirectoryPerforms(env: Env, dst: string, log: seq<Op>)
    ensures Performs(env, log, [Begin(MakeDir(dst)), Begin(ChangeOwner(dst))], DoDirectory(env, dst, log))
  {
  }

  /**
   * A walk begins exactly the items of its tree, in the tree's order, up to the first that is not done, and succeeds
   * exactly if all are done: something that exists already is no failure, an owner that may not be changed is.
   */
  lemma {:induction false} WalkIsExpected(env: Env, path: string, tree: Tree, paths: LinkPaths, count: nat,
      log: seq<Op>)
    requires count <= MAX_NUM_FOLLOWED_SYMLINKS
    ensures var items, c := TreeItems(env, paths, path, tree, count), Walk(env, path, tree, paths, count, log);
      Performs(env, log, items, c) && (c.ret == 0 <==> AllPerformed(env, |log|, items))
    decreases MAX_NUM_FOLLOWED_SYMLINKS - count, 1, tree, if tree.Dir? then |tree.entries| + 2 else 1
  {
    var items, c := TreeItems(env, paths, path, tree, count), Walk(env, path, tree, paths, count, log);
    var v := Visit(env, path, tree, paths, count, log);
    if tree.Dir? && env.dest(paths, path).ok {
      var dest, rest := env.dest(paths, path).path, EntryItems(env, paths, path, tree, 0, count);
      var ops := [Begin(MakeDir(dest)), Begin(ChangeOwner(dest))];
      DirectoryPerforms(env, dest, log);
      if v.ret == 0 {
        EntriesPerform(env, path, tree, 0, paths, count, v.log);
        PerformsThen(env, log, ops, rest, v, c);
      } else {
        PerformsStop(env, log, ops, rest, v);
      }
      assert items == ops + rest;
    } else {
      EntryPerforms(env, path, tree, paths, count, log);
      assert c == v;
    }
    assert Performs(env, log, items, c);
    PerformsIff(env, log, items, c);
  }

  /** An entry that is no directory. */
  lemma {:induction false} EntryPerforms(env: Env, path: string, tree: Tree, paths: LinkPaths, count: nat,
      log: seq<Op>)
    requires count <= MAX_NUM_FOLLOWED_SYMLINKS && (tree.Dir? ==> !env.dest(paths, path).ok)
    ensures Performs(env, log, TreeItems(env, paths, path, tree, count), Visit(env, path, tree, paths, count, log))
    decreases MAX_NUM_FOLLOWED_SYMLINKS - count, 1, tree, 0
  {
    var dest := env.dest(paths, path);
    if dest.ok {
      if tree.Link? {
        FollowPerforms(env, path, tree.target, dest.path, count, false, log);
      } else if !tree.NoStat? {
        CopyFilePerforms(env, path, dest.path, log);
      }
    }
  }

  lemma {:induction false} EntriesPerform(env: Env, path: string, tree: Tree, k: nat, paths: LinkPaths,
      count: nat, log: seq<Op>)
    requires count <= MAX_NUM_FOLLOWED_SYMLINKS && tree.Dir? && k <= |tree.entries|
    ensures Performs(
      env, log, EntryItems(env, paths, path, tree, k, count), WalkEntries(env, path, tree, k, paths, count, log))
    decreases MAX_NUM_FOLLOWED_SYMLINKS - count, 1, tree, |tree.entries| - k + 1
  {
    if k < |tree.entries| {
      var sub, e := path + "/" + tree.entries[k].name, tree.entries[k];
      WalkIsExpected(env, sub, e.node, paths, count, log);
      var c := Walk(env, sub, e.node, paths, count, log);
      var items, rest := TreeItems(env, paths, sub, e.node, count), EntryItems(env, paths, path, tree, k + 1, count);
      if c.ret == 0 {
        EntriesPerform(env, path, tree, k + 1, paths, count, c.log);
        PerformsThen(env, log, items, rest, c, WalkEntries(env, path, tree, k, paths, count, log));
      } else {
        PerformsStop(env, log, items, rest, c);
      }
    }
  }

  /** A link to a file, near enough: exactly that file is copied to the link's place, and the result says whether. */
  lemma {:induction false} FileIsCopied(env: Env, link: string, target: string, dest: string, count: nat,
      ignoreDir: bool, log: seq<Op>, p: string, n: nat)
    requires LeadsTo(env, link, target, p, n) && env.at[p].File? && count + n <= MAX_NUM_FOLLOWED_SYMLINKS
    ensures Follow(env, link, target, dest, count, ignoreDir, log) ==
      Copied(log + [CopyFile(p, dest)], if env.outcome(|log|) == Failed then ERROR else SUCCESS)
    decreases n
  {
    var t := env.target(link, target).path;
    if n > 1 {
      FileIsCopied(env, t, env.at[t].target, dest, count + 1, ignoreDir, log, p, n - 1);
    }
  }

  /** A link to a directory: that directory is copied to the link's place, with its entries below it. */
  lemma {:induction false} DirectoryIsCopied(env: Env, link: string, target: string, dest: string, count: nat,
      log: seq<Op>, p: string, n: nat)
    requires LeadsTo(env, link, target, p, n) && env.at[p].Dir? && count + n <= MAX_NUM_FOLLOWED_SYMLINKS
    ensures Follow(env, link, target, dest, count, false, log) ==
      CopyTree(env, p, dest, LinkPaths(p, dest), count + n, log)
    decreases n
  {
    var t := env.target(link, target).path;
    if n > 1 {
      DirectoryIsCopied(env, t, env.at[t].target, dest, count + 1, log, p, n - 1);
    }
  }

  /** A link that leads too far is an error, and nothing is copied for it. */
  lemma {:induction false} TooFarIsError(env: Env, link: string, target: string, dest: string, count: nat,
      ignoreDir: bool, log: seq<Op>, p: string, n: nat)
    requires LeadsTo(env, link, target, p, n) && count <= MAX_NUM_FOLLOWED_SYMLINKS < count + n
    ensures Follow(env, link, target, dest, count, ignoreDir, log) == Copied(log, ERROR)
    decreases n
  {
    var t := env.target(link, target).path;
    if count < MAX_NUM_FOLLOWED_SYMLINKS {
      TooFarIsError(env, t, env.at[t].target, dest, count + 1, ignoreDir, log, p, n - 1);
    }
  }

  // trees without links

  predicate LinkFree(tree: Tree) {
    match tree
    case Dir(entries) => forall e <- entries :: LinkFree(e.node)
    case Link(_) => false
    case _ => true
  }

  /**
   * The operations for a tree without links: each entry once, at the place the callback finds for it, in tree order.
   */
  function Expected(env: Env, paths: LinkPaths, path: string, tree: Tree): seq<Op>
    decreases tree, if tree.Dir? then |tree.entries| + 1 else 0
  {
    var dest := env.dest(paths, path).path;
    match tree
    case Dir(_) => [MakeDir(dest), ChangeOwner(dest)] + ExpectedEntries(env, paths, path, tree, 0)
    case NoStat => []
    case _ => [CopyFile(path, dest)]
  }

  function ExpectedEntries(env: Env, paths: LinkPaths, path: string, tree: Tree, k: nat): seq<Op>
    requires tree.Dir? && k <= |tree.entries|
    decreases tree, |tree.entries| - k
  {
    if k == |tree.entries| then []
    else
      Expected(env, paths, path + "/" + tree.entries[k].name, tree.entries[k].node) +
      ExpectedEntries(env, paths, path, tree, k + 1)
  }

  /** Every path below `path` has a place to be copied to. */
  ghost predicate AllMapped(env: Env, paths: LinkPaths, path: string) {
    forall q: string :: path <= q ==> env.dest(paths, q).ok
  }

  /** The first n of these operations, of which the first is number `from` of all, are done. */
  ghost predicate DoneUpTo(env: Env, from: nat, ops: seq<Op>, n: nat) {
    n <= |ops| && forall i :: 0 <= i < n ==> Done(env, ops[i], env.outcome(from + i))
  }

  ghost predicate AllDone(env: Env, from: nat, ops: seq<Op>) {
    DoneUpTo(env, from, ops, |ops|)
  }

  /**
   * These operations are begun in their order up to the first that is not done; the return value says if there is one.
   */
  ghost predicate Attempts(env: Env, log: seq<Op>, ops: seq<Op>, c: Copied) {
    var n := |c.log| - |log|;
    && 0 <= n <= |ops| && c.log == log + ops[..n]
    && (if c.ret == 0 then n == |ops| && AllDone(env, |log|, ops)
        else n > 0 && DoneUpTo(env, |log|, ops, n - 1) && !Done(env, ops[n - 1], env.outcome(|log| + n - 1)))
  }

  function Begins(ops: seq<Op>): (r: seq<Item>)
    ensures |r| == |ops| && forall i :: 0 <= i < |r| ==> r[i] == Begin(ops[i])
  {
    seq(|ops|, i requires 0 <= i < |ops| => Begin(ops[i]))
  }

  lemma PerformsOps(env: Env, log: seq<Op>, ops: seq<Op>, c: Copied)
    requires Performs(env, log, Begins(ops), c)
    ensures Attempts(env, log, ops, c)
  {
    var n := |c.log| - |log|;
    assert forall i :: 0 <= i < n ==> Begins(ops)[i] == Begin(c.log[|log| + i]);
    assert c.log == log + ops[..n];
    assert forall i :: 0 <= i < n ==> ops[i] == c.log[|log| + i];
  }

  /** A tree without links has no errors but those of operations, if every path has a place. */
  lemma {:induction false} PlainItems(env: Env, paths: LinkPaths, path: string, tree: Tree, count: nat)
    requires count <= MAX_NUM_FOLLOWED_SYMLINKS && LinkFree(tree) && AllMapped(env, paths, path)
    ensures TreeItems(env, paths, path, tree, count) == Begins(Expected(env, paths, path, tree))
    decreases tree, if tree.Dir? then |tree.entries| + 1 else 0
  {
    assert env.dest(paths, path).ok;
    if tree.Dir? {
      PlainEntryItems(env, paths, path, tree, 0, count);
    }
  }

  lemma {:induction false} PlainEntryItems(env: Env, paths: LinkPaths, path: string, tree: Tree, k: nat, count: nat)
    requires count <= MAX_NUM_FOLLOWED_SYMLINKS && LinkFree(tree) && AllMapped(env, paths, path)
    requires tree.Dir? && k <= |tree.entries|
    ensures EntryItems(env, paths, path, tree, k, count) == Begins(ExpectedEntries(env, paths, path, tree, k))
    decreases tree, |tree.entries| - k
  {
    if k < |tree.entries| {
      var sub, e := path + "/" + tree.entries[k].name, tree.entries[k];
      assert e in tree.entries && path <= sub;
      PlainItems(env, paths, sub, e.node, count);
      PlainEntryItems(env, paths, path, tree, k + 1, count);
    }
  }

  /** The walk of a tree without links: these operations, up to the first that is not done. */
  lemma PlainWalkIsExpected(env: Env, path: string, tree: Tree, paths: LinkPaths, count: nat, log: seq<Op>)
    requires count <= MAX_NUM_FOLLOWED_SYMLINKS && LinkFree(tree) && AllMapped(env, paths, path)
    ensures var ops, c := Expected(env, paths, path, tree), Walk(env, path, tree, paths, count, log);
      Attempts(env, log, ops, c) && (c.ret == 0 <==> AllDone(env, |log|, ops))
  {
    var ops, c := Expected(env, paths, path, tree), Walk(env, path, tree, paths, count, log);
    WalkIsExpected(env, path, tree, paths, count, log);
    PlainItems(env, paths, path, tree, count);
    PerformsOps(env, log, ops, c);
  }

  /** The same for a whole copy of a directory, which creates the destination first, so that the walk finds it there. */
  lemma PlainCopyIsExpected(env: Env, source: string, dest: string, paths: LinkPaths, count: nat, log: seq<Op>)
    requires count <= MAX_NUM_FOLLOWED_SYMLINKS && AllMapped(env, paths, source)
    requires source in env.at && env.at[source].Dir? && LinkFree(env.at[source])
    ensures var ops := [CreatePath(dest)] + Expected(env, paths, source, env.at[source]);
      var c := CopyTree(env, source, dest, paths, count, log);
      Attempts(env, log, ops, c) && (c.ret == 0 <==> AllDone(env, |log|, ops))
  {
    var rest := Expected(env, paths, source, env.at[source]);
    CopyIsExpected(env, source, dest, paths, count, log);
    PlainItems(env, paths, source, env.at[source], count);
    assert [Begin(CreatePath(dest))] + Begins(rest) == Begins([CreatePath(dest)] + rest);
    PerformsOps(env, log, [CreatePath(dest)] + rest, CopyTree(env, source, dest, paths, count, log));
  }

  // places

  /** All that lies below the source mount has its own place on the other mount. */
  lemma MountPlace(fs: string -> RealPath, sourceMount: string, destMount: string, q: string)
    requires q != [] && q[0] == '/' && IsRootPath(q, sourceMount)
    ensures DestOf(fs, sourceMount, destMount, NoLink, q) == Mapped(true, destMount + q[|sourceMount|..])
  {
  }

  lemma MountPlacesDiffer(fs: string -> RealPath, sourceMount: string, destMount: string, q: string, r: string)
    requires q != [] && q[0] == '/' && IsRootPath(q, sourceMount)
    requires r != [] && r[0] == '/' && IsRootPath(r, sourceMount)
    ensures DestOf(fs, sourceMount, destMount, NoLink, q) == DestOf(fs, sourceMount, destMount, NoLink, r) <==> q == r
  {
    SameRest(sourceMount, q, r, destMount);
  }

  /** What lies below a followed link's target goes below the link's own place, under its cleaned-up name. */
  lemma LinkPlace(fs: string -> RealPath, sourceMount: string, destMount: string, source: string, dest: string,
      q: string)
    requires source != [] && source[0] == '/' && source <= q && Prepared(q) != []
    ensures Prepared(source) <= Prepared(q)
    ensures DestOf(fs, sourceMount, destMount, LinkPaths(source, dest), q) ==
      Mapped(true, Prepared(dest) + Prepared(q)[|Prepared(source)|..])
  {
    PreparedPrefix(source, q);
    PreparedStart(q);
    ReplacedBelow(fs, Prepared(q), Prepared(source), Prepared(dest));
  }

  lemma ReplacedBelow(fs: string -> RealPath, path: string, orig: string, root: string)
    requires path != [] && path[0] == '/' && orig <= path
    ensures ReplaceRootPath(path, orig, root, fs) == Mapped(true, root + path[|orig|..])
  {
  }

  /** Behind a followed link two entries have one place exactly if their cleaned-up paths agree. */
  lemma LinkPlacesCollideIff(fs: string -> RealPath, sourceMount: string, destMount: string, source: string,
      dest: string,
      q: string, r: string)
    requires source != [] && source[0] == '/' && source <= q && Prepared(q) != [] && source <= r && Prepared(r) != []
    ensures var paths := LinkPaths(source, dest);
      DestOf(fs, sourceMount, destMount, paths, q) == DestOf(fs, sourceMount, destMount, paths, r) <==>
        Prepared(q) == Prepared(r)
  {
    LinkPlace(fs, sourceMount, destMount, source, dest, q);
    LinkPlace(fs, sourceMount, destMount, source, dest, r);
    SameRest(Prepared(source), Prepared(q), Prepared(r), Prepared(dest));
  }

  lemma SameRest(s: string, q: string, r: string, d: string)
    requires s <= q && s <= r
    ensures d + q[|s|..] == d + r[|s|..] <==> q == r
  {
    assert q == s + (d + q[|s|..])[|d|..] && r == s + (d + r[|s|..])[|d|..];
  }

  /** Two files whose names differ in a space overwrite each other. */
  lemma SpacedNameCollides(fs: string -> RealPath, sourceMount: string, destMount: string, source: string, dest: string,
      x: string, y: string)
    requires Prepared(source) == source && source != [] && source[0] == '/' && '/' !in x && '/' !in y && x + y != []
    ensures DestOf(fs, sourceMount, destMount, LinkPaths(source, dest), source + "/" + (x + " " + y)) ==
      DestOf(fs, sourceMount, destMount, LinkPaths(source, dest), source + "/" + (x + y))
  {
    var s := source + "/";
    PreparedIsIdentityIff(source);
    assert s + (x + " " + y) == (s + x) + " " + y && s + (x + y) == (s + x) + y;
    NameKeepsSingleSlashes(source, x + " " + y);
    NameKeepsSingleSlashes(source, x + y);
    SpacesCollide(s + x, y);
    PreparedPrefix(source, s + (x + y));
    LinkPlacesCollideIff(fs, sourceMount, destMount, source, dest, s + (x + " " + y), s + (x + y));
  }

  lemma NameKeepsSingleSlashes(dir: string, name: string)
    requires !HasDoubleSlash(dir) && (dir == [] || dir[|dir| - 1] != '/') && '/' !in name
    ensures !HasDoubleSlash(dir + "/" + name)
  {
    var s := dir + "/" + name;
    forall i | 0 < i < |s| ensures !BothSlashes(s[i - 1], s[i]) {
      if i < |dir| {
        assert !BothSlashes(dir[i - 1], dir[i]) && s[i - 1] == dir[i - 1] && s[i] == dir[i];
      } else {
        assert if i == |dir| then s[i - 1] == dir[i - 1] else s[i] == name[i - |dir| - 1];
      }
    }
  }

  lemma MountIsMapped(at: map<string, Tree>, fs: string -> RealPath, sourceMount: string, destMount: string,
      outcome: nat -> Outcome, path: string)
    requires path != [] && path[0] == '/' && IsRootPath(path, sourceMount)
    ensures var env := EnvOf(at, fs, sourceMount, destMount, outcome);
      && AllMapped(env, NoLink, path)
      && forall q: string :: path <= q ==> env.dest(NoLink, q).path == destMount + q[|sourceMount|..]
  {
    forall q: string | path <= q
      ensures DestOf(fs, sourceMount, destMount, NoLink, q) == Mapped(true, destMount + q[|sourceMount|..])
    {
      assert q[0] == path[0] && q[..|sourceMount|] == path[..|sourceMount|];
      MountPlace(fs, sourceMount, destMount, q);
    }
  }

  /** Only the root itself is cleaned up to nothing. */
  lemma LinkIsMapped(at: map<string, Tree>, fs: string -> RealPath, sourceMount: string, destMount: string,
      outcome: nat -> Outcome, source: string, dest: string)
    requires source != [] && source[0] == '/' && Prepared(source) != []
    ensures var env, paths := EnvOf(at, fs, sourceMount, destMount, outcome), LinkPaths(source, dest);
      && AllMapped(env, paths, source)
      && forall q: string :: source <= q ==>
        Prepared(source) <= Prepared(q) && env.dest(paths, q).path == Prepared(dest) + Prepared(q)[|Prepared(source)|..]
  {
    forall q: string | source <= q
      ensures Prepared(source) <= Prepared(q)
      ensures DestOf(fs, sourceMount, destMount, LinkPaths(source, dest), q) ==
        Mapped(true, Prepared(dest) + Prepared(q)[|Prepared(source)|..])
    {
      PreparedPrefix(source, q);
      LinkPlace(fs, sourceMount, destMount, source, dest, q);
    }
  }

  // the copied tree

  /** A plain copy of the tree at `path` to `dest`: each entry under its name below the copy of its directory. */
  function CopyOps(path: string, dest: string, tree: Tree): seq<Op>
    decreases tree, if tree.Dir? then |tree.entries| + 1 else 0
  {
    match tree
    case Dir(_) => [MakeDir(dest), ChangeOwner(dest)] + CopyEntriesOps(path, dest, tree, 0)
    case NoStat => []
    case _ => [CopyFile(path, dest)]
  }

  function CopyEntriesOps(path: string, dest: string, tree: Tree, k: nat): seq<Op>
    requires tree.Dir? && k <= |tree.entries|
    decreases tree, |tree.entries| - k
  {
    if k == |tree.entries| then []
    else
      var e := tree.entries[k];
      CopyOps(path + "/" + e.name, dest + "/" + e.name, e.node) + CopyEntriesOps(path, dest, tree, k + 1)
  }

  /** File names of the kind that exist. */
  predicate WellNamed(tree: Tree) {
    tree.Dir? ==> forall e <- tree.entries :: e.name != [] && '/' !in e.name && WellNamed(e.node)
  }

  /** No name of anything that is copied contains a space. */
  predicate SpaceFree(tree: Tree) {
    tree.Dir? ==> forall e <- tree.entries :: !e.node.NoStat? ==> ' ' !in e.name && SpaceFree(e.node)
  }

  /** What a clean-up leaves alone behind a directory: nothing, or names without spaces, each behind one slash. */
  ghost predicate PlainRest(r: string) {
    r == [] || (r[0] == '/' && !HasDoubleSlash(r) && ' ' !in r && r[|r| - 1] != '/')
  }

  /** What lies below `path`, if it is written plainly where that matters, goes to the same place below `dest`. */
  ghost predicate GoesTo(env: Env, paths: LinkPaths, path: string, dest: string, plain: bool) {
    forall r: string :: (plain ==> PlainRest(r)) ==> env.dest(paths, path + r) == Mapped(true, dest + r)
  }

  lemma GoesWith(env: Env, paths: LinkPaths, path: string, dest: string, plain: bool, name: string, r: string)
    requires GoesTo(env, paths, path, dest, plain) && (plain ==> PlainName(name) && PlainRest(r))
    ensures env.dest(paths, path + "/" + name + r) == Mapped(true, dest + "/" + name + r)
  {
    JoinedRest(path, name, r);
    JoinedRest(dest, name, r);
    if plain {
      PlainRestGrows(name, r);
    }
  }

  lemma JoinedRest(path: string, name: string, r: string)
    ensures path + "/" + name + r == path + ("/" + name + r)
  {
  }

  lemma GoesBelow(env: Env, paths: LinkPaths, path: string, dest: string, plain: bool, name: string)
    requires GoesTo(env, paths, path, dest, plain) && (plain ==> PlainName(name))
    ensures GoesTo(env, paths, path + "/" + name, dest + "/" + name, plain)
  {
    forall r: string | plain ==> PlainRest(r)
      ensures env.dest(paths, path + "/" + name + r) == Mapped(true, dest + "/" + name + r)
    {
      GoesWith(env, paths, path, dest, plain, name, r);
    }
  }

  predicate PlainName(name: string) {
    name != [] && '/' !in name && ' ' !in name
  }

  lemma PlainRestGrows(name: string, r: string)
    requires PlainName(name) && PlainRest(r)
    ensures PlainRest("/" + name + r)
  {
    var s := "/" + name + r;
    forall i | 0 < i < |s| ensures !BothSlashes(s[i - 1], s[i]) {
      if i > |name| + 1 {
        assert !BothSlashes(r[i - |name| - 2], r[i - |name| - 1]);
      } else {
        assert s[if i == |name| + 1 then i - 1 else i] in name;
      }
    }
  }

  /** The callback's places make the walk a plain copy. */
  lemma {:induction false} ExpectedIsCopy(env: Env, paths: LinkPaths, path: string, dest: string, tree: Tree,
      plain: bool)
    requires GoesTo(env, paths, path, dest, plain) && (plain ==> WellNamed(tree) && SpaceFree(tree))
    ensures Expected(env, paths, path, tree) == CopyOps(path, dest, tree)
    decreases tree, if tree.Dir? then |tree.entries| + 1 else 0
  {
    assert path + [] == path && dest + [] == dest;
    assert env.dest(paths, path + []) == Mapped(true, dest + []);
    if tree.Dir? {
      EntriesAreCopies(env, paths, path, dest, tree, 0, plain);
    }
  }

  lemma {:induction false} EntriesAreCopies(env: Env, paths: LinkPaths, path: string, dest: string, tree: Tree, k: nat,
      plain: bool)
    requires GoesTo(env, paths, path, dest, plain) && (plain ==> WellNamed(tree) && SpaceFree(tree))
    requires tree.Dir? && k <= |tree.entries|
    ensures ExpectedEntries(env, paths, path, tree, k) == CopyEntriesOps(path, dest, tree, k)
    decreases tree, |tree.entries| - k
  {
    if k < |tree.entries| {
      var e := tree.entries[k];
      assert e in tree.entries;
      if !e.node.NoStat? {
        GoesBelow(env, paths, path, dest, plain, e.name);
        ExpectedIsCopy(env, paths, path + "/" + e.name, dest + "/" + e.name, e.node, plain);
      }
      EntriesAreCopies(env, paths, path, dest, tree, k + 1, plain);
    }
  }

  /** Below the source mount the walk is the plain copy to the other mount, whatever the names are. */
  lemma MountCopyIsPlain(at: map<string, Tree>, fs: string -> RealPath, sourceMount: string, destMount: string,
      outcome: nat -> Outcome, path: string, tree: Tree)
    requires path != [] && path[0] == '/' && IsRootPath(path, sourceMount)
    ensures Expected(EnvOf(at, fs, sourceMount, destMount, outcome), NoLink, path, tree) ==
      CopyOps(path, destMount + path[|sourceMount|..], tree)
  {
    var env, dest := EnvOf(at, fs, sourceMount, destMount, outcome), destMount + path[|sourceMount|..];
    forall r: string ensures env.dest(NoLink, path + r) == Mapped(true, dest + r) {
      MountPlace(fs, sourceMount, destMount, path + r);
      assert destMount + (path + r)[|sourceMount|..] == dest + r;
    }
    ExpectedIsCopy(env, NoLink, path, dest, tree, false);
  }

  /** The last name in the path consists of spaces only, so nothing is left of it but the slash in front of it. */
  predicate EndsBlank(s: string) {
    var u := WithoutSpaces(Unique(s));
    s != [] && s[|s| - 1] == ' ' && u != [] && u[|u| - 1] == '/'
  }

  /** Something in the directory is copied. */
  predicate CopiesEntries(tree: Tree) {
    tree.Dir? && exists e <- tree.entries :: !e.node.NoStat?
  }

  /**
   * Behind a followed link it is the plain copy exactly if no copied name contains a space, and the target's last name
   * does not consist of spaces only; such a target costs every entry a second slash.
   */
  lemma LinkCopyIsPlainIff(at: map<string, Tree>, fs: string -> RealPath, sourceMount: string, destMount: string,
      outcome: nat -> Outcome, source: string, dest: string, tree: Tree)
    requires source != [] && source[0] == '/' && Prepared(source) != [] && WellNamed(tree) && LinkFree(tree)
    ensures var env := EnvOf(at, fs, sourceMount, destMount, outcome);
      Expected(env, LinkPaths(source, dest), source, tree) == CopyOps(source, Prepared(dest), tree) <==>
        SpaceFree(tree) && !(EndsBlank(source) && CopiesEntries(tree))
  {
    var env, paths := EnvOf(at, fs, sourceMount, destMount, outcome), LinkPaths(source, dest);
    forall r: string
      ensures ' ' !in env.dest(paths, source + r).path
      ensures PlainRest(r) ==> env.dest(paths, source + r) == Mapped(true, Prepared(dest) + CleanedRest(source, r))
    {
      PlaceBehindLink(fs, sourceMount, destMount, source, dest, r);
    }
    PreparedHasNoSpace(dest);
    PlainIff(env, paths, source, Prepared(dest), EndsBlank(source), tree);
  }

  /** Entries go below `dest` without spaces, and with one more slash in the blank case. */
  ghost predicate GoesCleaned(env: Env, paths: LinkPaths, path: string, dest: string, blank: bool) {
    forall r: string ::
      && ' ' !in env.dest(paths, path + r).path
      && (PlainRest(r) ==> env.dest(paths, path + r) == Mapped(true, dest + if blank && r != [] then "/" + r else r))
  }

  lemma PlainIff(env: Env, paths: LinkPaths, path: string, dest: string, blank: bool, tree: Tree)
    requires GoesCleaned(env, paths, path, dest, blank) && ' ' !in dest && WellNamed(tree) && LinkFree(tree)
    ensures Expected(env, paths, path, tree) == CopyOps(path, dest, tree) <==>
      SpaceFree(tree) && !(blank && CopiesEntries(tree))
  {
    if !SpaceFree(tree) {
      SpacesDiffer(env, paths, path, dest, blank, tree);
    } else if !blank {
      PlainCopied(env, paths, path, dest, tree);
    } else if CopiesEntries(tree) {
      BlankDiffers(env, paths, path, dest, tree);
    } else {
      NothingInside(env, paths, path, dest, tree);
    }
  }

  lemma SpacesDiffer(env: Env, paths: LinkPaths, path: string, dest: string, blank: bool, tree: Tree)
    requires GoesCleaned(env, paths, path, dest, blank) && !SpaceFree(tree)
    ensures Expected(env, paths, path, tree) != CopyOps(path, dest, tree)
  {
    ExpectedHasNoSpaces(env, paths, path, tree);
    CopyHasSpaces(path, dest, tree);
  }

  lemma PlainCopied(env: Env, paths: LinkPaths, path: string, dest: string, tree: Tree)
    requires GoesCleaned(env, paths, path, dest, false) && WellNamed(tree) && SpaceFree(tree)
    ensures Expected(env, paths, path, tree) == CopyOps(path, dest, tree)
  {
    assert GoesTo(env, paths, path, dest, true);
    ExpectedIsCopy(env, paths, path, dest, tree, true);
  }

  lemma BlankDiffers(env: Env, paths: LinkPaths, path: string, dest: string, tree: Tree)
    requires GoesCleaned(env, paths, path, dest, true)
    requires WellNamed(tree) && SpaceFree(tree) && LinkFree(tree) && CopiesEntries(tree)
    ensures Expected(env, paths, path, tree) != CopyOps(path, dest, tree)
  {
    var ops, plain := ExpectedEntries(env, paths, path, tree, 0), CopyEntriesOps(path, dest, tree, 0);
    FirstEntriesDiffer(env, paths, path, dest, tree, 0);
    assert Expected(env, paths, path, tree)[2] == ops[0] && CopyOps(path, dest, tree)[2] == plain[0];
  }

  lemma NothingInside(env: Env, paths: LinkPaths, path: string, dest: string, tree: Tree)
    requires GoesCleaned(env, paths, path, dest, true) && !CopiesEntries(tree)
    ensures Expected(env, paths, path, tree) == CopyOps(path, dest, tree)
  {
    RootPlace(env, paths, path, dest, true);
    NoEntries(env, paths, path, dest, tree, 0);
  }

  lemma RootPlace(env: Env, paths: LinkPaths, path: string, dest: string, blank: bool)
    requires GoesCleaned(env, paths, path, dest, blank)
    ensures env.dest(paths, path) == Mapped(true, dest)
  {
    assert path + [] == path && dest + [] == dest && PlainRest([]);
    assert env.dest(paths, path + []) == Mapped(true, dest + []);
  }

  /** What the cleaned-up path of an entry adds to the cleaned-up target. */
  function CleanedRest(source: string, r: string): string {
    if EndsBlank(source) && r != [] then "/" + r else r
  }

  lemma PlaceBehindLink(fs: string -> RealPath, sourceMount: string, destMount: string, source: string, dest: string,
      r: string)
    requires source != [] && source[0] == '/' && Prepared(source) != []
    ensures var m := DestOf(fs, sourceMount, destMount, LinkPaths(source, dest), source + r);
      ' ' !in m.path && (PlainRest(r) ==> m == Mapped(true, Prepared(dest) + CleanedRest(source, r)))
  {
    PreparedPrefix(source, source + r);
    LinkPlace(fs, sourceMount, destMount, source, dest, source + r);
    PreparedHasNoSpace(source + r);
    PreparedHasNoSpace(dest);
    if PlainRest(r) {
      PreparedOfRest(source, r);
    }
  }

  /** The clean-up of a path with a plain rest. */
  lemma PreparedOfRest(s: string, r: string)
    requires s != [] && Prepared(s) != [] && PlainRest(r)
    ensures Prepared(s + r) == Prepared(s) + CleanedRest(s, r)
  {
    if r == [] {
      assert s + r == s;
    } else if s[|s| - 1] == '/' {
      PreparedBehindSlash(s, r);
    } else {
      PreparedBehindName(s, r);
    }
  }

  lemma PreparedBehindSlash(s: string, r: string)
    requires s != [] && s[|s| - 1] == '/' && r != [] && PlainRest(r)
    ensures Prepared(s + r) == Prepared(s) + r
  {
    var u := Unique(s);
    UniqueOfRest(s, r);
    WithoutSpacesOfRest(u, r[1..]);
    LastKept(u);
    TrimmedOfRest(WithoutSpaces(u), r);
  }

  lemma PreparedBehindName(s: string, r: string)
    requires s != [] && s[|s| - 1] != '/' && r != [] && PlainRest(r)
    ensures Prepared(s + r) == Prepared(s) + CleanedRest(s, r)
  {
    var u := Unique(s);
    UniqueOfRest(s, r);
    assert r[0..] == r;
    WithoutSpacesOfRest(u, r);
    UntrimmedOfRest(WithoutSpaces(u), r);
    if s[|s| - 1] != ' ' {
      LastKept(u);
    }
  }

  lemma TrimmedOfRest(v: string, r: string)
    requires v != [] && v[|v| - 1] == '/' && r != [] && r[0] == '/' && r[|r| - 1] != '/'
    ensures Trimmed(v + r[1..]) == Trimmed(v) + r
  {
    assert v == v[..|v| - 1] + "/" && r == "/" + r[1..];
  }

  lemma UntrimmedOfRest(v: string, r: string)
    requires r != [] && r[|r| - 1] != '/'
    ensures Trimmed(v + r) == Trimmed(v) + if v != [] && v[|v| - 1] == '/' then "/" + r else r
  {
    assert v != [] && v[|v| - 1] == '/' ==> v == v[..|v| - 1] + "/";
  }

  lemma LastKept(s: string)
    requires s != [] && s[|s| - 1] != ' '
    ensures var v := WithoutSpaces(s); v != [] && v[|v| - 1] == s[|s| - 1]
  {
  }

  /** Only the slash at the seam can be repeated. */
  lemma {:induction false} UniqueOfRest(s: string, r: string)
    requires s != [] && r != [] && r[0] == '/' && !HasDoubleSlash(r)
    ensures Unique(s + r) == Unique(s) + r[if s[|s| - 1] == '/' then 1 else 0..]
    decreases |r|
  {
    var n := |r| - 1;
    assert s + r == s + r[..n] + [r[n]];
    if n == 0 {
      assert s + r[..0] == s;
      UniqueOneMore(s, r[0]);
    } else {
      assert !HasDoubleSlash(r[..n]) by {
        forall i | 0 < i < n ensures !BothSlashes(r[..n][i - 1], r[..n][i]) {
          assert !BothSlashes(r[i - 1], r[i]);
        }
      }
      UniqueOfRest(s, r[..n]);
      assert !BothSlashes(r[n - 1], r[n]);
      UniqueNext(s + r[..n], Unique(s), r, if s[|s| - 1] == '/' then 1 else 0);
    }
  }

  lemma UniqueNext(t: string, u: string, r: string, k: nat)
    requires t != [] && k < |r| && Unique(t) == u + r[..|r| - 1][k..] && !BothSlashes(t[|t| - 1], r[|r| - 1])
    ensures Unique(t + [r[|r| - 1]]) == u + r[k..]
  {
    UniqueOneMore(t, r[|r| - 1]);
    RestOneMore(u, r, k);
  }

  lemma RestOneMore(u: string, r: string, k: nat)
    requires k < |r|
    ensures u + r[..|r| - 1][k..] + [r[|r| - 1]] == u + r[k..]
  {
    assert r[k..] == r[..|r| - 1][k..] + [r[|r| - 1]];
  }

  lemma WithoutSpacesOfRest(u: string, r: string)
    requires ' ' !in r
    ensures WithoutSpaces(u + r) == WithoutSpaces(u) + r
  {
    WithoutSpacesJoin(u, r);
    WithoutSpacesLength(r);
  }

  lemma {:induction false} NoEntries(env: Env, paths: LinkPaths, path: string, dest: string, tree: Tree, k: nat)
    requires tree.Dir? ==> k <= |tree.entries| && !CopiesEntries(tree)
    ensures tree.Dir? ==> ExpectedEntries(env, paths, path, tree, k) == [] == CopyEntriesOps(path, dest, tree, k)
    decreases if tree.Dir? then |tree.entries| - k else 0
  {
    if tree.Dir? && k < |tree.entries| {
      assert tree.entries[k] in tree.entries;
      NoEntries(env, paths, path, dest, tree, k + 1);
    }
  }

  /** The first entry that is copied goes to a place with one more slash. */
  lemma {:induction false} FirstEntriesDiffer(env: Env, paths: LinkPaths, path: string, dest: string, tree: Tree,
      k: nat)
    requires tree.Dir? && k <= |tree.entries| && exists i :: k <= i < |tree.entries| && !tree.entries[i].node.NoStat?
    requires WellNamed(tree) && SpaceFree(tree) && LinkFree(tree)
    requires forall r: string :: r != [] && PlainRest(r) ==> env.dest(paths, path + r).path == dest + ("/" + r)
    ensures var ops, plain := ExpectedEntries(env, paths, path, tree, k), CopyEntriesOps(path, dest, tree, k);
      ops != [] && plain != [] && ops[0] != plain[0]
    decreases |tree.entries| - k
  {
    var e := tree.entries[k];
    assert e in tree.entries;
    if e.node.NoStat? {
      FirstEntriesDiffer(env, paths, path, dest, tree, k + 1);
    } else {
      FirstPlaces(env, paths, path, dest, e);
    }
  }

  /** One entry's first operation. */
  lemma FirstPlaces(env: Env, paths: LinkPaths, path: string, dest: string, e: Entry)
    requires PlainName(e.name) && !e.node.NoStat? && LinkFree(e.node)
    requires forall r: string :: r != [] && PlainRest(r) ==> env.dest(paths, path + r).path == dest + ("/" + r)
    ensures var ops, plain :=
        Expected(env, paths, path + "/" + e.name, e.node), CopyOps(path + "/" + e.name, dest + "/" + e.name, e.node);
      ops != [] && plain != [] && ops[0].dst != plain[0].dst
  {
    PlainRestGrows(e.name, []);
    var r := "/" + e.name;
    assert "/" + e.name + [] == r && path + "/" + e.name == path + r;
    assert |env.dest(paths, path + r).path| == |dest| + |r| + 1;
  }

  lemma PreparedHasNoSpace(s: string)
    ensures ' ' !in Prepared(s)
  {
  }

  ghost predicate NoSpacesIn(ops: seq<Op>) {
    forall op <- ops :: ' ' !in op.dst
  }

  lemma {:induction false} ExpectedHasNoSpaces(env: Env, paths: LinkPaths, path: string, tree: Tree)
    requires forall r: string :: ' ' !in env.dest(paths, path + r).path
    ensures NoSpacesIn(Expected(env, paths, path, tree))
    decreases tree, if tree.Dir? then |tree.entries| + 1 else 0
  {
    assert path + [] == path;
    assert ' ' !in env.dest(paths, path + []).path;
    if tree.Dir? {
      EntriesHaveNoSpaces(env, paths, path, tree, 0);
    }
  }

  lemma {:induction false} EntriesHaveNoSpaces(env: Env, paths: LinkPaths, path: string, tree: Tree, k: nat)
    requires forall r: string :: ' ' !in env.dest(paths, path + r).path
    requires tree.Dir? && k <= |tree.entries|
    ensures NoSpacesIn(ExpectedEntries(env, paths, path, tree, k))
    decreases tree, |tree.entries| - k
  {
    if k < |tree.entries| {
      var sub := path + "/" + tree.entries[k].name;
      forall r: string ensures ' ' !in env.dest(paths, sub + r).path {
        assert sub + r == path + ("/" + tree.entries[k].name + r);
      }
      ExpectedHasNoSpaces(env, paths, sub, tree.entries[k].node);
      EntriesHaveNoSpaces(env, paths, path, tree, k + 1);
    }
  }

  lemma {:induction false} CopyHasSpaces(path: string, dest: string, tree: Tree)
    requires (!SpaceFree(tree) || ' ' in dest) && !tree.NoStat?
    ensures !NoSpacesIn(CopyOps(path, dest, tree))
    decreases tree, if tree.Dir? then |tree.entries| + 1 else 0
  {
    var ops := CopyOps(path, dest, tree);
    if ' ' in dest {
      assert ops[0] in ops;
    } else {
      var e :| e in tree.entries && !e.node.NoStat? && (' ' in e.name || !SpaceFree(e.node));
      var i :| 0 <= i < |tree.entries| && tree.entries[i] == e;
      EntriesHaveSpaces(path, dest, tree, 0, i);
      var op :| op in CopyEntriesOps(path, dest, tree, 0) && ' ' in op.dst;
      assert op in ops;
    }
  }

  lemma {:induction false} EntriesHaveSpaces(path: string, dest: string, tree: Tree, k: nat, i: nat)
    requires tree.Dir? && k <= i < |tree.entries| && !tree.entries[i].node.NoStat?
    requires ' ' in tree.entries[i].name || !SpaceFree(tree.entries[i].node)
    ensures !NoSpacesIn(CopyEntriesOps(path, dest, tree, k))
    decreases tree, |tree.entries| - k
  {
    var e := tree.entries[k];
    var here := CopyOps(path + "/" + e.name, dest + "/" + e.name, e.node);
    var rest := CopyEntriesOps(path, dest, tree, k + 1);
    if k < i {
      EntriesHaveSpaces(path, dest, tree, k + 1, i);
      var op :| op in rest && ' ' in op.dst;
      assert op in here + rest;
    } else {
      CopyHasSpaces(path + "/" + e.name, dest + "/" + e.name, e.node);
      var op :| op in here && ' ' in op.dst;
      assert op in here + rest;
    }
  }
}
