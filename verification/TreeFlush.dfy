/**
 * Flushing a tree from the cache with discard, links not followed: each file is copied and then deleted, the
 * directories are deleted in a second pass. Every state in between is recorded.
 */
module TreeFlush {
  import opened FileBytes
  import opened WalkCodes
  import PathMap

  const BUFFER_SIZE := 1024 * 1024 * 2

  datatype FileSystem = FileSystem(files: map<string, File>, links: map<string, string>, dirs: set<string>)

  datatype Kind = RegularFile | Directory | Symlink

  /** One entry of the source tree. */
  datatype Node = Node(path: string, kind: Kind)

  /**
   * The mounts, source first; the path that the text of a link stands for, seen from the link; and the tree in the
   * order of the walk, a directory before what is in it, with the contents of its files and the texts of its links.
   */
  datatype Job = Job(sourceMount: string, destMount: string, source: string, target: (string, string) -> string,
    nodes: seq<Node>, contents: map<string, File>, texts: map<string, string>)

  predicate Exists(fs: FileSystem, p: string) {
    p in fs.files || p in fs.links || p in fs.dirs
  }

  /** p lies in the directory, at any depth. */
  predicate Inside(p: string, dir: string) {
    dir + "/" <= p
  }

  function Dest(job: Job, p: string): string {
    PathMap.ReplaceRoot(p, job.sourceMount, job.destMount).path
  }

  predicate InTree(job: Job, p: string) {
    PathMap.Below(p, job.source)
  }

  /** Neither the source nor its destination lies in the other's tree. */
  predicate TreesApart(job: Job) {
    !InTree(job, Dest(job, job.source)) && !PathMap.Below(job.source, Dest(job, job.source))
  }

  /** A source on its mount, apart from its destination, and the regular files and links of the tree. */
  ghost predicate GoodJob(job: Job) {
    && PathMap.IsRootPath(job.source, job.sourceMount) && TreesApart(job)
    && |job.nodes| > 0 && job.nodes[0].path == job.source && (job.nodes[0].kind != Directory ==> |job.nodes| == 1)
    && (forall i :: 0 <= i < |job.nodes| ==> InTree(job, job.nodes[i].path))
    && (forall i, j :: 0 <= i < j < |job.nodes| ==>
         job.nodes[i].path != job.nodes[j].path && !Inside(job.nodes[i].path, job.nodes[j].path))
    && (forall i :: 0 <= i < |job.nodes| ==> (job.nodes[i].kind.RegularFile? <==> job.nodes[i].path in job.contents))
    && (forall p <- job.contents :: InTree(job, p) && exists i :: 0 <= i < |job.nodes| && job.nodes[i].path == p)
    && (forall i :: 0 <= i < |job.nodes| ==> (job.nodes[i].kind.Symlink? <==> job.nodes[i].path in job.texts))
    && (forall p <- job.texts :: exists i :: 0 <= i < |job.nodes| && job.nodes[i].path == p)
  }

  // destinations

  lemma DestOfEntry(job: Job, p: string)
    requires PathMap.IsRootPath(job.source, job.sourceMount) && InTree(job, p)
    ensures PathMap.IsRootPath(p, job.sourceMount) && Dest(job, p) == job.destMount + p[|job.sourceMount|..]
    ensures Dest(job, p) == Dest(job, job.source) + p[|job.source|..]
  {
    assert p == job.source + p[|job.source|..];
  }

  lemma CommonPrefix(a: string, b: string, q: string)
    requires a <= q && b <= q
    ensures a <= b || b <= a
    ensures PathMap.Below(q, a) && PathMap.Below(q, b) ==> PathMap.Below(a, b) || PathMap.Below(b, a)
  {
    if |a| <= |b| {
      assert b == q[..|b|] && a == q[..|a|] == b[..|a|];
    } else {
      assert a == q[..|a|] && b == q[..|b|] == a[..|b|];
    }
  }

  /** Trees that are apart share no path. */
  lemma CopyInTree(job: Job, p: string)
    requires PathMap.IsRootPath(job.source, job.sourceMount) && InTree(job, p) && InTree(job, Dest(job, p))
    ensures !TreesApart(job)
  {
    DestOfEntry(job, p);
    var s, d, r := job.source, Dest(job, job.source), Dest(job, p);
    assert |r| > |d| ==> r[|d|] == p[|s|];
    assert PathMap.Below(r, d) && PathMap.Below(r, s);
    CommonPrefix(s, d, r);
  }

  /** The copy of an entry lies outside of the tree, and different entries have different copies. */
  lemma DestsApart(job: Job, p: string, q: string)
    requires PathMap.IsRootPath(job.source, job.sourceMount) && TreesApart(job) && InTree(job, p) && InTree(job, q)
    ensures Dest(job, p) != q && (p != q ==> Dest(job, p) != Dest(job, q))
  {
    DestOfEntry(job, p);
    DestOfEntry(job, q);
    if Dest(job, p) == q {
      CopyInTree(job, p);
    }
    var s, d := job.source, Dest(job, job.source);
    assert p == s + Dest(job, p)[|d|..] && q == s + Dest(job, q)[|d|..];
  }

  /** The condition on source and destination is exact: without it some entry's copy would be a path of the tree. */
  lemma TreesApartIff(job: Job)
    requires PathMap.IsRootPath(job.source, job.sourceMount)
    ensures TreesApart(job) <==> forall p, q :: InTree(job, p) && InTree(job, q) ==> Dest(job, p) != q
  {
    var s, d := job.source, Dest(job, job.source);
    if TreesApart(job) {
      forall p, q | InTree(job, p) && InTree(job, q) ensures Dest(job, p) != q {
        DestsApart(job, p, q);
      }
    } else if InTree(job, d) {
      assert InTree(job, s);
    } else {
      var p := s + s[|d|..];
      assert s == d + s[|d|..];
      assert InTree(job, p) && InTree(job, s);
      DestOfEntry(job, p);
      assert Dest(job, p) == s;
    }
  }

  /**
   * It can only fail for mounts of which one lies below the other, or if the source merely starts with its mount's
   * name.
   */
  lemma MountsOverlap(job: Job)
    requires PathMap.IsRootPath(job.source, job.sourceMount) && !TreesApart(job)
    ensures job.sourceMount <= job.destMount || job.destMount <= job.sourceMount
    ensures PathMap.Below(job.source, job.sourceMount) ==>
      PathMap.Below(job.destMount, job.sourceMount) || PathMap.Below(job.sourceMount, job.destMount)
  {
    var s, d := job.source, Dest(job, job.source);
    var q := if InTree(job, d) then d else s;
    DestOfEntry(job, s);
    assert s <= q && d <= q && job.sourceMount <= q && job.destMount <= q;
    CommonPrefix(job.sourceMount, job.destMount, q);
  }

  // links in the places of files

  /** Where a path leads when it is opened: through at most so many links. */
  datatype Leads = To(path: string) | Loop

  const MAX_LINKS := 40

  function Resolved(job: Job, links: map<string, string>, p: string, n: nat): Leads
    decreases n
  {
    if p !in links then To(p) else if n == 0 then Loop else Resolved(job, links, job.target(p, links[p]), n - 1)
  }

  function Opens(job: Job, links: map<string, string>, p: string): Leads {
    Resolved(job, links, p, MAX_LINKS)
  }

  /** The file that is written when p is copied. */
  function Place(job: Job, links: map<string, string>, p: string): Leads {
    Opens(job, links, Dest(job, p))
  }

  /** The file with this content is intact at p. */
  predicate HasFile(fs: FileSystem, p: string, content: File) {
    p in fs.files && fs.files[p] == content
  }

  predicate HasLink(fs: FileSystem, p: string, text: string) {
    p in fs.links && fs.links[p] == text
  }

  /** The file p of the tree is intact at its destination, through links if there are any. */
  predicate Arrived(job: Job, fs: FileSystem, p: string)
    requires p in job.contents
  {
    var place := Place(job, fs.links, p);
    place.To? && HasFile(fs, place.path, job.contents[p])
  }

  /** Every regular file of the tree is intact at its place in the tree or at its destination. */
  ghost predicate NoLoss(job: Job, fs: FileSystem) {
    forall p <- job.contents :: HasFile(fs, p, job.contents[p]) || Arrived(job, fs, p)
  }

  /** Opening a file for writing truncates what it leads to. */
  function OpenedTruncated(job: Job, fs: FileSystem, p: string): FileSystem {
    match Opens(job, fs.links, p)
    case To(t) => fs.(files := fs.files[t := []])
    case Loop => fs
  }

  /** Truncating t leaves q intact in the tree or at its destination. */
  predicate Spares(job: Job, fs: FileSystem, t: string, q: string)
    requires q in job.contents
  {
    && (t == q ==> Place(job, fs.links, q) != To(t) && Arrived(job, fs, q))
    && (Place(job, fs.links, q) == To(t) ==> t != q && HasFile(fs, q, job.contents[q]))
  }

  /**
   * When opening a destination loses nothing: exactly if what it leads to is no place of a file of the tree, unless
   * that file is empty or its other place holds it.
   */
  lemma OpeningKeepsNoLossIff(job: Job, fs: FileSystem, dst: string)
    requires NoLoss(job, fs) && Opens(job, fs.links, dst).To?
    ensures NoLoss(job, OpenedTruncated(job, fs, dst)) <==>
      forall q <- job.contents :: job.contents[q] != [] ==> Spares(job, fs, Opens(job, fs.links, dst).path, q)
  {
    var t, after := Opens(job, fs.links, dst).path, OpenedTruncated(job, fs, dst);
    forall q | q in job.contents
      ensures (HasFile(after, q, job.contents[q]) || Arrived(job, after, q)) <==>
        (job.contents[q] != [] ==> Spares(job, fs, t, q))
    {
      assert Place(job, after.links, q) == Place(job, fs.links, q);
    }
  }

  /** A destination that is a link back to the file itself: opening it already destroys the only copy. */
  lemma StaleLinkLosesFile(job: Job, fs: FileSystem, p: string)
    requires NoLoss(job, fs) && p in job.contents && job.contents[p] != [] && p !in fs.links
    requires Dest(job, p) in fs.links && job.target(Dest(job, p), fs.links[Dest(job, p)]) == p
    ensures !NoLoss(job, OpenedTruncated(job, fs, Dest(job, p)))
  {
    assert Resolved(job, fs.links, p, MAX_LINKS - 1) == To(p);
    OpeningKeepsNoLossIff(job, fs, Dest(job, p));
  }

  /** A destination that is a link to where another file of the tree has been moved: that file is lost. */
  lemma StaleLinkLosesMovedFile(job: Job, fs: FileSystem, p: string, q: string)
    requires NoLoss(job, fs) && q in job.contents && job.contents[q] != []
    requires q !in fs.files && Dest(job, q) !in fs.links
    requires Dest(job, p) in fs.links && job.target(Dest(job, p), fs.links[Dest(job, p)]) == Dest(job, q)
    ensures !NoLoss(job, OpenedTruncated(job, fs, Dest(job, p)))
  {
    assert Resolved(job, fs.links, Dest(job, q), MAX_LINKS - 1) == To(Dest(job, q));
    OpeningKeepsNoLossIff(job, fs, Dest(job, p));
  }

  /**
   * Neither a link of the tree nor the destination of one, so that moving the tree's links does not change what is
   * here.
   */
  ghost predicate ApartFromLinks(job: Job, p: string) {
    forall i :: 0 <= i < |job.nodes| && job.nodes[i].kind.Symlink? ==>
      p != job.nodes[i].path && p != Dest(job, job.nodes[i].path)
  }

  /** Opening p does not go through the tree's own links. */
  ghost predicate Steady(job: Job, links: map<string, string>, p: string, n: nat)
    decreases n
  {
    ApartFromLinks(job, p) && (p in links && n > 0 ==> Steady(job, links, job.target(p, links[p]), n - 1))
  }

  ghost predicate SteadyPlaces(job: Job, links: map<string, string>) {
    forall p <- job.contents :: Steady(job, links, Dest(job, p), MAX_LINKS)
  }

  predicate IsFile(job: Job, i: nat) {
    i < |job.nodes| && job.nodes[i].kind.RegularFile?
  }

  function PlaceAt(job: Job, links: map<string, string>, i: nat): Leads
    requires IsFile(job, i)
  {
    Place(job, links, job.nodes[i].path)
  }

  /**
   * Copying file i does no harm to file j: it is not written to j's place in the tree before j is moved, nor over j's
   * copy.
   */
  predicate Harmless(job: Job, links: map<string, string>, i: nat, j: nat, deleteSource: bool)
    requires IsFile(job, i) && IsFile(job, j)
  {
    PlaceAt(job, links, i).To? ==>
      && (PlaceAt(job, links, i) == To(job.nodes[j].path) ==> deleteSource && j < i)
      && (j < i ==> PlaceAt(job, links, i) != PlaceAt(job, links, j))
  }

  /** The links found at the start, in the order of the walk. */
  ghost predicate GoodPlaces(job: Job, links: map<string, string>, deleteSource: bool) {
    forall i: nat, j: nat :: IsFile(job, i) && IsFile(job, j) ==> Harmless(job, links, i, j, deleteSource)
  }

  /** Neither an entry of the tree nor the destination of one. */
  ghost predicate Foreign(job: Job, p: string) {
    forall i :: 0 <= i < |job.nodes| ==> p != job.nodes[i].path && p != Dest(job, job.nodes[i].path)
  }

  ghost predicate StaysOut(job: Job, links: map<string, string>, p: string, n: nat)
    decreases n
  {
    Foreign(job, p) && (p in links && n > 0 ==> StaysOut(job, links, job.target(p, links[p]), n - 1))
  }

  /** What is in the place of p is no link, or leads out of the tree and of its destinations. */
  ghost predicate LeadsOut(job: Job, links: map<string, string>, p: string) {
    var d := Dest(job, p);
    d in links ==> StaysOut(job, links, job.target(d, links[d]), MAX_LINKS - 1)
  }

  lemma {:induction false} EndsOutside(job: Job, links: map<string, string>, p: string, n: nat)
    requires StaysOut(job, links, p, n)
    ensures Steady(job, links, p, n)
    ensures Resolved(job, links, p, n).To? ==> Foreign(job, Resolved(job, links, p, n).path)
    decreases n
  {
    if p in links && n > 0 {
      EndsOutside(job, links, job.target(p, links[p]), n - 1);
    }
  }

  lemma PlaceIsOutside(job: Job, links: map<string, string>, p: string, q: string)
    requires GoodJob(job) && LeadsOut(job, links, p) && p in job.contents && q in job.contents
    ensures Place(job, links, p) != To(q) && Steady(job, links, Dest(job, p), MAX_LINKS)
  {
    var d := Dest(job, p);
    forall i | 0 <= i < |job.nodes| && job.nodes[i].kind.Symlink?
      ensures d != job.nodes[i].path && d != Dest(job, job.nodes[i].path)
    {
      DestsApart(job, p, job.nodes[i].path);
    }
    if d in links {
      EndsOutside(job, links, job.target(d, links[d]), MAX_LINKS - 1);
    } else {
      DestsApart(job, p, q);
    }
  }

  /**
   * Links in the places of files do no harm if they lead out, to different files; no links at all are the simplest
   * case.
   */
  lemma LinksOutAreGood(job: Job, links: map<string, string>, deleteSource: bool)
    requires GoodJob(job) && forall p <- job.contents :: LeadsOut(job, links, p)
    requires forall p, q :: p in job.contents && q in job.contents && p != q && Place(job, links, p).To? ==>
      Place(job, links, p) != Place(job, links, q)
    ensures SteadyPlaces(job, links) && GoodPlaces(job, links, deleteSource)
  {
    forall p | p in job.contents ensures Steady(job, links, Dest(job, p), MAX_LINKS) {
      PlaceIsOutside(job, links, p, p);
    }
    forall i: nat, j: nat | IsFile(job, i) && IsFile(job, j) ensures Harmless(job, links, i, j, deleteSource) {
      PlaceIsOutside(job, links, job.nodes[i].path, job.nodes[j].path);
    }
  }

  /** Only what is at these two paths may differ. */
  ghost predicate SameOtherLinks(before: map<string, string>, after: map<string, string>, src: string, dst: string) {
    forall p: string :: p != src && p != dst ==>
      (p in before <==> p in after) && (p in before ==> before[p] == after[p])
  }

  lemma {:induction false} ResolvedKept(
    job: Job, before: map<string, string>, after: map<string, string>, n: nat, p: string, k: nat)
    requires n < |job.nodes| && job.nodes[n].kind.Symlink? && Steady(job, before, p, k)
    requires SameOtherLinks(before, after, job.nodes[n].path, Dest(job, job.nodes[n].path))
    ensures Steady(job, after, p, k) && Resolved(job, after, p, k) == Resolved(job, before, p, k)
    decreases k
  {
    if p in before && k > 0 {
      ResolvedKept(job, before, after, n, job.target(p, before[p]), k - 1);
    }
  }

  /** Moving a link of the tree does not change where the files go. */
  lemma PlacesKept(job: Job, before: map<string, string>, after: map<string, string>, n: nat)
    requires n < |job.nodes| && job.nodes[n].kind.Symlink? && SteadyPlaces(job, before)
    requires SameOtherLinks(before, after, job.nodes[n].path, Dest(job, job.nodes[n].path))
    ensures SteadyPlaces(job, after) && forall p <- job.contents :: Place(job, after, p) == Place(job, before, p)
  {
    forall p | p in job.contents
      ensures Steady(job, after, Dest(job, p), MAX_LINKS) && Place(job, after, p) == Place(job, before, p)
    {
      ResolvedKept(job, before, after, n, Dest(job, p), MAX_LINKS);
    }
  }

  lemma GoodPlacesKept(job: Job, before: map<string, string>, after: map<string, string>, n: nat, deleteSource: bool)
    requires GoodJob(job) && n < |job.nodes| && job.nodes[n].kind.Symlink?
    requires SteadyPlaces(job, before) && GoodPlaces(job, before, deleteSource)
    requires SameOtherLinks(before, after, job.nodes[n].path, Dest(job, job.nodes[n].path))
    ensures SteadyPlaces(job, after) && GoodPlaces(job, after, deleteSource)
    ensures forall p <- job.contents :: Place(job, after, p) == Place(job, before, p)
  {
    PlacesKept(job, before, after, n);
    forall i: nat, j: nat | IsFile(job, i) && IsFile(job, j) ensures Harmless(job, after, i, j, deleteSource) {
      assert Harmless(job, before, i, j, deleteSource);
      assert job.nodes[i].path in job.contents && job.nodes[j].path in job.contents;
    }
  }

  // the steps of the walk

  /** Only the file at src and its copy at t may differ, and one of the two is intact. */
  ghost predicate CopyStep(before: FileSystem, after: FileSystem, src: string, t: string) {
    && src in before.files && src != t && after.links == before.links && after.dirs == before.dirs
    && (HasFile(after, src, before.files[src]) || HasFile(after, t, before.files[src]))
    && (forall p: string :: p != src && p != t ==> (p in after.files <==> p in before.files))
    && (forall p: string :: p != src && p != t && p in before.files ==> after.files[p] == before.files[p])
  }

  /** A file other than the copied one, with a place of its own, stays where it is. */
  lemma OtherFileKept(before: FileSystem, after: FileSystem, src: string, t: string, p: string, content: File)
    requires CopyStep(before, after, src, t) && p != src && p != t && HasFile(before, p, content)
    ensures HasFile(after, p, content)
  {
  }

  predicate Untouched(job: Job, fs: FileSystem, i: nat)
    requires i < |job.nodes|
  {
    var p := job.nodes[i].path;
    match job.nodes[i].kind
    case RegularFile => p in job.contents && HasFile(fs, p, job.contents[p])
    case Symlink => p in job.texts && HasLink(fs, p, job.texts[p])
    case Directory => true
  }

  predicate Handled(job: Job, fs: FileSystem, i: nat, deleteSource: bool)
    requires i < |job.nodes|
  {
    var p := job.nodes[i].path;
    job.nodes[i].kind.RegularFile? ==>
      p in job.contents && Arrived(job, fs, p) && (!deleteSource ==> HasFile(fs, p, job.contents[p]))
  }

  /** The files before node number n are copied, those from it on untouched; the links in their places do no harm. */
  ghost predicate Reached(job: Job, fs: FileSystem, n: nat, deleteSource: bool) {
    && GoodJob(job) && n <= |job.nodes| && SteadyPlaces(job, fs.links) && GoodPlaces(job, fs.links, deleteSource)
    && (forall i :: n <= i < |job.nodes| ==> Untouched(job, fs, i))
    && (forall i :: 0 <= i < n ==> Handled(job, fs, i, deleteSource))
  }

  /** What the walk needs to get on: the entries from node number n on are there. */
  ghost predicate Present(job: Job, fs: FileSystem, n: nat) {
    && GoodJob(job) && n <= |job.nodes|
    && (forall i :: n <= i < |job.nodes| ==> Here(job, fs, i))
    && (job.source in fs.dirs ==> job.nodes[0].kind.Directory?)
  }

  predicate Here(job: Job, fs: FileSystem, i: nat)
    requires i < |job.nodes|
  {
    var p := job.nodes[i].path;
    match job.nodes[i].kind
    case RegularFile => p in fs.files
    case Symlink => p in job.texts && HasLink(fs, p, job.texts[p])
    case Directory => true
  }

  lemma IndexOf(job: Job, p: string) returns (i: nat)
    requires GoodJob(job) && p in job.contents
    ensures IsFile(job, i) && job.nodes[i].path == p
  {
    i :| 0 <= i < |job.nodes| && job.nodes[i].path == p;
  }

  /** Where the walk is, each file is at one of its places. */
  lemma ReachedLosesNothing(job: Job, fs: FileSystem, n: nat, deleteSource: bool)
    requires Reached(job, fs, n, deleteSource)
    ensures NoLoss(job, fs)
  {
    forall p | p in job.contents ensures HasFile(fs, p, job.contents[p]) || Arrived(job, fs, p) {
      var i := IndexOf(job, p);
      assert if i < n then Handled(job, fs, i, deleteSource) else Untouched(job, fs, i);
    }
  }

  /** The text of a recreated link: only absolute paths on the source mount are moved to the other one. */
  function MovedText(job: Job, text: string): string {
    if text != [] && text[0] == '/' then Dest(job, text) else text
  }

  /** An absolute text on the source mount names the same path on the other mount afterwards; any other stays. */
  lemma MovedTextIs(job: Job, text: string)
    ensures MovedText(job, text) ==
      if text != [] && text[0] == '/' && PathMap.IsRootPath(text, job.sourceMount)
      then job.destMount + text[|job.sourceMount|..] else text
  {
  }

  /** Only links differ, and only these two. */
  ghost predicate LinkStep(before: FileSystem, after: FileSystem, src: string, dst: string) {
    after.files == before.files && after.dirs == before.dirs && SameOtherLinks(before.links, after.links, src, dst)
  }

  // links and directories of the tree

  predicate IsLink(job: Job, i: nat) {
    i < |job.nodes| && job.nodes[i].kind.Symlink?
  }

  predicate IsDirectory(job: Job, i: nat) {
    i < |job.nodes| && job.nodes[i].kind.Directory?
  }

  /** The link at p of the tree is at its destination, with its text moved to the other mount if need be. */
  predicate LinkArrived(job: Job, fs: FileSystem, p: string)
    requires p in job.texts
  {
    HasLink(fs, Dest(job, p), MovedText(job, job.texts[p]))
  }

  /** No link of the tree is lost: each is at its place in the tree or at its destination. */
  ghost predicate NoLinkLost(job: Job, fs: FileSystem) {
    forall p <- job.texts :: HasLink(fs, p, job.texts[p]) || LinkArrived(job, fs, p)
  }

  /**
   * Nothing is at d, and no file of the tree will be written there: what a directory of the tree finds at its
   * destination.
   */
  ghost predicate Vacant(job: Job, fs: FileSystem, d: string) {
    && d !in fs.files && d !in fs.links && SteadyPlaces(job, fs.links)
    && forall i: nat :: IsFile(job, i) ==> PlaceAt(job, fs.links, i) != To(d)
  }

  /** The directory of the tree has been made, unless something else was found in its place. */
  ghost predicate DirectoryMade(job: Job, start: FileSystem, fs: FileSystem, p: string) {
    Exists(fs, Dest(job, p)) && (Vacant(job, start, Dest(job, p)) ==> Dest(job, p) in fs.dirs)
  }

  /** The links and directories before node number n are at their destinations. */
  ghost predicate TreeMoved(job: Job, start: FileSystem, fs: FileSystem, n: nat, deleteSource: bool) {
    && (forall i: nat :: i < n && IsLink(job, i) ==> var p := job.nodes[i].path;
         p in job.texts && LinkArrived(job, fs, p) && (!deleteSource ==> HasLink(fs, p, job.texts[p])))
    && (forall i: nat :: i < n && IsDirectory(job, i) ==> DirectoryMade(job, start, fs, job.nodes[i].path))
    && forall i: nat :: IsDirectory(job, i) && Vacant(job, start, Dest(job, job.nodes[i].path)) ==>
         Vacant(job, fs, Dest(job, job.nodes[i].path))
  }

  lemma MovedIsNotLost(job: Job, start: FileSystem, fs: FileSystem, n: nat, deleteSource: bool)
    requires Present(job, fs, n) && TreeMoved(job, start, fs, n, deleteSource)
    ensures NoLinkLost(job, fs)
  {
    forall p | p in job.texts ensures HasLink(fs, p, job.texts[p]) || LinkArrived(job, fs, p) {
      var i: nat :| i < |job.nodes| && job.nodes[i].path == p;
      assert IsLink(job, i) && (i >= n ==> Here(job, fs, i));
    }
  }

  /** Only the file at src may be gone, and only one at t may be new. */
  ghost predicate FileStep(before: FileSystem, after: FileSystem, src: string, to: Leads) {
    && after.links == before.links && after.dirs == before.dirs
    && (forall p <- before.files :: p != src ==> p in after.files)
    && forall p <- after.files :: p in before.files || to == To(p)
  }

  lemma FileMoves(job: Job, start: FileSystem, before: FileSystem, after: FileSystem, n: nat, deleteSource: bool)
    requires GoodJob(job) && IsFile(job, n) && TreeMoved(job, start, before, n, deleteSource)
    requires FileStep(before, after, job.nodes[n].path, PlaceAt(job, before.links, n))
    ensures TreeMoved(job, start, after, n + 1, deleteSource)
  {
    forall i: nat | IsDirectory(job, i)
      ensures i < n + 1 ==> DirectoryMade(job, start, after, job.nodes[i].path)
      ensures Vacant(job, start, Dest(job, job.nodes[i].path)) ==> Vacant(job, after, Dest(job, job.nodes[i].path))
    {
      assert i < n ==> DirectoryMade(job, start, before, job.nodes[i].path);
      DestsApart(job, job.nodes[i].path, job.nodes[n].path);
    }
  }

  lemma DirectoryMoves(job: Job, start: FileSystem, before: FileSystem, after: FileSystem, n: nat, m: nat,
      deleteSource: bool)
    requires GoodJob(job) && TreeMoved(job, start, before, n, deleteSource)
    requires after.files == before.files && after.links == before.links && before.dirs <= after.dirs
    requires m == n || (m == n + 1 && IsDirectory(job, n))
    requires m > n ==> var d := Dest(job, job.nodes[n].path);
      Exists(after, d) && (d in after.files || d in after.links || d in after.dirs)
    ensures TreeMoved(job, start, after, m, deleteSource)
  {
    forall i: nat | IsDirectory(job, i)
      ensures i < m ==> DirectoryMade(job, start, after, job.nodes[i].path)
      ensures Vacant(job, start, Dest(job, job.nodes[i].path)) ==> Vacant(job, after, Dest(job, job.nodes[i].path))
    {
      assert i < n ==> DirectoryMade(job, start, before, job.nodes[i].path);
    }
  }

  /** One of the two places has the link, and the other links are as before. */
  ghost predicate LinkStepKept(job: Job, before: FileSystem, after: FileSystem, p: string)
    requires p in job.texts
  {
    LinkStep(before, after, p, Dest(job, p)) && (HasLink(after, p, job.texts[p]) || LinkArrived(job, after, p))
  }

  lemma OtherLinkKept(job: Job, before: FileSystem, after: FileSystem, n: nat, i: nat, text: string)
    requires GoodJob(job) && IsLink(job, n) && i < |job.nodes| && i != n
    requires LinkStep(before, after, job.nodes[n].path, Dest(job, job.nodes[n].path))
    ensures var p := job.nodes[i].path;
      && (HasLink(before, p, text) ==> HasLink(after, p, text))
      && (HasLink(before, Dest(job, p), text) ==> HasLink(after, Dest(job, p), text))
      && (Dest(job, p) in after.links <==> Dest(job, p) in before.links)
  {
    SameNode(job, i, n);
    DestsApart(job, job.nodes[i].path, job.nodes[n].path);
    DestsApart(job, job.nodes[n].path, job.nodes[i].path);
  }

  lemma LinkStepLosesNone(job: Job, start: FileSystem, before: FileSystem, after: FileSystem, n: nat,
      deleteSource: bool)
    requires Present(job, before, n) && IsLink(job, n) && TreeMoved(job, start, before, n, deleteSource)
    requires job.nodes[n].path in job.texts && LinkStepKept(job, before, after, job.nodes[n].path)
    ensures NoLinkLost(job, after)
  {
    MovedIsNotLost(job, start, before, n, deleteSource);
    forall p | p in job.texts ensures HasLink(after, p, job.texts[p]) || LinkArrived(job, after, p) {
      var i: nat :| i < |job.nodes| && job.nodes[i].path == p;
      if i != n {
        OtherLinkKept(job, before, after, n, i, job.texts[p]);
        OtherLinkKept(job, before, after, n, i, MovedText(job, job.texts[p]));
      }
    }
  }

  lemma LinkMoves(job: Job, start: FileSystem, before: FileSystem, after: FileSystem, n: nat, deleteSource: bool)
    requires GoodJob(job) && IsLink(job, n) && TreeMoved(job, start, before, n, deleteSource)
    requires LinkStep(before, after, job.nodes[n].path, Dest(job, job.nodes[n].path))
    requires var p := job.nodes[n].path;
      p in job.texts && LinkArrived(job, after, p) && (!deleteSource ==> HasLink(after, p, job.texts[p]))
    ensures TreeMoved(job, start, after, n + 1, deleteSource)
  {
    forall i: nat | i < n && IsLink(job, i)
      ensures var p := job.nodes[i].path;
        p in job.texts && LinkArrived(job, after, p) && (!deleteSource ==> HasLink(after, p, job.texts[p]))
    {
      var text := job.texts[job.nodes[i].path];
      OtherLinkKept(job, before, after, n, i, text);
      OtherLinkKept(job, before, after, n, i, MovedText(job, text));
    }
    forall i: nat | IsDirectory(job, i)
      ensures i < n + 1 ==> DirectoryMade(job, start, after, job.nodes[i].path)
      ensures Vacant(job, start, Dest(job, job.nodes[i].path)) ==> Vacant(job, after, Dest(job, job.nodes[i].path))
    {
      assert i < n ==> DirectoryMade(job, start, before, job.nodes[i].path);
      OtherLinkKept(job, before, after, n, i, []);
      if Vacant(job, before, Dest(job, job.nodes[i].path)) {
        StaysVacant(job, before, after, n, Dest(job, job.nodes[i].path));
      }
    }
  }

  lemma StaysVacant(job: Job, before: FileSystem, after: FileSystem, n: nat, d: string)
    requires GoodJob(job) && IsLink(job, n) && Vacant(job, before, d) && d !in after.links
    requires LinkStep(before, after, job.nodes[n].path, Dest(job, job.nodes[n].path))
    ensures Vacant(job, after, d)
  {
    PlacesKept(job, before.links, after.links, n);
    forall i: nat | IsFile(job, i) ensures PlaceAt(job, after.links, i) != To(d) {
      assert job.nodes[i].path in job.contents;
    }
  }

  /** No state added since `past` has lost a link. */
  ghost predicate NoLinkLostSince(job: Job, past: seq<FileSystem>, history: seq<FileSystem>) {
    past <= history && forall i :: |past| <= i < |history| ==> NoLinkLost(job, history[i])
  }

  lemma SinceThen(job: Job, past: seq<FileSystem>, middle: seq<FileSystem>, history: seq<FileSystem>)
    requires NoLinkLostSince(job, past, middle) && NoLinkLostSince(job, middle, history)
    ensures NoLinkLostSince(job, past, history)
  {
    assert forall i :: 0 <= i < |middle| ==> history[i] == middle[i];
  }

  /** Nothing about links has changed. */
  lemma SameLinksSince(job: Job, fs: FileSystem, past: seq<FileSystem>, history: seq<FileSystem>)
    requires NoLinkLost(job, fs) && past <= history
    requires forall i :: |past| <= i < |history| ==> history[i].links == fs.links
    ensures NoLinkLostSince(job, past, history)
  {
    forall i | |past| <= i < |history| ensures NoLinkLost(job, history[i]) {
      assert forall p <- job.texts :: HasLink(fs, p, job.texts[p]) || LinkArrived(job, fs, p);
    }
  }

  /** While file n is copied, file i stays where it is. */
  lemma OtherNodeKept(job: Job, before: FileSystem, after: FileSystem, n: nat, i: nat, t: string, deleteSource: bool)
    requires Reached(job, before, n, deleteSource) && IsFile(job, n) && PlaceAt(job, before.links, n) == To(t)
    requires CopyStep(before, after, job.nodes[n].path, t) && IsFile(job, i) && i != n
    ensures if i < n then Handled(job, after, i, deleteSource) else Untouched(job, after, i)
  {
    var p, q := job.nodes[n].path, job.nodes[i].path;
    assert Harmless(job, before.links, n, i, deleteSource) && Harmless(job, before.links, i, n, deleteSource);
    if i < n {
      assert Handled(job, before, i, deleteSource);
      OtherFileKept(before, after, p, t, PlaceAt(job, before.links, i).path, job.contents[q]);
      if !deleteSource {
        OtherFileKept(before, after, p, t, q, job.contents[q]);
      }
    } else {
      assert Untouched(job, before, i);
      OtherFileKept(before, after, p, t, q, job.contents[q]);
    }
  }

  /** Every state of the copy of one file has all files. */
  lemma CopyStepKeepsNoLoss(job: Job, before: FileSystem, after: FileSystem, n: nat, t: string, deleteSource: bool)
    requires Reached(job, before, n, deleteSource) && IsFile(job, n) && PlaceAt(job, before.links, n) == To(t)
    requires CopyStep(before, after, job.nodes[n].path, t)
    ensures NoLoss(job, after)
  {
    forall p | p in job.contents ensures HasFile(after, p, job.contents[p]) || Arrived(job, after, p) {
      var i := IndexOf(job, p);
      assert Untouched(job, before, n);
      if i != n {
        OtherNodeKept(job, before, after, n, i, t, deleteSource);
      }
    }
  }

  /** A complete copy of node n takes the walk to the next node. */
  lemma CopyAdvances(job: Job, before: FileSystem, after: FileSystem, n: nat, t: string, deleteSource: bool)
    requires Reached(job, before, n, deleteSource) && IsFile(job, n) && PlaceAt(job, before.links, n) == To(t)
    requires CopyStep(before, after, job.nodes[n].path, t) && Handled(job, after, n, deleteSource)
    ensures Reached(job, after, n + 1, deleteSource)
  {
    forall i: nat | n < i < |job.nodes| ensures Untouched(job, after, i) {
      assert Untouched(job, before, i);
      if IsFile(job, i) {
        OtherNodeKept(job, before, after, n, i, t, deleteSource);
      }
    }
    forall i: nat | i < n ensures Handled(job, after, i, deleteSource) {
      if IsFile(job, i) {
        OtherNodeKept(job, before, after, n, i, t, deleteSource);
      }
    }
  }

  /** Neither files nor the other links are affected by a new link for node n. */
  lemma LinkAdvances(job: Job, before: FileSystem, after: FileSystem, n: nat, deleteSource: bool)
    requires Reached(job, before, n, deleteSource) && n < |job.nodes| && job.nodes[n].kind.Symlink?
    requires LinkStep(before, after, job.nodes[n].path, Dest(job, job.nodes[n].path))
    ensures Reached(job, after, n + 1, deleteSource)
  {
    var p := job.nodes[n].path;
    GoodPlacesKept(job, before.links, after.links, n, deleteSource);
    forall i: nat | n < i < |job.nodes| ensures Untouched(job, after, i) {
      assert Untouched(job, before, i);
      DestsApart(job, p, job.nodes[i].path);
    }
    forall i: nat | i <= n ensures Handled(job, after, i, deleteSource) {
      assert i < n ==> Handled(job, before, i, deleteSource);
    }
  }

  lemma SameFilesNoLoss(job: Job, before: FileSystem, after: FileSystem)
    requires NoLoss(job, before) && after.files == before.files && after.links == before.links
    ensures NoLoss(job, after)
  {
    forall p | p in job.contents ensures HasFile(after, p, job.contents[p]) || Arrived(job, after, p) {
      assert Place(job, after.links, p) == Place(job, before.links, p);
    }
  }

  lemma SameFilesUntouched(job: Job, before: FileSystem, after: FileSystem, i: nat)
    requires i < |job.nodes| && after.files == before.files && after.links == before.links
    ensures Untouched(job, before, i) ==> Untouched(job, after, i)
  {
  }

  lemma SameFilesHandled(job: Job, before: FileSystem, after: FileSystem, i: nat, deleteSource: bool)
    requires i < |job.nodes| && after.files == before.files && after.links == before.links
    ensures Handled(job, before, i, deleteSource) ==> Handled(job, after, i, deleteSource)
  {
  }

  /** Changes to directories do not matter to the walk. */
  lemma DirsAdvance(job: Job, before: FileSystem, after: FileSystem, n: nat, m: nat, deleteSource: bool)
    requires Reached(job, before, n, deleteSource) && after.files == before.files && after.links == before.links
    requires m == n || (m == n + 1 && n < |job.nodes| && job.nodes[n].kind.Directory?)
    ensures Reached(job, after, m, deleteSource)
  {
    forall i: nat | m <= i < |job.nodes| ensures Untouched(job, after, i) {
      SameFilesUntouched(job, before, after, i);
    }
    forall i: nat | i < m ensures Handled(job, after, i, deleteSource) {
      if i < n {
        SameFilesHandled(job, before, after, i, deleteSource);
      }
    }
  }

  // the condition on links is exact

  /** One node of a flush with discard in which everything succeeds. */
  ghost predicate SmoothStep(job: Job, before: FileSystem, after: FileSystem, n: nat)
    requires n < |job.nodes|
  {
    var p := job.nodes[n].path;
    match job.nodes[n].kind
    case RegularFile =>
      && p in before.files && PlaceAt(job, before.links, n).To?
      && after.links == before.links && after.dirs == before.dirs
      && after.files == before.files[PlaceAt(job, before.links, n).path := before.files[p]] - {p}
    case Symlink => LinkStep(before, after, p, Dest(job, p))
    case Directory => after.files == before.files && after.links == before.links
  }

  /** states[n] is what has become of the file system when the walk reaches node n. */
  ghost predicate SmoothRun(job: Job, states: seq<FileSystem>) {
    |states| == |job.nodes| + 1 && forall n: nat :: n < |job.nodes| ==> SmoothStep(job, states[n], states[n + 1], n)
  }

  /** Neither a state between two nodes nor one in which a destination has just been opened has lost a file. */
  ghost predicate SafeRun(job: Job, states: seq<FileSystem>)
    requires |states| == |job.nodes| + 1
  {
    && (forall n: nat :: n <= |job.nodes| ==> NoLoss(job, states[n]))
    && (forall n: nat :: IsFile(job, n) ==> NoLoss(job, OpenedTruncated(job, states[n], Dest(job, job.nodes[n].path))))
  }

  /** No two files of the tree, and no empty file, can be taken for each other. */
  predicate Telling(job: Job) {
    && (forall p <- job.contents :: job.contents[p] != [])
    && (forall p <- job.contents, q <- job.contents :: p != q ==> job.contents[p] != job.contents[q])
  }

  predicate IsFilePath(job: Job, u: string) {
    exists j :: 0 <= j < |job.nodes| && IsFile(job, j) && job.nodes[j].path == u
  }

  predicate IsPlace(job: Job, links: map<string, string>, u: string) {
    exists j :: 0 <= j < |job.nodes| && IsFile(job, j) && PlaceAt(job, links, j) == To(u)
  }

  /** The tree is there, and nothing is at its destinations yet. */
  ghost predicate Fresh(job: Job, fs: FileSystem) {
    && (forall i :: 0 <= i < |job.nodes| ==> Untouched(job, fs, i))
    && (forall u <- fs.files :: IsPlace(job, fs.links, u) ==> IsFilePath(job, u))
  }

  /** The content at u is that of file k, which is where the walk up to node n has put it. */
  predicate Stocked(job: Job, links: map<string, string>, fs: FileSystem, n: nat, u: string, k: nat)
    requires IsFile(job, k)
  {
    && job.nodes[k].path in job.contents && HasFile(fs, u, job.contents[job.nodes[k].path])
    && if k < n then PlaceAt(job, links, k) == To(u) else job.nodes[k].path == u
  }

  /** All that is at paths and places of files is what the walk has put or left there. */
  ghost predicate Inventory(job: Job, links: map<string, string>, fs: FileSystem, n: nat) {
    forall u <- fs.files :: IsFilePath(job, u) || IsPlace(job, links, u) ==> IsStocked(job, links, fs, n, u)
  }

  ghost predicate IsStocked(job: Job, links: map<string, string>, fs: FileSystem, n: nat, u: string) {
    exists k: nat :: IsFile(job, k) && Stocked(job, links, fs, n, u, k)
  }

  ghost predicate HarmlessFrom(job: Job, links: map<string, string>, i: nat) {
    IsFile(job, i) ==> forall j: nat :: IsFile(job, j) ==> Harmless(job, links, i, j, true)
  }

  lemma {:induction false} SmoothPlaces(job: Job, states: seq<FileSystem>, n: nat)
    requires GoodJob(job) && SmoothRun(job, states) && SteadyPlaces(job, states[0].links) && n <= |job.nodes|
    ensures SteadyPlaces(job, states[n].links)
    ensures forall p <- job.contents :: Place(job, states[n].links, p) == Place(job, states[0].links, p)
  {
    if n > 0 {
      SmoothPlaces(job, states, n - 1);
      assert SmoothStep(job, states[n - 1], states[n], n - 1);
      if job.nodes[n - 1].kind.Symlink? {
        PlacesKept(job, states[n - 1].links, states[n].links, n - 1);
      }
    }
  }

  lemma SamePlaceAt(job: Job, states: seq<FileSystem>, n: nat, i: nat)
    requires GoodJob(job) && SmoothRun(job, states)
    requires SteadyPlaces(job, states[0].links) && n <= |job.nodes| && IsFile(job, i)
    ensures PlaceAt(job, states[n].links, i) == PlaceAt(job, states[0].links, i)
  {
    SmoothPlaces(job, states, n);
    assert job.nodes[i].path in job.contents;
  }

  lemma FreshInventory(job: Job, fs: FileSystem)
    requires GoodJob(job) && Fresh(job, fs)
    ensures Inventory(job, fs.links, fs, 0)
  {
    forall u | u in fs.files && (IsFilePath(job, u) || IsPlace(job, fs.links, u))
      ensures IsStocked(job, fs.links, fs, 0, u)
    {
      var k: nat :| k < |job.nodes| && IsFile(job, k) && job.nodes[k].path == u;
      assert Untouched(job, fs, k) && Stocked(job, fs.links, fs, 0, u, k);
    }
  }

  /** A file that is reached is the one the tree began with. */
  lemma ReachedIntact(job: Job, links: map<string, string>, fs: FileSystem, n: nat)
    requires GoodJob(job) && Inventory(job, links, fs, n) && IsFile(job, n) && job.nodes[n].path in fs.files
    requires forall i: nat :: i < n ==> HarmlessFrom(job, links, i)
    ensures Stocked(job, links, fs, n, job.nodes[n].path, n)
  {
    var u := job.nodes[n].path;
    assert IsFilePath(job, u);
    forall k: nat | k < n && IsFile(job, k) ensures PlaceAt(job, links, k) != To(u) {
      assert HarmlessFrom(job, links, k) && Harmless(job, links, k, n, true);
    }
    var k: nat :| IsFile(job, k) && Stocked(job, links, fs, n, u, k);
    SameNode(job, k, n);
  }

  /** What the walk has put somewhere stays there, unless it is copied over or is the file being moved. */
  lemma StockedNext(job: Job, links: map<string, string>, before: FileSystem, after: FileSystem, n: nat, u: string,
      k: nat)
    requires IsFile(job, k) && n < |job.nodes| && SmoothStep(job, before, after, n)
    requires Stocked(job, links, before, n, u, k)
    requires IsFile(job, n) ==>
      && u != job.nodes[n].path && PlaceAt(job, links, n) != To(u)
      && PlaceAt(job, before.links, n) == PlaceAt(job, links, n)
    ensures Stocked(job, links, after, n + 1, u, k)
  {
  }

  lemma StockedNew(job: Job, links: map<string, string>, before: FileSystem, after: FileSystem, n: nat, u: string)
    requires IsFile(job, n) && SmoothStep(job, before, after, n) && Stocked(job, links, before, n, job.nodes[n].path, n)
    requires PlaceAt(job, before.links, n) == PlaceAt(job, links, n) == To(u) && u in after.files
    ensures Stocked(job, links, after, n + 1, u, n)
  {
  }

  lemma InventoryKept(job: Job, links: map<string, string>, before: FileSystem, after: FileSystem, n: nat)
    requires GoodJob(job) && Inventory(job, links, before, n) && n < |job.nodes| && SmoothStep(job, before, after, n)
    requires forall i: nat :: i < n ==> HarmlessFrom(job, links, i)
    requires IsFile(job, n) ==> PlaceAt(job, before.links, n) == PlaceAt(job, links, n)
    ensures Inventory(job, links, after, n + 1)
  {
    if IsFile(job, n) {
      ReachedIntact(job, links, before, n);
    }
    forall u | u in after.files && (IsFilePath(job, u) || IsPlace(job, links, u))
      ensures IsStocked(job, links, after, n + 1, u)
    {
      if IsFile(job, n) && PlaceAt(job, links, n) == To(u) {
        StockedNew(job, links, before, after, n, u);
      } else {
        IsStockedNext(job, links, before, after, n, u);
      }
    }
  }

  lemma IsStockedNext(job: Job, links: map<string, string>, before: FileSystem, after: FileSystem, n: nat, u: string)
    requires n < |job.nodes| && SmoothStep(job, before, after, n) && IsStocked(job, links, before, n, u)
    requires IsFile(job, n) ==>
      && u != job.nodes[n].path && PlaceAt(job, links, n) != To(u)
      && PlaceAt(job, before.links, n) == PlaceAt(job, links, n)
    ensures IsStocked(job, links, after, n + 1, u)
  {
    var k: nat :| IsFile(job, k) && Stocked(job, links, before, n, u, k);
    StockedNext(job, links, before, after, n, u, k);
  }

  lemma SameNode(job: Job, j: nat, k: nat)
    requires GoodJob(job) && j < |job.nodes| && k < |job.nodes|
    ensures j == k <==> job.nodes[j].path == job.nodes[k].path
  {
    if j < k {
      assert job.nodes[j].path != job.nodes[k].path;
    } else if k < j {
      assert job.nodes[k].path != job.nodes[j].path;
    }
  }

  /** The content tells which file it is. */
  lemma WhoseContent(job: Job, links: map<string, string>, fs: FileSystem, n: nat, u: string, j: nat)
    requires GoodJob(job) && Telling(job) && Inventory(job, links, fs, n) && IsFile(job, j)
    requires HasFile(fs, u, job.contents[job.nodes[j].path]) && (IsFilePath(job, u) || IsPlace(job, links, u))
    ensures Stocked(job, links, fs, n, u, j)
  {
    var k: nat :| IsFile(job, k) && Stocked(job, links, fs, n, u, k);
    SameNode(job, j, k);
  }

  /** A destination that does harm loses a file as soon as it is opened. */
  lemma HarmIsLoss(job: Job, links: map<string, string>, fs: FileSystem, n: nat, j: nat)
    requires GoodJob(job) && Telling(job) && Inventory(job, links, fs, n) && IsFile(job, n) && IsFile(job, j)
    requires forall i: nat :: IsFile(job, i) ==> PlaceAt(job, fs.links, i) == PlaceAt(job, links, i)
    requires !Harmless(job, links, n, j, true)
    ensures !NoLoss(job, OpenedTruncated(job, fs, Dest(job, job.nodes[n].path)))
  {
    var t, q := PlaceAt(job, links, n).path, job.nodes[j].path;
    var after := OpenedTruncated(job, fs, Dest(job, job.nodes[n].path));
    assert PlaceAt(job, fs.links, n) == To(t) && after == fs.(files := fs.files[t := []]);
    assert Place(job, after.links, q) == PlaceAt(job, links, j);
    assert IsFilePath(job, q);
    if q != t && HasFile(fs, q, job.contents[q]) {
      WhoseContent(job, links, fs, n, q, j);
    }
    if PlaceAt(job, links, j).To? {
      HarmAtPlace(job, links, fs, n, j, t);
    }
    assert q in job.contents && !HasFile(after, q, job.contents[q]) && !Arrived(job, after, q);
  }

  lemma HarmAtPlace(job: Job, links: map<string, string>, fs: FileSystem, n: nat, j: nat, t: string)
    requires GoodJob(job) && Telling(job) && Inventory(job, links, fs, n) && IsFile(job, n) && IsFile(job, j)
    requires PlaceAt(job, links, n) == To(t) && !Harmless(job, links, n, j, true) && PlaceAt(job, links, j).To?
    ensures PlaceAt(job, links, j) != To(t) ==>
      !HasFile(fs, PlaceAt(job, links, j).path, job.contents[job.nodes[j].path])
  {
    var u := PlaceAt(job, links, j).path;
    assert IsPlace(job, links, u);
    if u != t && HasFile(fs, u, job.contents[job.nodes[j].path]) {
      WhoseContent(job, links, fs, n, u, j);
    }
  }

  lemma {:induction false} SafeIsHarmless(job: Job, states: seq<FileSystem>, n: nat)
    requires GoodJob(job) && Telling(job) && SmoothRun(job, states) && SafeRun(job, states) && n <= |job.nodes|
    requires Fresh(job, states[0]) && SteadyPlaces(job, states[0].links)
    ensures forall i: nat :: i < n ==> HarmlessFrom(job, states[0].links, i)
    ensures Inventory(job, states[0].links, states[n], n)
  {
    if n == 0 {
      FreshInventory(job, states[0]);
    } else {
      var m, links := n - 1, states[0].links;
      SafeIsHarmless(job, states, m);
      forall i: nat | IsFile(job, i) ensures PlaceAt(job, states[m].links, i) == PlaceAt(job, links, i) {
        SamePlaceAt(job, states, m, i);
      }
      forall j: nat | IsFile(job, m) && IsFile(job, j) ensures Harmless(job, links, m, j, true) {
        if !Harmless(job, links, m, j, true) {
          HarmIsLoss(job, links, states[m], m, j);
        }
      }
      InventoryKept(job, links, states[m], states[n], m);
    }
  }

  lemma {:induction false} HarmlessIsReached(job: Job, states: seq<FileSystem>, n: nat)
    requires GoodJob(job) && SmoothRun(job, states) && n <= |job.nodes| && Fresh(job, states[0])
    requires SteadyPlaces(job, states[0].links) && GoodPlaces(job, states[0].links, true)
    ensures Reached(job, states[n], n, true)
  {
    if n > 0 {
      var m := n - 1;
      HarmlessIsReached(job, states, m);
      assert SmoothStep(job, states[m], states[n], m);
      match job.nodes[m].kind {
        case RegularFile => SmoothCopy(job, states[m], states[n], m);
        case Symlink => LinkAdvances(job, states[m], states[n], m, true);
        case Directory => DirsAdvance(job, states[m], states[n], m, n, true);
      }
    }
  }

  lemma SmoothCopy(job: Job, before: FileSystem, after: FileSystem, n: nat)
    requires Reached(job, before, n, true) && IsFile(job, n) && SmoothStep(job, before, after, n)
    ensures Reached(job, after, n + 1, true)
  {
    assert Untouched(job, before, n) && Harmless(job, before.links, n, n, true);
    CopyAdvances(job, before, after, n, PlaceAt(job, before.links, n).path, true);
  }

  lemma OpeningIsSafe(job: Job, fs: FileSystem, n: nat)
    requires Reached(job, fs, n, true) && IsFile(job, n) && PlaceAt(job, fs.links, n).To?
    ensures NoLoss(job, OpenedTruncated(job, fs, Dest(job, job.nodes[n].path)))
  {
    assert Untouched(job, fs, n) && Harmless(job, fs.links, n, n, true);
    CopyStepKeepsNoLoss(
      job, fs, OpenedTruncated(job, fs, Dest(job, job.nodes[n].path)), n, PlaceAt(job, fs.links, n).path, true);
  }

  /**
   * For a flush with discard in which nothing fails, the condition on the links found at the start is exact: no file is
   * lost on the way if and only if no file is written over a file that comes at or behind it in the walk, or over the
   * copy of one that comes before it.
   */
  lemma NothingLostIffGoodPlaces(job: Job, states: seq<FileSystem>)
    requires GoodJob(job) && Telling(job) && SmoothRun(job, states)
    requires Fresh(job, states[0]) && SteadyPlaces(job, states[0].links)
    ensures SafeRun(job, states) <==> GoodPlaces(job, states[0].links, true)
  {
    if SafeRun(job, states) {
      SafeIsHarmless(job, states, |job.nodes|);
      forall i: nat, j: nat | IsFile(job, i) && IsFile(job, j) ensures Harmless(job, states[0].links, i, j, true) {
        assert HarmlessFrom(job, states[0].links, i);
      }
    }
    if GoodPlaces(job, states[0].links, true) {
      forall n: nat | n <= |job.nodes| ensures NoLoss(job, states[n]) {
        HarmlessIsReached(job, states, n);
        ReachedLosesNothing(job, states[n], n, true);
      }
      forall n: nat | IsFile(job, n)
        ensures NoLoss(job, OpenedTruncated(job, states[n], Dest(job, job.nodes[n].path)))
      {
        HarmlessIsReached(job, states, n);
        assert SmoothStep(job, states[n], states[n + 1], n);
        OpeningIsSafe(job, states[n], n);
      }
    }
  }

  class Flush {
    const job: Job
    var fs: FileSystem
    ghost var history: seq<FileSystem>
    ghost var troubled: bool // some system call has failed

    constructor (job: Job, fs: FileSystem)
      ensures this.job == job && this.fs == fs && history == [fs] && !troubled
    {
      this.job, this.fs, history, troubled := job, fs, [fs], false;
    }

    /** Whether the next system call fails. */
    method Fails() returns (failed: bool)
      modifies this`troubled
      ensures troubled <==> old(troubled) || failed
    {
      failed := *;
      troubled := troubled || failed;
    }

    /** Every state so far, the present one included, has all files of the tree. */
    ghost predicate Safe()
      reads this
    {
      NoLoss(job, fs) && forall h <- history :: NoLoss(job, h)
    }

    /** One atomic change of the file system. */
    method Become(next: FileSystem)
      modifies this
      ensures fs == next && history == old(history) + [next] && troubled == old(troubled)
    {
      fs, history := next, history + [next];
    }

    /** The states of a copy, the present one included: src or t is intact. */
    ghost predicate Copying(before: FileSystem, past: seq<FileSystem>, src: string, t: string)
      reads this
    {
      && past <= history && CopyStep(before, fs, src, t)
      && forall i :: |past| <= i < |history| ==> CopyStep(before, history[i], src, t)
    }

    /** The source is intact, and the first n bytes have arrived. */
    ghost predicate Transferred(before: FileSystem, past: seq<FileSystem>, src: string, t: string, n: nat)
      reads this
    {
      && Copying(before, past, src, t) && HasFile(fs, src, before.files[src])
      && n <= |before.files[src]| && HasFile(fs, t, before.files[src][..n])
    }

    /** One write of n more bytes. */
    method Append(src: string, t: string, pos: nat, n: nat, ghost before: FileSystem, ghost past: seq<FileSystem>)
      requires t != src && Transferred(before, past, src, t, pos) && pos + n <= |before.files[src]|
      modifies this
      ensures Transferred(before, past, src, t, pos + n) && troubled == old(troubled)
    {
      assert before.files[src][..pos] + before.files[src][pos..pos + n] == before.files[src][..pos + n];
      Become(fs.(files := fs.files[t := fs.files[t] + fs.files[src][pos..pos + n]]));
      assert CopyStep(before, fs, src, t);
    }

    /** The states of a copy of a file onto itself: it is empty or gone. */
    ghost predicate Emptied(before: FileSystem, past: seq<FileSystem>, src: string)
      reads this
    {
      && past <= history && fs.links == before.links && fs.dirs == before.dirs
      && forall i :: |past| <= i < |history| ==>
        && history[i].links == before.links
        && (history[i].files == before.files[src := []] || history[i].files == before.files - {src})
    }

    /** The data of src goes to t, which has just been truncated, in pieces; false after a short or failed write. */
    method Transfer(src: string, t: string, ghost before: FileSystem, ghost past: seq<FileSystem>) returns (ok: bool)
      requires src in before.files && past <= history
      requires if t == src then Emptied(before, past, src) && fs.files == before.files[src := []]
        else Transferred(before, past, src, t, 0)
      modifies this
      ensures if ok then troubled == old(troubled) else troubled
      ensures t == src ==> ok && fs == old(fs) && history == old(history)
      ensures t != src ==> exists n: nat :: n <= |before.files[src]| && Transferred(before, past, src, t, n)
      ensures t != src && ok ==> HasFile(fs, t, before.files[src])
    {
      var pos: nat := 0;
      while pos < |fs.files[src]|
        invariant src in fs.files && t in fs.files && pos <= |fs.files[src]| && troubled == old(troubled)
        invariant if t == src then fs == old(fs) && history == old(history) else Transferred(before, past, src, t, pos)
        decreases |fs.files[src]| - pos
      {
        var readSize := Min(BUFFER_SIZE, |fs.files[src]| - pos);
        var writeSize := readSize;
        var short := Fails();
        if short {
          writeSize :| 0 <= writeSize < readSize; // a short or failed write
        }
        Append(src, t, pos, writeSize, before, past);
        if writeSize != readSize {
          return false;
        }
        pos := pos + readSize;
      }
      assert t != src ==> before.files[src][..pos] == before.files[src];
      return true;
    }

    /** Everything has been written: closing may fail still, and failing to delete the source is no error. */
    method FinishCopy(src: string, t: string, deleteSource: bool, ghost before: FileSystem, ghost past: seq<FileSystem>)
      returns (ret: int)
      requires src in before.files
      requires if t == src then Emptied(before, past, src) && fs.files == before.files[src := []]
        else Transferred(before, past, src, t, |before.files[src]|)
      modifies this
      ensures old(troubled) ==> troubled
      ensures ret == SUCCESS || (ret == ERROR && troubled && fs == old(fs))
      ensures ret == SUCCESS && deleteSource ==> troubled || src !in fs.files
      // success hides no failure but that of deleting the source
      ensures ret == SUCCESS ==> troubled == old(troubled) || (deleteSource && src in fs.files)
      ensures !deleteSource ==> fs == old(fs)
      ensures t == src ==> Emptied(before, past, src)
      ensures t == src ==> fs.files == before.files[src := []] || (deleteSource && fs.files == before.files - {src})
      ensures t != src ==> Copying(before, past, src, t) && HasFile(fs, t, before.files[src])
    {
      var kept := Fails(); // the owner could not be set, or closing failed
      if kept {
        return ERROR;
      }
      if deleteSource {
        var stays := Fails();
        if !stays {
          Become(fs.(files := fs.files - {src}));
        }
      }
      return SUCCESS;
    }

    /**
     * Copies a file; the source is deleted only after everything has succeeded, and failing to delete it is no error. A
     * destination that leads to the source is not noticed: the file is emptied, and that may be reported as a success.
     */
    method CopyFile(src: string, dst: string, deleteSource: bool) returns (ret: int)
      requires src in fs.files
      modifies this
      ensures old(troubled) ==> troubled
      // an error has a reason, and without one the source does go
      ensures ret == ERROR ==> troubled || old(NoPlace(job, fs, dst))
      ensures ret == SUCCESS && deleteSource ==> troubled || src !in fs.files
      // success hides no failure but that of deleting the source
      ensures ret == SUCCESS ==> troubled == old(troubled) || (deleteSource && src in fs.files)
      ensures ret == SUCCESS || ret == ERROR
      ensures old(history) <= history && fs.links == old(fs.links) && fs.dirs == old(fs.dirs)
      ensures FileStep(old(fs), fs, src, old(Opens(job, fs.links, dst)))
      ensures forall i :: |old(history)| <= i < |history| ==> history[i].links == old(fs.links)
      ensures var to := old(Opens(job, fs.links, dst)); match to
        case Loop => ret == ERROR && fs == old(fs) && history == old(history)
        case To(t) =>
          if t == src then
            && Emptied(old(fs), old(history), src)
            && (ret == SUCCESS ==>
                 fs.files == old(fs.files[src := []]) || (deleteSource && fs.files == old(fs.files - {src})))
          else
            && Copying(old(fs), old(history), src, t)
            && (ret == SUCCESS ==> HasFile(fs, t, old(fs.files[src])))
            && (!deleteSource || ret == ERROR ==> HasFile(fs, src, old(fs.files[src])))
    {
      ghost var past, before := history, fs;
      var refused := Fails(); // no buffer, or a file could not be opened
      if refused {
        return ERROR;
      }
      var to := Opens(job, fs.links, dst);
      if to.Loop? || to.path in fs.dirs {
        return ERROR;
      }
      var t := to.path;
      Become(OpenedTruncated(job, fs, dst));
      var written := Transfer(src, t, before, past);
      if !written {
        return ERROR;
      }
      ret := FinishCopy(src, t, deleteSource, before, past);
    }

    /** Recreates a link, with a target on the source mount moved to the other mount; an existing entry is an error. */
    method CreateSymlink(src: string, dst: string, deleteSource: bool) returns (ret: int)
      requires src in fs.links
      modifies this
      ensures old(troubled) ==> troubled
      ensures ret == ERROR ==> troubled || old(Exists(fs, dst))
      ensures ret == SUCCESS && deleteSource ==> troubled || src !in fs.links
      ensures ret == SUCCESS ==> troubled == old(troubled) || (deleteSource && src in fs.links)
      ensures ret == SUCCESS || ret == ERROR
      ensures old(history) <= history && forall i :: |old(history)| <= i < |history| ==>
        LinkStep(old(fs), history[i], src, dst)
      // in no state in between the link is at neither place
      ensures forall i :: |old(history)| <= i < |history| ==>
        || HasLink(history[i], src, old(fs.links[src]))
        || HasLink(history[i], dst, MovedText(job, old(fs.links[src])))
      ensures LinkStep(old(fs), fs, src, dst)
      ensures !deleteSource && src != dst ==> HasLink(fs, src, old(fs.links[src]))
      ensures ret == SUCCESS ==>
        !old(Exists(fs, dst)) && HasLink(fs, dst, MovedText(job, old(fs.links[src])))
      ensures ret == ERROR ==> fs == old(fs)
    {
      var linkDest := MovedText(job, fs.links[src]);
      if Exists(fs, dst) {
        return ERROR;
      }
      var refused := Fails();
      if refused {
        return ERROR;
      }
      Become(fs.(links := fs.links[dst := linkDest]));
      if deleteSource {
        var stays := Fails();
        if !stays {
          Become(fs.(links := fs.links - {src}));
        }
      }
      return SUCCESS;
    }

    /**
     * Makes one directory. Something that is there already is left as it is, be it a directory or not; an owner that
     * may not be changed ends the walk like an error.
     */
    method HandleDirectory(dst: string) returns (ret: int)
      modifies this
      ensures if ret == FTW_CONTINUE then troubled == old(troubled) else troubled
      ensures old(history) <= history && fs.files == old(fs.files) && fs.links == old(fs.links)
      ensures forall i :: |old(history)| <= i < |history| ==>
        history[i].files == old(fs.files) && history[i].links == old(fs.links)
      ensures fs.dirs == old(fs.dirs) || fs.dirs == old(fs.dirs) + {dst}
      ensures ret == FTW_CONTINUE ==>
        Exists(fs, dst) && (dst in fs.dirs <==> old(dst in fs.dirs || !Exists(fs, dst)))
    {
      if !Exists(fs, dst) {
        var refused := Fails();
        if refused {
          return FTW_STOP;
        }
        Become(fs.(dirs := fs.dirs + {dst}));
      }
      var kept := Fails(); // the owner could not be changed; not being permitted to is another result
      var permitted := *;
      ret := if !kept then FTW_CONTINUE else if permitted then FTW_STOP else ERROR;
    }

    /** The walk has reached node number n, and no state has lost a file. */
    ghost predicate Walked(n: nat, deleteSource: bool)
      reads this
    {
      Safe() && Reached(job, fs, n, deleteSource)
    }

    /** No state added since `past` has lost a file. */
    ghost predicate Grown(past: seq<FileSystem>)
      reads this
    {
      past <= history && forall i :: |past| <= i < |history| ==> NoLoss(job, history[i])
    }

    lemma StaysSafe(past: seq<FileSystem>)
      requires Grown(past) && NoLoss(job, fs) && forall h <- past :: NoLoss(job, h)
      ensures Safe()
    {
    }

    /** The walk has reached node number n: what is in front of it has been moved, what is behind it is there. */
    ghost predicate At(start: FileSystem, n: nat, deleteSource: bool)
      reads this
    {
      Present(job, fs, n) && TreeMoved(job, start, fs, n, deleteSource)
    }

    /** Before the walk nothing has been moved. */
    lemma StartsAt(start: FileSystem, deleteSource: bool)
      requires Present(job, fs, 0) && start == fs
      ensures At(start, 0, deleteSource)
    {
    }

    method CopyNode(n: nat, deleteSource: bool, ghost start: FileSystem) returns (ret: int)
      requires At(start, n, deleteSource) && IsFile(job, n)
      modifies this
      ensures old(troubled) ==> troubled
      ensures ret != SUCCESS ==> troubled || BlockedAt(job, fs, n)
      ensures ret == SUCCESS ==> troubled == old(troubled) || (deleteSource && IsLeft(job, fs, n))
      ensures LeftKept(job, old(fs), fs, n)
      ensures NoLinkLostSince(job, old(history), history) && (ret == SUCCESS ==> At(start, n + 1, deleteSource))
      ensures old(fs.dirs) <= fs.dirs
      ensures old(Walked(n, deleteSource)) ==> Safe() && (ret == SUCCESS ==> Walked(n + 1, deleteSource))
    {
      ghost var before, past, safe := fs, history, Walked(n, deleteSource);
      var p := job.nodes[n].path;
      assert Here(job, fs, n);
      ret := CopyFile(p, Dest(job, p), deleteSource);
      assert forall i :: n < i < |job.nodes| && Here(job, before, i) ==> Here(job, fs, i);
      MovedIsNotLost(job, start, before, n, deleteSource);
      SameLinksSince(job, before, past, history);
      FileMoves(job, start, before, fs, n, deleteSource);
      if safe {
        CopyNodeIsSafe(n, deleteSource, ret, before, past);
      }
    }

    /** What CopyFile ensures for a file of the tree. */
    lemma CopyNodeIsSafe(n: nat, deleteSource: bool, ret: int, before: FileSystem, past: seq<FileSystem>)
      requires Reached(job, before, n, deleteSource) && (forall h <- past :: NoLoss(job, h)) && IsFile(job, n)
      requires match PlaceAt(job, before.links, n)
        case Loop => ret == ERROR && fs == before && history == past
        case To(t) => t != job.nodes[n].path ==>
          && Copying(before, past, job.nodes[n].path, t)
          && (ret == SUCCESS ==> HasFile(fs, t, before.files[job.nodes[n].path]))
          && (!deleteSource || ret == ERROR ==> HasFile(fs, job.nodes[n].path, before.files[job.nodes[n].path]))
      ensures Safe() && (ret == SUCCESS ==> Walked(n + 1, deleteSource))
    {
      assert Untouched(job, before, n) && Harmless(job, before.links, n, n, deleteSource);
      if PlaceAt(job, before.links, n).To? {
        var t := PlaceAt(job, before.links, n).path;
        forall i | |past| <= i < |history| ensures NoLoss(job, history[i]) {
          CopyStepKeepsNoLoss(job, before, history[i], n, t, deleteSource);
        }
        CopyStepKeepsNoLoss(job, before, fs, n, t, deleteSource);
        StaysSafe(past);
        if ret == SUCCESS {
          CopyAdvances(job, before, fs, n, t, deleteSource);
        }
      } else {
        ReachedLosesNothing(job, before, n, deleteSource);
      }
    }

    method LinkNode(n: nat, deleteSource: bool, ghost start: FileSystem) returns (ret: int)
      requires At(start, n, deleteSource) && IsLink(job, n)
      modifies this
      ensures old(troubled) ==> troubled
      ensures ret != SUCCESS ==> troubled || BlockedAt(job, fs, n)
      ensures ret == SUCCESS ==> troubled == old(troubled) || (deleteSource && IsLeft(job, fs, n))
      ensures LeftKept(job, old(fs), fs, n)
      ensures NoLinkLostSince(job, old(history), history) && (ret == SUCCESS ==> At(start, n + 1, deleteSource))
      ensures old(fs.dirs) <= fs.dirs
      ensures old(Walked(n, deleteSource)) ==> Walked(n + 1, deleteSource)
    {
      ghost var before, past, safe := fs, history, Walked(n, deleteSource);
      var p := job.nodes[n].path;
      assert Here(job, fs, n);
      ret := CreateSymlink(p, Dest(job, p), deleteSource);
      forall i: nat | n < i < |job.nodes| ensures Here(job, fs, i) {
        assert Here(job, before, i);
        OtherLinkKept(job, before, fs, n, i, if IsLink(job, i) then job.texts[job.nodes[i].path] else []);
      }
      forall i | |past| <= i < |history| ensures NoLinkLost(job, history[i]) {
        LinkStepLosesNone(job, start, before, history[i], n, deleteSource);
      }
      if ret == SUCCESS {
        DestsApart(job, p, p);
        LinkMoves(job, start, before, fs, n, deleteSource);
      }
      if safe {
        forall i | |past| <= i < |history| ensures NoLoss(job, history[i]) {
          LinkAdvances(job, before, history[i], n, deleteSource);
          ReachedLosesNothing(job, history[i], n + 1, deleteSource);
        }
        LinkAdvances(job, before, fs, n, deleteSource);
        ReachedLosesNothing(job, fs, n + 1, deleteSource);
        StaysSafe(past);
      }
    }

    method DirectoryNode(n: nat, deleteSource: bool, ghost start: FileSystem) returns (ret: int)
      requires At(start, n, deleteSource) && IsDirectory(job, n)
      modifies this
      ensures if ret == FTW_CONTINUE then troubled == old(troubled) else troubled
      ensures LeftKept(job, old(fs), fs, n)
      ensures NoLinkLostSince(job, old(history), history) && (ret == FTW_CONTINUE ==> At(start, n + 1, deleteSource))
      ensures old(fs.dirs) <= fs.dirs
      ensures old(Walked(n, deleteSource)) ==> Walked(n + 1, deleteSource)
    {
      ghost var before, past, safe := fs, history, Walked(n, deleteSource);
      ret := HandleDirectory(Dest(job, job.nodes[n].path));
      assert forall i :: n < i < |job.nodes| && Here(job, before, i) ==> Here(job, fs, i);
      MovedIsNotLost(job, start, before, n, deleteSource);
      SameLinksSince(job, before, past, history);
      if ret == FTW_CONTINUE {
        DirectoryMoves(job, start, before, fs, n, n + 1, deleteSource);
      }
      if safe {
        forall i | |past| <= i < |history| ensures NoLoss(job, history[i]) {
          SameFilesNoLoss(job, before, history[i]);
        }
        SameFilesNoLoss(job, before, fs);
        StaysSafe(past);
        DirsAdvance(job, before, fs, n, n + 1, deleteSource);
      }
    }

    /** The callback of the walk for node n. */
    method NftwCopyFile(n: nat, deleteSource: bool, ghost start: FileSystem) returns (ret: int)
      requires At(start, n, deleteSource) && n < |job.nodes|
      modifies this
      ensures old(troubled) ==> troubled
      ensures ret != FTW_CONTINUE ==> troubled || BlockedAt(job, fs, n)
      ensures ret == FTW_CONTINUE ==> troubled == old(troubled) || (deleteSource && IsLeft(job, fs, n))
      ensures LeftKept(job, old(fs), fs, n)
      ensures NoLinkLostSince(job, old(history), history) && (ret == FTW_CONTINUE ==> At(start, n + 1, deleteSource))
      ensures old(fs.dirs) <= fs.dirs
      ensures old(Walked(n, deleteSource)) ==> Safe() && (ret == FTW_CONTINUE ==> Walked(n + 1, deleteSource))
    {
      match job.nodes[n].kind {
        case RegularFile =>
          ret := CopyNode(n, deleteSource, start);
          ret := if ret == ERROR then FTW_STOP else ret;
        case Symlink =>
          ret := LinkNode(n, deleteSource, start);
          ret := if ret == ERROR then FTW_STOP else ret;
        case Directory =>
          ret := DirectoryNode(n, deleteSource, start);
      }
    }

    /** Makes directories outside of the tree. */
    method MakeDirectories(created: set<string>, ghost start: FileSystem, ghost deleteSource: bool)
      requires At(start, 0, deleteSource) && forall d <- created :: !InTree(job, d)
      modifies this
      ensures fs == old(fs).(dirs := old(fs.dirs) + created) && troubled == old(troubled)
      ensures NoLinkLostSince(job, old(history), history) && At(start, 0, deleteSource)
      ensures old(Walked(0, deleteSource)) ==> Walked(0, deleteSource)
    {
      ghost var before, past, safe := fs, history, Walked(0, deleteSource);
      Become(fs.(dirs := fs.dirs + created));
      assert forall i :: 0 <= i < |job.nodes| && Here(job, before, i) ==> Here(job, fs, i);
      MovedIsNotLost(job, start, before, 0, deleteSource);
      SameLinksSince(job, before, past, history);
      DirectoryMoves(job, start, before, fs, 0, 0, deleteSource);
      if safe {
        SameFilesNoLoss(job, before, fs);
        StaysSafe(past);
        DirsAdvance(job, before, fs, 0, 0, deleteSource);
      }
    }

    /** Creates the directories above the destination, and the destination for a directory. */
    method CreatePath(ghost start: FileSystem, ghost deleteSource: bool) returns (ok: bool)
      requires At(start, 0, deleteSource) && start == fs
      modifies this
      ensures if ok then troubled == old(troubled) else troubled || BlockedAbove(job, fs)
      ensures old(troubled) ==> troubled
      ensures fs.files == start.files && fs.links == start.links && start.dirs <= fs.dirs
      ensures ok ==> PathMade(job, start, fs)
      ensures NoLinkLostSince(job, old(history), history) && At(start, 0, deleteSource)
      ensures old(Walked(0, deleteSource)) ==> Walked(0, deleteSource)
    {
      var dest, root := Dest(job, job.source), WithSlash(job.destMount);
      if !(root <= dest) { // the mount itself, or something else whose path begins like its name
        var created: set<string> := *;
        created := set d <- created | !InTree(job, d);
        MakeDirectories(created, start, deleteSource);
        var failed := Fails();
        return !failed;
      }
      var i := |root|;
      while i < |dest|
        invariant |root| <= i <= |dest| && At(start, 0, deleteSource) && troubled == old(troubled)
        invariant fs.files == start.files && fs.links == start.links && start.dirs <= fs.dirs
        invariant MadeUpTo(job, start, fs, i)
        invariant NoLinkLostSince(job, old(history), history)
        invariant old(Walked(0, deleteSource)) ==> Walked(0, deleteSource)
      {
        i := i + 1;
        ghost var before := fs;
        if IsElement(job, i) {
          var made := CreateElement(i, start, old(history), deleteSource);
          if !made {
            return false;
          }
        }
        MadeNext(job, start, before, fs, i);
      }
      return true;
    }

    method CreateElement(i: nat, ghost start: FileSystem, ghost past: seq<FileSystem>, ghost deleteSource: bool)
      returns (ok: bool)
      requires At(start, 0, deleteSource) && IsElement(job, i) && NoLinkLostSince(job, past, history)
      requires fs.files == start.files && fs.links == start.links && start.dirs <= fs.dirs
      modifies this
      ensures if ok then troubled == old(troubled) else troubled || BlockedAbove(job, fs)
      ensures old(troubled) ==> troubled
      ensures fs.files == start.files && fs.links == start.links && old(fs.dirs) <= fs.dirs
      ensures ok ==> ElementMade(start, fs, Dest(job, job.source)[..i])
      ensures NoLinkLostSince(job, past, history) && At(start, 0, deleteSource)
      ensures old(Walked(0, deleteSource)) ==> Walked(0, deleteSource)
    {
      var d := Dest(job, job.source)[..i];
      ghost var middle := history;
      var refused := Fails(); // the source's directory could not be looked at, or this one not made
      if refused {
        return false;
      }
      if !Exists(fs, d) {
        ElementOutside(job, i);
        MakeDirectories({d}, start, deleteSource);
        SinceThen(job, past, middle, history);
      } else if !LeadsToDirectory(job, fs, d) {
        assert BlockedElement(job, fs, i);
        return false;
      }
      var kept := Fails(); // the owner could not be changed
      return !kept;
    }

    /** The walk over all nodes. */
    method Nftw(deleteSource: bool, ghost start: FileSystem) returns (ret: int)
      requires At(start, 0, deleteSource)
      modifies this
      ensures old(troubled) ==> troubled
      ensures ret != FTW_CONTINUE ==> troubled || Blocked(job, fs)
      ensures ret == FTW_CONTINUE ==> troubled == old(troubled) || (deleteSource && Leftover(job, fs, |job.nodes|))
      ensures NoLinkLostSince(job, old(history), history) && old(fs.dirs) <= fs.dirs
      ensures ret == FTW_CONTINUE ==> At(start, |job.nodes|, deleteSource)
      ensures old(Walked(0, deleteSource)) ==>
        Safe() && (ret == FTW_CONTINUE ==> Walked(|job.nodes|, deleteSource))
    {
      var n := 0;
      ret := FTW_CONTINUE;
      while n < |job.nodes|
        invariant n <= |job.nodes| && At(start, n, deleteSource) && ret == FTW_CONTINUE
        invariant troubled == old(troubled) || (deleteSource && Leftover(job, fs, n))
        invariant old(troubled) ==> troubled
        invariant NoLinkLostSince(job, old(history), history) && old(fs.dirs) <= fs.dirs
        invariant old(Walked(0, deleteSource)) ==> Walked(n, deleteSource)
      {
        ghost var middle, before := history, fs;
        ret := NftwCopyFile(n, deleteSource, start);
        LeftoverNext(job, before, fs, n);
        SinceThen(job, old(history), middle, history);
        if ret != FTW_CONTINUE {
          return;
        }
        n := n + 1;
      }
    }

    /** A single file or link, or the walk. */
    method CopyNodes(deleteSource: bool, ghost start: FileSystem) returns (ret: int)
      requires At(start, 0, deleteSource)
      modifies this
      ensures old(troubled) ==> troubled
      ensures ret != SUCCESS ==> troubled || Blocked(job, fs)
      ensures ret == SUCCESS ==> troubled == old(troubled) || (deleteSource && Leftover(job, fs, |job.nodes|))
      ensures NoLinkLostSince(job, old(history), history) && old(fs.dirs) <= fs.dirs
      ensures ret == SUCCESS ==> At(start, |job.nodes|, deleteSource)
      ensures old(Walked(0, deleteSource)) ==> Safe() && (ret == SUCCESS ==> Walked(|job.nodes|, deleteSource))
    {
      match job.nodes[0].kind {
        case RegularFile => ret := CopyNode(0, deleteSource, start);
        case Symlink => ret := LinkNode(0, deleteSource, start);
        case Directory => ret := Nftw(deleteSource, start);
      }
    }

    method CopyDir(deleteSource: bool) returns (ret: int)
      requires Present(job, fs, 0)
      modifies this
      ensures old(troubled) ==> troubled
      ensures ret != SUCCESS ==> troubled || Blocked(job, fs)
      ensures ret == SUCCESS ==> troubled == old(troubled) || (deleteSource && Leftover(job, fs, |job.nodes|))
      ensures GoodJob(job) && NoLinkLostSince(job, old(history), history)
      ensures ret == SUCCESS ==> At(old(fs), |job.nodes|, deleteSource) && PathMade(job, old(fs), fs)
      ensures old(Walked(0, deleteSource)) ==> Safe() && (ret == SUCCESS ==> Walked(|job.nodes|, deleteSource))
    {
      ghost var start, past := fs, history;
      StartsAt(start, deleteSource);
      var created := CreatePath(start, deleteSource);
      ghost var middle := history;
      if !created {
        return ERROR;
      }
      ret := CopyNodes(deleteSource, start);
      SinceThen(job, past, middle, history);
    }

    /** Deletes an empty directory. */
    method Rmdir(d: string) returns (ok: bool)
      modifies this
      ensures old(troubled) ==> troubled
      ensures !ok ==> troubled || d !in fs.dirs || exists p: string :: Remains(fs, p, d)
      ensures old(Safe()) ==> Safe()
      ensures fs.files == old(fs.files) && fs.links == old(fs.links) && fs.dirs <= old(fs.dirs)
      ensures old(history) <= history && forall i :: |old(history)| <= i < |history| ==> history[i].links == fs.links
      ensures !ok ==> fs == old(fs)
      ensures ok ==>
        && d in old(fs.dirs) && fs.dirs == old(fs.dirs) - {d} && !Exists(fs, d)
        && forall p: string :: Inside(p, d) ==> !Exists(fs, p)
    {
      if d !in fs.dirs || (exists p <- fs.files.Keys + fs.links.Keys + fs.dirs :: Remains(fs, p, d)) {
        return false;
      }
      var refused := Fails();
      if refused {
        return false;
      }
      ghost var before, past, safe := fs, history, Safe();
      Become(fs.(dirs := fs.dirs - {d}));
      if safe {
        SameFilesNoLoss(job, before, fs);
        StaysSafe(past);
      }
      return true;
    }

    /** The second walk, a directory after what is in it; a file or link that is still there stops it. */
    method DeleteWalk() returns (ret: int)
      requires GoodJob(job)
      modifies this
      ensures old(troubled) ==> troubled
      ensures ret != 0 ==> troubled || !old(Exists(fs, job.source)) || SomethingElse(job, fs)
      ensures (old(Safe()) ==> Safe()) && fs.files == old(fs.files) && fs.links == old(fs.links)
      ensures ret == 0 ==> !Exists(fs, job.source) && forall p: string :: Inside(p, job.source) ==> !Exists(fs, p)
      ensures ret == 0 ==> job.source in old(fs.dirs)
      ensures fs.dirs <= old(fs.dirs) && forall d <- old(fs.dirs) :: d in fs.dirs || InTree(job, d)
      ensures old(history) <= history && forall i :: |old(history)| <= i < |history| ==> history[i].links == fs.links
    {
      if !Exists(fs, job.source) {
        return ERROR;
      }
      var n := |job.nodes|;
      while n > 0
        invariant 0 <= n <= |job.nodes| && (old(Safe()) ==> Safe())
        invariant fs.files == old(fs.files) && fs.links == old(fs.links)
        invariant fs.dirs <= old(fs.dirs) && (n == 0 ==> job.source in old(fs.dirs))
        invariant forall d <- old(fs.dirs) :: d in fs.dirs || InTree(job, d)
        invariant forall i: nat :: n <= i < |job.nodes| ==> job.nodes[i].path !in fs.dirs
        invariant n > 0 ==> Exists(fs, job.source)
        invariant old(history) <= history && (old(troubled) ==> troubled)
        invariant forall i :: |old(history)| <= i < |history| ==> history[i].links == fs.links
        invariant n == 0 ==> !Exists(fs, job.source) && forall p: string :: Inside(p, job.source) ==> !Exists(fs, p)
      {
        n := n - 1;
        var p := job.nodes[n].path;
        if p in fs.files || p in fs.links {
          assert IsElse(job, fs, p);
          return FTW_STOP;
        }
        if p in fs.dirs || n == 0 {
          var ok := Rmdir(p);
          if !ok {
            if !troubled {
              RemainsIsElse(job, fs, n);
            }
            return FTW_STOP;
          }
        }
      }
      return FTW_CONTINUE;
    }

    /** The second part of a flush with discard. */
    method DeleteTree() returns (ret: int)
      requires GoodJob(job)
      modifies this
      ensures old(troubled) ==> troubled
      ensures ret != SUCCESS ==> troubled || !old(Exists(fs, job.source)) || SomethingElse(job, fs)
      ensures (old(Safe()) ==> Safe()) && fs.files == old(fs.files) && fs.links == old(fs.links)
      ensures fs.dirs <= old(fs.dirs) && forall d <- old(fs.dirs) :: d in fs.dirs || InTree(job, d)
      ensures old(history) <= history && forall i :: |old(history)| <= i < |history| ==> history[i].links == fs.links
      ensures ret == SUCCESS ==>
        !Exists(fs, job.source) && job.source in old(fs.dirs) &&
        forall p: string :: Inside(p, job.source) ==> !Exists(fs, p)
    {
      ret := DeleteWalk();
      if ret != 0 {
        var ok := Rmdir(job.source);
        ret := if ok then SUCCESS else ERROR;
      }
    }

    /**
     * The whole flush of a subtree. No link is lost on the way, and success means that every link and directory of the
     * tree is at its destination. If the links in the places of its files do no harm, no state has lost a file, and
     * success means that every file is at its destination. Whatever they are, success with discard means that nothing
     * is left of the tree. A single file or link is flushed too, but with discard this is never reported as a success.
     */
    method HandleSubdirectoryFlag(deleteSource: bool) returns (ret: int)
      requires Present(job, fs, 0)
      modifies this
      // a failure has a reason, and without discard success hides none; of discard it means that nothing is left
      ensures ret == SUCCESS && !deleteSource ==> troubled == old(troubled)
      ensures ret != SUCCESS ==>
        troubled || Blocked(job, fs) || (deleteSource && (!Exists(fs, job.source) || SomethingElse(job, fs)))
      ensures NoLinkLostSince(job, old(history), history)
      ensures ret == SUCCESS ==> forall p <- job.texts ::
        LinkArrived(job, fs, p) && (!deleteSource ==> HasLink(fs, p, job.texts[p]))
      ensures ret == SUCCESS ==> PathMade(job, old(fs), fs)
      ensures ret == SUCCESS ==> forall i: nat ::
        IsDirectory(job, i) ==> DirectoryMade(job, old(fs), fs, job.nodes[i].path)
      ensures old(Walked(0, deleteSource)) ==>
        && Safe()
        && (ret == SUCCESS ==> forall p <- job.contents :: Arrived(job, fs, p))
        && (ret == SUCCESS && !deleteSource ==> forall p <- job.contents :: HasFile(fs, p, job.contents[p]))
      ensures ret == SUCCESS && deleteSource ==>
        !Exists(fs, job.source) && forall p: string :: Inside(p, job.source) ==> !Exists(fs, p)
      ensures ret == SUCCESS && deleteSource ==> job.nodes[0].kind.Directory?
    {
      ghost var safe, start, past := Walked(0, deleteSource), fs, history;
      ret := CopyDir(deleteSource);
      if ret == SUCCESS {
        AllMoved(job, start, fs, deleteSource);
        if safe {
          AllHandled(job, fs, deleteSource);
        }
      }
      if deleteSource && ret == SUCCESS {
        ghost var before, middle := fs, history;
        ret := DeleteTree();
        SameLinksSince(job, before, middle, history);
        SinceThen(job, past, middle, history);
        StillMoved(job, start, before, fs);
        StillPathMade(job, start, before, fs);
        assert forall p <- job.contents :: Arrived(job, before, p) ==> Arrived(job, fs, p);
      }
    }
  }

  /** Opening dst leads nowhere or to a directory. */
  predicate NoPlace(job: Job, fs: FileSystem, dst: string) {
    !Opens(job, fs.links, dst).To? || Opens(job, fs.links, dst).path in fs.dirs
  }

  /** What makes a mount point the beginning of the paths below it. */
  function WithSlash(mount: string): string {
    if mount != [] && mount[|mount| - 1] == '/' then mount else mount + "/"
  }

  /** The first i characters of the destination are a path below the mount, the destination itself for a directory. */
  predicate IsElement(job: Job, i: nat) {
    var dest, root := Dest(job, job.source), WithSlash(job.destMount);
    && root <= dest && |root| < i <= |dest| && dest[i - 1] != '/'
    && if i == |dest| then job.nodes != [] && job.nodes[0].kind.Directory? else dest[i] == '/'
  }

  /** No directory above the destination, nor the destination, is in the tree. */
  lemma ElementOutside(job: Job, i: nat)
    requires GoodJob(job) && IsElement(job, i)
    ensures !InTree(job, Dest(job, job.source)[..i])
  {
    var dest := Dest(job, job.source);
    assert dest[..i] + dest[i..] == dest;
  }

  predicate LeadsToDirectory(job: Job, fs: FileSystem, p: string) {
    var to := Opens(job, fs.links, p);
    to.To? && to.path in fs.dirs
  }

  /** There is a directory at p, unless a link stands for it. */
  predicate ElementMade(start: FileSystem, fs: FileSystem, p: string) {
    p in fs.dirs || p in start.links
  }

  /** The directories above the destination are there, unless a link stands for one. */
  ghost predicate PathMade(job: Job, start: FileSystem, fs: FileSystem) {
    MadeUpTo(job, start, fs, |Dest(job, job.source)|)
  }

  ghost predicate MadeUpTo(job: Job, start: FileSystem, fs: FileSystem, n: nat) {
    forall i: nat :: i <= n && IsElement(job, i) ==> ElementMade(start, fs, Dest(job, job.source)[..i])
  }

  lemma MadeNext(job: Job, start: FileSystem, before: FileSystem, after: FileSystem, n: nat)
    requires n > 0 && MadeUpTo(job, start, before, n - 1) && before.dirs <= after.dirs
    requires IsElement(job, n) ==> ElementMade(start, after, Dest(job, job.source)[..n])
    ensures MadeUpTo(job, start, after, n)
  {
  }

  /** Deleting the tree's directories does not change that. */
  lemma StillPathMade(job: Job, start: FileSystem, before: FileSystem, after: FileSystem)
    requires GoodJob(job) && PathMade(job, start, before)
    requires forall d <- before.dirs :: d in after.dirs || InTree(job, d)
    ensures PathMade(job, start, after)
  {
    forall i: nat | IsElement(job, i) ensures ElementMade(start, after, Dest(job, job.source)[..i]) {
      ElementOutside(job, i);
      assert ElementMade(start, before, Dest(job, job.source)[..i]);
    }
  }

  predicate BlockedElement(job: Job, fs: FileSystem, i: nat) {
    IsElement(job, i) && var d := Dest(job, job.source)[..i]; Exists(fs, d) && !LeadsToDirectory(job, fs, d)
  }

  /** Something above the destination is no directory. */
  ghost predicate BlockedAbove(job: Job, fs: FileSystem) {
    exists i: nat :: BlockedElement(job, fs, i)
  }

  /** The file or link number i is still there. */
  predicate IsLeft(job: Job, fs: FileSystem, i: nat) {
    || (IsFile(job, i) && job.nodes[i].path in fs.files)
    || (IsLink(job, i) && job.nodes[i].path in fs.links)
  }

  ghost predicate Leftover(job: Job, fs: FileSystem, n: nat) {
    exists i: nat :: i < n && IsLeft(job, fs, i)
  }

  /** Only node n may be gone. */
  ghost predicate LeftKept(job: Job, before: FileSystem, after: FileSystem, n: nat) {
    forall i: nat :: i != n && IsLeft(job, before, i) ==> IsLeft(job, after, i)
  }

  lemma LeftoverNext(job: Job, before: FileSystem, after: FileSystem, n: nat)
    requires LeftKept(job, before, after, n)
    ensures Leftover(job, before, n) || IsLeft(job, after, n) ==> Leftover(job, after, n + 1)
  {
    if i: nat :| i < n && IsLeft(job, before, i) {
      assert IsLeft(job, after, i);
    }
  }

  /** The copy of node n cannot be made: its place leads nowhere or to a directory, or is taken. */
  predicate BlockedAt(job: Job, fs: FileSystem, n: nat) {
    || (IsFile(job, n) && NoPlace(job, fs, Dest(job, job.nodes[n].path)))
    || (IsLink(job, n) && Exists(fs, Dest(job, job.nodes[n].path)))
  }

  ghost predicate Blocked(job: Job, fs: FileSystem) {
    BlockedAbove(job, fs) || exists n: nat :: BlockedAt(job, fs, n)
  }

  /** There is something at p, which is d or in it. */
  predicate Remains(fs: FileSystem, p: string, d: string) {
    (Inside(p, d) && Exists(fs, p)) || (p == d && (p in fs.files || p in fs.links))
  }

  /** Something is in the tree that is not one of its directories. */
  ghost predicate SomethingElse(job: Job, fs: FileSystem) {
    exists p: string :: IsElse(job, fs, p)
  }

  /** A directory of the tree that is not empty, those behind it in the walk being gone, has something else in it. */
  lemma RemainsIsElse(job: Job, fs: FileSystem, n: nat)
    requires GoodJob(job) && n < |job.nodes| && exists p: string :: Remains(fs, p, job.nodes[n].path)
    requires forall i: nat :: n < i < |job.nodes| ==> job.nodes[i].path !in fs.dirs
    ensures SomethingElse(job, fs)
  {
    var p: string :| Remains(fs, p, job.nodes[n].path);
    assert IsElse(job, fs, p);
  }

  ghost predicate IsElse(job: Job, fs: FileSystem, p: string) {
    && InTree(job, p) && Exists(fs, p)
    && (p in fs.files || p in fs.links || forall i: nat :: IsDirectory(job, i) ==> job.nodes[i].path != p)
  }

  /** What the walk has done when it is through. */
  lemma AllMoved(job: Job, start: FileSystem, fs: FileSystem, deleteSource: bool)
    requires Present(job, fs, |job.nodes|) && TreeMoved(job, start, fs, |job.nodes|, deleteSource)
    ensures NoLinkLost(job, fs)
    ensures forall p <- job.texts :: LinkArrived(job, fs, p) && (!deleteSource ==> HasLink(fs, p, job.texts[p]))
    ensures forall i: nat :: IsDirectory(job, i) ==> DirectoryMade(job, start, fs, job.nodes[i].path)
  {
    MovedIsNotLost(job, start, fs, |job.nodes|, deleteSource);
    forall p | p in job.texts
      ensures LinkArrived(job, fs, p) && (!deleteSource ==> HasLink(fs, p, job.texts[p]))
    {
      var i: nat :| i < |job.nodes| && job.nodes[i].path == p;
      assert IsLink(job, i);
    }
  }

  /** Deleting the tree's directories leaves their copies. */
  lemma StillMoved(job: Job, start: FileSystem, before: FileSystem, after: FileSystem)
    requires GoodJob(job) && after.files == before.files && after.links == before.links
    requires forall d <- before.dirs :: d in after.dirs || InTree(job, d)
    ensures forall i: nat :: IsDirectory(job, i) && DirectoryMade(job, start, before, job.nodes[i].path) ==>
      DirectoryMade(job, start, after, job.nodes[i].path)
  {
    forall i: nat | IsDirectory(job, i) ensures !InTree(job, Dest(job, job.nodes[i].path)) {
      if InTree(job, Dest(job, job.nodes[i].path)) {
        CopyInTree(job, job.nodes[i].path);
      }
    }
  }

  lemma AllHandled(job: Job, fs: FileSystem, deleteSource: bool)
    requires Reached(job, fs, |job.nodes|, deleteSource)
    ensures forall p <- job.contents :: Arrived(job, fs, p) && (!deleteSource ==> HasFile(fs, p, job.contents[p]))
  {
    forall p | p in job.contents ensures Arrived(job, fs, p) && (!deleteSource ==> HasFile(fs, p, job.contents[p])) {
      var i := IndexOf(job, p);
      assert Handled(job, fs, i, deleteSource);
    }
  }
}
