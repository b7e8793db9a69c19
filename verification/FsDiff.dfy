/** Comparing a container's root file system with its base (src/runtime/diff.rs). */
module FsDiff {
  import opened Wrappers
  import opened Markers
  import opened Text

  /** A file system without symbolic links. A directory lists its entries in whatever order the
      system returns them. */
  datatype FsNode =
    | File(mtime: int, content: seq<bv8>)
    | Dir(mtime: int, length: nat, entries: seq<DirEntry>)

  datatype DirEntry = DirEntry(name: string, node: FsNode)

  type Path = seq<string>

  datatype ChangeType = Changed | Added | Deleted

  datatype DiffRecord = DiffRecord(change: ChangeType, path: string)

  /** Names in a directory are distinct and contain no separator. */
  ghost predicate ValidEntries(entries: seq<DirEntry>) {
    && (forall i :: 0 <= i < |entries| ==> '/' !in entries[i].name)
    && (forall i, j :: 0 <= i < j < |entries| ==> entries[i].name != entries[j].name)
    && (forall i :: 0 <= i < |entries| && entries[i].node.Dir? ==> ValidEntries(entries[i].node.entries))
  }

  ghost predicate ValidRoot(root: Option<FsNode>) {
    root.Some? && root.value.Dir? ==> ValidEntries(root.value.entries)
  }

  /** The node at a path below a directory. */
  function LookupIn(entries: seq<DirEntry>, path: Path): Option<FsNode>
    decreases entries
  {
    if entries == [] || path == [] then None
    else if entries[0].name == path[0] then
      if |path| == 1 then Some(entries[0].node)
      else if entries[0].node.Dir? then LookupIn(entries[0].node.entries, path[1..])
      else None
    else LookupIn(entries[1..], path)
  }

  /** `root.join(path).exists()` and what is found there. */
  function Lookup(root: Option<FsNode>, path: Path): Option<FsNode> {
    if root.Some? && root.value.Dir? then LookupIn(root.value.entries, path) else None
  }

  function Length(n: FsNode): nat {
    if n.File? then |n.content| else n.length
  }

  /** The comparison of two nodes: type, length and time stamp first, then file contents. */
  predicate Differs(a: FsNode, b: FsNode) {
    || a.File? != b.File?
    || Length(a) != Length(b)
    || a.mtime != b.mtime
    || (a.File? && b.File? && a.content != b.content)
  }

  // ---------------------------------------------------------------------------------------
  // Path texts

  /** A path below the root as text, with a slash before every component. */
  function PathText(p: Path): string {
    if p == [] then "" else PathText(p[..|p| - 1]) + "/" + p[|p| - 1]
  }

  predicate NoSlash(p: Path) {
    forall i :: 0 <= i < |p| ==> '/' !in p[i]
  }

  /** The last slash of a path text is the one before its last component. */
  lemma LastSlash(p: Path)
    requires p != [] && NoSlash(p)
    ensures var a := PathText(p[..|p| - 1]);
            && LastIndexOf(PathText(p), '/') == |a|
            && PathText(p)[..|a|] == a && PathText(p)[|a| + 1..] == p[|p| - 1]
  {
    var a, x := PathText(p[..|p| - 1]), p[|p| - 1];
    var s := a + "/" + x;
    assert s[|a| + 1..] == x && s[..|a|] == a;
    LastIndexOfIs(s, '/', |a|);
  }

  /** Different paths have different texts. */
  lemma {:induction false} PathTextInjective(p: Path, q: Path)
    requires NoSlash(p) && NoSlash(q) && PathText(p) == PathText(q)
    ensures p == q
  {
    if p == [] || q == [] {
    } else {
      LastSlash(p);
      LastSlash(q);
      PathTextInjective(p[..|p| - 1], q[..|q| - 1]);
      assert p == p[..|p| - 1] + [p[|p| - 1]] && q == q[..|q| - 1] + [q[|q| - 1]];
    }
  }

  // ---------------------------------------------------------------------------------------
  // The walk over the container

  predicate IsMount(name: string) {
    name == "proc" || name == "sys" || name == "dev"
  }

  predicate IsScaffolding(name: string) {
    || name == "libboxr_perm.so" || name == "libboxr_perm_x86_64.so" || name == "boxr-busybox"
    || name == "boxr-init.sh" || name == "boxr-run.sh" || name == "boxr-exitcode" || name == "logs.txt"
    || "boxr-exec-" <= name
  }

  predicate IsWhiteout(name: string) { WHITEOUT_PREFIX <= name }

  /** What the walk records for an entry of its own, if anything. */
  function OwnRecord(path: Path, node: FsNode, base: Option<FsNode>): Option<DiffRecord>
    requires path != []
  {
    var name := path[|path| - 1];
    if IsWhiteout(name) then
      Some(DiffRecord(Deleted, PathText(path[..|path| - 1] + [name[|WHITEOUT_PREFIX|..]])))
    else
      match Lookup(base, path)
      case None => Some(DiffRecord(Added, PathText(path)))
      case Some(there) => if Differs(node, there) then Some(DiffRecord(Changed, PathText(path))) else None
  }

  function AsSeq(r: Option<DiffRecord>): seq<DiffRecord> {
    if r.Some? then [r.value] else []
  }

  predicate Skipped(rel: Path, name: string) {
    rel == [] && (IsMount(name) || IsScaffolding(name))
  }

  /** The records of a walk over these entries of the directory at `rel`. */
  function WalkRecords(entries: seq<DirEntry>, rel: Path, base: Option<FsNode>): seq<DiffRecord>
    decreases entries, 0
  {
    if entries == [] then []
    else WalkEntry(entries[0], rel, base) + WalkRecords(entries[1..], rel, base)
  }

  function WalkEntry(e: DirEntry, rel: Path, base: Option<FsNode>): seq<DiffRecord>
    decreases e, 1
  {
    if Skipped(rel, e.name) then []
    else
      AsSeq(OwnRecord(rel + [e.name], e.node, base)) +
      if !IsWhiteout(e.name) && e.node.Dir? then WalkRecords(e.node.entries, rel + [e.name], base) else []
  }

  /** The paths the walk remembers having met in the container. */
  function WalkSeen(entries: seq<DirEntry>, rel: Path): set<Path>
    decreases entries, 0
  {
    if entries == [] then {} else SeenEntry(entries[0], rel) + WalkSeen(entries[1..], rel)
  }

  function SeenEntry(e: DirEntry, rel: Path): set<Path>
    decreases e, 1
  {
    if Skipped(rel, e.name) || IsWhiteout(e.name) then {}
    else {rel + [e.name]} + if e.node.Dir? then WalkSeen(e.node.entries, rel + [e.name]) else {}
  }

  // ---------------------------------------------------------------------------------------
  // The walk over the base

  predicate Recorded(diffs: seq<DiffRecord>, text: string) {
    exists i :: 0 <= i < |diffs| && diffs[i].path == text
  }

  /** The records after looking for entries of the base that the container lost. */
  function CheckRecords(entries: seq<DirEntry>, rel: Path, container: seq<DirEntry>, seen: set<Path>,
                        diffs: seq<DiffRecord>): seq<DiffRecord>
    decreases entries, 0
  {
    if entries == [] then diffs
    else CheckRecords(entries[1..], rel, container, seen, CheckEntry(entries[0], rel, container, seen, diffs))
  }

  function CheckEntry(e: DirEntry, rel: Path, container: seq<DirEntry>, seen: set<Path>,
                      diffs: seq<DiffRecord>): seq<DiffRecord>
    decreases e, 1
  {
    if rel == [] && IsMount(e.name) then diffs
    else
      var noted := diffs + AsSeq(LostRecord(rel + [e.name], container, seen, diffs));
      if e.node.Dir? then CheckRecords(e.node.entries, rel + [e.name], container, seen, noted) else noted
  }

  function LostRecord(path: Path, container: seq<DirEntry>, seen: set<Path>, diffs: seq<DiffRecord>)
    : Option<DiffRecord>
  {
    if path !in seen && LookupIn(container, path).None? && !Recorded(diffs, PathText(path)) then
      Some(DiffRecord(Deleted, PathText(path)))
    else None
  }

  // ---------------------------------------------------------------------------------------
  // Sorting by path

  ghost predicate Sorted(diffs: seq<DiffRecord>) {
    forall i, j :: 0 <= i < j < |diffs| ==> TextLeq(diffs[i].path, diffs[j].path)
  }

  function Insert(r: DiffRecord, diffs: seq<DiffRecord>): (longer: seq<DiffRecord>)
    ensures multiset(longer) == multiset{r} + multiset(diffs)
  {
    if diffs == [] then [r]
    else if TextLeq(r.path, diffs[0].path) then [r] + diffs
    else
      assert diffs == [diffs[0]] + diffs[1..];
      [diffs[0]] + Insert(r, diffs[1..])
  }

  /** `sort_by` on the path. */
  function SortByPath(diffs: seq<DiffRecord>): (sorted: seq<DiffRecord>)
    ensures multiset(sorted) == multiset(diffs)
  {
    if diffs == [] then []
    else
      assert diffs == [diffs[0]] + diffs[1..];
      Insert(diffs[0], SortByPath(diffs[1..]))
  }

  lemma {:induction false} InsertSorted(r: DiffRecord, diffs: seq<DiffRecord>)
    requires Sorted(diffs)
    ensures Sorted(Insert(r, diffs))
  {
    if diffs == [] {
    } else if TextLeq(r.path, diffs[0].path) {
      forall j | 0 <= j < |diffs| ensures TextLeq(r.path, diffs[j].path) {
        if j > 0 { TextLeqTrans(r.path, diffs[0].path, diffs[j].path); }
      }
    } else {
      var rest := Insert(r, diffs[1..]);
      InsertSorted(r, diffs[1..]);
      TextLeqTotal(r.path, diffs[0].path);
      forall j | 0 <= j < |rest| ensures TextLeq(diffs[0].path, rest[j].path) {
        assert rest[j] in multiset(rest);
        assert rest[j] == r || rest[j] in diffs[1..];
      }
    }
  }

  lemma {:induction false} SortByPathSorts(diffs: seq<DiffRecord>)
    ensures Sorted(SortByPath(diffs))
  {
    if diffs == [] {
    } else {
      SortByPathSorts(diffs[1..]);
      InsertSorted(diffs[0], SortByPath(diffs[1..]));
    }
  }

  // ---------------------------------------------------------------------------------------
  // The comparison

  datatype DiffError = ContainerNotFound | NotADirectory

  /** Both walks and the sort, as one function of the two trees. */
  function Comparison(base: Option<FsNode>, entries: seq<DirEntry>): seq<DiffRecord> {
    var walked := WalkRecords(entries, [], base);
    SortByPath(
      if base.Some? && base.value.Dir? then
        CheckRecords(base.value.entries, [], entries, WalkSeen(entries, []), walked)
      else walked)
  }

  class FilesystemDiff {
    const base: Option<FsNode>
    const container: seq<DirEntry>
    var diffs: seq<DiffRecord>
    var seenBase: set<Path>

    constructor (base: Option<FsNode>, container: seq<DirEntry>)
      ensures this.base == base && this.container == container && diffs == [] && seenBase == {}
    {
      this.base, this.container := base, container;
      diffs, seenBase := [], {};
    }

    /** `walk_and_compare` for the directory at `rel` with these entries. */
    method WalkAndCompare(entries: seq<DirEntry>, rel: Path)
      modifies this
      ensures diffs == old(diffs) + WalkRecords(entries, rel, base)
      ensures seenBase == old(seenBase) + WalkSeen(entries, rel)
      decreases entries, 0
    {
      var i := 0;
      while i < |entries|
        invariant 0 <= i <= |entries|
        invariant diffs + WalkRecords(entries[i..], rel, base) == old(diffs) + WalkRecords(entries, rel, base)
        invariant seenBase + WalkSeen(entries[i..], rel) == old(seenBase) + WalkSeen(entries, rel)
      {
        assert entries[i..][1..] == entries[i + 1..];
        ghost var d, one, rest := diffs, WalkEntry(entries[i], rel, base), WalkRecords(entries[i + 1..], rel, base);
        WalkOne(entries[i], rel);
        Regroup(d, one, rest);
        i := i + 1;
      }
    }

    /** The body of the walk's loop. */
    method WalkOne(e: DirEntry, rel: Path)
      modifies this
      ensures diffs == old(diffs) + WalkEntry(e, rel, base)
      ensures seenBase == old(seenBase) + SeenEntry(e, rel)
      decreases e, 1
    {
      if Skipped(rel, e.name) {
        return;
      }
      var path := rel + [e.name];
      if IsWhiteout(e.name) {
        assert path[..|path| - 1] == rel;
        diffs := diffs + [DiffRecord(Deleted, PathText(rel + [e.name[|WHITEOUT_PREFIX|..]]))];
        return;
      }
      seenBase := seenBase + {path};
      var equivalent := Lookup(base, path);
      if equivalent.None? {
        diffs := diffs + [DiffRecord(Added, PathText(path))];
      } else if Differs(e.node, equivalent.value) {
        diffs := diffs + [DiffRecord(Changed, PathText(path))];
      }
      ghost var own := AsSeq(OwnRecord(path, e.node, base));
      assert diffs == old(diffs) + own;
      if e.node.Dir? {
        WalkAndCompare(e.node.entries, path);
        Regroup(old(diffs), own, WalkRecords(e.node.entries, path, base));
      }
    }

    /** `check_deleted_from_base` for the directory at `rel` with these entries. */
    method CheckDeletedFromBase(entries: seq<DirEntry>, rel: Path)
      modifies this`diffs
      ensures diffs == CheckRecords(entries, rel, container, seenBase, old(diffs))
      decreases entries, 0
    {
      var i := 0;
      while i < |entries|
        invariant 0 <= i <= |entries|
        invariant CheckRecords(entries[i..], rel, container, seenBase, diffs)
                  == CheckRecords(entries, rel, container, seenBase, old(diffs))
      {
        assert entries[i..][1..] == entries[i + 1..];
        CheckOne(entries[i], rel);
        i := i + 1;
      }
    }

    /** The body of the check's loop. */
    method CheckOne(e: DirEntry, rel: Path)
      modifies this`diffs
      ensures diffs == CheckEntry(e, rel, container, seenBase, old(diffs))
      decreases e, 1
    {
      if rel == [] && IsMount(e.name) {
        return;
      }
      var path := rel + [e.name];
      if path !in seenBase && LookupIn(container, path).None? {
        if !Recorded(diffs, PathText(path)) {
          diffs := diffs + [DiffRecord(Deleted, PathText(path))];
        }
      }
      assert diffs == old(diffs) + AsSeq(LostRecord(path, container, seenBase, old(diffs)));
      if e.node.Dir? {
        CheckDeletedFromBase(e.node.entries, path);
      }
    }
  }

  /** `compare`. */
  method Compare(base: Option<FsNode>, container: Option<FsNode>) returns (result: Result<seq<DiffRecord>, DiffError>)
    ensures result == Err(ContainerNotFound) <==> container.None?
    ensures result.Ok? <==> container.Some? && container.value.Dir? && (base.Some? ==> base.value.Dir?)
    ensures result.Ok? ==> result.value == Comparison(base, container.value.entries)
  {
    if container.None? {
      return Err(ContainerNotFound);
    }
    if container.value.File? {
      return Err(NotADirectory);
    }
    var entries := container.value.entries;
    var run := new FilesystemDiff(base, entries);
    run.WalkAndCompare(entries, []);
    assert run.diffs == WalkRecords(entries, [], base) && run.seenBase == WalkSeen(entries, []);
    if base.Some? {
      if base.value.File? {
        return Err(NotADirectory);
      }
      run.CheckDeletedFromBase(base.value.entries, []);
    }
    result := Ok(SortByPath(run.diffs));
  }
}
