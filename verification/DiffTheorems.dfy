/** What the records of a comparison say about the two trees. */
module DiffTheorems {
  import opened Wrappers
  import opened Markers
  import opened Text
  import opened FsDiff

  // ---------------------------------------------------------------------------------------
  // Paths and lookups

  predicate HasName(entries: seq<DirEntry>, name: string) {
    exists i :: 0 <= i < |entries| && entries[i].name == name
  }

  lemma {:induction false} LookupNeedsName(entries: seq<DirEntry>, path: Path)
    requires LookupIn(entries, path).Some?
    ensures path != [] && HasName(entries, path[0])
    decreases entries
  {
    if entries[0].name == path[0] {
    } else {
      LookupNeedsName(entries[1..], path);
      var i :| 0 <= i < |entries[1..]| && entries[1..][i].name == path[0];
      assert entries[i + 1].name == path[0];
    }
  }

  lemma ValidRest(entries: seq<DirEntry>)
    requires entries != [] && ValidEntries(entries)
    ensures ValidEntries(entries[1..])
    ensures !HasName(entries[1..], entries[0].name)
    ensures '/' !in entries[0].name
    ensures entries[0].node.Dir? ==> ValidEntries(entries[0].node.entries)
  {
    var rest := entries[1..];
    assert forall i :: 0 <= i < |rest| ==> rest[i] == entries[i + 1];
  }

  lemma {:induction false} LookupNoSlash(entries: seq<DirEntry>, path: Path)
    requires ValidEntries(entries) && LookupIn(entries, path).Some?
    ensures NoSlash(path)
    decreases entries
  {
    ValidRest(entries);
    if entries[0].name == path[0] {
      if |path| > 1 {
        LookupNoSlash(entries[0].node.entries, path[1..]);
        assert path == [path[0]] + path[1..];
      }
    } else {
      LookupNoSlash(entries[1..], path);
    }
  }

  /** A path below the head entry of a directory, and one below the others. */
  lemma LookupCons(entries: seq<DirEntry>, ns: Path)
    requires entries != [] && ValidEntries(entries) && ns != []
    ensures ns[0] != entries[0].name ==> LookupIn(entries, ns) == LookupIn(entries[1..], ns)
    ensures ns[0] == entries[0].name ==> LookupIn(entries[1..], ns) == None
    ensures ns == [entries[0].name] ==> LookupIn(entries, ns) == Some(entries[0].node)
    ensures ns[0] == entries[0].name && |ns| > 1 ==>
              LookupIn(entries, ns) ==
              if entries[0].node.Dir? then LookupIn(entries[0].node.entries, ns[1..]) else None
  {
    ValidRest(entries);
    if LookupIn(entries[1..], ns).Some? {
      LookupNeedsName(entries[1..], ns);
    }
  }

  // ---------------------------------------------------------------------------------------
  // The first walk

  /** The walk gets to this path: it starts outside the skipped names and no directory above it
      is a whiteout marker. */
  predicate Reached(rel: Path, ns: Path) {
    && ns != [] && !Skipped(rel, ns[0])
    && forall i :: 0 <= i < |ns| - 1 ==> !IsWhiteout(ns[i])
  }

  predicate Reports(entries: seq<DirEntry>, rel: Path, base: Option<FsNode>, ns: Path, r: DiffRecord) {
    && LookupIn(entries, ns).Some? && Reached(rel, ns)
    && OwnRecord(rel + ns, LookupIn(entries, ns).value, base) == Some(r)
  }

  lemma ReachedCons(rel: Path, name: string, ns: Path)
    requires ns != []
    ensures Reached(rel, [name] + ns) <==> !Skipped(rel, name) && !IsWhiteout(name) && Reached(rel + [name], ns)
  {
    var all := [name] + ns;
    assert forall i :: 0 <= i < |ns| ==> all[i + 1] == ns[i];
    if Reached(rel, all) {
      forall i | 0 <= i < |ns| - 1 ensures !IsWhiteout(ns[i]) {
        assert !IsWhiteout(all[i + 1]);
      }
      assert !IsWhiteout(all[0]);
    }
  }

  /** The walk records exactly what each path it reaches asks for. */
  lemma {:induction false} WalkRecordsExactly(entries: seq<DirEntry>, rel: Path, base: Option<FsNode>, r: DiffRecord)
    requires ValidEntries(entries)
    ensures r in WalkRecords(entries, rel, base) <==> exists ns :: Reports(entries, rel, base, ns, r)
    decreases entries, 0
  {
    if entries == [] {
      assert forall ns :: LookupIn(entries, ns).None?;
    } else {
      var e := entries[0];
      ValidRest(entries);
      WalkEntryExactly(entries, rel, base, r);
      WalkRecordsExactly(entries[1..], rel, base, r);
      if ns :| Reports(entries[1..], rel, base, ns, r) {
        LookupNeedsName(entries[1..], ns);
        LookupCons(entries, ns);
        assert Reports(entries, rel, base, ns, r);
      }
      if ns :| Reports(entries, rel, base, ns, r) {
        LookupNeedsName(entries, ns);
        LookupCons(entries, ns);
        if ns[0] != e.name {
          assert Reports(entries[1..], rel, base, ns, r);
        }
      }
    }
  }

  lemma {:induction false} WalkEntryExactly(entries: seq<DirEntry>, rel: Path, base: Option<FsNode>, r: DiffRecord)
    requires entries != [] && ValidEntries(entries)
    ensures r in WalkEntry(entries[0], rel, base) <==>
            exists ns :: Reports(entries, rel, base, ns, r) && ns[0] == entries[0].name
    decreases entries[0], 1
  {
    var e := entries[0];
    ValidRest(entries);
    HeadReports(entries, rel, base, r);
    if !Skipped(rel, e.name) && !IsWhiteout(e.name) && e.node.Dir? {
      WalkRecordsExactly(e.node.entries, rel + [e.name], base, r);
    }
  }

  /** A record for the head entry or below it is its own, or one of its directory's. */
  lemma HeadReports(entries: seq<DirEntry>, rel: Path, base: Option<FsNode>, r: DiffRecord)
    requires entries != [] && ValidEntries(entries)
    ensures var e := entries[0];
            (exists ns :: Reports(entries, rel, base, ns, r) && ns[0] == e.name) <==>
            && !Skipped(rel, e.name)
            && (|| OwnRecord(rel + [e.name], e.node, base) == Some(r)
                || (!IsWhiteout(e.name) && e.node.Dir?
                    && exists ns :: Reports(e.node.entries, rel + [e.name], base, ns, r)))
  {
    var e := entries[0];
    LookupCons(entries, [e.name]);
    if !Skipped(rel, e.name) && OwnRecord(rel + [e.name], e.node, base) == Some(r) {
      assert Reports(entries, rel, base, [e.name], r);
    }
    if !Skipped(rel, e.name) && !IsWhiteout(e.name) && e.node.Dir? {
      if ns :| Reports(e.node.entries, rel + [e.name], base, ns, r) {
        BelowHead(entries, rel, base, ns, r);
      }
    }
    if ns :| Reports(entries, rel, base, ns, r) && ns[0] == e.name {
      ReportBelowHead(entries, rel, base, ns, r);
    }
  }

  lemma ReportBelowHead(entries: seq<DirEntry>, rel: Path, base: Option<FsNode>, ns: Path, r: DiffRecord)
    requires entries != [] && ValidEntries(entries)
    requires Reports(entries, rel, base, ns, r) && ns[0] == entries[0].name
    ensures var e := entries[0];
            && !Skipped(rel, e.name)
            && (|ns| == 1 ==> OwnRecord(rel + [e.name], e.node, base) == Some(r))
            && (|ns| > 1 ==> !IsWhiteout(e.name) && e.node.Dir?
                             && Reports(e.node.entries, rel + [e.name], base, ns[1..], r))
  {
    var e := entries[0];
    LookupCons(entries, ns);
    if |ns| > 1 {
      assert ns == [e.name] + ns[1..];
      ReachedCons(rel, e.name, ns[1..]);
      assert rel + ns == rel + [e.name] + ns[1..];
    } else {
      assert ns == [e.name];
    }
  }

  lemma BelowHead(entries: seq<DirEntry>, rel: Path, base: Option<FsNode>, ns: Path, r: DiffRecord)
    requires entries != [] && ValidEntries(entries)
    requires var e := entries[0];
             !Skipped(rel, e.name) && !IsWhiteout(e.name) && e.node.Dir?
             && Reports(e.node.entries, rel + [e.name], base, ns, r)
    ensures Reports(entries, rel, base, [entries[0].name] + ns, r)
  {
    var all := [entries[0].name] + ns;
    assert all[1..] == ns;
    ReachedCons(rel, entries[0].name, ns);
    LookupCons(entries, all);
    assert rel + all == rel + [entries[0].name] + ns;
  }

  /** The walk remembers only paths that the container has. */
  lemma {:induction false} SeenIsInContainer(entries: seq<DirEntry>, rel: Path, p: Path)
    requires ValidEntries(entries) && p in WalkSeen(entries, rel)
    ensures exists ns :: p == rel + ns && LookupIn(entries, ns).Some?
    decreases entries
  {
    var e := entries[0];
    ValidRest(entries);
    if p == rel + [e.name] {
      LookupCons(entries, [e.name]);
    } else if p in SeenEntry(e, rel) {
      SeenIsInContainer(e.node.entries, rel + [e.name], p);
      var ns :| p == rel + [e.name] + ns && LookupIn(e.node.entries, ns).Some?;
      var all := [e.name] + ns;
      assert all[1..] == ns;
      LookupNeedsName(e.node.entries, ns);
      LookupCons(entries, all);
      assert p == rel + all;
    } else {
      SeenIsInContainer(entries[1..], rel, p);
      var ns :| p == rel + ns && LookupIn(entries[1..], ns).Some?;
      LookupNeedsName(entries[1..], ns);
      LookupCons(entries, ns);
    }
  }

  // ---------------------------------------------------------------------------------------
  // The second walk

  predicate CheckReached(rel: Path, ns: Path) {
    ns != [] && !(rel == [] && IsMount(ns[0]))
  }

  /** The base has this path and the container does not. */
  predicate Lost(entries: seq<DirEntry>, rel: Path, container: seq<DirEntry>, ns: Path) {
    && LookupIn(entries, ns).Some? && CheckReached(rel, ns)
    && LookupIn(container, rel + ns).None?
  }

  /** Whatever is recorded at a path the container lacks is a deletion. */
  ghost predicate OnlyDeletionsOffContainer(diffs: seq<DiffRecord>, container: seq<DirEntry>) {
    forall r, p :: r in diffs && NoSlash(p) && r.path == PathText(p) && LookupIn(container, p).None? ==>
                     r.change == Deleted
  }

  ghost predicate SeenFits(seen: set<Path>, container: seq<DirEntry>) {
    forall p :: p in seen ==> LookupIn(container, p).Some?
  }

  /** The check adds exactly the deletions of what the base has and the container has not. */
  lemma {:induction false} CheckRecordsExactly(entries: seq<DirEntry>, rel: Path, container: seq<DirEntry>,
                                                seen: set<Path>, diffs: seq<DiffRecord>, r: DiffRecord)
    requires ValidEntries(entries) && NoSlash(rel) && SeenFits(seen, container)
    requires OnlyDeletionsOffContainer(diffs, container)
    ensures OnlyDeletionsOffContainer(CheckRecords(entries, rel, container, seen, diffs), container)
    ensures r in CheckRecords(entries, rel, container, seen, diffs) <==>
            r in diffs || exists ns :: LostFrom(entries, rel, container, r, ns)
    decreases entries, 0
  {
    if entries == [] {
      assert forall ns :: LookupIn(entries, ns).None?;
    } else {
      var e := entries[0];
      ValidRest(entries);
      CheckEntryExactly(entries, rel, container, seen, diffs, r);
      CheckRecordsExactly(entries[1..], rel, container, seen, CheckEntry(e, rel, container, seen, diffs), r);
      if ns :| LostFrom(entries[1..], rel, container, r, ns) {
        LookupNeedsName(entries[1..], ns);
        LookupCons(entries, ns);
        assert LostFrom(entries, rel, container, r, ns);
      }
      if ns :| LostFrom(entries, rel, container, r, ns) {
        LookupNeedsName(entries, ns);
        LookupCons(entries, ns);
        if ns[0] != e.name {
          assert LostFrom(entries[1..], rel, container, r, ns);
        }
      }
    }
  }

  lemma NotedExactly(path: Path, container: seq<DirEntry>, seen: set<Path>, diffs: seq<DiffRecord>, r: DiffRecord)
    requires NoSlash(path) && SeenFits(seen, container) && OnlyDeletionsOffContainer(diffs, container)
    ensures var noted := diffs + AsSeq(LostRecord(path, container, seen, diffs));
            && OnlyDeletionsOffContainer(noted, container)
            && (r in noted <==>
                  r in diffs || (LookupIn(container, path).None? && r == DiffRecord(Deleted, PathText(path))))
  {
    if Recorded(diffs, PathText(path)) && LookupIn(container, path).None? {
      var i :| 0 <= i < |diffs| && diffs[i].path == PathText(path);
      assert diffs[i] in diffs;
      assert diffs[i] == DiffRecord(Deleted, PathText(path));
    }
  }

  /** Losing a path below the head entry is losing its remainder in that directory. */
  lemma LostBelowHead(entries: seq<DirEntry>, rel: Path, container: seq<DirEntry>, ns: Path)
    requires entries != [] && ValidEntries(entries) && entries[0].node.Dir? && ns != []
    requires !(rel == [] && IsMount(entries[0].name))
    ensures var name := entries[0].name;
            && rel + ([name] + ns) == rel + [name] + ns
            && (Lost(entries, rel, container, [name] + ns) <==>
                  Lost(entries[0].node.entries, rel + [name], container, ns))
  {
    var all := [entries[0].name] + ns;
    assert all[1..] == ns;
    assert rel + all == rel + [entries[0].name] + ns;
    LookupCons(entries, all);
  }

  lemma LostAtHead(entries: seq<DirEntry>, rel: Path, container: seq<DirEntry>)
    requires entries != [] && ValidEntries(entries)
    requires !(rel == [] && IsMount(entries[0].name))
    ensures var name := entries[0].name;
            Lost(entries, rel, container, [name]) <==> LookupIn(container, rel + [name]).None?
  {
    LookupCons(entries, [entries[0].name]);
  }

  ghost predicate LostFrom(entries: seq<DirEntry>, rel: Path, container: seq<DirEntry>, r: DiffRecord, ns: Path) {
    Lost(entries, rel, container, ns) && r == DiffRecord(Deleted, PathText(rel + ns))
  }

  /** Something is lost at the head entry or below it. */
  ghost predicate HeadLost(entries: seq<DirEntry>, rel: Path, container: seq<DirEntry>, r: DiffRecord)
    requires entries != []
  {
    exists ns :: LostFrom(entries, rel, container, r, ns) && ns[0] == entries[0].name
  }

  lemma HeadLostCases(entries: seq<DirEntry>, rel: Path, container: seq<DirEntry>, r: DiffRecord)
    requires entries != [] && ValidEntries(entries)
    requires !(rel == [] && IsMount(entries[0].name))
    ensures var e := entries[0];
            var path := rel + [e.name];
            HeadLost(entries, rel, container, r) <==>
            || (LookupIn(container, path).None? && r == DiffRecord(Deleted, PathText(path)))
            || (e.node.Dir? && exists ns :: LostFrom(e.node.entries, path, container, r, ns))
  {
    var e := entries[0];
    var path := rel + [e.name];
    LostAtHead(entries, rel, container);
    if LookupIn(container, path).None? && r == DiffRecord(Deleted, PathText(path)) {
      assert LostFrom(entries, rel, container, r, [e.name]);
    }
    if e.node.Dir? {
      if ns :| LostFrom(e.node.entries, path, container, r, ns) {
        LostBelowHead(entries, rel, container, ns);
        assert LostFrom(entries, rel, container, r, [e.name] + ns);
      }
    }
    if ns :| LostFrom(entries, rel, container, r, ns) && ns[0] == e.name {
      if |ns| > 1 {
        assert ns == [e.name] + ns[1..];
        LookupCons(entries, ns);
        LostBelowHead(entries, rel, container, ns[1..]);
        assert LostFrom(e.node.entries, path, container, r, ns[1..]);
      } else {
        assert ns == [e.name];
      }
    }
  }

  lemma {:induction false} CheckEntryExactly(entries: seq<DirEntry>, rel: Path, container: seq<DirEntry>,
                                              seen: set<Path>, diffs: seq<DiffRecord>, r: DiffRecord)
    requires entries != [] && ValidEntries(entries) && NoSlash(rel) && SeenFits(seen, container)
    requires OnlyDeletionsOffContainer(diffs, container)
    ensures OnlyDeletionsOffContainer(CheckEntry(entries[0], rel, container, seen, diffs), container)
    ensures r in CheckEntry(entries[0], rel, container, seen, diffs) <==>
            r in diffs || HeadLost(entries, rel, container, r)
    decreases entries[0], 1
  {
    var e := entries[0];
    ValidRest(entries);
    if !(rel == [] && IsMount(e.name)) {
      var path := rel + [e.name];
      var noted := diffs + AsSeq(LostRecord(path, container, seen, diffs));
      NotedExactly(path, container, seen, diffs, r);
      HeadLostCases(entries, rel, container, r);
      if e.node.Dir? {
        CheckRecordsExactly(e.node.entries, path, container, seen, noted, r);
      }
    }
  }

  // ---------------------------------------------------------------------------------------
  // The whole comparison

  /** The records of a comparison are exactly those the container's walk asks for and the
      deletions of what the base has and the container has not. */
  lemma ComparisonExactly(base: Option<FsNode>, entries: seq<DirEntry>, r: DiffRecord)
    requires ValidEntries(entries) && ValidRoot(base)
    ensures r in Comparison(base, entries) <==>
            || (exists ns :: Reports(entries, [], base, ns, r))
            || (base.Some? && base.value.Dir? && exists ns :: LostFrom(base.value.entries, [], entries, r, ns))
  {
    var walked := WalkRecords(entries, [], base);
    WalkRecordsExactly(entries, [], base, r);
    if base.Some? && base.value.Dir? {
      WalkedOffContainer(entries, base);
      SeenFitsContainer(entries);
      CheckRecordsExactly(base.value.entries, [], entries, WalkSeen(entries, []), walked, r);
      var checked := CheckRecords(base.value.entries, [], entries, WalkSeen(entries, []), walked);
      assert r in SortByPath(checked) <==> r in multiset(SortByPath(checked));
      assert r in checked <==> r in multiset(checked);
    } else {
      assert r in SortByPath(walked) <==> r in multiset(SortByPath(walked));
      assert r in walked <==> r in multiset(walked);
    }
  }

  lemma SeenFitsContainer(entries: seq<DirEntry>)
    requires ValidEntries(entries)
    ensures SeenFits(WalkSeen(entries, []), entries)
  {
    forall p | p in WalkSeen(entries, []) ensures LookupIn(entries, p).Some? {
      SeenIsInContainer(entries, [], p);
      var ns :| p == [] + ns && LookupIn(entries, ns).Some?;
      assert p == ns;
    }
  }

  lemma WalkedOffContainer(entries: seq<DirEntry>, base: Option<FsNode>)
    requires ValidEntries(entries)
    ensures OnlyDeletionsOffContainer(WalkRecords(entries, [], base), entries)
  {
    forall r, p | && r in WalkRecords(entries, [], base) && NoSlash(p) && r.path == PathText(p)
                  && LookupIn(entries, p).None?
      ensures r.change == Deleted
    {
      WalkRecordsExactly(entries, [], base, r);
      var ns :| Reports(entries, [], base, ns, r);
      if r.change != Deleted {
        ReportAtPath(entries, base, ns, r);
        PathTextInjective(p, ns);
      }
    }
  }

  /** A record of an entry names its target, and is a deletion only for a marker. */
  lemma OwnRecordNames(path: Path, node: FsNode, base: Option<FsNode>)
    requires path != [] && OwnRecord(path, node, base).Some?
    ensures var r := OwnRecord(path, node, base).value;
            r.path == PathText(Target(path)) && (r.change == Deleted <==> IsWhiteout(path[|path| - 1]))
  {
  }

  /** A record that is no deletion names the path it is for. */
  lemma ReportAtPath(entries: seq<DirEntry>, base: Option<FsNode>, ns: Path, r: DiffRecord)
    requires ValidEntries(entries) && Reports(entries, [], base, ns, r) && r.change != Deleted
    ensures r.path == PathText(ns) && NoSlash(ns)
  {
    LookupNoSlash(entries, ns);
    OwnRecordNames([] + ns, LookupIn(entries, ns).value, base);
    assert [] + ns == ns;
  }

  /** No name in the container is a whiteout marker. */
  ghost predicate NoWhiteouts(entries: seq<DirEntry>) {
    forall p, i :: LookupIn(entries, p).Some? && 0 <= i < |p| ==> !IsWhiteout(p[i])
  }

  lemma PlainReport(entries: seq<DirEntry>, base: Option<FsNode>, ns: Path, p: Path, r: DiffRecord)
    requires ValidEntries(entries) && NoWhiteouts(entries) && NoSlash(p) && r.path == PathText(p)
    requires Reports(entries, [], base, ns, r)
    ensures ns == p
  {
    LookupNoSlash(entries, ns);
    assert [] + ns == ns;
    assert !IsWhiteout(ns[|ns| - 1]);
    PathTextInjective(ns, p);
  }

  /** The two nodes are files of one time and content, or directories of one time and length. */
  predicate Alike(a: FsNode, b: FsNode) {
    match (a, b)
    case (File(t, c), File(u, d)) => t == u && c == d
    case (Dir(t, k, _), Dir(u, l, _)) => t == u && k == l
    case _ => false
  }

  lemma DifferIffNotAlike(a: FsNode, b: FsNode)
    ensures Differs(a, b) <==> !Alike(a, b)
  {
  }

  /** The meaning of the three kinds of record: added iff only in the container, changed iff in
      both and not alike, deleted iff only in the base. */
  lemma RecordsMeaning(base: Option<FsNode>, entries: seq<DirEntry>, p: Path)
    requires ValidEntries(entries) && ValidRoot(base) && NoWhiteouts(entries)
    requires p != [] && NoSlash(p)
    ensures DiffRecord(Added, PathText(p)) in Comparison(base, entries) <==>
            LookupIn(entries, p).Some? && Lookup(base, p).None? && !Skipped([], p[0])
    ensures DiffRecord(Changed, PathText(p)) in Comparison(base, entries) <==>
            && LookupIn(entries, p).Some? && Lookup(base, p).Some? && !Skipped([], p[0])
            && !Alike(LookupIn(entries, p).value, Lookup(base, p).value)
    ensures DiffRecord(Deleted, PathText(p)) in Comparison(base, entries) <==>
            LookupIn(entries, p).None? && Lookup(base, p).Some? && !IsMount(p[0])
  {
    RecordedIff(base, entries, p, Added);
    RecordedIff(base, entries, p, Changed);
    RecordedIff(base, entries, p, Deleted);
    if LookupIn(entries, p).Some? {
      PlainOwnRecord(base, entries, p);
      if Lookup(base, p).Some? { DifferIffNotAlike(LookupIn(entries, p).value, Lookup(base, p).value); }
    }
  }

  lemma PlainOwnRecord(base: Option<FsNode>, entries: seq<DirEntry>, p: Path)
    requires NoWhiteouts(entries) && p != [] && LookupIn(entries, p).Some?
    ensures Reached([], p) <==> !Skipped([], p[0])
    ensures [] + p == p && !IsWhiteout(p[|p| - 1])
  {
    assert forall i :: 0 <= i < |p| ==> !IsWhiteout(p[i]);
  }

  /** A record for p is one that the walk makes at p itself, or the deletion of p. */
  lemma RecordedIff(base: Option<FsNode>, entries: seq<DirEntry>, p: Path, change: ChangeType)
    requires ValidEntries(entries) && ValidRoot(base) && NoWhiteouts(entries)
    requires p != [] && NoSlash(p)
    ensures var r := DiffRecord(change, PathText(p));
            r in Comparison(base, entries) <==>
            || Reports(entries, [], base, p, r)
            || (change == Deleted && LookupIn(entries, p).None? && Lookup(base, p).Some? && !IsMount(p[0]))
  {
    var r := DiffRecord(change, PathText(p));
    ComparisonExactly(base, entries, r);
    if ns :| Reports(entries, [], base, ns, r) {
      PlainReport(entries, base, ns, p, r);
    }
    if base.Some? && base.value.Dir? {
      LostFromIff(base.value.entries, entries, p, r);
    }
  }

  lemma LostFromIff(lower: seq<DirEntry>, container: seq<DirEntry>, p: Path, r: DiffRecord)
    requires ValidEntries(lower) && p != [] && NoSlash(p) && r.path == PathText(p)
    ensures (exists ns :: LostFrom(lower, [], container, r, ns)) <==>
            r.change == Deleted && LookupIn(container, p).None? && LookupIn(lower, p).Some? && !IsMount(p[0])
  {
    assert [] + p == p;
    if ns :| LostFrom(lower, [], container, r, ns) {
      LookupNoSlash(lower, ns);
      assert [] + ns == ns;
      PathTextInjective(ns, p);
    }
    if r.change == Deleted && Lost(lower, [], container, p) {
      assert LostFrom(lower, [], container, r, p);
    }
  }

  /** Conservation: outside the skipped names, taking the deleted paths from the base and adding
      the added ones gives exactly the paths of the container. */
  lemma DiffReconstructsContainer(base: Option<FsNode>, entries: seq<DirEntry>, p: Path)
    requires ValidEntries(entries) && ValidRoot(base) && NoWhiteouts(entries)
    requires p != [] && NoSlash(p) && !Skipped([], p[0])
    ensures LookupIn(entries, p).Some? <==>
            || (Lookup(base, p).Some? && DiffRecord(Deleted, PathText(p)) !in Comparison(base, entries))
            || DiffRecord(Added, PathText(p)) in Comparison(base, entries)
  {
    RecordsMeaning(base, entries, p);
  }

  /** A path on both sides goes unrecorded exactly when its nodes are alike. */
  lemma UnrecordedIffAlike(base: Option<FsNode>, entries: seq<DirEntry>, p: Path)
    requires ValidEntries(entries) && ValidRoot(base) && NoWhiteouts(entries)
    requires p != [] && NoSlash(p) && !Skipped([], p[0])
    requires LookupIn(entries, p).Some? && Lookup(base, p).Some?
    ensures !Recorded(Comparison(base, entries), PathText(p)) <==>
            Alike(LookupIn(entries, p).value, Lookup(base, p).value)
  {
    RecordsMeaning(base, entries, p);
    RecordedSomehow(Comparison(base, entries), PathText(p));
  }

  lemma RecordedSomehow(diffs: seq<DiffRecord>, text: string)
    ensures Recorded(diffs, text) <==>
            DiffRecord(Added, text) in diffs || DiffRecord(Changed, text) in diffs || DiffRecord(Deleted, text) in diffs
  {
    if Recorded(diffs, text) {
      var i :| 0 <= i < |diffs| && diffs[i].path == text;
      var r := diffs[i];
      assert r in diffs;
      match r.change
      case Added => assert r == DiffRecord(Added, text);
      case Changed => assert r == DiffRecord(Changed, text);
      case Deleted => assert r == DiffRecord(Deleted, text);
    }
    RecordedAs(diffs, DiffRecord(Added, text));
    RecordedAs(diffs, DiffRecord(Changed, text));
    RecordedAs(diffs, DiffRecord(Deleted, text));
  }

  lemma RecordedAs(diffs: seq<DiffRecord>, r: DiffRecord)
    ensures r in diffs ==> Recorded(diffs, r.path)
  {
    if r in diffs {
      var i :| 0 <= i < |diffs| && diffs[i] == r;
    }
  }

  /** Conservation of contents: a file of the container has the bytes it has in the base, unless it is
      recorded as added or changed. */
  lemma UnrecordedFilesKeepBytes(base: Option<FsNode>, entries: seq<DirEntry>, p: Path)
    requires ValidEntries(entries) && ValidRoot(base) && NoWhiteouts(entries)
    requires p != [] && NoSlash(p) && !Skipped([], p[0])
    requires LookupIn(entries, p).Some? && LookupIn(entries, p).value.File?
    ensures || DiffRecord(Added, PathText(p)) in Comparison(base, entries)
            || DiffRecord(Changed, PathText(p)) in Comparison(base, entries)
            || (Lookup(base, p).Some? && Lookup(base, p).value.File?
                && Lookup(base, p).value.content == LookupIn(entries, p).value.content)
  {
    RecordsMeaning(base, entries, p);
  }

  /** A directory compared with itself gives no record exactly when the walk meets no marker in it. */
  lemma SelfComparison(mtime: int, length: nat, entries: seq<DirEntry>)
    requires ValidEntries(entries)
    ensures Comparison(Some(Dir(mtime, length, entries)), entries) == [] <==>
            forall ns :: LookupIn(entries, ns).Some? && Reached([], ns) ==> !(".wh." <= ns[|ns| - 1])
  {
    var base := Some(Dir(mtime, length, entries));
    var all := Comparison(base, entries);
    if all != [] {
      var r := all[0];
      ComparisonExactly(base, entries, r);
      NothingLost(entries, r);
      var ns :| Reports(entries, [], base, ns, r);
      assert [] + ns == ns;
    }
    if ns :| LookupIn(entries, ns).Some? && Reached([], ns) && ".wh." <= ns[|ns| - 1] {
      MarkerIsToldTo(base, entries, ns);
    }
  }

  lemma NothingLost(entries: seq<DirEntry>, r: DiffRecord)
    ensures forall ns :: !LostFrom(entries, [], entries, r, ns)
  {
    forall ns ensures !LostFrom(entries, [], entries, r, ns) {
      assert [] + ns == ns;
    }
  }

  lemma MarkerIsToldTo(base: Option<FsNode>, entries: seq<DirEntry>, ns: Path)
    requires ValidEntries(entries) && LookupIn(entries, ns).Some? && Reached([], ns) && IsWhiteout(ns[|ns| - 1])
    ensures DiffRecord(Deleted, PathText(Target(ns))) in Comparison(base, entries)
  {
    assert [] + ns == ns;
    var r := ToldIsRecorded(entries, base, ns);
  }

  /** A marker that is reached is recorded as the deletion of the path it hides. */
  lemma MarkerMeansDeleted(base: Option<FsNode>, entries: seq<DirEntry>, dir: Path, x: string)
    requires ValidEntries(entries)
    requires LookupIn(entries, dir + [".wh." + x]).Some? && Reached([], dir + [".wh." + x])
    ensures DiffRecord(Deleted, PathText(dir + [x])) in Comparison(base, entries)
  {
    MarkerTarget(dir, x);
    MarkerIsToldTo(base, entries, dir + [".wh." + x]);
  }

  /** The text of a path has a slash before every component. */
  lemma PathTextConcat(p: Path, name: string)
    ensures PathText([]) == "" && PathText([name]) == "/" + name
    ensures PathText(p + [name]) == PathText(p) + "/" + name
  {
    assert [name][..0] == [] && (p + [name])[..|p|] == p;
  }

  /** At the root, what only the container has is added unless it is a mount point or scaffolding of the
      runtime, and what only the base has is deleted unless it is a mount point. */
  lemma RootEntriesReported(base: Option<FsNode>, entries: seq<DirEntry>, name: string)
    requires ValidEntries(entries) && ValidRoot(base) && NoWhiteouts(entries) && '/' !in name
    ensures LookupIn(entries, [name]).Some? && Lookup(base, [name]).None? ==>
              (DiffRecord(Added, "/" + name) in Comparison(base, entries) <==>
               && name !in {"proc", "sys", "dev", "libboxr_perm.so", "libboxr_perm_x86_64.so", "boxr-busybox",
                            "boxr-init.sh", "boxr-run.sh", "boxr-exitcode", "logs.txt"}
               && !("boxr-exec-" <= name))
    ensures LookupIn(entries, [name]).None? && Lookup(base, [name]).Some? ==>
              (DiffRecord(Deleted, "/" + name) in Comparison(base, entries) <==> name !in {"proc", "sys", "dev"})
  {
    PathTextConcat([], name);
    RecordsMeaning(base, entries, [name]);
  }

  // ---------------------------------------------------------------------------------------
  // Each path at most once, in order

  ghost predicate DistinctPaths(diffs: seq<DiffRecord>) {
    forall i, j :: 0 <= i < j < |diffs| ==> diffs[i].path != diffs[j].path
  }

  lemma ConcatDistinct(a: seq<DiffRecord>, b: seq<DiffRecord>)
    requires DistinctPaths(a) && DistinctPaths(b)
    requires forall r, s :: r in a && s in b ==> r.path != s.path
    ensures DistinctPaths(a + b)
  {
    var all := a + b;
    forall i, j | 0 <= i < j < |all| ensures all[i].path != all[j].path {
      if i < |a| <= j {
        assert all[i] in a && all[j] in b;
      }
    }
  }

  /** The path that a record for this entry names: a marker's record names what the marker hides. */
  function Target(path: Path): Path
    requires path != []
  {
    var name := path[|path| - 1];
    if IsWhiteout(name) then path[..|path| - 1] + [name[|WHITEOUT_PREFIX|..]] else path
  }

  /** The walk gets to this path and has something to record there. */
  predicate Told(entries: seq<DirEntry>, rel: Path, base: Option<FsNode>, ns: Path) {
    && LookupIn(entries, ns).Some? && Reached(rel, ns)
    && OwnRecord(rel + ns, LookupIn(entries, ns).value, base).Some?
  }

  /** No two paths have records that name the same path. */
  ghost predicate Unrivalled(entries: seq<DirEntry>, rel: Path, base: Option<FsNode>) {
    forall ns, ms :: && Told(entries, rel, base, ns) && Told(entries, rel, base, ms)
                     && Target(rel + ns) == Target(rel + ms) ==>
                       ns == ms
  }

  lemma ToldParts(entries: seq<DirEntry>, rel: Path, base: Option<FsNode>, ns: Path)
    requires entries != [] && ValidEntries(entries)
    ensures Told(entries[1..], rel, base, ns) ==> Told(entries, rel, base, ns)
    ensures var e := entries[0];
            !Skipped(rel, e.name) && !IsWhiteout(e.name) && e.node.Dir? ==>
              && rel + [e.name] + ns == rel + ([e.name] + ns)
              && (Told(e.node.entries, rel + [e.name], base, ns) ==> Told(entries, rel, base, [e.name] + ns))
  {
    var e := entries[0];
    assert rel + [e.name] + ns == rel + ([e.name] + ns);
    if Told(entries[1..], rel, base, ns) {
      LookupNeedsName(entries[1..], ns);
      ValidRest(entries);
      LookupCons(entries, ns);
    }
    if !Skipped(rel, e.name) && !IsWhiteout(e.name) && e.node.Dir? && Told(e.node.entries, rel + [e.name], base, ns) {
      var r := OwnRecord(rel + [e.name] + ns, LookupIn(e.node.entries, ns).value, base).value;
      BelowHead(entries, rel, base, ns, r);
    }
  }

  lemma UnrivalledRest(entries: seq<DirEntry>, rel: Path, base: Option<FsNode>)
    requires entries != [] && ValidEntries(entries) && Unrivalled(entries, rel, base)
    ensures Unrivalled(entries[1..], rel, base)
  {
    forall ns
      ensures Told(entries[1..], rel, base, ns) ==> Told(entries, rel, base, ns)
    {
      ToldParts(entries, rel, base, ns);
    }
  }

  lemma UnrivalledBelow(entries: seq<DirEntry>, rel: Path, base: Option<FsNode>)
    requires entries != [] && ValidEntries(entries) && Unrivalled(entries, rel, base)
    requires var e := entries[0]; !Skipped(rel, e.name) && !IsWhiteout(e.name) && e.node.Dir?
    ensures Unrivalled(entries[0].node.entries, rel + [entries[0].name], base)
  {
    var e := entries[0];
    forall ns, ms | && Told(e.node.entries, rel + [e.name], base, ns)
                    && Told(e.node.entries, rel + [e.name], base, ms)
                    && Target(rel + [e.name] + ns) == Target(rel + [e.name] + ms)
      ensures ns == ms
    {
      ToldParts(entries, rel, base, ns);
      ToldParts(entries, rel, base, ms);
      assert [e.name] + ns == [e.name] + ms;
      assert ns == ([e.name] + ns)[1..] && ms == ([e.name] + ms)[1..];
    }
  }

  lemma ReportTarget(entries: seq<DirEntry>, rel: Path, base: Option<FsNode>, ns: Path, r: DiffRecord)
    requires ValidEntries(entries) && NoSlash(rel) && Reports(entries, rel, base, ns, r)
    ensures Told(entries, rel, base, ns) && HasName(entries, ns[0])
    ensures r.path == PathText(Target(rel + ns)) && NoSlash(Target(rel + ns))
  {
    LookupNoSlash(entries, ns);
    LookupNeedsName(entries, ns);
    var path := rel + ns;
    OwnRecordNames(path, LookupIn(entries, ns).value, base);
    assert NoSlash(path);
    var name := path[|path| - 1];
    if IsWhiteout(name) {
      assert forall k :: 0 <= k < |name| - |WHITEOUT_PREFIX| ==> name[|WHITEOUT_PREFIX|..][k] in name;
    }
  }

  /** The path behind a record of the walk. */
  lemma RecordPath(entries: seq<DirEntry>, rel: Path, base: Option<FsNode>, r: DiffRecord) returns (ns: Path)
    requires ValidEntries(entries) && NoSlash(rel)
    requires r in WalkRecords(entries, rel, base)
    ensures Told(entries, rel, base, ns) && HasName(entries, ns[0])
    ensures r.path == PathText(Target(rel + ns)) && NoSlash(Target(rel + ns))
  {
    WalkRecordsExactly(entries, rel, base, r);
    ns :| Reports(entries, rel, base, ns, r);
    ReportTarget(entries, rel, base, ns, r);
  }

  lemma {:induction false} WalkDistinct(entries: seq<DirEntry>, rel: Path, base: Option<FsNode>)
    requires ValidEntries(entries) && NoSlash(rel) && Unrivalled(entries, rel, base)
    ensures DistinctPaths(WalkRecords(entries, rel, base))
    decreases entries, 0
  {
    if entries == [] {
    } else {
      var e, rest := entries[0], entries[1..];
      ValidRest(entries);
      UnrivalledRest(entries, rel, base);
      WalkEntryDistinct(entries, rel, base);
      WalkDistinct(rest, rel, base);
      forall r, s | r in WalkEntry(e, rel, base) && s in WalkRecords(rest, rel, base)
        ensures r.path != s.path
      {
        var ns := RecordPath(rest, rel, base, s);
        ToldParts(entries, rel, base, ns);
        var ms := HeadRecordPath(entries, rel, base, r);
        if r.path == s.path {
          PathTextInjective(Target(rel + ns), Target(rel + ms));
        }
      }
      ConcatDistinct(WalkEntry(e, rel, base), WalkRecords(rest, rel, base));
    }
  }

  lemma HeadRecordPath(entries: seq<DirEntry>, rel: Path, base: Option<FsNode>, r: DiffRecord) returns (ns: Path)
    requires entries != [] && ValidEntries(entries) && NoSlash(rel)
    requires r in WalkEntry(entries[0], rel, base)
    ensures Told(entries, rel, base, ns) && ns[0] == entries[0].name
    ensures r.path == PathText(Target(rel + ns)) && NoSlash(Target(rel + ns))
  {
    WalkEntryExactly(entries, rel, base, r);
    ns :| Reports(entries, rel, base, ns, r) && ns[0] == entries[0].name;
    ReportTarget(entries, rel, base, ns, r);
  }

  lemma {:induction false} WalkEntryDistinct(entries: seq<DirEntry>, rel: Path, base: Option<FsNode>)
    requires entries != [] && ValidEntries(entries) && NoSlash(rel) && Unrivalled(entries, rel, base)
    ensures DistinctPaths(WalkEntry(entries[0], rel, base))
    decreases entries[0], 1
  {
    var e := entries[0];
    ValidRest(entries);
    if !Skipped(rel, e.name) && !IsWhiteout(e.name) && e.node.Dir? {
      UnrivalledBelow(entries, rel, base);
      var path := rel + [e.name];
      var own := AsSeq(OwnRecord(path, e.node, base));
      WalkDistinct(e.node.entries, path, base);
      forall r, s | r in own && s in WalkRecords(e.node.entries, path, base)
        ensures r.path != s.path
      {
        var ns := RecordPath(e.node.entries, path, base, s);
        ToldParts(entries, rel, base, ns);
        LookupCons(entries, [e.name]);
        assert Reports(entries, rel, base, [e.name], r);
        ReportTarget(entries, rel, base, [e.name], r);
        assert [e.name] != [e.name] + ns;
        if r.path == s.path {
          PathTextInjective(Target(path), Target(path + ns));
        }
      }
      ConcatDistinct(own, WalkRecords(e.node.entries, path, base));
    }
  }

  lemma {:induction false} CheckDistinct(entries: seq<DirEntry>, rel: Path, container: seq<DirEntry>, seen: set<Path>,
                                          diffs: seq<DiffRecord>)
    requires DistinctPaths(diffs)
    ensures DistinctPaths(CheckRecords(entries, rel, container, seen, diffs))
    decreases entries, 0
  {
    if entries == [] {
    } else {
      CheckEntryDistinct(entries[0], rel, container, seen, diffs);
      CheckDistinct(entries[1..], rel, container, seen, CheckEntry(entries[0], rel, container, seen, diffs));
    }
  }

  lemma {:induction false} CheckEntryDistinct(e: DirEntry, rel: Path, container: seq<DirEntry>, seen: set<Path>,
                                               diffs: seq<DiffRecord>)
    requires DistinctPaths(diffs)
    ensures DistinctPaths(CheckEntry(e, rel, container, seen, diffs))
    decreases e, 1
  {
    var noted := diffs + AsSeq(LostRecord(rel + [e.name], container, seen, diffs));
    assert DistinctPaths(noted);
    if e.node.Dir? {
      CheckDistinct(e.node.entries, rel + [e.name], container, seen, noted);
    }
  }

  lemma {:induction false} InsertDistinct(r: DiffRecord, diffs: seq<DiffRecord>)
    requires DistinctPaths(diffs) && !Recorded(diffs, r.path)
    ensures DistinctPaths(Insert(r, diffs))
  {
    if diffs == [] || TextLeq(r.path, diffs[0].path) {
    } else {
      var rest := Insert(r, diffs[1..]);
      assert !Recorded(diffs[1..], r.path);
      InsertDistinct(r, diffs[1..]);
      forall j | 0 <= j < |rest| ensures rest[j].path != diffs[0].path {
        assert rest[j] in multiset(rest);
        assert rest[j] == r || rest[j] in diffs[1..];
      }
    }
  }

  lemma {:induction false} SortDistinct(diffs: seq<DiffRecord>)
    requires DistinctPaths(diffs)
    ensures DistinctPaths(SortByPath(diffs))
  {
    if diffs == [] {
    } else {
      var rest := SortByPath(diffs[1..]);
      SortDistinct(diffs[1..]);
      forall j | 0 <= j < |rest| ensures rest[j].path != diffs[0].path {
        assert rest[j] in multiset(rest);
        assert rest[j] in diffs[1..];
      }
      InsertDistinct(diffs[0], rest);
    }
  }

  lemma {:induction false} CheckKeeps(entries: seq<DirEntry>, rel: Path, container: seq<DirEntry>, seen: set<Path>,
                                       diffs: seq<DiffRecord>)
    ensures diffs <= CheckRecords(entries, rel, container, seen, diffs)
    decreases entries, 0
  {
    if entries == [] {
    } else {
      var e := entries[0];
      CheckEntryKeeps(e, rel, container, seen, diffs);
      CheckKeeps(entries[1..], rel, container, seen, CheckEntry(e, rel, container, seen, diffs));
    }
  }

  lemma {:induction false} CheckEntryKeeps(e: DirEntry, rel: Path, container: seq<DirEntry>, seen: set<Path>,
                                            diffs: seq<DiffRecord>)
    ensures diffs <= CheckEntry(e, rel, container, seen, diffs)
    decreases e, 1
  {
    var noted := diffs + AsSeq(LostRecord(rel + [e.name], container, seen, diffs));
    if e.node.Dir? {
      CheckKeeps(e.node.entries, rel + [e.name], container, seen, noted);
    }
  }

  /** A marker that hides x stands beside an entry x that is recorded as well. */
  predicate MarkerBesideEntry(entries: seq<DirEntry>, base: Option<FsNode>, dir: Path, x: string) {
    !IsWhiteout(x) && Told(entries, [], base, dir + [WHITEOUT_PREFIX + x]) && Told(entries, [], base, dir + [x])
  }

  lemma MarkerTarget(dir: Path, x: string)
    ensures Target(dir + [WHITEOUT_PREFIX + x]) == dir + [x]
    ensures !IsWhiteout(x) ==> Target(dir + [x]) == dir + [x]
  {
    assert (WHITEOUT_PREFIX + x)[|WHITEOUT_PREFIX|..] == x;
  }

  /** A path is its parent and its last name; for a marker that name is the prefix and a rest. */
  lemma PathFromTarget(p: Path)
    requires p != []
    ensures var t := Target(p);
            var dir, x := t[..|t| - 1], t[|t| - 1];
            p == if IsWhiteout(p[|p| - 1]) then dir + [WHITEOUT_PREFIX + x] else dir + [x]
  {
    var name := p[|p| - 1];
    assert p == p[..|p| - 1] + [name];
    if IsWhiteout(name) {
      assert name == WHITEOUT_PREFIX + name[|WHITEOUT_PREFIX|..];
    }
  }

  /** Two paths name the same one only when one is a marker beside the other. */
  lemma RivalsAreMarkerAndEntry(entries: seq<DirEntry>, base: Option<FsNode>, ns: Path, ms: Path)
    requires Told(entries, [], base, ns) && Told(entries, [], base, ms) && ns != ms
    requires Target(ns) == Target(ms)
    ensures exists dir, x :: MarkerBesideEntry(entries, base, dir, x)
  {
    PathFromTarget(ns);
    PathFromTarget(ms);
    var t := Target(ns);
    assert MarkerBesideEntry(entries, base, t[..|t| - 1], t[|t| - 1]);
  }

  lemma UnrivalledIff(entries: seq<DirEntry>, base: Option<FsNode>)
    requires forall dir, x :: !MarkerBesideEntry(entries, base, dir, x)
    ensures Unrivalled(entries, [], base)
  {
    forall ns, ms | Told(entries, [], base, ns) && Told(entries, [], base, ms) && Target([] + ns) == Target([] + ms)
      ensures ns == ms
    {
      assert [] + ns == ns && [] + ms == ms;
      if ns != ms {
        RivalsAreMarkerAndEntry(entries, base, ns, ms);
      }
    }
  }

  lemma WalkedStays(base: Option<FsNode>, entries: seq<DirEntry>, r: DiffRecord)
    requires r in WalkRecords(entries, [], base)
    ensures r in Comparison(base, entries)
  {
    var walked := WalkRecords(entries, [], base);
    assert r in multiset(walked);
    if base.Some? && base.value.Dir? {
      var checked := CheckRecords(base.value.entries, [], entries, WalkSeen(entries, []), walked);
      CheckKeeps(base.value.entries, [], entries, WalkSeen(entries, []), walked);
      assert r in checked;
      assert r in multiset(SortByPath(checked));
    } else {
      assert r in multiset(SortByPath(walked));
    }
  }

  lemma ToldIsRecorded(entries: seq<DirEntry>, base: Option<FsNode>, p: Path) returns (r: DiffRecord)
    requires ValidEntries(entries) && Told(entries, [], base, p)
    ensures r in Comparison(base, entries) && r.path == PathText(Target(p))
    ensures r.change == Deleted <==> IsWhiteout(p[|p| - 1])
  {
    var node := LookupIn(entries, p).value;
    r := OwnRecord([] + p, node, base).value;
    OwnRecordNames([] + p, node, base);
    assert [] + p == p;
    assert Reports(entries, [], base, p, r);
    WalkRecordsExactly(entries, [], base, r);
    WalkedStays(base, entries, r);
  }

  /** A marker beside a recorded entry names its path a second time. */
  lemma MarkerDoubles(base: Option<FsNode>, entries: seq<DirEntry>, dir: Path, x: string)
    requires ValidEntries(entries) && MarkerBesideEntry(entries, base, dir, x)
    ensures !DistinctPaths(Comparison(base, entries))
  {
    MarkerTarget(dir, x);
    var r := ToldIsRecorded(entries, base, dir + [WHITEOUT_PREFIX + x]);
    var s := ToldIsRecorded(entries, base, dir + [x]);
    assert r.change == Deleted && s.change != Deleted;
    SamePathTwice(Comparison(base, entries), r, s);
  }

  lemma SamePathTwice(diffs: seq<DiffRecord>, r: DiffRecord, s: DiffRecord)
    requires r in diffs && s in diffs && r != s && r.path == s.path
    ensures !DistinctPaths(diffs)
  {
    var i :| 0 <= i < |diffs| && diffs[i] == r;
    var j :| 0 <= j < |diffs| && diffs[j] == s;
    assert i < j || j < i;
  }

  /** The result is sorted by path, and names each path at most once exactly when no whiteout marker
      stands beside an entry of the name it hides that has a record of its own. */
  lemma ComparisonSortedAndDistinct(base: Option<FsNode>, entries: seq<DirEntry>)
    requires ValidEntries(entries)
    ensures Sorted(Comparison(base, entries))
    ensures DistinctPaths(Comparison(base, entries)) <==>
            forall dir, x :: !MarkerBesideEntry(entries, base, dir, x)
  {
    var walked := WalkRecords(entries, [], base);
    var all := if base.Some? && base.value.Dir? then
      CheckRecords(base.value.entries, [], entries, WalkSeen(entries, []), walked) else walked;
    SortByPathSorts(all);
    if dir, x :| MarkerBesideEntry(entries, base, dir, x) {
      MarkerDoubles(base, entries, dir, x);
    } else {
      UnrivalledIff(entries, base);
      WalkDistinct(entries, [], base);
      if base.Some? && base.value.Dir? {
        CheckDistinct(base.value.entries, [], entries, WalkSeen(entries, []), walked);
      }
      SortDistinct(all);
    }
  }

  /** In particular without whiteout markers. */
  lemma PlainComparisonDistinct(base: Option<FsNode>, entries: seq<DirEntry>)
    requires ValidEntries(entries) && NoWhiteouts(entries)
    ensures DistinctPaths(Comparison(base, entries))
  {
    forall dir: Path, x ensures !MarkerBesideEntry(entries, base, dir, x) {
      var p := dir + [WHITEOUT_PREFIX + x];
      if Told(entries, [], base, p) {
        assert IsWhiteout(p[|dir|]);
      }
    }
    ComparisonSortedAndDistinct(base, entries);
  }

  /** Two entries of the root that are not skipped, one of them the marker for the other, which the
      base has not. */
  lemma MarkerBesideAdded(entries: seq<DirEntry>, x: string)
    requires |entries| == 2 && ValidEntries(entries)
    requires entries[0].name == WHITEOUT_PREFIX + x && entries[1].name == x
    requires !IsWhiteout(x) && !Skipped([], x) && !Skipped([], WHITEOUT_PREFIX + x)
    ensures !DistinctPaths(Comparison(None, entries))
  {
    LookupCons(entries, [entries[0].name]);
    LookupCons(entries, [x]);
    LookupCons(entries[1..], [x]);
    MarkerDoubles(None, entries, [], x);
  }

  /** For one: `.wh.x` beside a new file `x`. */
  lemma MarkerBesideAddedExample()
    ensures var entries := [DirEntry(".wh.x", File(0, [])), DirEntry("x", File(0, []))];
            ValidEntries(entries) && !DistinctPaths(Comparison(None, entries))
  {
    var entries := [DirEntry(".wh.x", File(0, [])), DirEntry("x", File(0, []))];
    assert WHITEOUT_PREFIX + "x" == ".wh.x" && "x"[0] != '.' && |".wh.x"| == 5;
    assert '/' !in "x" && '/' !in ".wh.x" && "x" != ".wh.x";
    assert ".wh.x"[0] == '.';
    MarkerBesideAdded(entries, "x");
  }
}
