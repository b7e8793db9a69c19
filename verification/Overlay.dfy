/** The declarative overlay of the OCI Image Format Specification (layer.md, "Applying
    Changesets", "Whiteouts" and "Opaque Whiteout") and its agreement with `unpack_layer`. */
module Overlay {
  import opened Wrappers
  import opened Markers
  import opened Tree
  import opened Layers

  // ---------------------------------------------------------------------------------------
  // What a layer says about a path

  /** The entry is at p or below it, so the layer itself contains p. */
  predicate Touches(a: Action, p: Path) {
    a.Add? && p != [] && p <= a.path
  }

  predicate Touched(acts: seq<Action>, p: Path) {
    exists i :: 0 <= i < |acts| && Touches(acts[i], p)
  }

  predicate Clears(a: Action, p: Path) {
    a.Opaque? && a.dir < p
  }

  predicate Cleared(acts: seq<Action>, p: Path) {
    exists i :: 0 <= i < |acts| && Clears(acts[i], p)
  }

  /** A whiteout names something only if its name is that of a possible entry. */
  predicate Proper(name: string) { name != "" && name != "." }

  predicate WhitesOut(a: Action, p: Path) {
    a.Whiteout? && Proper(a.name) && a.dir + [a.name] <= p
  }

  predicate WhitedOut(acts: seq<Action>, p: Path) {
    exists i :: 0 <= i < |acts| && WhitesOut(acts[i], p)
  }

  /** What an entry at p or below it puts at p: itself, or a directory. */
  function OwnNode(a: Action, p: Path): Node {
    if a.Add? && a.path == p then a.node else Dir
  }

  /** What the layer itself holds at p: its last entry there, or the directory implied by an
      entry below. */
  function LayerNode(acts: seq<Action>, p: Path): Option<Node> {
    if acts == [] then None
    else
      var a := acts[|acts| - 1];
      if Touches(a, p) then Some(OwnNode(a, p)) else LayerNode(acts[..|acts| - 1], p)
  }

  /** The overlay at one path: the layer's own node, or else the lower one unless it is hidden
      by a whiteout of it or of something above it, or by an opaque directory above it. */
  function OverlayNode(acts: seq<Action>, p: Path, below: Option<Node>): Option<Node> {
    if Touched(acts, p) then LayerNode(acts, p)
    else if Hides(acts, p) then None
    else below
  }

  predicate Hides(acts: seq<Action>, p: Path) {
    Cleared(acts, p) || WhitedOut(acts, p)
  }

  ghost predicate Agrees(result: Outcome, acts: seq<Action>, lower: Tree) {
    result.Done? && forall p :: p != [] ==> Get(result.tree, p) == OverlayNode(acts, p, Get(lower, p))
  }

  lemma ClearedSnoc(acts: seq<Action>, p: Path)
    requires acts != []
    ensures Cleared(acts, p) <==> Cleared(acts[..|acts| - 1], p) || Clears(acts[|acts| - 1], p)
  {
    var init := acts[..|acts| - 1];
    assert forall i :: 0 <= i < |init| ==> init[i] == acts[i];
  }

  lemma TouchedSnoc(acts: seq<Action>, p: Path)
    requires acts != []
    ensures Touched(acts, p) <==> Touched(acts[..|acts| - 1], p) || Touches(acts[|acts| - 1], p)
  {
    var init := acts[..|acts| - 1];
    assert forall i :: 0 <= i < |init| ==> init[i] == acts[i];
  }

  lemma WhitedOutSnoc(acts: seq<Action>, p: Path)
    requires acts != []
    ensures WhitedOut(acts, p) <==> WhitedOut(acts[..|acts| - 1], p) || WhitesOut(acts[|acts| - 1], p)
  {
    var init := acts[..|acts| - 1];
    assert forall i :: 0 <= i < |init| ==> init[i] == acts[i];
  }

  // ---------------------------------------------------------------------------------------
  // The tree in the middle of the pass

  /** The fate of one path: a marker above it removes it, an entry at or below it is put there
      unless that would change a file into a directory or the other way round. */
  function NodeAt(acts: seq<Action>, lower: Tree, p: Path): Option<Node> {
    if acts == [] then Get(lower, p)
    else
      var a, before := acts[|acts| - 1], NodeAt(acts[..|acts| - 1], lower, p);
      if Touches(a, p) then if Admits(before, OwnNode(a, p)) then Some(OwnNode(a, p)) else before
      else if Clears(a, p) then None
      else before
  }

  /** Nothing is there, or a node of the same kind. */
  predicate Admits(before: Option<Node>, node: Node) {
    before.Some? ==> before.value.Dir? == node.Dir?
  }

  /** The invariant of the pass, for every archive and every tree: as long as no entry has failed,
      each path on disk has had its own fate, whatever the entries did elsewhere. */
  lemma {:induction false} PassInvariant(acts: seq<Action>, lower: Tree)
    requires ValidTree(lower) && Apply(lower, acts).Done?
    ensures forall p :: p != [] ==> Get(Apply(lower, acts).tree, p) == NodeAt(acts, lower, p)
  {
    if acts == [] {
    } else {
      var init, a := acts[..|acts| - 1], acts[|acts| - 1];
      PassInvariant(init, lower);
      ApplyValid(lower, init);
      var before := Apply(lower, init).tree;
      forall p | p != []
        ensures Get(Apply(lower, acts).tree, p) == NodeAt(acts, lower, p)
      {
        if Touches(a, p) { AddAt(before, a, p); } else { StepElsewhere(before, a, p); }
      }
    }
  }

  /** A step at other paths leaves p alone, and an opaque marker above p removes it. */
  lemma StepElsewhere(before: Tree, a: Action, p: Path)
    requires ValidTree(before) && Step(before, a).Done? && p != [] && !Touches(a, p)
    ensures Get(Step(before, a).tree, p) == if Clears(a, p) then None else Get(before, p)
  {
    match a
    case Opaque(d) =>
      if d != [] && d !in before && d < p {
        assert p !in before;
      }
    case Add(path, _) =>
      assert p !in Parents(path) && p != path;
    case _ =>
  }

  /** What adding an entry puts at its path and at the paths above it. */
  lemma AddAt(before: Tree, a: Action, p: Path)
    requires Step(before, a).Done? && Touches(a, p)
    ensures Get(Step(before, a).tree, p) ==
            if Admits(Get(before, p), OwnNode(a, p)) then Some(OwnNode(a, p)) else Get(before, p)
  {
    assert p in Parents(a.path) <==> p != a.path;
  }

  // ---------------------------------------------------------------------------------------
  // When the pass goes through

  predicate FileAt(acts: seq<Action>, lower: Tree, p: Path) {
    NodeAt(acts, lower, p).Some? && NodeAt(acts, lower, p).value.File?
  }

  /** The entry is acceptable, and no file stands where it needs a directory. */
  ghost predicate Passes(before: seq<Action>, a: Action, lower: Tree) {
    && !a.Reject?
    && (a.Add? ==> forall q :: q in Parents(a.path) ==> !FileAt(before, lower, q))
    && (a.Opaque? && a.dir != [] ==> !FileAt(before, lower, a.dir))
  }

  ghost predicate Unblocked(acts: seq<Action>, lower: Tree) {
    forall i :: 0 <= i < |acts| ==> Passes(acts[..i], acts[i], lower)
  }

  lemma UnblockedSnoc(acts: seq<Action>, lower: Tree)
    requires acts != []
    ensures Unblocked(acts, lower) <==>
            Unblocked(acts[..|acts| - 1], lower) && Passes(acts[..|acts| - 1], acts[|acts| - 1], lower)
  {
    var init := acts[..|acts| - 1];
    assert forall i :: 0 <= i < |init| ==> init[i] == acts[i] && init[..i] == acts[..i];
  }

  /** The pass goes through exactly when each entry, as it is reached, finds directories where it
      needs them. */
  lemma {:induction false} PassSucceedsIffUnblocked(acts: seq<Action>, lower: Tree)
    requires ValidTree(lower)
    ensures Apply(lower, acts).Done? <==> Unblocked(acts, lower)
  {
    if acts == [] {
    } else {
      var init := acts[..|acts| - 1];
      PassSucceedsIffUnblocked(init, lower);
      UnblockedSnoc(acts, lower);
      if Apply(lower, init).Done? {
        PassInvariant(init, lower);
        StepPasses(Apply(lower, init).tree, acts, lower);
      }
    }
  }

  lemma StepPasses(before: Tree, acts: seq<Action>, lower: Tree)
    requires acts != []
    requires forall q :: q != [] ==> Get(before, q) == NodeAt(acts[..|acts| - 1], lower, q)
    ensures Step(before, acts[|acts| - 1]).Done? <==> Passes(acts[..|acts| - 1], acts[|acts| - 1], lower)
  {
    var init, a := acts[..|acts| - 1], acts[|acts| - 1];
    assert forall q :: q != [] ==> (FileAt(init, lower, q) <==> q in before && before[q].File?) by {
      forall q | q != [] ensures FileAt(init, lower, q) <==> q in before && before[q].File? {
        assert Get(before, q) == NodeAt(init, lower, q);
      }
    }
  }

  // ---------------------------------------------------------------------------------------
  // The removals

  /** What an improper whiteout does to a node that is there: an empty name stands for the directory
      of the marker itself, and "." for all that is in it. */
  predicate Empties(a: Action, p: Path, node: Node) {
    && a.Whiteout? && !Proper(a.name)
    && (a.dir < p || (a.dir == p && a.name == "" && node.Dir?))
  }

  predicate Emptied(acts: seq<Action>, p: Path, node: Node) {
    exists i :: 0 <= i < |acts| && Empties(acts[i], p, node)
  }

  lemma EmptiedSnoc(acts: seq<Action>, p: Path, node: Node)
    requires acts != []
    ensures Emptied(acts, p, node) <==> Emptied(acts[..|acts| - 1], p, node) || Empties(acts[|acts| - 1], p, node)
  {
    var init := acts[..|acts| - 1];
    assert forall i :: 0 <= i < |init| ==> init[i] == acts[i];
  }

  lemma RemovalAt(tree: Tree, a: Action, p: Path)
    requires ValidTree(tree) && a.Whiteout?
    ensures Get(Remove(tree, Removal(a.dir, a.name)), p) ==
            if p in tree && (WhitesOut(a, p) || Empties(a, p, tree[p])) then None else Get(tree, p)
  {
    if Proper(a.name) {
      assert WhitesOut(a, p) <==> a.dir + [a.name] <= p;
    } else if p in tree {
      assert p != [];
      if a.dir < p && a.dir != [] {
        assert a.dir in tree && tree[a.dir].Dir?;
      }
      assert a.dir <= p <==> a.dir < p || a.dir == p;
    }
  }

  /** The removals take away, in whatever order they were noted, what some whiteout names and what
      an improper one empties; nothing else. */
  lemma {:induction false} RemovalsAt(tree: Tree, acts: seq<Action>, p: Path)
    requires ValidTree(tree)
    ensures Get(RemoveAll(tree, Pending(acts)), p) ==
            if p in tree && (WhitedOut(acts, p) || Emptied(acts, p, tree[p])) then None else Get(tree, p)
  {
    if acts == [] {
    } else {
      var init, a := acts[..|acts| - 1], acts[|acts| - 1];
      RemovalsAt(tree, init, p);
      WhitedOutSnoc(acts, p);
      if p in tree { EmptiedSnoc(acts, p, tree[p]); }
      if a.Whiteout? {
        var pending := Pending(acts);
        assert pending[..|pending| - 1] == Pending(init);
        RemoveAllValid(tree, Pending(init));
        RemovalAt(RemoveAll(tree, Pending(init)), a, p);
      } else {
        assert Pending(acts) == Pending(init);
      }
    }
  }

  // ---------------------------------------------------------------------------------------
  // Layers that are unpacked correctly

  /** The last entry at or below p found nothing there, or a node of the kind that it puts there. */
  predicate LastFits(acts: seq<Action>, lower: Tree, p: Path) {
    acts != [] ==>
      var init, a := acts[..|acts| - 1], acts[|acts| - 1];
      if Touches(a, p) then Admits(NodeAt(init, lower, p), OwnNode(a, p)) else LastFits(init, lower, p)
  }

  /** At no added path is the last entry lost to a node of the other kind. */
  ghost predicate KeepsKinds(acts: seq<Action>, lower: Tree) {
    forall i :: 0 <= i < |acts| && acts[i].Add? ==> LastFits(acts, lower, acts[i].path)
  }

  /** Each opaque marker precedes the entries below its directory, or they come again after it. */
  ghost predicate OpaqueFirst(acts: seq<Action>) {
    forall i, j {:trigger acts[i], acts[j]} ::
      0 <= i < j < |acts| && acts[i].Add? && Clears(acts[j], acts[i].path) ==>
        exists k :: j < k < |acts| && Touches(acts[k], acts[i].path)
  }

  /** No explicit whiteout names a path at or above one that the same layer adds. */
  ghost predicate NoSelfWhiteout(acts: seq<Action>) {
    forall i, j {:trigger acts[i], acts[j]} ::
      0 <= i < |acts| && 0 <= j < |acts| && acts[i].Add? && acts[i].path != [] ==> !WhitesOut(acts[j], acts[i].path)
  }

  /** An improper whiteout finds nothing but what a proper one removes as well. */
  ghost predicate EmptiesNothing(acts: seq<Action>, lower: Tree) {
    forall j, p {:trigger acts[j], NodeAt(acts, lower, p)} ::
      && 0 <= j < |acts| && p != [] && NodeAt(acts, lower, p).Some?
      && Empties(acts[j], p, NodeAt(acts, lower, p).value) ==>
        WhitedOut(acts, p)
  }

  ghost predicate WellFormed(acts: seq<Action>, lower: Tree) {
    && Unblocked(acts, lower) && KeepsKinds(acts, lower)
    && OpaqueFirst(acts) && NoSelfWhiteout(acts) && EmptiesNothing(acts, lower)
  }

  /** p was added, and no later opaque marker removed it again. */
  predicate Live(acts: seq<Action>, p: Path) {
    acts != [] &&
    var a := acts[|acts| - 1];
    Touches(a, p) || (!Clears(a, p) && Live(acts[..|acts| - 1], p))
  }

  /** What the layer holds at a path comes from one of its entries. */
  lemma {:induction false} LayerNodeIsLastTouch(acts: seq<Action>, p: Path)
    ensures LayerNode(acts, p).Some? <==> Touched(acts, p)
    ensures Touched(acts, p) ==>
              exists i :: 0 <= i < |acts| && Touches(acts[i], p) && LayerNode(acts, p) == Some(OwnNode(acts[i], p))
  {
    if acts == [] {
    } else {
      var init := acts[..|acts| - 1];
      LayerNodeIsLastTouch(init, p);
      TouchedSnoc(acts, p);
      assert forall i :: 0 <= i < |init| ==> init[i] == acts[i];
      if Touches(acts[|acts| - 1], p) {
      } else if Touched(init, p) {
        var i :| 0 <= i < |init| && Touches(init[i], p) && LayerNode(init, p) == Some(OwnNode(init[i], p));
        assert Touches(acts[i], p);
      }
    }
  }

  lemma {:induction false} LayerNodeExists(acts: seq<Action>, p: Path)
    ensures LayerNode(acts, p).Some? <==> Touched(acts, p)
    ensures Live(acts, p) ==> Touched(acts, p)
  {
    if acts == [] {
    } else {
      LayerNodeExists(acts[..|acts| - 1], p);
      TouchedSnoc(acts, p);
    }
  }

  /** What the layer holds at p is there after the pass exactly when p is live and its last entry
      found a place; where the layer holds nothing, the lower node is there unless it was cleared. */
  lemma {:induction false} NodeAtMeaning(acts: seq<Action>, lower: Tree, p: Path)
    ensures Touched(acts, p) ==>
              (NodeAt(acts, lower, p) == LayerNode(acts, p) <==> Live(acts, p) && LastFits(acts, lower, p))
    ensures !Touched(acts, p) ==> NodeAt(acts, lower, p) == if Cleared(acts, p) then None else Get(lower, p)
  {
    if acts == [] {
    } else {
      NodeAtMeaning(acts[..|acts| - 1], lower, p);
      TouchedSnoc(acts, p);
      ClearedSnoc(acts, p);
      LayerNodeExists(acts, p);
    }
  }

  /** Live means added at or below p with no later opaque marker above p. */
  lemma {:induction false} LiveMeaning(acts: seq<Action>, p: Path)
    ensures Live(acts, p) <==>
            exists i :: && 0 <= i < |acts| && Touches(acts[i], p)
                        && forall j :: i < j < |acts| ==> !Clears(acts[j], p)
  {
    if acts == [] {
    } else {
      var init := acts[..|acts| - 1];
      var a := acts[|acts| - 1];
      LiveMeaning(init, p);
      assert forall i :: 0 <= i < |init| ==> init[i] == acts[i];
      if Touches(a, p) {
        assert Touches(acts[|init|], p);
      } else if Live(acts, p) {
        var i :| 0 <= i < |init| && Touches(init[i], p) && forall j :: i < j < |init| ==> !Clears(init[j], p);
        assert Touches(acts[i], p);
        forall j | i < j < |acts| ensures !Clears(acts[j], p) {
          if j < |init| { assert !Clears(init[j], p); }
        }
      }
    }
  }

  lemma LastTouch(acts: seq<Action>, p: Path) returns (i: nat)
    requires Touched(acts, p)
    ensures i < |acts| && Touches(acts[i], p)
    ensures forall j :: i < j < |acts| ==> !Touches(acts[j], p)
  {
    i :| i < |acts| && Touches(acts[i], p);
    while exists j :: i < j < |acts| && Touches(acts[j], p)
      invariant i < |acts| && Touches(acts[i], p)
      decreases |acts| - i
    {
      var j :| i < j < |acts| && Touches(acts[j], p);
      i := j;
    }
  }

  /** Opaque markers come first exactly when everything the layer adds survives the pass. */
  lemma OpaqueFirstMeansAllLive(acts: seq<Action>)
    ensures OpaqueFirst(acts) <==> forall p :: Touched(acts, p) ==> Live(acts, p)
  {
    if OpaqueFirst(acts) {
      forall p | Touched(acts, p) ensures Live(acts, p) {
        var i := LastTouch(acts, p);
        forall j | i < j < |acts| ensures !Clears(acts[j], p) {
          assert forall k :: j < k < |acts| && Touches(acts[k], acts[i].path) ==> Touches(acts[k], p);
        }
        LiveMeaning(acts, p);
      }
    }
    if forall p :: Touched(acts, p) ==> Live(acts, p) {
      forall i, j | 0 <= i < j < |acts| && acts[i].Add? && Clears(acts[j], acts[i].path)
        ensures exists k :: j < k < |acts| && Touches(acts[k], acts[i].path)
      {
        var p := acts[i].path;
        assert Touches(acts[i], p);
        assert Live(acts, p);
        LiveMeaning(acts, p);
        var k :| 0 <= k < |acts| && Touches(acts[k], p) && forall j :: k < j < |acts| ==> !Clears(acts[j], p);
        assert j != k;
      }
    }
  }

  /** No added path is whited out exactly when no whiteout names a path at or above an added one. */
  lemma NoSelfWhiteoutMeaning(acts: seq<Action>)
    ensures NoSelfWhiteout(acts) <==> forall p :: Touched(acts, p) ==> !WhitedOut(acts, p)
  {
    if NoSelfWhiteout(acts) {
      forall p | Touched(acts, p) ensures !WhitedOut(acts, p) {
        if WhitedOut(acts, p) {
          var i :| 0 <= i < |acts| && Touches(acts[i], p);
          var j :| 0 <= j < |acts| && WhitesOut(acts[j], p);
          PrefixTrans(acts[j].dir + [acts[j].name], p, acts[i].path);
          assert WhitesOut(acts[j], acts[i].path);
          assert false;
        }
      }
    }
    if forall p :: Touched(acts, p) ==> !WhitedOut(acts, p) {
      forall i, j | 0 <= i < |acts| && 0 <= j < |acts| && acts[i].Add? && acts[i].path != []
        ensures !WhitesOut(acts[j], acts[i].path)
      {
        assert Touches(acts[i], acts[i].path);
        assert Touched(acts, acts[i].path);
      }
    }
  }

  /** The last entry at or below p decides whether it fits; one below p always does in a pass that
      goes through. */
  lemma {:induction false} LastFitsUnlessAtPath(acts: seq<Action>, lower: Tree, p: Path)
    requires Unblocked(acts, lower)
    ensures LastFits(acts, lower, p) || exists i :: 0 <= i < |acts| && acts[i].Add? && acts[i].path == p
  {
    if acts == [] {
    } else {
      var init, a := acts[..|acts| - 1], acts[|acts| - 1];
      UnblockedSnoc(acts, lower);
      if Touches(a, p) {
        if a.path != p { assert p in Parents(a.path) && !FileAt(init, lower, p); }
      } else {
        LastFitsUnlessAtPath(init, lower, p);
        assert forall i :: 0 <= i < |init| ==> init[i] == acts[i];
      }
    }
  }

  lemma KeepsKindsAt(acts: seq<Action>, lower: Tree, p: Path)
    requires Unblocked(acts, lower) && KeepsKinds(acts, lower)
    ensures LastFits(acts, lower, p)
  {
    LastFitsUnlessAtPath(acts, lower, p);
  }

  // ---------------------------------------------------------------------------------------
  // One layer

  /** Unpacking and overlay agree at p exactly when what the layer holds there is there and kept, and
      no improper whiteout empties it. */
  predicate AgreesAt(acts: seq<Action>, lower: Tree, p: Path) {
    && (Touched(acts, p) ==> Live(acts, p) && LastFits(acts, lower, p) && !WhitedOut(acts, p))
    && (NodeAt(acts, lower, p).Some? && Emptied(acts, p, NodeAt(acts, lower, p).value) ==> WhitedOut(acts, p))
  }

  lemma AgreesAtMeaning(acts: seq<Action>, lower: Tree, p: Path)
    requires ValidTree(lower) && p != [] && Apply(lower, acts).Done?
    ensures Get(Unpack(lower, acts).tree, p) == OverlayNode(acts, p, Get(lower, p)) <==> AgreesAt(acts, lower, p)
  {
    PassInvariant(acts, lower);
    ApplyValid(lower, acts);
    RemovalsAt(Apply(lower, acts).tree, acts, p);
    NodeAtMeaning(acts, lower, p);
    LayerNodeExists(acts, p);
  }

  lemma WellFormedMeaning(acts: seq<Action>, lower: Tree)
    requires Unblocked(acts, lower)
    ensures WellFormed(acts, lower) <==> forall p :: p != [] ==> AgreesAt(acts, lower, p)
  {
    OpaqueFirstMeansAllLive(acts);
    NoSelfWhiteoutMeaning(acts);
    if WellFormed(acts, lower) {
      forall p | p != [] ensures AgreesAt(acts, lower, p) {
        KeepsKindsAt(acts, lower, p);
      }
    }
    if forall p :: p != [] ==> AgreesAt(acts, lower, p) {
      forall p | Touched(acts, p)
        ensures Live(acts, p) && LastFits(acts, lower, p) && !WhitedOut(acts, p)
      {
        assert p != [];
        assert AgreesAt(acts, lower, p);
      }
      forall i | 0 <= i < |acts| && acts[i].Add?
        ensures LastFits(acts, lower, acts[i].path)
      {
        if acts[i].path == [] {
          NothingAtRoot(acts, lower);
        } else {
          assert Touches(acts[i], acts[i].path);
        }
      }
      forall j, p | && 0 <= j < |acts| && p != [] && NodeAt(acts, lower, p).Some?
                    && Empties(acts[j], p, NodeAt(acts, lower, p).value)
        ensures WhitedOut(acts, p)
      {
        assert AgreesAt(acts, lower, p);
      }
    }
  }

  lemma {:induction false} NothingAtRoot(acts: seq<Action>, lower: Tree)
    ensures LastFits(acts, lower, [])
  {
    if acts == [] {
    } else {
      NothingAtRoot(acts[..|acts| - 1], lower);
    }
  }

  /** The main result for one layer: unpacking any archive over any tree gives the declarative
      overlay exactly when the layer is well formed for that tree. */
  lemma UnpackIsOverlayIffWellFormed(acts: seq<Action>, lower: Tree)
    requires ValidTree(lower)
    ensures Agrees(Unpack(lower, acts), acts, lower) <==> WellFormed(acts, lower)
  {
    PassSucceedsIffUnblocked(acts, lower);
    if Unblocked(acts, lower) {
      WellFormedMeaning(acts, lower);
      forall p | p != []
        ensures Get(Unpack(lower, acts).tree, p) == OverlayNode(acts, p, Get(lower, p)) <==> AgreesAt(acts, lower, p)
      {
        AgreesAtMeaning(acts, lower, p);
      }
    }
  }

  // ---------------------------------------------------------------------------------------
  // Layers whose entries describe one tree

  /** The entries are acceptable and describe one tree: no path is both file and directory. */
  ghost predicate TreeShaped(acts: seq<Action>) {
    && (forall i :: 0 <= i < |acts| ==> !acts[i].Reject?)
    && (forall i :: 0 <= i < |acts| && acts[i].Whiteout? ==> Proper(acts[i].name))
    && (forall i, j {:trigger acts[i], acts[j]} ::
          0 <= i < |acts| && 0 <= j < |acts| && acts[i].Add? && acts[j].Add? ==>
            && (acts[i].path == acts[j].path ==> acts[i].node.Dir? == acts[j].node.Dir?)
            && (acts[i].path < acts[j].path ==> acts[i].node.Dir?))
    && (forall i, j {:trigger acts[i], acts[j]} ::
          0 <= i < |acts| && 0 <= j < |acts| && acts[i].Add? && acts[j].Opaque? ==>
            (acts[i].path == acts[j].dir ==> acts[i].node.Dir?))
  }

  /** The lower node at p has survived the opaque markers of these entries. */
  predicate Retained(acts: seq<Action>, lower: Tree, p: Path) {
    p in lower && !Cleared(acts, p)
  }

  /** No surviving lower file stands where the entry needs a directory. */
  ghost predicate PassesLower(before: seq<Action>, a: Action, lower: Tree) {
    && (a.Add? ==> forall q :: q in Parents(a.path) && Retained(before, lower, q) ==> lower[q].Dir?)
    && (a.Opaque? && a.dir != [] && Retained(before, lower, a.dir) ==> lower[a.dir].Dir?)
  }

  ghost predicate NeverBlocked(acts: seq<Action>, lower: Tree) {
    forall i :: 0 <= i < |acts| ==> PassesLower(acts[..i], acts[i], lower)
  }

  /** No entry changes a lower path that no opaque marker clears between file and directory. */
  ghost predicate KeepsLowerKinds(acts: seq<Action>, lower: Tree) {
    forall i :: 0 <= i < |acts| && acts[i].Add? && Retained(acts, lower, acts[i].path) ==>
                  lower[acts[i].path].Dir? == acts[i].node.Dir?
  }

  /** In a tree-shaped layer an entry at or below p fixes the kind of the layer's node at p. */
  lemma LayerNodeKind(acts: seq<Action>, a: Action, p: Path)
    requires TreeShaped(acts + [a]) && Touches(a, p) && LayerNode(acts, p).Some?
    ensures LayerNode(acts, p).value.Dir? == OwnNode(a, p).Dir?
  {
    LayerNodeIsLastTouch(acts, p);
    var k :| 0 <= k < |acts| && Touches(acts[k], p) && LayerNode(acts, p) == Some(OwnNode(acts[k], p));
    var all := acts + [a];
    assert all[k] == acts[k] && all[|acts|] == a;
    if p != a.path { assert p < a.path; }
    if p != acts[k].path { assert p < acts[k].path; }
  }

  lemma TreeShapedPrefix(acts: seq<Action>, n: nat)
    requires n <= |acts| && TreeShaped(acts)
    ensures TreeShaped(acts[..n])
  {
    assert forall i :: 0 <= i < n ==> acts[..n][i] == acts[i];
  }

  /** A live entry wins unless a surviving lower node has the other kind. */
  function Settled(acts: seq<Action>, lower: Tree, p: Path): Option<Node> {
    var own := LayerNode(acts, p);
    if Live(acts, p) && own.Some? && !(Retained(acts, lower, p) && lower[p].Dir? != own.value.Dir?) then own
    else if Retained(acts, lower, p) then Some(lower[p])
    else None
  }

  lemma {:induction false} NodeAtIsSettled(acts: seq<Action>, lower: Tree, p: Path)
    requires TreeShaped(acts)
    ensures NodeAt(acts, lower, p) == Settled(acts, lower, p)
  {
    if acts == [] {
    } else {
      var init, a := acts[..|acts| - 1], acts[|acts| - 1];
      assert acts == init + [a];
      TreeShapedPrefix(acts, |acts| - 1);
      NodeAtIsSettled(init, lower, p);
      ClearedSnoc(acts, p);
      LayerNodeExists(init, p);
      if Touches(a, p) && LayerNode(init, p).Some? {
        LayerNodeKind(init, a, p);
      }
    }
  }

  /** Only a surviving lower file can block an entry of such a layer. */
  lemma OnlyLowerBlocks(acts: seq<Action>, lower: Tree, i: nat)
    requires TreeShaped(acts) && i < |acts|
    ensures Passes(acts[..i], acts[i], lower) <==> PassesLower(acts[..i], acts[i], lower)
  {
    var before, a := acts[..i], acts[i];
    TreeShapedPrefix(acts, i);
    forall q | q != [] && (if a.Add? then q in Parents(a.path) else a.Opaque? && q == a.dir)
      ensures FileAt(before, lower, q) <==> Retained(before, lower, q) && lower[q].File?
    {
      NodeAtIsSettled(before, lower, q);
      LayerNodeIsLastTouch(before, q);
      if LayerNode(before, q).Some? {
        var k :| 0 <= k < i && Touches(before[k], q) && LayerNode(before, q) == Some(OwnNode(before[k], q));
        assert before[k] == acts[k];
      }
    }
  }

  /** For such a layer the conditions can be read off the layer and the tree below it. */
  lemma TreeShapedWellFormed(acts: seq<Action>, lower: Tree)
    requires [] !in lower && TreeShaped(acts)
    ensures WellFormed(acts, lower) <==>
            NeverBlocked(acts, lower) && KeepsLowerKinds(acts, lower) && OpaqueFirst(acts) && NoSelfWhiteout(acts)
  {
    forall i | 0 <= i < |acts|
      ensures Passes(acts[..i], acts[i], lower) <==> PassesLower(acts[..i], acts[i], lower)
    {
      OnlyLowerBlocks(acts, lower, i);
    }
    assert Unblocked(acts, lower) <==> NeverBlocked(acts, lower);
    if OpaqueFirst(acts) {
      OpaqueFirstMeansAllLive(acts);
      forall i | 0 <= i < |acts| && acts[i].Add?
        ensures LastFits(acts, lower, acts[i].path) <==>
                (Retained(acts, lower, acts[i].path) ==> lower[acts[i].path].Dir? == acts[i].node.Dir?)
      {
        if acts[i].path == [] {
          NothingAtRoot(acts, lower);
        } else {
          assert Touches(acts[i], acts[i].path);
          assert Touched(acts, acts[i].path);
          LastFitsLower(acts, lower, i);
        }
      }
    }
  }

  lemma LastFitsLower(acts: seq<Action>, lower: Tree, i: nat)
    requires TreeShaped(acts) && i < |acts| && acts[i].Add? && Live(acts, acts[i].path)
    ensures LastFits(acts, lower, acts[i].path) <==>
            (Retained(acts, lower, acts[i].path) ==> lower[acts[i].path].Dir? == acts[i].node.Dir?)
  {
    var p := acts[i].path;
    NodeAtMeaning(acts, lower, p);
    NodeAtIsSettled(acts, lower, p);
    LayerNodeExists(acts, p);
    LayerNodeIsLastTouch(acts, p);
    var k :| 0 <= k < |acts| && Touches(acts[k], p) && LayerNode(acts, p) == Some(OwnNode(acts[k], p));
    if p != acts[k].path { assert p < acts[k].path; }
  }

  // ---------------------------------------------------------------------------------------
  // Layers that are not well formed

  /** A file over a directory of a lower layer: the directory stays. */
  lemma FileOverDirectoryIsLost()
    ensures var acts, lower := [Add(["a"], File([]))], map[["a"] := Dir];
            ValidTree(lower) && TreeShaped(acts) && !Agrees(Unpack(lower, acts), acts, lower)
  {
    var acts, lower := [Add(["a"], File([]))], map[["a"] := Dir];
    assert !LastFits(acts, lower, acts[0].path);
    UnpackIsOverlayIffWellFormed(acts, lower);
  }

  /** An opaque marker after the entry below its directory: the entry is removed. */
  lemma LateOpaqueMarkerRemovesOwnEntry()
    ensures var acts := [Add(["a", "b"], File([])), Opaque(["a"])];
            TreeShaped(acts) && !Agrees(Unpack(map[], acts), acts, map[])
  {
    var acts := [Add(["a", "b"], File([])), Opaque(["a"])];
    assert Clears(acts[1], acts[0].path);
    assert !OpaqueFirst(acts);
    UnpackIsOverlayIffWellFormed(acts, map[]);
  }

  /** A whiteout of what the same layer adds: it is removed, though a whiteout should only hide
      lower layers. */
  lemma SelfWhiteoutRemovesOwnEntry()
    ensures var acts := [Whiteout([], "a"), Add(["a"], File([]))];
            TreeShaped(acts) && !Agrees(Unpack(map[], acts), acts, map[])
  {
    var acts := [Whiteout([], "a"), Add(["a"], File([]))];
    assert WhitesOut(acts[0], acts[1].path);
    assert !NoSelfWhiteout(acts);
    UnpackIsOverlayIffWellFormed(acts, map[]);
  }

  /** A marker with nothing after its prefix removes the directory it is in, with what the same
      layer put there. */
  lemma BareMarkerRemovesItsDirectory()
    ensures var acts := [Add(["a", "b"], File([])), Whiteout(["a"], "")];
            !Agrees(Unpack(map[], acts), acts, map[])
  {
    var acts := [Add(["a", "b"], File([])), Whiteout(["a"], "")];
    assert acts[..1][..0] == [];
    assert NodeAt(acts[..1], map[], ["a"]) == Some(Dir);
    assert NodeAt(acts, map[], ["a"]) == Some(Dir);
    assert Empties(acts[1], ["a"], Dir);
    assert !EmptiesNothing(acts, map[]);
    UnpackIsOverlayIffWellFormed(acts, map[]);
  }

  /** A whiteout of a name with two dots in it is refused, and the layer with it, though a file may
      have such a name. */
  lemma DottedWhiteoutStopsLayer()
    ensures var entries, lower := [Entry([Normal(".wh.a..b")], File([]))], map[["a..b"] := File([])];
            ValidTree(lower) && !Agrees(Unpack(lower, Actions(entries)), Actions(entries), lower)
  {
    var e, lower := Entry([Normal(".wh.a..b")], File([])), map[["a..b"] := File([])];
    var name := e.path[0].name;
    assert Names(e.path) == [name] by { assert Names(e.path[1..]) == []; }
    assert name[..|WHITEOUT_PREFIX|] == WHITEOUT_PREFIX && name[4] != OPAQUE_MARKER[4];
    assert name[|WHITEOUT_PREFIX|..] == "a..b" && "a..b"[1] == '.' == "a..b"[2];
    assert Actions([e])[0] == Reject;
    assert !Passes(Actions([e])[..0], Actions([e])[0], lower);
    UnpackIsOverlayIffWellFormed(Actions([e]), lower);
  }

  /** An entry below a file of a lower layer: the layer stops there. */
  lemma EntryBelowFileStopsLayer()
    ensures var acts, lower := [Add(["a", "b"], File([]))], map[["a"] := File([])];
            ValidTree(lower) && TreeShaped(acts) && !Agrees(Unpack(lower, acts), acts, lower)
  {
    var acts, lower := [Add(["a", "b"], File([]))], map[["a"] := File([])];
    assert ["a"] in Parents(acts[0].path) && FileAt(acts[..0], lower, ["a"]);
    assert !Passes(acts[..0], acts[0], lower);
    UnpackIsOverlayIffWellFormed(acts, lower);
  }

  // ---------------------------------------------------------------------------------------
  // Where an entry is unpacked

  /** An entry that is no marker is found, after its layer, at exactly the path that it spells, unless
      a file is in the way above it or a node of the other kind at the path itself. */
  lemma EntryIsFoundIff(e: Entry, names: Path, lower: Tree)
    requires ValidTree(lower) && Spells(e.path, names)
    requires names != [] && !(".wh." <= names[|names| - 1])
    ensures var result := Unpack(lower, Actions([e]));
            result.Done? && Get(result.tree, names) == Some(e.node) <==>
            && (forall q :: q != [] && q < names && q in lower ==> lower[q].Dir?)
            && (names in lower ==> lower[names].Dir? == e.node.Dir?)
  {
    ClassifyMeaning(e, [], "", names, e.node);
    var acts := Actions([e]);
    assert acts == [Add(names, e.node)];
    OneEntryAt(acts[0], names, lower);
    assert acts[..0] == [] && Pending(acts[..0]) == [] && Pending(acts) == [];
    assert Apply(lower, acts) == Step(lower, acts[0]);
  }

  lemma OneEntryAt(a: Action, p: Path, lower: Tree)
    requires a.Add? && a.path == p != []
    ensures Step(lower, a).Done? <==> forall q :: q != [] && q < p && q in lower ==> lower[q].Dir?
    ensures Step(lower, a).Done? ==>
              (Get(Step(lower, a).tree, p) == Some(a.node) <==> (p in lower ==> lower[p].Dir? == a.node.Dir?))
  {
    assert Touches(a, p);
    if Step(lower, a).Done? {
      AddAt(lower, a, p);
    }
  }

  // ---------------------------------------------------------------------------------------
  // Markers never become files

  predicate IsMarkerName(p: Path) {
    p != [] && WHITEOUT_PREFIX <= p[|p| - 1]
  }

  lemma StepAddsNoMarkerFile(tree: Tree, e: Entry, p: Path)
    requires IsMarkerName(p)
    ensures var after := Get(Step(tree, Classify(e)).tree, p);
            after.Some? && after.value.File? ==> after == Get(tree, p)
  {
    var a := Classify(e);
    if a.Add? {
      ClassifyMeaning(e, [], "", a.path, a.node);
      assert a.path != p;
    }
  }

  /** A regular file named like a marker is present after a layer only if it was before. */
  lemma {:induction false} PassAddsNoMarkerFile(lower: Tree, entries: seq<Entry>, n: nat, p: Path)
    requires n <= |entries| && IsMarkerName(p)
    ensures var after := Get(Apply(lower, Actions(entries)[..n]).tree, p);
            after.Some? && after.value.File? ==> after == Get(lower, p)
  {
    var acts := Actions(entries);
    if n == 0 {
    } else {
      PassAddsNoMarkerFile(lower, entries, n - 1, p);
      ApplySnoc(lower, acts, n - 1);
      StepAddsNoMarkerFile(Apply(lower, acts[..n - 1]).tree, entries[n - 1], p);
    }
  }

  lemma {:induction false} RemovalsOnlyRemove(tree: Tree, pending: seq<Removal>, p: Path)
    ensures Get(RemoveAll(tree, pending), p) in {None, Get(tree, p)}
  {
    if pending == [] {
    } else {
      RemovalsOnlyRemove(tree, pending[..|pending| - 1], p);
    }
  }

  /** Whatever the archive holds, well formed or not, no whiteout marker is unpacked as a file. */
  lemma NoMarkerFileIsAdded(lower: Tree, entries: seq<Entry>, p: Path)
    requires IsMarkerName(p)
    ensures var after := Get(Unpack(lower, Actions(entries)).tree, p);
            after.Some? && after.value.File? ==> after == Get(lower, p)
  {
    var acts := Actions(entries);
    assert acts[..|entries|] == acts;
    PassAddsNoMarkerFile(lower, entries, |entries|, p);
    RemovalsOnlyRemove(Apply(lower, acts).tree, Pending(acts), p);
  }
}
