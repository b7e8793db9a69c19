/** A whole image: the layers folded into an empty root file system (src/lib.rs). */
module ImageStack {
  import opened Wrappers
  import opened Text
  import opened Tree
  import opened Layers
  import opened Overlay

  /** What the image shows at p, looked up from the top: the first layer that has p or hides it
      decides. */
  function TopDown(stack: seq<seq<Action>>, p: Path): Option<Node> {
    if stack == [] then None
    else OverlayNode(stack[|stack| - 1], p, TopDown(stack[..|stack| - 1], p))
  }

  /** The paths that a layer adds, with the directories above them. */
  function AddedPaths(acts: seq<Action>): (added: set<Path>)
    ensures forall p :: p in added <==> Touched(acts, p)
  {
    var added := set i, n | 0 <= i < |acts| && acts[i].Add? && 0 < n <= |acts[i].path| :: acts[i].path[..n];
    assert forall p | Touched(acts, p) :: p in added by {
      forall p | Touched(acts, p) ensures p in added {
        var i :| 0 <= i < |acts| && Touches(acts[i], p);
        assert p == acts[i].path[..|p|];
      }
    }
    assert forall p | p in added :: Touched(acts, p) by {
      forall p | p in added ensures Touched(acts, p) {
        var i, n :| 0 <= i < |acts| && acts[i].Add? && 0 < n <= |acts[i].path| && p == acts[i].path[..n];
        assert Touches(acts[i], p);
      }
    }
    added
  }

  function StackPaths(stack: seq<seq<Action>>): (added: set<Path>)
    ensures forall p :: TopDown(stack, p).Some? ==> p in added
  {
    if stack == [] then {}
    else
      var init, top := stack[..|stack| - 1], stack[|stack| - 1];
      assert forall p :: Touched(top, p) || TopDown(stack, p) in {None, TopDown(init, p)};
      AddedPaths(top) + StackPaths(init)
  }

  /** The tree that these layers show. */
  function Shown(stack: seq<seq<Action>>): (tree: Tree)
    ensures forall p :: Get(tree, p) == TopDown(stack, p)
  {
    map p | p in StackPaths(stack) && TopDown(stack, p).Some? :: TopDown(stack, p).value
  }

  /** Each layer is well formed for what the layers below it show. */
  ghost predicate WellFormedStack(stack: seq<seq<Action>>) {
    forall i :: 0 <= i < |stack| ==> WellFormed(stack[i], Shown(stack[..i]))
  }

  lemma SameTree(a: Tree, b: Tree)
    requires ValidTree(a) && [] !in b && forall p :: p != [] ==> Get(a, p) == Get(b, p)
    ensures a == b
  {
    forall p ensures p in a <==> p in b {
      if p != [] { assert Get(a, p) == Get(b, p); }
    }
    forall p | p in a ensures a[p] == b[p] {
      assert Get(a, p) == Get(b, p);
    }
  }

  lemma {:induction false} RootIsNotShown(stack: seq<seq<Action>>)
    ensures [] !in Shown(stack)
  {
    assert Get(Shown(stack), []) == TopDown(stack, []);
    if stack == [] {
    } else {
      RootIsNotShown(stack[..|stack| - 1]);
      assert Get(Shown(stack[..|stack| - 1]), []) == TopDown(stack[..|stack| - 1], []);
      assert !Touched(stack[|stack| - 1], []);
    }
  }

  lemma {:induction false} UnpackStackValid(stack: seq<seq<Action>>)
    ensures ValidTree(UnpackStack(stack).tree)
  {
    if stack == [] {
    } else {
      var init, top := stack[..|stack| - 1], stack[|stack| - 1];
      UnpackStackValid(init);
      var lower := UnpackStack(init).tree;
      ApplyValid(lower, top);
      RemoveAllValid(Apply(lower, top).tree, Pending(top));
    }
  }

  /** One more layer over layers that are unpacked as they show: the whole is what the lookup from
      the top gives exactly when the new layer is well formed for what is below it. */
  lemma NextLayerShownIff(stack: seq<seq<Action>>)
    requires stack != [] && UnpackStack(stack[..|stack| - 1]) == Done(Shown(stack[..|stack| - 1]))
    ensures UnpackStack(stack) == Done(Shown(stack)) <==>
            WellFormed(stack[|stack| - 1], Shown(stack[..|stack| - 1]))
  {
    var init, top := stack[..|stack| - 1], stack[|stack| - 1];
    var lower, result := Shown(init), UnpackStack(stack);
    UnpackStackValid(init);
    UnpackStackValid(stack);
    RootIsNotShown(stack);
    UnpackIsOverlayIffWellFormed(top, lower);
    assert forall p :: TopDown(stack, p) == OverlayNode(top, p, Get(lower, p));
    if Agrees(result, top, lower) {
      forall p | p != [] ensures Get(result.tree, p) == Get(Shown(stack), p) {
        assert Get(result.tree, p) == OverlayNode(top, p, Get(lower, p));
        assert TopDown(stack, p) == OverlayNode(top, p, Get(lower, p));
      }
      SameTree(result.tree, Shown(stack));
    }
  }

  ghost predicate UnpacksAsShown(stack: seq<seq<Action>>) {
    UnpackStack(stack) == Done(Shown(stack))
  }

  /** After every layer the tree on disk is the one that the layers so far show. */
  ghost predicate ShownThroughout(stack: seq<seq<Action>>) {
    UnpacksAsShown(stack) && (stack != [] ==> ShownThroughout(stack[..|stack| - 1]))
  }

  lemma WellFormedSnoc(stack: seq<seq<Action>>)
    requires stack != []
    ensures WellFormedStack(stack) <==>
            && WellFormedStack(stack[..|stack| - 1])
            && WellFormed(stack[|stack| - 1], Shown(stack[..|stack| - 1]))
  {
    var init := stack[..|stack| - 1];
    assert forall i :: 0 <= i < |init| ==> init[i] == stack[i] && init[..i] == stack[..i];
  }

  /** The main result for an image, for any stack of any layers: the fold agrees with the lookup
      from the top, after every layer, exactly when each layer is well formed for what the layers
      below it show. */
  lemma {:induction false} FoldIsTopDownIff(stack: seq<seq<Action>>)
    ensures ShownThroughout(stack) <==> WellFormedStack(stack)
  {
    if stack == [] {
      RootIsNotShown([]);
      assert forall p :: Get(Shown([]), p) == None;
      SameTree(map[], Shown([]));
    } else {
      var init := stack[..|stack| - 1];
      FoldIsTopDownIff(init);
      WellFormedSnoc(stack);
      if ShownThroughout(init) {
        NextLayerShownIff(stack);
      }
    }
  }

  /** In particular the whole image is then what the lookup from the top gives. */
  lemma FoldIsTopDown(stack: seq<seq<Action>>)
    requires WellFormedStack(stack)
    ensures UnpackStack(stack).Done?
    ensures forall p :: Get(UnpackStack(stack).tree, p) == TopDown(stack, p)
  {
    FoldIsTopDownIff(stack);
  }

  // ---------------------------------------------------------------------------------------
  // The final tree alone

  /** No layer is stopped, given the tree that the layers below it left on disk. */
  ghost predicate GoesThrough(stack: seq<seq<Action>>) {
    stack != [] ==>
      var init, top := stack[..|stack| - 1], stack[|stack| - 1];
      GoesThrough(init) && Unblocked(top, UnpackStack(init).tree)
  }

  /** The last layer that speaks about p has treated it rightly, over the tree it found. A layer that
      hides p makes good whatever was wrong with it below, and so does a bare marker that empties p
      where nothing should be. */
  ghost predicate LastRight(stack: seq<seq<Action>>, p: Path) {
    stack != [] ==>
      var init, top := stack[..|stack| - 1], stack[|stack| - 1];
      var lower := UnpackStack(init).tree;
      if Touched(top, p) then AgreesAt(top, lower, p)
      else if Hides(top, p) then true
      else if p in lower && Emptied(top, p, lower[p]) then TopDown(init, p).None?
      else LastRight(init, p)
  }

  lemma {:induction false} DoneIffGoesThrough(stack: seq<seq<Action>>)
    ensures UnpackStack(stack).Done? <==> GoesThrough(stack)
  {
    if stack == [] {
    } else {
      var init, top := stack[..|stack| - 1], stack[|stack| - 1];
      DoneIffGoesThrough(init);
      UnpackStackValid(init);
      PassSucceedsIffUnblocked(top, UnpackStack(init).tree);
    }
  }

  lemma UntouchedAt(top: seq<Action>, lower: Tree, p: Path)
    requires ValidTree(lower) && p != [] && Apply(lower, top).Done? && !Touched(top, p)
    ensures Get(Unpack(lower, top).tree, p) ==
            if Hides(top, p) || (p in lower && Emptied(top, p, lower[p])) then None else Get(lower, p)
  {
    PassInvariant(top, lower);
    ApplyValid(lower, top);
    RemovalsAt(Apply(lower, top).tree, top, p);
    NodeAtMeaning(top, lower, p);
  }

  lemma {:induction false} RightAtIff(stack: seq<seq<Action>>, p: Path)
    requires UnpackStack(stack).Done? && p != []
    ensures Get(UnpackStack(stack).tree, p) == TopDown(stack, p) <==> LastRight(stack, p)
  {
    if stack == [] {
    } else {
      var init, top := stack[..|stack| - 1], stack[|stack| - 1];
      var lower := UnpackStack(init).tree;
      RightAtIff(init, p);
      UnpackStackValid(init);
      if Touched(top, p) {
        AgreesAtMeaning(top, lower, p);
      } else {
        UntouchedAt(top, lower, p);
      }
    }
  }

  lemma UnpacksAsShownMeaning(stack: seq<seq<Action>>)
    ensures UnpacksAsShown(stack) <==>
            UnpackStack(stack).Done? && forall p :: p != [] ==> Get(UnpackStack(stack).tree, p) == TopDown(stack, p)
  {
    var tree, shown := UnpackStack(stack).tree, Shown(stack);
    assert forall p :: Get(shown, p) == TopDown(stack, p);
    UnpackStackValid(stack);
    RootIsNotShown(stack);
    if forall p :: p != [] ==> Get(tree, p) == TopDown(stack, p) {
      SameTree(tree, shown);
    }
  }

  ghost predicate EveryPathRight(stack: seq<seq<Action>>) {
    forall p :: p != [] ==> LastRight(stack, p)
  }

  /** The final tree alone, for any stack of any layers: it is what the lookup from the top gives
      exactly when no layer is stopped and each path was treated rightly by the last layer that speaks
      about it. */
  lemma FinalTreeShownIff(stack: seq<seq<Action>>)
    ensures UnpacksAsShown(stack) <==> GoesThrough(stack) && EveryPathRight(stack)
  {
    DoneIffGoesThrough(stack);
    UnpacksAsShownMeaning(stack);
    if GoesThrough(stack) {
      forall p | p != []
        ensures Get(UnpackStack(stack).tree, p) == TopDown(stack, p) <==> LastRight(stack, p)
      {
        RightAtIff(stack, p);
      }
    }
  }

  /** So a later layer can repair what went wrong below it: one that empties the root does. */
  lemma RootMarkerRepairs(stack: seq<seq<Action>>)
    requires GoesThrough(stack)
    ensures UnpacksAsShown(stack + [[Opaque([])]])
  {
    var top := [Opaque([])];
    var all := stack + [top];
    assert all[..|all| - 1] == stack && all[|all| - 1] == top;
    assert Passes(top[..0], top[0], UnpackStack(stack).tree);
    forall p | p != [] ensures LastRight(all, p) {
      assert Clears(top[0], p);
    }
    FinalTreeShownIff(all);
  }

  /** For one, a file lost to a directory: it is repaired, though not every layer is well formed. */
  lemma RepairedThoughIllFormed(dir: seq<Action>, file: seq<Action>)
    requires dir == [Add(["a"], Dir)] && file == [Add(["a"], File([]))]
    ensures !WellFormedStack([dir] + [file]) && UnpacksAsShown([dir] + [file] + [[Opaque([])]])
  {
    ConcatSnoc([], dir);
    ConcatSnoc([dir], file);
    ShownSnoc([dir], ["a"]);
    assert Touches(dir[0], ["a"]) && LayerNode(dir, ["a"]) == Some(Dir);
    assert !LastFits(file, Shown([dir]), file[0].path);
    WellFormedSnoc([dir] + [file]);
    OverADirectory(dir, file);
    RootMarkerRepairs([dir] + [file]);
  }

  lemma OverADirectory(dir: seq<Action>, file: seq<Action>)
    requires dir == [Add(["a"], Dir)] && file == [Add(["a"], File([]))]
    ensures GoesThrough([dir] + [file])
  {
    ConcatSnoc([], dir);
    ConcatSnoc([dir], file);
    assert Parents(["a"]) == {};
    assert Unblocked(dir, UnpackStack([]).tree) && Unblocked(file, UnpackStack([dir]).tree);
    assert GoesThrough([]);
    assert [] + [dir] == [dir];
    assert GoesThrough([dir]);
  }

  // ---------------------------------------------------------------------------------------
  // Images that never change a kind

  /** Each layer is in order and no path is a file in one place and a directory in another. */
  ghost predicate OneTreeStack(stack: seq<seq<Action>>) {
    && TreeShaped(Concat(stack))
    && forall i :: 0 <= i < |stack| ==> OpaqueFirst(stack[i]) && NoSelfWhiteout(stack[i])
  }

  lemma TreeShapedParts(below: seq<Action>, top: seq<Action>)
    requires TreeShaped(below + top)
    ensures TreeShaped(below) && TreeShaped(top)
  {
    var all := below + top;
    assert forall i :: 0 <= i < |below| ==> below[i] == all[i];
    assert forall i :: 0 <= i < |top| ==> top[i] == all[|below| + i];
  }

  lemma OneTreeInit(stack: seq<seq<Action>>)
    requires stack != [] && OneTreeStack(stack)
    ensures OneTreeStack(stack[..|stack| - 1])
    ensures TreeShaped(stack[|stack| - 1])
  {
    var init, top := stack[..|stack| - 1], stack[|stack| - 1];
    TreeShapedParts(Concat(init), top);
    assert forall i :: 0 <= i < |init| ==> init[i] == stack[i];
  }

  /** Some entry of some layer accounts for the kind of the node at p. */
  ghost predicate Explained(acts: seq<Action>, p: Path, node: Node) {
    exists i :: 0 <= i < |acts| && Explains(acts[i], p, node)
  }

  predicate Explains(a: Action, p: Path, node: Node) {
    Touches(a, p) && OwnNode(a, p).Dir? == node.Dir?
  }

  ghost predicate AllExplained(acts: seq<Action>, tree: Tree) {
    forall p :: p in tree ==> Explained(acts, p, tree[p])
  }

  lemma ExplainedGrows(below: seq<Action>, top: seq<Action>, p: Path, node: Node)
    requires Explained(below, p, node) || Explained(top, p, node)
    ensures Explained(below + top, p, node)
  {
    var all := below + top;
    if i :| 0 <= i < |below| && Explains(below[i], p, node) {
      assert Explains(all[i], p, node);
    } else {
      var i :| 0 <= i < |top| && Explains(top[i], p, node);
      assert Explains(all[|below| + i], p, node);
    }
  }

  /** When one consistent set of paths explains both, a layer finds at each path above, or at, one
      of its entries only nodes of the kind that it needs there. */
  lemma ExplainedKind(below: seq<Action>, top: seq<Action>, lower: Tree, i: nat, q: Path)
    requires TreeShaped(below + top) && AllExplained(below, lower) && q in lower && i < |top|
    ensures Touches(top[i], q) ==> lower[q].Dir? == OwnNode(top[i], q).Dir?
    ensures top[i].Opaque? && top[i].dir == q ==> lower[q].Dir?
  {
    var all := below + top;
    var k :| 0 <= k < |below| && Explains(below[k], q, lower[q]);
    assert all[k] == below[k] && all[|below| + i] == top[i];
    if q != below[k].path { assert q < below[k].path; }
    if Touches(top[i], q) && q != top[i].path { assert q < top[i].path; }
  }

  lemma ExplainedFits(below: seq<Action>, top: seq<Action>, lower: Tree)
    requires TreeShaped(below + top) && AllExplained(below, lower)
    ensures NeverBlocked(top, lower) && KeepsLowerKinds(top, lower)
  {
    forall i, q | 0 <= i < |top| && q in lower
      ensures Touches(top[i], q) ==> lower[q].Dir? == OwnNode(top[i], q).Dir?
      ensures top[i].Opaque? && top[i].dir == q ==> lower[q].Dir?
    {
      ExplainedKind(below, top, lower, i, q);
    }
  }

  lemma OverlayExplained(below: seq<Action>, top: seq<Action>, lower: Tree, result: Tree)
    requires AllExplained(below, lower)
    requires forall p :: Get(result, p) == OverlayNode(top, p, Get(lower, p))
    ensures AllExplained(below + top, result)
  {
    forall p | p in result
      ensures Explained(below + top, p, result[p])
    {
      assert Get(result, p) == OverlayNode(top, p, Get(lower, p));
      LayerNodeIsLastTouch(top, p);
      ExplainedGrows(below, top, p, result[p]);
    }
  }

  lemma ShownSnoc(stack: seq<seq<Action>>, p: Path)
    requires stack != []
    ensures Get(Shown(stack), p) == OverlayNode(stack[|stack| - 1], p, Get(Shown(stack[..|stack| - 1]), p))
  {
  }

  /** Such images are well formed. */
  lemma {:induction false} OneTreeIsWellFormed(stack: seq<seq<Action>>)
    requires OneTreeStack(stack)
    ensures WellFormedStack(stack) && AllExplained(Concat(stack), Shown(stack))
  {
    if stack == [] {
      assert forall p :: Get(Shown(stack), p) == None;
    } else {
      var init, top := stack[..|stack| - 1], stack[|stack| - 1];
      var lower, result := Shown(init), Shown(stack);
      OneTreeInit(stack);
      OneTreeIsWellFormed(init);
      forall p ensures Get(result, p) == OverlayNode(top, p, Get(lower, p)) {
        ShownSnoc(stack, p);
      }
      OverlayExplained(Concat(init), top, lower, result);
      RootIsNotShown(init);
      ExplainedFits(Concat(init), top, lower);
      TreeShapedWellFormed(top, lower);
      WellFormedSnoc(stack);
    }
  }

  /** But a path may change its kind from one layer to another when a layer between them removes it. */
  lemma KindMayChangeAfterWhiteout()
    ensures var stack := [[Add(["a"], File([]))], [Whiteout([], "a")], [Add(["a"], Dir), Add(["a", "b"], File([]))]];
            WellFormedStack(stack) && !OneTreeStack(stack) && TopDown(stack, ["a"]) == Some(Dir)
  {
    var file, gone, dir := [Add(["a"], File([]))], [Whiteout([], "a")], [Add(["a"], Dir), Add(["a", "b"], File([]))];
    var stack := [file, gone, dir];
    FileFirst(file);
    ThenWhiteout([file], gone);
    ThenDirectory([file] + [gone], dir);
    assert [file] + [gone] + [dir] == stack;
    BothKinds(file, gone, dir);
  }

  /** A layer that only adds, where nothing is, is well formed. */
  lemma FreshIsWellFormed(acts: seq<Action>, lower: Tree)
    requires TreeShaped(acts) && [] !in lower && forall i :: 0 <= i < |acts| ==> acts[i].Add?
    requires forall i, q :: 0 <= i < |acts| && Touches(acts[i], q) ==> q !in lower
    ensures WellFormed(acts, lower)
  {
    TreeShapedWellFormed(acts, lower);
  }

  lemma FileFirst(file: seq<Action>)
    requires file == [Add(["a"], File([]))]
    ensures WellFormedStack([file])
  {
    assert forall p :: Get(Shown([]), p) == TopDown([], p);
    FreshIsWellFormed(file, Shown([]));
    ConcatSnoc([], file);
    WellFormedSnoc([file]);
  }

  lemma WhiteoutIsWellFormed(acts: seq<Action>, lower: Tree)
    requires [] !in lower && acts == [Whiteout([], "a")]
    ensures WellFormed(acts, lower)
  {
    TreeShapedWellFormed(acts, lower);
  }

  lemma ThenWhiteout(below: seq<seq<Action>>, gone: seq<Action>)
    requires WellFormedStack(below) && gone == [Whiteout([], "a")]
    ensures WellFormedStack(below + [gone]) && forall p :: ["a"] <= p ==> p !in Shown(below + [gone])
  {
    ConcatSnoc(below, gone);
    RootIsNotShown(below);
    WhiteoutIsWellFormed(gone, Shown(below));
    WellFormedSnoc(below + [gone]);
    forall p | ["a"] <= p ensures p !in Shown(below + [gone]) {
      assert WhitesOut(gone[0], p);
      ShownSnoc(below + [gone], p);
    }
  }

  lemma ThenDirectory(below: seq<seq<Action>>, dir: seq<Action>)
    requires WellFormedStack(below) && forall p :: ["a"] <= p ==> p !in Shown(below)
    requires dir == [Add(["a"], Dir), Add(["a", "b"], File([]))]
    ensures WellFormedStack(below + [dir]) && TopDown(below + [dir], ["a"]) == Some(Dir)
  {
    ConcatSnoc(below, dir);
    RootIsNotShown(below);
    forall i, q | 0 <= i < |dir| && Touches(dir[i], q) ensures q !in Shown(below) {
      assert q[0] == dir[i].path[0] == "a";
    }
    FreshIsWellFormed(dir, Shown(below));
    WellFormedSnoc(below + [dir]);
    DirectoryShown(dir);
  }

  lemma DirectoryShown(dir: seq<Action>)
    requires dir == [Add(["a"], Dir), Add(["a", "b"], File([]))]
    ensures Touched(dir, ["a"]) && LayerNode(dir, ["a"]) == Some(Dir)
  {
    assert Touches(dir[1], ["a"]);
  }

  lemma ConcatSnoc(stack: seq<seq<Action>>, top: seq<Action>)
    ensures (stack + [top])[..|stack + [top]| - 1] == stack
    ensures Concat(stack + [top]) == Concat(stack) + top
  {
  }

  lemma BothKinds(file: seq<Action>, gone: seq<Action>, dir: seq<Action>)
    requires |file| == 1 && |gone| == 1 && |dir| == 2
    requires file[0] == Add(["a"], File([])) && dir[0] == Add(["a"], Dir)
    ensures !OneTreeStack([file, gone, dir])
  {
    ConcatSnoc([], file);
    ConcatSnoc([file], gone);
    ConcatSnoc([file] + [gone], dir);
    assert [file] + [gone] + [dir] == [file, gone, dir];
    var all := Concat([file, gone, dir]);
    assert all == file + gone + dir;
    assert all[0] == file[0] && all[2] == dir[0];
  }

  /** Layer i is the last to speak about p, and the content it gives last is c. */
  ghost predicate AddsFile(acts: seq<Action>, p: Path, c: seq<bv8>) {
    exists k :: && 0 <= k < |acts| && acts[k] == Add(p, File(c))
                && forall j :: k < j < |acts| ==> !Touches(acts[j], p)
  }

  lemma {:induction false} AddsFileMeaning(acts: seq<Action>, p: Path, c: seq<bv8>)
    requires p != []
    ensures AddsFile(acts, p, c) <==> LayerNode(acts, p) == Some(File(c))
  {
    if acts == [] {
    } else {
      var init := acts[..|acts| - 1];
      var a := acts[|acts| - 1];
      AddsFileMeaning(init, p, c);
      assert forall j :: 0 <= j < |init| ==> init[j] == acts[j];
      if !Touches(a, p) && AddsFile(init, p, c) {
        var k :| 0 <= k < |init| && init[k] == Add(p, File(c)) && forall j :: k < j < |init| ==> !Touches(init[j], p);
        assert acts[k] == Add(p, File(c));
        assert forall j :: k < j < |acts| ==> !Touches(acts[j], p);
      }
    }
  }

  ghost predicate LastAddedBy(stack: seq<seq<Action>>, i: int, p: Path, c: seq<bv8>) {
    && 0 <= i < |stack| && AddsFile(stack[i], p, c)
    && forall j :: i < j < |stack| ==> !Touched(stack[j], p) && !Hides(stack[j], p)
  }

  lemma {:induction false} TopDownMeaning(stack: seq<seq<Action>>, p: Path, c: seq<bv8>)
    requires p != []
    ensures TopDown(stack, p) == Some(File(c)) <==> exists i :: LastAddedBy(stack, i, p, c)
  {
    if stack == [] {
    } else {
      var init, top := stack[..|stack| - 1], stack[|stack| - 1];
      TopDownMeaning(init, p, c);
      AddsFileMeaning(top, p, c);
      LayerNodeIsLastTouch(top, p);
      assert forall i :: 0 <= i < |init| ==> init[i] == stack[i];
      if Touched(top, p) {
        if AddsFile(top, p, c) {
          assert LastAddedBy(stack, |init|, p, c);
        }
      } else if !Hides(top, p) {
        if i :| LastAddedBy(init, i, p, c) {
          assert LastAddedBy(stack, i, p, c);
        }
        if i :| LastAddedBy(stack, i, p, c) {
          assert LastAddedBy(init, i, p, c);
        }
      }
    }
  }

  /** The main result for an image: a regular file is there with content c exactly when some layer
      adds it with c and no later layer adds it again, whites out it or a directory above it, or
      marks a directory above it opaque. */
  lemma FilePresentIffLastAdded(stack: seq<seq<Action>>, p: Path, c: seq<bv8>)
    requires WellFormedStack(stack) && p != []
    ensures UnpackStack(stack).Done?
    ensures Get(UnpackStack(stack).tree, p) == Some(File(c)) <==> exists i :: LastAddedBy(stack, i, p, c)
  {
    FoldIsTopDown(stack);
    TopDownMeaning(stack, p, c);
  }
}
