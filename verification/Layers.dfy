/** OCI layer application: the in-place pass of `unpack_layer` (src/oci/image.rs). */
module Layers {
  import opened Wrappers
  import opened Markers
  import opened Tree

  datatype Component = Normal(name: string) | CurDir | ParentDir | RootDir | Prefix

  /** A tar entry: its path and, for a directory or a regular file, what it holds. */
  datatype Entry = Entry(path: seq<Component>, node: Node)

  /** What an entry asks for. */
  datatype Action =
    | Reject
    | Opaque(dir: Path)
    | Whiteout(dir: Path, name: string)
    | Add(path: Path, node: Node)

  predicate Escapes(path: seq<Component>) {
    exists c :: c in path && (c.ParentDir? || c.RootDir? || c.Prefix?)
  }

  function Names(path: seq<Component>): Path {
    if path == [] then []
    else if path[0].Normal? then [path[0].name] + Names(path[1..])
    else Names(path[1..])
  }

  predicate BadWhiteoutName(name: string) {
    '/' in name || '\\' in name || exists i :: 0 <= i < |name| - 1 && name[i] == '.' && name[i + 1] == '.'
  }

  /** The reading of one entry: the guards of the loop body, in their order. */
  function Classify(e: Entry): Action {
    if Escapes(e.path) then Reject
    else
      var names := Names(e.path);
      var fileName := if names == [] then "" else names[|names| - 1];
      var parent := if names == [] then [] else names[..|names| - 1];
      if fileName == OPAQUE_MARKER then Opaque(parent)
      else if WHITEOUT_PREFIX <= fileName then
        var stripped := fileName[|WHITEOUT_PREFIX|..];
        if BadWhiteoutName(stripped) then Reject else Whiteout(parent, stripped)
      else Add(names, e.node)
  }

  // ---------------------------------------------------------------------------------------
  // What the reading means

  /** The path is these names in this order, with steps that stay where they are anywhere between. */
  predicate Spells(path: seq<Component>, names: Path) {
    if path == [] then names == []
    else if path[0].CurDir? then Spells(path[1..], names)
    else names != [] && path[0] == Normal(names[0]) && Spells(path[1..], names[1..])
  }

  lemma {:induction false} SpellsNames(path: seq<Component>, names: Path)
    ensures Spells(path, names) <==> !Escapes(path) && Names(path) == names
  {
    if path == [] {
    } else {
      EscapesCons(path);
      if path[0].CurDir? {
        SpellsNames(path[1..], names);
      } else if path[0].Normal? {
        assert Names(path) == [path[0].name] + Names(path[1..]);
        if names != [] {
          SpellsNames(path[1..], names[1..]);
          assert names == [names[0]] + names[1..];
          assert Names(path)[1..] == Names(path[1..]);
        }
      }
    }
  }

  lemma EscapesCons(path: seq<Component>)
    requires path != []
    ensures Escapes(path) <==> path[0].ParentDir? || path[0].RootDir? || path[0].Prefix? || Escapes(path[1..])
  {
    assert path == [path[0]] + path[1..];
  }

  /** Paths put together: their names follow one another, and a step that stays adds none. */
  lemma {:induction false} NamesConcat(a: seq<Component>, b: seq<Component>, n: string)
    ensures Names(a + b) == Names(a) + Names(b)
    ensures Names([Normal(n)]) == [n] && Names([CurDir]) == []
  {
    assert [Normal(n)][1..] == [] && [CurDir][1..] == [];
    if a == [] {
      assert a + b == b;
    } else {
      assert (a + b)[1..] == a[1..] + b;
      NamesConcat(a[1..], b, n);
    }
  }

  lemma TwoDots(name: string)
    ensures (exists a, b :: name == a + ".." + b) <==>
            exists i :: 0 <= i < |name| - 1 && name[i] == '.' && name[i + 1] == '.'
  {
    if a, b :| name == a + ".." + b {
      assert name[|a|] == '.' && name[|a| + 1] == '.';
    }
    if i :| 0 <= i < |name| - 1 && name[i] == '.' && name[i + 1] == '.' {
      assert name == name[..i] + ".." + name[i + 2..];
    }
  }

  /** The name cannot be that of an entry, or could lead out of its directory. */
  ghost predicate Refused(name: string) {
    '/' in name || '\\' in name || exists a, b :: name == a + ".." + b
  }

  lemma MarkersDiffer(last: string, name: string)
    ensures last == ".wh..wh..opq" ==> ".wh." <= last
    ensures last == ".wh." + name ==> ".wh." <= last && last[|".wh."|..] == name
    ensures ".wh." <= last ==> last == ".wh." + last[|".wh."|..]
    ensures ".wh." + name == ".wh..wh..opq" <==> name == ".wh..opq"
  {
    assert ".wh..wh..opq" == ".wh." + ".wh..opq";
    assert (".wh." + name)[4..] == name && ".wh..wh..opq"[4..] == ".wh..opq";
  }

  /** An entry is an opaque marker of the directory d, a whiteout of a name in d, or a node at p
      exactly when its path spells so, and is refused exactly when it has a step that leads out or
      is a whiteout of a refused name. */
  lemma ClassifyMeaning(e: Entry, d: Path, name: string, p: Path, node: Node)
    ensures Classify(e) == Opaque(d) <==> Spells(e.path, d + [".wh..wh..opq"])
    ensures Classify(e) == Whiteout(d, name) <==>
            Spells(e.path, d + [".wh." + name]) && name != ".wh..opq" && !Refused(name)
    ensures Classify(e) == Add(p, node) <==>
            Spells(e.path, p) && node == e.node && (p == [] || !(".wh." <= p[|p| - 1]))
  {
    SpellsNames(e.path, d + [".wh..wh..opq"]);
    SpellsNames(e.path, d + [".wh." + name]);
    SpellsNames(e.path, p);
    MarkersDiffer("", name);
    TwoDots(name);
    var names := Names(e.path);
    if names != [] {
      assert names == names[..|names| - 1] + [names[|names| - 1]];
      MarkersDiffer(names[|names| - 1], name);
    }
  }

  lemma RefusedEntries(e: Entry)
    ensures Classify(e) == Reject <==>
            || (exists c :: c in e.path && c in {ParentDir, RootDir, Prefix})
            || exists d, name :: Spells(e.path, d + [".wh." + name]) && name != ".wh..opq" && Refused(name)
  {
    var names := Names(e.path);
    if !Escapes(e.path) && names != [] {
      var d, last := names[..|names| - 1], names[|names| - 1];
      assert names == d + [last];
      MarkersDiffer(last, last[if ".wh." <= last then 4 else 0..]);
      if ".wh." <= last {
        SpellsNames(e.path, d + [".wh." + last[4..]]);
        TwoDots(last[4..]);
      }
    }
    if Classify(e) != Reject {
      forall d, name | Spells(e.path, d + [".wh." + name]) && name != ".wh..opq"
        ensures !Refused(name)
      {
        SpellsNames(e.path, d + [".wh." + name]);
        MarkersDiffer(".wh." + name, name);
        TwoDots(name);
      }
    }
  }

  function Actions(entries: seq<Entry>): (acts: seq<Action>)
    ensures |acts| == |entries|
    ensures forall i :: 0 <= i < |entries| ==> acts[i] == Classify(entries[i])
  {
    seq(|entries|, i requires 0 <= i < |entries| => Classify(entries[i]))
  }

  // ---------------------------------------------------------------------------------------
  // The pass, as a function of the actions done so far

  /** A pass either goes on or has stopped with an error; the tree is what is on disk. */
  datatype Outcome = Done(tree: Tree) | Failed(tree: Tree)

  /** Unpacking over an existing node: a file replaces a file, a directory stays a directory, and
      a change between the two fails, which the pass ignores, so the old node stays. */
  function Place(tree: Tree, p: Path, node: Node): Tree {
    if p in tree && tree[p].Dir? != node.Dir? then tree else tree[p := node]
  }

  function Step(tree: Tree, a: Action): Outcome {
    match a
    case Reject => Failed(tree)
    case Opaque(d) =>
      if d != [] && d !in tree then Done(tree)
      else if d != [] && tree[d].File? then Failed(tree)
      else Done(ClearBelow(tree, d))
    case Whiteout(_, _) => Done(tree)
    case Add(p, node) =>
      if p == [] then Done(tree)
      else if BlockedByFile(tree, p) then Failed(tree)
      else Done(Place(MakeParents(tree, p), p, node))
  }

  function Apply(lower: Tree, acts: seq<Action>): Outcome {
    if acts == [] then Done(lower)
    else
      match Apply(lower, acts[..|acts| - 1])
      case Failed(tree) => Failed(tree)
      case Done(tree) => Step(tree, acts[|acts| - 1])
  }

  /** A removal noted during the pass. */
  datatype Removal = Removal(dir: Path, name: string)

  /** Joining an empty name gives the directory itself, and joining "." gives its contents,
      since a path that ends in "." cannot itself be unlinked. */
  function Remove(tree: Tree, r: Removal): Tree {
    if r.name == "" || r.name == "." then
      if r.dir == [] then ClearBelow(tree, [])
      else if r.dir !in tree || tree[r.dir].File? then tree
      else if r.name == "." then ClearBelow(tree, r.dir)
      else RemoveTree(tree, r.dir)
    else RemoveTree(tree, r.dir + [r.name])
  }

  function Pending(acts: seq<Action>): seq<Removal> {
    if acts == [] then []
    else
      var a := acts[|acts| - 1];
      Pending(acts[..|acts| - 1]) + (if a.Whiteout? then [Removal(a.dir, a.name)] else [])
  }

  function RemoveAll(tree: Tree, pending: seq<Removal>): Tree {
    if pending == [] then tree
    else Remove(RemoveAll(tree, pending[..|pending| - 1]), pending[|pending| - 1])
  }

  /** `unpack_layer`: one pass, then the removals it noted. */
  function Unpack(lower: Tree, acts: seq<Action>): Outcome {
    match Apply(lower, acts)
    case Failed(tree) => Failed(tree)
    case Done(tree) => Done(RemoveAll(tree, Pending(acts)))
  }

  /** One more entry. */
  lemma ApplySnoc(lower: Tree, acts: seq<Action>, i: nat)
    requires i < |acts|
    ensures Apply(lower, acts[..i + 1]) ==
            match Apply(lower, acts[..i])
            case Failed(tree) => Failed(tree)
            case Done(tree) => Step(tree, acts[i])
  {
    assert acts[..i + 1][..i] == acts[..i] && acts[..i + 1][i] == acts[i];
  }

  lemma PendingSnoc(acts: seq<Action>, i: nat)
    requires i < |acts|
    ensures Pending(acts[..i + 1]) ==
            Pending(acts[..i]) + (if acts[i].Whiteout? then [Removal(acts[i].dir, acts[i].name)] else [])
  {
    assert acts[..i + 1][..i] == acts[..i] && acts[..i + 1][i] == acts[i];
  }

  lemma {:induction false} FailureSticks(lower: Tree, acts: seq<Action>, i: nat)
    requires i <= |acts| && Apply(lower, acts[..i]).Failed?
    ensures Apply(lower, acts) == Apply(lower, acts[..i])
  {
    if i < |acts| {
      assert acts[..|acts| - 1][..i] == acts[..i];
      FailureSticks(lower, acts[..|acts| - 1], i);
    } else {
      assert acts[..i] == acts;
    }
  }

  /** A path is below d exactly when it is at or below one of the children of d. */
  lemma ChildrenCover(tree: Tree, d: Path, children: set<Path>)
    requires ValidTree(tree)
    requires forall c :: c in children ==> d < c
    requires forall c :: c in tree && d < c && |c| == |d| + 1 ==> c in children
    ensures forall p :: p in tree ==> (d < p <==> exists c :: c in children && c <= p)
  {
    forall p | p in tree
      ensures d < p <==> exists c :: c in children && c <= p
    {
      if d < p {
        var child := p[..|d| + 1];
        assert child <= p && d < child;
        if child != p { assert child < p; }
        assert child in children;
      }
      if c :| c in children && c <= p { PrefixTrans(d, c, p); }
    }
  }

  class Rootfs {
    var nodes: Tree

    constructor ()
      ensures nodes == map[]
    {
      nodes := map[];
    }

    /** The children of d are removed one by one, in whatever order the directory lists them. */
    method ClearDirectory(d: Path)
      requires ValidTree(nodes)
      modifies this
      ensures nodes == ClearBelow(old(nodes), d)
    {
      var children := set p | p in nodes && d < p && |p| == |d| + 1;
      ghost var removed: set<Path> := {};
      while children != {}
        invariant forall c :: c in children ==> d < c && |c| == |d| + 1
        invariant forall c :: c in removed ==> d < c
        invariant forall c :: c in old(nodes) && d < c && |c| == |d| + 1 ==> c in children + removed
        invariant nodes == map p | p in old(nodes) && (forall c :: c in removed ==> !(c <= p)) :: old(nodes)[p]
        decreases children
      {
        var child :| child in children;
        nodes := RemoveTree(nodes, child);
        removed := removed + {child};
        children := children - {child};
      }
      ChildrenCover(old(nodes), d, removed);
      assert nodes == ClearBelow(old(nodes), d);
    }

    /** The body of the loop over entries, for one that is not noted for later. */
    method Act(a: Action) returns (ok: bool)
      requires ValidTree(nodes)
      modifies this
      ensures Step(old(nodes), a) == if ok then Done(nodes) else Failed(nodes)
    {
      match a {
        case Reject =>
          return false;
        case Opaque(d) =>
          if d == [] || d in nodes {
            if d != [] && nodes[d].File? {
              return false;
            }
            ClearDirectory(d);
          }
        case Whiteout(_, _) =>
        case Add(p, node) =>
          if p != [] {
            if BlockedByFile(nodes, p) {
              return false;
            }
            nodes := MakeParents(nodes, p);
            nodes := Place(nodes, p, node);
          }
      }
      ok := true;
    }

    /** One round of the loop over the entries. */
    method RunEntry(a: Action, ghost lower: Tree, ghost acts: seq<Action>, ghost i: nat) returns (ok: bool)
      requires ValidTree(nodes) && i < |acts| && acts[i] == a && Apply(lower, acts[..i]) == Done(nodes)
      modifies this
      ensures if ok then Apply(lower, acts[..i + 1]) == Done(nodes) && ValidTree(nodes)
              else Apply(lower, acts) == Failed(nodes)
    {
      ApplySnoc(lower, acts, i);
      StepValid(nodes, a);
      ok := Act(a);
      if !ok {
        FailureSticks(lower, acts, i + 1);
      }
    }

    /** The loop over the entries: what can be done at once is done, removals are noted. */
    method RunEntries(entries: seq<Entry>) returns (ok: bool, pending: seq<Removal>)
      requires ValidTree(nodes)
      modifies this
      ensures Apply(old(nodes), Actions(entries)) == if ok then Done(nodes) else Failed(nodes)
      ensures ok ==> pending == Pending(Actions(entries)) && ValidTree(nodes)
    {
      ghost var acts := Actions(entries);
      pending := [];
      var i := 0;
      while i < |entries|
        invariant 0 <= i <= |entries|
        invariant Apply(old(nodes), acts[..i]) == Done(nodes)
        invariant pending == Pending(acts[..i])
        invariant ValidTree(nodes)
      {
        var a := Classify(entries[i]);
        PendingSnoc(acts, i);
        var acted := RunEntry(a, old(nodes), acts, i);
        if !acted {
          return false, pending;
        }
        if a.Whiteout? {
          pending := pending + [Removal(a.dir, a.name)];
        }
        i := i + 1;
      }
      assert acts[..|acts|] == acts;
      ok := true;
    }

    /** The removals noted during the pass, in their order. */
    method RemovePending(pending: seq<Removal>)
      requires ValidTree(nodes)
      modifies this
      ensures nodes == RemoveAll(old(nodes), pending)
      ensures ValidTree(nodes)
    {
      var k := 0;
      while k < |pending|
        invariant 0 <= k <= |pending|
        invariant nodes == RemoveAll(old(nodes), pending[..k])
        invariant ValidTree(nodes)
      {
        assert pending[..k + 1][..k] == pending[..k];
        RemoveValid(nodes, pending[k]);
        nodes := Remove(nodes, pending[k]);
        k := k + 1;
      }
      assert pending[..|pending|] == pending;
    }

    /** `unpack_layer`. */
    method UnpackLayer(entries: seq<Entry>) returns (ok: bool)
      requires ValidTree(nodes)
      modifies this
      ensures Unpack(old(nodes), Actions(entries)) == if ok then Done(nodes) else Failed(nodes)
      ensures ok ==> ValidTree(nodes)
    {
      var pending;
      ok, pending := RunEntries(entries);
      if ok {
        RemovePending(pending);
      }
    }

    /** The fold of the pull code: layers in order, stopping at the first error. */
    method PullLayers(layers: seq<seq<Entry>>) returns (ok: bool)
      modifies this
      ensures UnpackStack(Stack(layers)) == if ok then Done(nodes) else Failed(nodes)
    {
      ghost var stack := Stack(layers);
      nodes := map[];
      var i := 0;
      while i < |layers|
        invariant 0 <= i <= |layers|
        invariant UnpackStack(stack[..i]) == Done(nodes)
        invariant ValidTree(nodes)
      {
        StackSnoc(stack, i);
        var unpacked := UnpackLayer(layers[i]);
        if !unpacked {
          StackFailureSticks(stack, i + 1);
          return false;
        }
        i := i + 1;
      }
      assert stack[..|stack|] == stack;
      ok := true;
    }
  }

  function Stack(layers: seq<seq<Entry>>): (stack: seq<seq<Action>>)
    ensures |stack| == |layers|
    ensures forall i :: 0 <= i < |layers| ==> stack[i] == Actions(layers[i])
  {
    seq(|layers|, i requires 0 <= i < |layers| => Actions(layers[i]))
  }

  /** The layers of an image unpacked one after the other into an empty root file system. */
  function UnpackStack(stack: seq<seq<Action>>): Outcome {
    if stack == [] then Done(map[])
    else
      match UnpackStack(stack[..|stack| - 1])
      case Failed(tree) => Failed(tree)
      case Done(tree) => Unpack(tree, stack[|stack| - 1])
  }

  lemma StackSnoc(stack: seq<seq<Action>>, i: nat)
    requires i < |stack| && UnpackStack(stack[..i]).Done?
    ensures UnpackStack(stack[..i + 1]) == Unpack(UnpackStack(stack[..i]).tree, stack[i])
  {
    assert stack[..i + 1][..i] == stack[..i] && stack[..i + 1][i] == stack[i];
  }

  lemma {:induction false} StackFailureSticks(stack: seq<seq<Action>>, i: nat)
    requires i <= |stack| && UnpackStack(stack[..i]).Failed?
    ensures UnpackStack(stack) == UnpackStack(stack[..i])
  {
    if i < |stack| {
      assert stack[..|stack| - 1][..i] == stack[..i];
      StackFailureSticks(stack[..|stack| - 1], i);
    } else {
      assert stack[..i] == stack;
    }
  }

  // ---------------------------------------------------------------------------------------
  // Every step keeps a tree a tree

  lemma StepValid(tree: Tree, a: Action)
    requires ValidTree(tree)
    ensures ValidTree(Step(tree, a).tree)
  {
    match a
    case Add(p, node) =>
      if p != [] && !BlockedByFile(tree, p) {
        MakeParentsValid(tree, p);
        PlaceValid(MakeParents(tree, p), p, node);
      }
    case _ =>
  }

  lemma PlaceValid(tree: Tree, p: Path, node: Node)
    requires ValidTree(tree) && p != []
    requires forall q :: q in Parents(p) ==> Get(tree, q) == Some(Dir)
    ensures ValidTree(Place(tree, p, node))
  {
    var placed := Place(tree, p, node);
    forall a, b | a in placed && b != [] && b < a
      ensures b in placed && placed[b].Dir?
    {
      if a == p {
        assert b in Parents(p);
      } else {
        assert b in tree && tree[b].Dir?;
      }
    }
  }

  lemma RemoveValid(tree: Tree, r: Removal)
    requires ValidTree(tree)
    ensures ValidTree(Remove(tree, r))
  {
  }

  lemma {:induction false} RemoveAllValid(tree: Tree, pending: seq<Removal>)
    requires ValidTree(tree)
    ensures ValidTree(RemoveAll(tree, pending))
  {
    if pending == [] {
    } else {
      RemoveAllValid(tree, pending[..|pending| - 1]);
      RemoveValid(RemoveAll(tree, pending[..|pending| - 1]), pending[|pending| - 1]);
    }
  }

  lemma {:induction false} ApplyValid(lower: Tree, acts: seq<Action>)
    requires ValidTree(lower)
    ensures ValidTree(Apply(lower, acts).tree)
  {
    if acts == [] {
    } else {
      ApplyValid(lower, acts[..|acts| - 1]);
      StepValid(Apply(lower, acts[..|acts| - 1]).tree, acts[|acts| - 1]);
    }
  }
}
