/** Directory trees without symbolic links, as the file system shows them to the layer code. */
module Tree {
  import opened Wrappers

  type Path = seq<string>

  datatype Node = Dir | File(bytes: seq<bv8>)

  /** The nodes below a root directory, by their path from it. The root itself, [], is implied. */
  type Tree = map<Path, Node>

  /** Every node hangs below directories. */
  ghost predicate ValidTree(tree: Tree) {
    && [] !in tree
    && forall p, q {:trigger p in tree, q in tree} ::
         p in tree && q != [] && q < p ==> q in tree && tree[q].Dir?
  }

  function Get(tree: Tree, p: Path): Option<Node> {
    if p in tree then Some(tree[p]) else None
  }

  /** `remove_dir_all` or `remove_file`: the node at t goes, with all below it. */
  function RemoveTree(tree: Tree, t: Path): Tree {
    map p | p in tree && !(t <= p) :: tree[p]
  }

  /** Everything strictly below d goes. */
  function ClearBelow(tree: Tree, d: Path): Tree {
    map p | p in tree && !(d < p) :: tree[p]
  }

  /** The directories strictly between the root and p. */
  function Parents(p: Path): (s: set<Path>)
    ensures forall q :: q in s <==> q != [] && q < p
  {
    var s := set k | 0 < k < |p| :: p[..k];
    assert forall q | q != [] && q < p :: q == p[..|q|];
    s
  }

  /** `create_dir_all` of the parent of p fails when something above p is a regular file. */
  predicate BlockedByFile(tree: Tree, p: Path) {
    exists q :: q in Parents(p) && q in tree && tree[q].File?
  }

  function MakeParents(tree: Tree, p: Path): Tree {
    map q | q in tree.Keys + Parents(p) :: if q in tree then tree[q] else Dir
  }

  lemma PrefixTrans(a: Path, b: Path, c: Path)
    requires a <= b <= c
    ensures a <= c
    ensures a < b || b < c ==> a < c
  {
  }

  lemma MakeParentsValid(tree: Tree, p: Path)
    requires ValidTree(tree) && !BlockedByFile(tree, p)
    ensures ValidTree(MakeParents(tree, p))
    ensures forall q :: q in Parents(p) ==> Get(MakeParents(tree, p), q) == Some(Dir)
  {
    var made := MakeParents(tree, p);
    forall a, b | a in made && b != [] && b < a
      ensures b in made && made[b].Dir?
    {
      if a in tree {
        assert b in tree && tree[b].Dir?;
      } else {
        PrefixTrans(b, a, p);
        assert b in Parents(p);
      }
    }
  }
}
