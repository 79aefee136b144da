/** ImutAVLTree nodes as memory cells, and the functional tree each address stands for. */
module AvlStore {
  import opened AvlTree

  type Ptr = nat
  const NULL: Ptr := 0

  /** The fields of an ImutAVLTree object. */
  datatype Cell = Cell(
    left: Ptr, right: Ptr, value: Elem, height: nat,
    prev: Ptr, next: Ptr,
    isMutable: bool, isDigestCached: bool, isCanonicalized: bool,
    digest: nat, refCount: nat)

  /** The allocated nodes. */
  type Store = map<Ptr, Cell>

  ghost function TreeAt(trees: map<Ptr, Tree>, p: Ptr): (t: Tree) {
    if p in trees then trees[p] else Nil
  }

  /** A link is null or leads to a node with a tree. */
  ghost predicate Link(trees: map<Ptr, Tree>, p: Ptr) {
    p == NULL || p in trees
  }

  ghost predicate CellOk(s: Store, trees: map<Ptr, Tree>, p: Ptr) {
    && p in s && Link(trees, s[p].left) && Link(trees, s[p].right)
    && TreeAt(trees, p) == Node(TreeAt(trees, s[p].left), s[p].value, TreeAt(trees, s[p].right), s[p].height)
  }

  /** trees gives the tree below each node in use, whose links lead to such nodes again. */
  ghost predicate StoreOk(s: Store, trees: map<Ptr, Tree>) {
    && NULL !in trees
    && forall p {:trigger CellOk(s, trees, p)} {:trigger trees[p]} :: p in trees ==> CellOk(s, trees, p)
  }
}
