/** The functional core of ImutAVLFactory: balanced insertion and removal as functions from
    trees to trees. Neighbouring heights may differ by up to 2. */
module AvlTree {
  import opened Collections

  /** The payload; the algorithms only compare it for equality. */
  type Data = int

  datatype Elem = Elem(key: int, data: Data)

  /** height is the cached one. */
  datatype Tree = Nil | Node(left: Tree, value: Elem, right: Tree, height: nat)

  function Height(t: Tree): (h: nat) {
    if t.Nil? then 0 else t.height
  }

  function Max(a: nat, b: nat): nat {
    if a > b then a else b
  }

  ghost predicate HeightsOk(t: Tree) {
    t.Node? ==> HeightsOk(t.left) && HeightsOk(t.right) && t.height == Max(Height(t.left), Height(t.right)) + 1
  }

  /** createNode with incrementHeight. */
  function CreateNode(l: Tree, v: Elem, r: Tree): (t: Tree)
    ensures HeightsOk(l) && HeightsOk(r) ==> HeightsOk(t)
  {
    Node(l, v, r, Max(Height(l), Height(r)) + 1)
  }

  /** The two rotations for a left side that is too high. */
  function RotateRight(l: Tree, v: Elem, r: Tree): (t: Tree)
    requires HeightsOk(l) && HeightsOk(r) && l.Node?
    ensures HeightsOk(t)
  {
    if Height(l.left) >= Height(l.right) then
      CreateNode(l.left, l.value, CreateNode(l.right, v, r))
    else
      assert HeightsOk(l.right);
      CreateNode(CreateNode(l.left, l.value, l.right.left), l.right.value, CreateNode(l.right.right, v, r))
  }

  function RotateLeft(l: Tree, v: Elem, r: Tree): (t: Tree)
    requires HeightsOk(l) && HeightsOk(r) && r.Node?
    ensures HeightsOk(t)
  {
    if Height(r.right) >= Height(r.left) then
      CreateNode(CreateNode(l, v, r.left), r.value, r.right)
    else
      assert HeightsOk(r.left);
      CreateNode(CreateNode(l, v, r.left.left), r.left.value, CreateNode(r.left.right, r.value, r.right))
  }

  function BalanceTree(l: Tree, v: Elem, r: Tree): (t: Tree)
    requires HeightsOk(l) && HeightsOk(r)
    ensures HeightsOk(t) && t.Node?
  {
    if Height(l) > Height(r) + 2 then RotateRight(l, v, r)
    else if Height(r) > Height(l) + 2 then RotateLeft(l, v, r)
    else CreateNode(l, v, r)
  }

  /** add_internal. An equal key gets a new node with the new data. */
  function Add(v: Elem, t: Tree): (r: Tree)
    requires HeightsOk(t)
    ensures HeightsOk(r)
  {
    if t.Nil? then CreateNode(t, v, t)
    else if v.key == t.value.key then CreateNode(t.left, v, t.right)
    else if v.key < t.value.key then BalanceTree(Add(v, t.left), t.value, t.right)
    else BalanceTree(t.left, t.value, Add(v, t.right))
  }

  /** removeMinBinding: the rest of the tree and the removed element. */
  function RemoveMin(t: Tree): (r: (Tree, Elem))
    requires HeightsOk(t) && t.Node?
    ensures HeightsOk(r.0)
  {
    if t.left.Nil? then (t.right, t.value)
    else
      var (rest, v) := RemoveMin(t.left);
      (BalanceTree(rest, t.value, t.right), v)
  }

  function CombineTrees(l: Tree, r: Tree): (t: Tree)
    requires HeightsOk(l) && HeightsOk(r)
    ensures HeightsOk(t)
  {
    if l.Nil? then r
    else if r.Nil? then l
    else
      var (rest, v) := RemoveMin(r);
      BalanceTree(l, v, rest)
  }

  /** remove_internal. */
  function Remove(k: int, t: Tree): (r: Tree)
    requires HeightsOk(t)
    ensures HeightsOk(r)
  {
    if t.Nil? then t
    else if k == t.value.key then CombineTrees(t.left, t.right)
    else if k < t.value.key then BalanceTree(Remove(k, t.left), t.value, t.right)
    else BalanceTree(t.left, t.value, Remove(k, t.right))
  }

  // ----- What the trees stand for -----

  function Join(a: seq<Elem>, v: Elem, b: seq<Elem>): (s: seq<Elem>)
    ensures |s| == |a| + 1 + |b|
  {
    a + [v] + b
  }

  /** The elements in order. */
  function Elems(t: Tree): (s: seq<Elem>) {
    if t.Nil? then [] else Join(Elems(t.left), t.value, Elems(t.right))
  }

  ghost predicate Sorted(s: seq<Elem>) {
    forall i, j :: 0 <= i < j < |s| ==> s[i].key < s[j].key
  }

  ghost predicate Balanced(t: Tree) {
    t.Node? ==>
      && Balanced(t.left) && Balanced(t.right)
      && Height(t.left) <= Height(t.right) + 2 && Height(t.right) <= Height(t.left) + 2
  }

  /** The invariant validateTree is meant to check, for all elements rather than for children. */
  ghost predicate Avl(t: Tree) {
    HeightsOk(t) && Balanced(t) && Sorted(Elems(t))
  }

  // ----- Rebalancing -----

  ghost predicate Near(a: nat, b: nat, d: nat) {
    a <= b + d && b <= a + d
  }

  /** A node may be made of these, at most d apart in height. */
  ghost predicate Fits(l: Tree, v: Elem, r: Tree, d: nat) {
    Near(Height(l), Height(r), d) && Sorted(Join(Elems(l), v, Elems(r)))
  }

  lemma FitsNear(l: Tree, v: Elem, r: Tree)
    requires Fits(l, v, r, 3)
    ensures Near(Height(l), Height(r), 3) && (Near(Height(l), Height(r), 2) ==> Fits(l, v, r, 2))
  {
  }

  lemma LeafFits(v: Elem)
    ensures Fits(Nil, v, Nil, 2)
  {
  }

  lemma CreatedAvl(l: Tree, v: Elem, r: Tree)
    requires Avl(l) && Avl(r) && Fits(l, v, r, 2)
    ensures Avl(CreateNode(l, v, r))
  {
  }

  lemma Regroup(a: seq<Elem>, x: Elem, b: seq<Elem>, y: Elem, c: seq<Elem>)
    ensures Join(a, x, Join(b, y, c)) == Join(Join(a, x, b), y, c)
  {
  }

  lemma RotateRightOk(l: Tree, v: Elem, r: Tree)
    requires HeightsOk(l) && HeightsOk(r) && Balanced(l) && Balanced(r) && Height(l) == Height(r) + 3
    ensures var t := RotateRight(l, v, r); Balanced(t) && Height(l) <= t.height <= Height(l) + 1
    ensures var t := RotateRight(l, v, r); l.Node? && t.right.Node? && t.right.right == r && (t.left == l.left <==> Height(l.left) >= Height(l.right))
  {
  }

  lemma RotateLeftOk(l: Tree, v: Elem, r: Tree)
    requires HeightsOk(l) && HeightsOk(r) && Balanced(l) && Balanced(r) && Height(r) == Height(l) + 3
    ensures var t := RotateLeft(l, v, r); Balanced(t) && Height(r) <= t.height <= Height(r) + 1
    ensures var t := RotateLeft(l, v, r); r.Node? && t.left.Node? && t.left.left == l && (t.right == r.right <==> Height(r.right) >= Height(r.left))
  {
  }

  lemma RotateRightElems(l: Tree, v: Elem, r: Tree)
    requires HeightsOk(l) && HeightsOk(r) && l.Node?
    ensures Elems(RotateRight(l, v, r)) == Join(Elems(l), v, Elems(r))
  {
    hide HeightsOk, Join;
    var ll, lr := l.left, l.right;
    if Height(ll) >= Height(lr) {
      Regroup(Elems(ll), l.value, Elems(lr), v, Elems(r));
    } else {
      Regroup(Elems(ll), l.value, Elems(lr.left), lr.value, Elems(lr.right));
      Regroup(Join(Elems(ll), l.value, Elems(lr.left)), lr.value, Elems(lr.right), v, Elems(r));
    }
  }

  lemma RotateLeftElems(l: Tree, v: Elem, r: Tree)
    requires HeightsOk(l) && HeightsOk(r) && r.Node?
    ensures Elems(RotateLeft(l, v, r)) == Join(Elems(l), v, Elems(r))
  {
    hide HeightsOk, Join;
    var rl, rr := r.left, r.right;
    if Height(rr) >= Height(rl) {
      Regroup(Elems(l), v, Elems(rl), r.value, Elems(rr));
    } else {
      Regroup(Elems(rl.left), rl.value, Elems(rl.right), r.value, Elems(rr));
      Regroup(Elems(l), v, Elems(rl.left), rl.value, Join(Elems(rl.right), r.value, Elems(rr)));
    }
  }

  /** BalanceTree keeps the elements and their order. */
  lemma BalanceTreeElems(l: Tree, v: Elem, r: Tree)
    requires HeightsOk(l) && HeightsOk(r)
    ensures Elems(BalanceTree(l, v, r)) == Join(Elems(l), v, Elems(r))
  {
    hide Join, HeightsOk, RotateRight, RotateLeft;
    if Height(l) > Height(r) + 2 {
      RotateRightElems(l, v, r);
    } else if Height(r) > Height(l) + 2 {
      RotateLeftElems(l, v, r);
    }
  }

  /** It repairs an imbalance of 3, and gives the height of the unbalanced node or one less. */
  lemma BalanceTreeShape(l: Tree, v: Elem, r: Tree)
    requires HeightsOk(l) && HeightsOk(r) && Balanced(l) && Balanced(r) && Near(Height(l), Height(r), 3)
    ensures var t := BalanceTree(l, v, r);
      && Balanced(t)
      && Max(Height(l), Height(r)) <= t.height <= Max(Height(l), Height(r)) + 1
      && (Near(Height(l), Height(r), 2) ==> t.height == Max(Height(l), Height(r)) + 1)
  {
    if Height(l) > Height(r) + 2 {
      hide Balanced, HeightsOk, RotateRight;
      RotateRightOk(l, v, r);
    } else if Height(r) > Height(l) + 2 {
      hide Balanced, HeightsOk, RotateLeft;
      RotateLeftOk(l, v, r);
    }
  }

  // ----- Sorted sequences -----

  /** s with v in its place, replacing an element with an equal key. */
  function Inserted(s: seq<Elem>, v: Elem): (r: seq<Elem>) {
    if s == [] || v.key < s[0].key then [v] + s
    else if v.key == s[0].key then [v] + s[1..]
    else [s[0]] + Inserted(s[1..], v)
  }

  /** s without the element whose key is k. */
  function Deleted(s: seq<Elem>, k: int): (r: seq<Elem>) {
    if s == [] then []
    else if s[0].key == k then s[1..]
    else [s[0]] + Deleted(s[1..], k)
  }

  lemma SortedTail(s: seq<Elem>)
    requires Sorted(s) && s != []
    ensures Sorted(s[1..]) && forall e :: e in s[1..] ==> s[0].key < e.key
  {
    assert forall i :: 0 <= i < |s| - 1 ==> s[1..][i] == s[i + 1];
  }

  lemma SortedCons(e: Elem, s: seq<Elem>)
    requires Sorted(s) && forall x :: x in s ==> e.key < x.key
    ensures Sorted([e] + s)
  {
  }

  /** Insertion puts v in the place of any element with its key, and keeps the others. */
  lemma {:induction false} InsertedMeans(s: seq<Elem>, v: Elem)
    requires Sorted(s)
    ensures Sorted(Inserted(s, v))
    ensures forall e :: e in Inserted(s, v) <==> e == v || (e in s && e.key != v.key)
  {
    if s != [] {
      SortedTail(s);
      hide Sorted;
      assert forall e :: e in s <==> e == s[0] || e in s[1..];
      if v.key < s[0].key {
        SortedCons(v, s);
      } else if v.key == s[0].key {
        SortedCons(v, s[1..]);
      } else {
        var q := s[1..];
        var rest := Inserted(q, v);
        InsertedMeans(q, v);
        assert forall e :: e in rest ==> e == v || e in q;
        SortedCons(s[0], rest);
      }
    }
  }

  lemma {:induction false} DeletedMeans(s: seq<Elem>, k: int)
    requires Sorted(s)
    ensures Sorted(Deleted(s, k))
    ensures forall e :: e in Deleted(s, k) <==> e in s && e.key != k
  {
    if s != [] {
      SortedTail(s);
      hide Sorted;
      assert forall e :: e in s <==> e == s[0] || e in s[1..];
      if s[0].key != k {
        var q := s[1..];
        var rest := Deleted(q, k);
        DeletedMeans(q, k);
        assert forall e :: e in rest ==> e in q;
        SortedCons(s[0], rest);
      }
    }
  }

  /** Two sorted sequences with the same elements are equal. */
  lemma {:induction false} SortedUnique(s: seq<Elem>, r: seq<Elem>)
    requires Sorted(s) && Sorted(r) && forall e :: e in s <==> e in r
    ensures s == r
  {
    assert |r| > 0 ==> r[0] in s;
    if s != [] {
      assert s[0] in r;
      SortedTail(s);
      SortedTail(r);
      assert forall e :: e in s <==> e == s[0] || e in s[1..];
      assert forall e :: e in r <==> e == r[0] || e in r[1..];
      assert s[0] == r[0];
      forall e ensures e in s[1..] <==> e in r[1..] {
      }
      SortedUnique(s[1..], r[1..]);
      assert s == [s[0]] + s[1..] && r == [r[0]] + r[1..];
    }
  }

  lemma SortedParts(a: seq<Elem>, v: Elem, b: seq<Elem>)
    requires Sorted(Join(a, v, b))
    ensures Sorted(a) && Sorted(b)
    ensures forall e :: e in a ==> e.key < v.key
    ensures forall e :: e in b ==> v.key < e.key
  {
    var s := a + [v] + b;
    assert s[|a|] == v;
    assert forall i :: 0 <= i < |a| ==> s[i] == a[i];
    assert forall i :: 0 <= i < |b| ==> s[|a| + 1 + i] == b[i];
  }

  // Insertion and deletion act inside the part the key belongs to.

  lemma ConsDrop(p: seq<Elem>, x: seq<Elem>)
    requires p != []
    ensures (p + x)[0] == p[0] && (p + x)[1..] == p[1..] + x && [p[0]] + (p[1..] + x) == p + x
  {
  }

  lemma {:induction false} InsertedInLeft(a: seq<Elem>, w: seq<Elem>, x: Elem)
    requires w == [] || x.key < w[0].key
    ensures Inserted(a + w, x) == Inserted(a, x) + w
  {
    if a == [] {
      assert a + w == w;
    } else {
      InsertedInLeft(a[1..], w, x);
      ConsDrop(a, w);
      Assoc([a[0]], Inserted(a[1..], x), w);
      Assoc([x], a, w);
      Assoc([x], a[1..], w);
    }
  }

  lemma {:induction false} InsertedInRight(p: seq<Elem>, b: seq<Elem>, x: Elem)
    requires forall e :: e in p ==> e.key < x.key
    ensures Inserted(p + b, x) == p + Inserted(b, x)
  {
    if p == [] {
      assert p + b == b && p + Inserted(b, x) == Inserted(b, x);
    } else {
      InsertedInRight(p[1..], b, x);
      ConsDrop(p, b);
      ConsDrop(p, Inserted(b, x));
    }
  }

  lemma {:induction false} DeletedInLeft(a: seq<Elem>, w: seq<Elem>, k: int)
    requires forall e :: e in w ==> e.key != k
    ensures Deleted(a + w, k) == Deleted(a, k) + w
  {
    if a == [] {
      assert a + w == w;
      DeletedAbsent(w, k);
    } else {
      DeletedInLeft(a[1..], w, k);
      ConsDrop(a, w);
      Assoc([a[0]], Deleted(a[1..], k), w);
    }
  }

  lemma {:induction false} DeletedAbsent(w: seq<Elem>, k: int)
    requires forall e :: e in w ==> e.key != k
    ensures Deleted(w, k) == w
  {
    if w != [] {
      DeletedAbsent(w[1..], k);
    }
  }

  lemma {:induction false} DeletedInRight(p: seq<Elem>, b: seq<Elem>, k: int)
    requires forall e :: e in p ==> e.key != k
    ensures Deleted(p + b, k) == p + Deleted(b, k)
  {
    if p == [] {
      assert p + b == b && p + Deleted(b, k) == Deleted(b, k);
    } else {
      DeletedInRight(p[1..], b, k);
      ConsDrop(p, b);
      ConsDrop(p, Deleted(b, k));
    }
  }

  lemma JoinCut(a: seq<Elem>, v: Elem, b: seq<Elem>)
    ensures Join(a, v, b) == a + ([v] + b) && Join(a, v, b) == (a + [v]) + b
    ensures ([v] + b)[0] == v && ([v] + b)[1..] == b
  {
  }

  lemma InsertedAround(a: seq<Elem>, v: Elem, b: seq<Elem>, x: Elem)
    requires Sorted(Join(a, v, b))
    ensures x.key < v.key ==> Inserted(Join(a, v, b), x) == Join(Inserted(a, x), v, b)
    ensures x.key == v.key ==> Inserted(Join(a, v, b), x) == Join(a, x, b)
    ensures v.key < x.key ==> Inserted(Join(a, v, b), x) == Join(a, v, Inserted(b, x))
  {
    SortedParts(a, v, b);
    hide Sorted, Join;
    JoinCut(a, v, b);
    if x.key < v.key {
      InsertedInLeft(a, [v] + b, x);
      JoinCut(Inserted(a, x), v, b);
    } else if x.key == v.key {
      InsertedInRight(a, [v] + b, x);
      JoinCut(a, x, b);
    } else {
      InsertedInRight(a + [v], b, x);
      JoinCut(a, v, Inserted(b, x));
    }
  }

  lemma DeletedAround(a: seq<Elem>, v: Elem, b: seq<Elem>, k: int)
    requires Sorted(Join(a, v, b))
    ensures k < v.key ==> Deleted(Join(a, v, b), k) == Join(Deleted(a, k), v, b)
    ensures k == v.key ==> Deleted(Join(a, v, b), k) == a + b
    ensures v.key < k ==> Deleted(Join(a, v, b), k) == Join(a, v, Deleted(b, k))
  {
    SortedParts(a, v, b);
    hide Sorted, Join;
    JoinCut(a, v, b);
    if k < v.key {
      DeletedInLeft(a, [v] + b, k);
      JoinCut(Deleted(a, k), v, b);
    } else if k == v.key {
      DeletedInRight(a, [v] + b, k);
    } else {
      DeletedInRight(a + [v], b, k);
      JoinCut(a, v, Deleted(b, k));
    }
  }

  // ----- Insertion and removal -----

  /** add puts v in its place among the elements. */
  lemma {:induction false} AddElems(v: Elem, t: Tree)
    requires HeightsOk(t) && Sorted(Elems(t))
    ensures Elems(Add(v, t)) == Inserted(Elems(t), v)
  {
    if t.Nil? {
      assert Elems(Add(v, t)) == [v];
    } else {
      var a, b := Elems(t.left), Elems(t.right);
      InsertedAround(a, t.value, b, v);
      SortedParts(a, t.value, b);
      hide Sorted, Inserted, BalanceTree, Join;
      if v.key < t.value.key {
        AddElems(v, t.left);
        BalanceTreeElems(Add(v, t.left), t.value, t.right);
      } else if v.key > t.value.key {
        AddElems(v, t.right);
        BalanceTreeElems(t.left, t.value, Add(v, t.right));
      }
    }
  }

  lemma {:induction false} AddShape(v: Elem, t: Tree)
    requires HeightsOk(t) && Balanced(t)
    ensures Balanced(Add(v, t)) && Height(t) <= Height(Add(v, t)) <= Height(t) + 1
  {
    hide BalanceTree;
    if t.Node? && v.key < t.value.key {
      AddShape(v, t.left);
      BalanceTreeShape(Add(v, t.left), t.value, t.right);
    } else if t.Node? && v.key > t.value.key {
      AddShape(v, t.right);
      BalanceTreeShape(t.left, t.value, Add(v, t.right));
    }
  }

  /** add: the invariant is kept, the height grows by at most one, and the elements are the
      old ones with v in its place. */
  lemma AddOk(v: Elem, t: Tree)
    requires Avl(t)
    ensures Avl(Add(v, t)) && Elems(Add(v, t)) == Inserted(Elems(t), v)
    ensures Height(t) <= Height(Add(v, t)) <= Height(t) + 1
  {
    hide Sorted, Balanced, HeightsOk, Add;
    AddElems(v, t);
    AddShape(v, t);
    InsertedMeans(Elems(t), v);
  }

  lemma {:induction false} RemoveMinElems(t: Tree)
    requires HeightsOk(t) && t.Node?
    ensures var (rest, v) := RemoveMin(t); Elems(t) == [v] + Elems(rest)
  {
    hide BalanceTree;
    if t.left.Node? {
      RemoveMinElems(t.left);
      var (rest, v) := RemoveMin(t.left);
      BalanceTreeElems(rest, t.value, t.right);
      assert Join([v] + Elems(rest), t.value, Elems(t.right)) == [v] + Join(Elems(rest), t.value, Elems(t.right));
    } else {
      assert Elems(t) == [t.value] + Elems(t.right);
    }
  }

  lemma {:induction false} RemoveMinShape(t: Tree)
    requires HeightsOk(t) && Balanced(t) && t.Node?
    ensures var (rest, v) := RemoveMin(t);
      Balanced(rest) && Height(rest) <= Height(t) <= Height(rest) + 1
  {
    hide BalanceTree;
    if t.left.Node? {
      RemoveMinShape(t.left);
      var (rest, v) := RemoveMin(t.left);
      BalanceTreeShape(rest, t.value, t.right);
    }
  }

  lemma CombineTreesElems(l: Tree, r: Tree)
    requires HeightsOk(l) && HeightsOk(r)
    ensures Elems(CombineTrees(l, r)) == Elems(l) + Elems(r)
  {
    hide BalanceTree, RemoveMin, Join, HeightsOk;
    if l.Node? && r.Node? {
      RemoveMinElems(r);
      var (rest, v) := RemoveMin(r);
      BalanceTreeElems(l, v, rest);
      JoinCut(Elems(l), v, Elems(rest));
    }
  }

  lemma CombineTreesShape(l: Tree, r: Tree)
    requires HeightsOk(l) && HeightsOk(r) && Balanced(l) && Balanced(r) && Near(Height(l), Height(r), 2)
    ensures var t := CombineTrees(l, r);
      Balanced(t) && Max(Height(l), Height(r)) <= Height(t) <= Max(Height(l), Height(r)) + 1
  {
    hide BalanceTree, RemoveMin, Balanced;
    if l.Node? && r.Node? {
      RemoveMinShape(r);
      var (rest, v) := RemoveMin(r);
      BalanceTreeShape(l, v, rest);
    }
  }

  /** remove takes the key out of the elements. */
  lemma {:induction false} RemoveElems(k: int, t: Tree)
    requires HeightsOk(t) && Sorted(Elems(t))
    ensures Elems(Remove(k, t)) == Deleted(Elems(t), k)
  {
    if t.Node? {
      var a, b := Elems(t.left), Elems(t.right);
      DeletedAround(a, t.value, b, k);
      SortedParts(a, t.value, b);
      hide Sorted, Deleted, BalanceTree, CombineTrees, Join;
      if k == t.value.key {
        CombineTreesElems(t.left, t.right);
      } else if k < t.value.key {
        RemoveElems(k, t.left);
        BalanceTreeElems(Remove(k, t.left), t.value, t.right);
      } else {
        RemoveElems(k, t.right);
        BalanceTreeElems(t.left, t.value, Remove(k, t.right));
      }
    }
  }

  lemma {:induction false} RemoveShape(k: int, t: Tree)
    requires HeightsOk(t) && Balanced(t)
    ensures Balanced(Remove(k, t)) && Height(Remove(k, t)) <= Height(t) <= Height(Remove(k, t)) + 1
  {
    hide BalanceTree, CombineTrees;
    if t.Node? {
      if k == t.value.key {
        CombineTreesShape(t.left, t.right);
      } else if k < t.value.key {
        RemoveShape(k, t.left);
        BalanceTreeShape(Remove(k, t.left), t.value, t.right);
      } else {
        RemoveShape(k, t.right);
        BalanceTreeShape(t.left, t.value, Remove(k, t.right));
      }
    }
  }

  /** remove: the invariant is kept, the height drops by at most one, and the elements are
      the old ones without the key. */
  lemma RemoveOk(k: int, t: Tree)
    requires Avl(t)
    ensures Avl(Remove(k, t)) && Elems(Remove(k, t)) == Deleted(Elems(t), k)
    ensures Height(Remove(k, t)) <= Height(t) <= Height(Remove(k, t)) + 1
  {
    hide Sorted, Balanced, HeightsOk, Remove;
    RemoveElems(k, t);
    RemoveShape(k, t);
    DeletedMeans(Elems(t), k);
  }

  // ----- Height -----

  function Size(t: Tree): (n: nat)
    ensures n == |Elems(t)|
  {
    if t.Nil? then 0 else 1 + Size(t.left) + Size(t.right)
  }

  /** A way down from the root, true leading to the left; its length is the number of nodes on it. */
  ghost predicate WayDown(t: Tree, way: seq<bool>) {
    way != [] ==> t.Node? && WayDown(if way[0] then t.left else t.right, way[1..])
  }

  /** The cached height is the length of the longest way down. */
  lemma {:induction false} HeightMeans(t: Tree) returns (longest: seq<bool>)
    requires HeightsOk(t)
    ensures WayDown(t, longest) && |longest| == Height(t)
    ensures forall way :: WayDown(t, way) ==> |way| <= Height(t)
  {
    longest := [];
    if t.Node? {
      var a := HeightMeans(t.left);
      var b := HeightMeans(t.right);
      longest := if |a| >= |b| then [true] + a else [false] + b;
      assert longest[1..] == if |a| >= |b| then a else b;
      forall way | WayDown(t, way) ensures |way| <= Height(t) {
        assert way != [] ==> |way[1..]| <= Max(Height(t.left), Height(t.right));
      }
    }
  }

  /** The least number of elements a tree of height h can have. */
  function MinSize(h: nat): (n: nat) {
    if h == 0 then 0
    else 1 + MinSize(h - 1) + (if h >= 3 then MinSize(h - 3) else 0)
  }

  function Pow2(k: nat): (p: nat)
    ensures p > 0
  {
    if k == 0 then 1 else 2 * Pow2(k - 1)
  }

  lemma {:induction false} MinSizeMonotone(a: nat, b: nat)
    requires a <= b
    ensures MinSize(a) <= MinSize(b)
  {
    if a < b {
      MinSizeMonotone(a, b - 1);
    }
  }

  lemma SizeStep(a: nat, b: nat, m: nat, n: nat)
    requires Near(a, b, 2) && MinSize(a) <= m && MinSize(b) <= n
    ensures MinSize(Max(a, b) + 1) <= 1 + m + n
  {
    var h := Max(a, b) + 1;
    if h >= 3 {
      MinSizeMonotone(h - 3, Min(a, b));
    }
  }

  lemma {:induction false} SizeAtLeast(t: Tree)
    requires HeightsOk(t) && Balanced(t)
    ensures MinSize(Height(t)) <= Size(t)
  {
    hide Elems, MinSize;
    if t.Node? {
      SizeAtLeast(t.left);
      SizeAtLeast(t.right);
      SizeStep(Height(t.left), Height(t.right), Size(t.left), Size(t.right));
    } else {
      MinSizeZero();
    }
  }

  lemma MinSizeZero()
    ensures MinSize(0) == 0
  {
  }

  lemma {:induction false} MinSizeExponential(h: nat)
    ensures MinSize(h) + 1 >= Pow2(h / 3)
  {
    if h >= 3 {
      MinSizeExponential(h - 3);
      MinSizeMonotone(h - 3, h - 1);
      assert h / 3 == (h - 3) / 3 + 1;
    }
  }

  /** A tree of n elements is at most about 3 log2(n + 1) high. */
  lemma HeightLogarithmic(t: Tree)
    requires HeightsOk(t) && Balanced(t)
    ensures Pow2(Height(t) / 3) <= |Elems(t)| + 1
    ensures forall way :: WayDown(t, way) ==> |way| <= Height(t)
  {
    var longest := HeightMeans(t);
    SizeAtLeast(t);
    MinSizeExponential(Height(t));
  }

  // ----- Lookup -----

  /** find, with its loop: the element with the key, if there is one. */
  method Find(t: Tree, k: int) returns (r: Tree)
    requires Avl(t)
    ensures r.Node? ==> r.value in Elems(t) && r.value.key == k
    ensures r.Nil? ==> forall e :: e in Elems(t) ==> e.key != k
  {
    r := t;
    while r.Node?
      invariant Sorted(Elems(r))
      invariant forall e :: e in Elems(r) ==> e in Elems(t)
      invariant forall e :: e in Elems(t) && e.key == k ==> e in Elems(r)
      decreases r
    {
      SortedParts(Elems(r.left), r.value, Elems(r.right));
      if k == r.value.key {
        return;
      } else if k < r.value.key {
        r := r.left;
      } else {
        r := r.right;
      }
    }
  }
}
