/** The in-order iterator, a stack of nodes with visit flags, and the comparisons that run
    on it: isEqual, which skips shared subtrees, and compareTreeWithSection. */
module AvlIterator {
  import opened Collections
  import opened AvlTree
  import opened AvlStore

  datatype Flag = VisitedNone | VisitedLeft | VisitedRight

  /** A stack word: a node's address with the flag in its low bits. */
  datatype Entry = Entry(node: Ptr, flag: Flag)

  // ----- The generic iterator, on values -----

  /** skipToParent: the visit flag of the parent moves on. */
  function SkipToParent(st: seq<Entry>): (r: seq<Entry>)
    requires st != []
  {
    var rest := st[..|st| - 1];
    if rest == [] then []
    else
      var e := rest[|rest| - 1];
      rest[|rest| - 1 := e.(flag := if e.flag.VisitedNone? then VisitedLeft else VisitedRight)]
  }

  /** The generic iterator's operator++. */
  function Step(s: Store, st: seq<Entry>): (r: seq<Entry>)
    requires st != [] && st[|st| - 1].node in s
  {
    var k := |st| - 1;
    var e := st[k];
    match e.flag
    case VisitedNone => if s[e.node].left != NULL then st + [Entry(s[e.node].left, VisitedNone)] else st[k := e.(flag := VisitedLeft)]
    case VisitedLeft => if s[e.node].right != NULL then st + [Entry(s[e.node].right, VisitedNone)] else st[k := e.(flag := VisitedRight)]
    case VisitedRight => SkipToParent(st)
  }

  /** Nodes under the top are in the middle of one of their subtrees. */
  ghost predicate StackOk(trees: map<Ptr, Tree>, st: seq<Entry>) {
    && (forall i :: 0 <= i < |st| ==> st[i].node in trees)
    && (forall i :: 0 <= i < |st| - 1 ==> !st[i].flag.VisitedRight?)
  }

  // ----- What a stack still has to visit -----

  /** The value of a node and the elements to its right. */
  ghost function FromValue(trees: map<Ptr, Tree>, p: Ptr): (r: seq<Elem>) {
    var t := TreeAt(trees, p);
    if t.Nil? then [] else [t.value] + Elems(t.right)
  }

  ghost function AtTop(trees: map<Ptr, Tree>, e: Entry): (r: seq<Elem>) {
    match e.flag
    case VisitedNone => Elems(TreeAt(trees, e.node))
    case VisitedLeft => FromValue(trees, e.node)
    case VisitedRight => []
  }

  /** What an entry contributes once the subtrees above it are done. */
  ghost function Below(trees: map<Ptr, Tree>, st: seq<Entry>): (r: seq<Elem>) {
    if st == [] then []
    else
      var e := st[|st| - 1];
      var rest := Below(trees, st[..|st| - 1]);
      if e.flag.VisitedNone? then FromValue(trees, e.node) + rest else rest
  }

  ghost function Rest(trees: map<Ptr, Tree>, st: seq<Entry>): (r: seq<Elem>) {
    if st == [] then [] else AtTop(trees, st[|st| - 1]) + Below(trees, st[..|st| - 1])
  }

  // ----- Number of steps left -----

  ghost function StepsFromValue(trees: map<Ptr, Tree>, p: Ptr): (n: nat) {
    var t := TreeAt(trees, p);
    if t.Nil? then 0 else 3 * Size(t.right) + 2
  }

  ghost function StepsAtTop(trees: map<Ptr, Tree>, e: Entry): (n: nat) {
    match e.flag
    case VisitedNone => 3 * Size(TreeAt(trees, e.node))
    case VisitedLeft => StepsFromValue(trees, e.node)
    case VisitedRight => 1
  }

  ghost function StepsBelow(trees: map<Ptr, Tree>, st: seq<Entry>): (n: nat) {
    if st == [] then 0
    else
      var e := st[|st| - 1];
      (if e.flag.VisitedNone? then StepsFromValue(trees, e.node) else 1) + StepsBelow(trees, st[..|st| - 1])
  }

  ghost function Steps(trees: map<Ptr, Tree>, st: seq<Entry>): (n: nat) {
    if st == [] then 0 else StepsAtTop(trees, st[|st| - 1]) + StepsBelow(trees, st[..|st| - 1])
  }

  // ----- One step -----

  /** Dropping the top entry leaves what was below it. */
  lemma SkipToParentOk(s: Store, trees: map<Ptr, Tree>, st: seq<Entry>)
    requires StoreOk(s, trees) && StackOk(trees, st) && st != []
    ensures var r := SkipToParent(st);
      && StackOk(trees, r) && Rest(trees, r) == Below(trees, st[..|st| - 1]) && Steps(trees, r) == StepsBelow(trees, st[..|st| - 1])
  {
    var rest, r := st[..|st| - 1], SkipToParent(st);
    if rest != [] {
      assert r[..|r| - 1] == rest[..|rest| - 1];
      assert !rest[|rest| - 1].flag.VisitedRight?;
    }
  }

  lemma ElemsSplit(trees: map<Ptr, Tree>, p: Ptr)
    requires TreeAt(trees, p).Node?
    ensures Elems(TreeAt(trees, p)) == Elems(TreeAt(trees, p).left) + FromValue(trees, p)
  {
    var t := TreeAt(trees, p);
    assert Join(Elems(t.left), t.value, Elems(t.right)) == Elems(t.left) + ([t.value] + Elems(t.right));
  }

  /** How an entry on top of the others counts, as the top and once something is above it. */
  lemma PushTop(trees: map<Ptr, Tree>, rest: seq<Entry>, e: Entry)
    ensures Rest(trees, rest + [e]) == AtTop(trees, e) + Below(trees, rest)
    ensures Steps(trees, rest + [e]) == StepsAtTop(trees, e) + StepsBelow(trees, rest)
    ensures Below(trees, rest + [e]) == if e.flag.VisitedNone? then FromValue(trees, e.node) + Below(trees, rest) else Below(trees, rest)
    ensures StepsBelow(trees, rest + [e]) == (if e.flag.VisitedNone? then StepsFromValue(trees, e.node) else 1) + StepsBelow(trees, rest)
  {
    assert (rest + [e])[..|rest|] == rest;
  }

  lemma StepStackOk(s: Store, trees: map<Ptr, Tree>, st: seq<Entry>)
    requires StoreOk(s, trees) && StackOk(trees, st) && st != []
    ensures StackOk(trees, Step(s, st))
  {
    assert CellOk(s, trees, st[|st| - 1].node);
  }

  /** Into the left subtree, if there is one. */
  lemma StepFromNone(s: Store, trees: map<Ptr, Tree>, rest: seq<Entry>, e: Entry)
    requires StoreOk(s, trees) && e.node in trees && e.flag.VisitedNone?
    ensures var st := rest + [e]; var r := Step(s, st);
      Steps(trees, r) < Steps(trees, st) && Rest(trees, st) == Rest(trees, r)
  {
    assert CellOk(s, trees, e.node);
    ElemsSplit(trees, e.node);
    PushTop(trees, rest, e);
    var l := s[e.node].left;
    if l != NULL {
      assert CellOk(s, trees, l);
      PushTop(trees, rest + [e], Entry(l, VisitedNone));
      hide Rest, Below, Elems;
      Assoc(Elems(TreeAt(trees, l)), FromValue(trees, e.node), Below(trees, rest));
    } else {
      PushTop(trees, rest, e.(flag := VisitedLeft));
      assert (rest + [e])[|rest| := e.(flag := VisitedLeft)] == rest + [e.(flag := VisitedLeft)];
      hide Rest, Below, StepsBelow;
      assert Elems(TreeAt(trees, e.node)) == FromValue(trees, e.node);
    }
  }

  /** Past the value, into the right subtree if there is one. */
  lemma StepFromLeft(s: Store, trees: map<Ptr, Tree>, rest: seq<Entry>, e: Entry)
    requires StoreOk(s, trees) && e.node in trees && e.flag.VisitedLeft?
    ensures var st := rest + [e]; var r := Step(s, st);
      Steps(trees, r) < Steps(trees, st) && Rest(trees, st) == [s[e.node].value] + Rest(trees, r)
  {
    assert CellOk(s, trees, e.node);
    PushTop(trees, rest, e);
    var q := s[e.node].right;
    if q != NULL {
      assert CellOk(s, trees, q);
      PushTop(trees, rest + [e], Entry(q, VisitedNone));
      hide Rest, Below, Elems;
      Assoc([s[e.node].value], Elems(TreeAt(trees, q)), Below(trees, rest));
    } else {
      PushTop(trees, rest, e.(flag := VisitedRight));
      assert (rest + [e])[|rest| := e.(flag := VisitedRight)] == rest + [e.(flag := VisitedRight)];
      hide Rest, Below, StepsBelow;
      assert FromValue(trees, e.node) == [s[e.node].value];
      assert [] + Below(trees, rest) == Below(trees, rest);
    }
  }

  /** A step passes over the value exactly when the left subtree was just done. */
  lemma StepOk(s: Store, trees: map<Ptr, Tree>, st: seq<Entry>)
    requires StoreOk(s, trees) && StackOk(trees, st) && st != []
    ensures var r := Step(s, st); var top := st[|st| - 1];
      && StackOk(trees, r) && Steps(trees, r) < Steps(trees, st)
      && Rest(trees, st) == (if top.flag.VisitedLeft? then [s[top.node].value] + Rest(trees, r) else Rest(trees, r))
  {
    var k := |st| - 1;
    StepStackOk(s, trees, st);
    assert st == st[..k] + [st[k]];
    match st[k].flag {
      case VisitedNone => StepFromNone(s, trees, st[..k], st[k]);
      case VisitedLeft => StepFromLeft(s, trees, st[..k], st[k]);
      case VisitedRight =>
        SkipToParentOk(s, trees, st);
        PushTop(trees, st[..k], st[k]);
        assert [] + Below(trees, st[..k]) == Below(trees, st[..k]);
    }
  }

  // ----- The in-order iterator -----

  /** Between calls the iterator is at the end or stands on a node whose left side is done. */
  ghost predicate Positioned(st: seq<Entry>) {
    st != [] ==> st[|st| - 1].flag.VisitedLeft?
  }

  lemma PositionedRest(s: Store, trees: map<Ptr, Tree>, st: seq<Entry>)
    requires StoreOk(s, trees) && StackOk(trees, st) && Positioned(st)
    ensures st == [] <==> Rest(trees, st) == []
    ensures st != [] ==> Rest(trees, st)[0] == s[st[|st| - 1].node].value
    ensures st != [] ==> Rest(trees, st) == FromValue(trees, st[|st| - 1].node) + Below(trees, st[..|st| - 1])
  {
    if st != [] {
      assert CellOk(s, trees, st[|st| - 1].node);
    }
  }

  class InOrderIterator {
    const store: Store
    ghost const trees: map<Ptr, Tree>
    var stack: seq<Entry>

    ghost predicate Valid()
      reads this
    {
      StoreOk(store, trees) && StackOk(trees, stack) && Positioned(stack)
    }

    /** The elements from the current one on. */
    ghost function Remaining(): (r: seq<Elem>)
      reads this
    {
      Rest(trees, stack)
    }

    /** begin() of the tree at root; a null root gives the end. */
    constructor (store: Store, ghost trees: map<Ptr, Tree>, root: Ptr)
      requires StoreOk(store, trees) && Link(trees, root)
      ensures Valid() && Remaining() == Elems(TreeAt(trees, root))
      ensures this.store == store && this.trees == trees
    {
      this.store, this.trees := store, trees;
      stack := if root != NULL then [Entry(root, VisitedNone)] else [];
      new;
      if root != NULL {
        Settle();
      }
    }

    /** Generic steps until the next value or the end: the loop shared by the constructor,
        operator++ and skipSubTree. */
    method Settle()
      requires StoreOk(store, trees) && StackOk(trees, stack)
      modifies this
      ensures Valid() && Remaining() == old(Remaining())
    {
      hide StackOk, StoreOk, Rest, Steps;
      while stack != [] && !stack[|stack| - 1].flag.VisitedLeft?
        invariant StoreOk(store, trees) && StackOk(trees, stack) && Remaining() == old(Remaining())
        decreases Steps(trees, stack)
      {
        Increment();
      }
    }

    /** The generic iterator's operator++. */
    method Increment()
      requires StoreOk(store, trees) && StackOk(trees, stack) && stack != []
      modifies this
      ensures StackOk(trees, stack) && Steps(trees, stack) < old(Steps(trees, stack))
      ensures old(Remaining()) ==
        if old(stack[|stack| - 1].flag.VisitedLeft?) then [store[old(stack[|stack| - 1].node)].value] + Remaining() else Remaining()
    {
      StepOk(store, trees, stack);
      var k := |stack| - 1;
      var e := stack[k];
      match e.flag {
        case VisitedNone =>
          if store[e.node].left != NULL {
            stack := stack + [Entry(store[e.node].left, VisitedNone)];
          } else {
            stack := stack[k := e.(flag := VisitedLeft)];
          }
        case VisitedLeft =>
          if store[e.node].right != NULL {
            stack := stack + [Entry(store[e.node].right, VisitedNone)];
          } else {
            stack := stack[k := e.(flag := VisitedRight)];
          }
        case VisitedRight =>
          stack := SkipToParent(stack);
      }
    }

    method AtEnd() returns (r: bool)
      requires Valid()
      ensures r <==> Remaining() == []
    {
      PositionedRest(store, trees, stack);
      r := stack == [];
    }

    /** operator*: the current node. */
    method Current() returns (p: Ptr)
      requires Valid() && Remaining() != []
      ensures stack != [] && p == stack[|stack| - 1].node && p in trees && p in store
      ensures Remaining()[0] == store[p].value
    {
      PositionedRest(store, trees, stack);
      p := stack[|stack| - 1].node;
    }

    /** operator++. */
    method Next()
      requires Valid() && Remaining() != []
      modifies this
      ensures Valid() && Remaining() == old(Remaining())[1..]
    {
      PositionedRest(store, trees, stack);
      Increment();
      Settle();
    }

    /** skipSubTree: drops the current value and everything to its right in its subtree. */
    method SkipSubTree()
      requires Valid() && Remaining() != []
      modifies this
      ensures Valid()
      ensures old(stack) != [] && old(Remaining()) == FromValue(trees, old(stack[|stack| - 1].node)) + Remaining()
    {
      PositionedRest(store, trees, stack);
      SkipToParentOk(store, trees, stack);
      stack := SkipToParent(stack);
      Settle();
    }
  }

  // ----- Comparisons -----

  lemma CancelPrefix(p: seq<Elem>, a: seq<Elem>, b: seq<Elem>)
    ensures p + a == p + b <==> a == b
  {
    assert (p + a)[|p|..] == a && (p + b)[|p|..] == b;
  }

  lemma SharedPart(store: Store, trees: map<Ptr, Tree>, p: Ptr, a: seq<Elem>, b: seq<Elem>)
    requires StoreOk(store, trees) && p in trees
    ensures |FromValue(trees, p)| > 0
    ensures FromValue(trees, p) + a == FromValue(trees, p) + b <==> a == b
  {
    assert CellOk(store, trees, p);
    CancelPrefix(FromValue(trees, p), a, b);
  }

  lemma SameHeads(a: seq<Elem>, b: seq<Elem>)
    requires a != [] && b != [] && a[0] == b[0]
    ensures a == b <==> a[1..] == b[1..]
  {
    assert a == [a[0]] + a[1..] && b == [b[0]] + b[1..];
  }

  /** One round of isEqual's loop. */
  method StepBoth(li: InOrderIterator, ri: InOrderIterator) returns (same: bool)
    requires li != ri && li.Valid() && ri.Valid() && li.store == ri.store && li.trees == ri.trees
    requires li.Remaining() != [] && ri.Remaining() != []
    modifies li, ri
    ensures li.Valid() && ri.Valid()
    ensures !same ==> old(li.Remaining()) != old(ri.Remaining())
    ensures same ==> |li.Remaining()| < old(|li.Remaining()|)
    ensures same ==> (old(li.Remaining()) == old(ri.Remaining()) <==> li.Remaining() == ri.Remaining())
  {
    hide StoreOk, StackOk, Positioned, Rest, Elems, FromValue;
    ghost var a, b := li.Remaining(), ri.Remaining();
    var x := li.Current();
    var y := ri.Current();
    if x == y {
      li.SkipSubTree();
      ri.SkipSubTree();
      SharedPart(li.store, li.trees, x, li.Remaining(), ri.Remaining());
      return true;
    }
    if li.store[x].value != ri.store[y].value {
      return false;
    }
    li.Next();
    ri.Next();
    SameHeads(a, b);
    return true;
  }

  /** isEqual: true exactly when both trees hold the same elements in the same order, even
      though it drops a subtree that both share. */
  method IsEqual(store: Store, ghost trees: map<Ptr, Tree>, l: Ptr, r: Ptr) returns (equal: bool)
    requires StoreOk(store, trees) && l in trees && r in trees
    ensures equal <==> Elems(TreeAt(trees, l)) == Elems(TreeAt(trees, r))
  {
    hide StoreOk, StackOk, Positioned, Rest, Elems;
    if l == r {
      return true;
    }
    var li := new InOrderIterator(store, trees, l);
    var ri := new InOrderIterator(store, trees, r);
    var lEnd := li.AtEnd();
    var rEnd := ri.AtEnd();
    while !lEnd && !rEnd
      invariant fresh(li) && fresh(ri) && li != ri && li.store == ri.store == store && li.trees == ri.trees == trees
      invariant li.Valid() && ri.Valid()
      invariant lEnd == (li.Remaining() == []) && rEnd == (ri.Remaining() == [])
      invariant Elems(TreeAt(trees, l)) == Elems(TreeAt(trees, r)) <==> li.Remaining() == ri.Remaining()
      decreases |li.Remaining()|
    {
      var same := StepBoth(li, ri);
      if !same {
        return false;
      }
      lEnd := li.AtEnd();
      rEnd := ri.AtEnd();
    }
    return lEnd && rEnd;
  }

  lemma PrefixFails(p: seq<Elem>, a: seq<Elem>, b: seq<Elem>)
    requires a != [] && (b == [] || a[0] != b[0])
    ensures !(p + a <= p + b)
  {
    assert (p + a)[|p|] == a[0];
    if b != [] {
      assert (p + b)[|p|] == b[0];
    }
  }

  lemma MoveHead(p: seq<Elem>, a: seq<Elem>)
    requires a != []
    ensures p + a == (p + [a[0]]) + a[1..]
  {
  }

  /** compareTreeWithSection: whether the elements of tree t are the next ones of ti, which
      is moved past them. */
  method CompareTreeWithSection(store: Store, ghost trees: map<Ptr, Tree>, t: Ptr, ti: InOrderIterator) returns (same: bool)
    requires ti.Valid() && ti.store == store && ti.trees == trees && t in trees
    modifies ti
    ensures ti.Valid()
    ensures same <==> Elems(TreeAt(trees, t)) <= old(ti.Remaining())
    ensures same ==> old(ti.Remaining()) == Elems(TreeAt(trees, t)) + ti.Remaining()
  {
    hide StoreOk, StackOk, Positioned, Rest, Elems;
    var i := new InOrderIterator(store, trees, t);
    ghost var all, section, done := i.Remaining(), ti.Remaining(), [];
    var atEnd := i.AtEnd();
    while !atEnd
      invariant fresh(i) && i.Valid() && ti.Valid() && i.store == store && i.trees == trees
      invariant all == done + i.Remaining() && section == done + ti.Remaining()
      invariant atEnd == (i.Remaining() == [])
      decreases |i.Remaining()|
    {
      ghost var a, b := i.Remaining(), ti.Remaining();
      var tiEnd := ti.AtEnd();
      if tiEnd {
        PrefixFails(done, a, b);
        return false;
      }
      var x := i.Current();
      var y := ti.Current();
      if store[x].value != store[y].value {
        PrefixFails(done, a, b);
        return false;
      }
      MoveHead(done, a);
      MoveHead(done, b);
      i.Next();
      ti.Next();
      done := done + [a[0]];
      atEnd := i.AtEnd();
    }
    return true;
  }
}
