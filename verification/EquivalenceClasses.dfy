/** Union-find with two overloaded pointers per node: Leader is the leader of a non-leader
    and the end of the member list of a leader; Next links the members and carries the
    leader bit. */
module EquivalenceClasses {
  import opened Collections

  type Elem = int

  // ----- The relation the unions generate -----

  type Unions = set<(Elem, Elem)>

  ghost predicate Chain(u: Unions, p: seq<Elem>, a: Elem, b: Elem) {
    && |p| > 0 && p[0] == a && p[|p| - 1] == b
    && forall i :: 0 <= i < |p| - 1 ==> (p[i], p[i + 1]) in u || (p[i + 1], p[i]) in u
  }

  /** a and b are linked by a chain of unions, each read in either direction. */
  ghost predicate Equiv(u: Unions, a: Elem, b: Elem) {
    exists p :: Chain(u, p, a, b)
  }

  lemma EquivRefl(u: Unions, a: Elem)
    ensures Equiv(u, a, a)
  {
    assert Chain(u, [a], a, a);
  }

  lemma EquivStep(u: Unions, a: Elem, b: Elem)
    requires (a, b) in u || (b, a) in u
    ensures Equiv(u, a, b)
  {
    assert Chain(u, [a, b], a, b);
  }

  lemma EquivSym(u: Unions, a: Elem, b: Elem)
    requires Equiv(u, a, b)
    ensures Equiv(u, b, a)
  {
    var p :| Chain(u, p, a, b);
    var n := |p|;
    var q := seq(n, i requires 0 <= i < n => p[n - 1 - i]);
    forall i | 0 <= i < n - 1 ensures (q[i], q[i + 1]) in u || (q[i + 1], q[i]) in u {
      var j := n - 2 - i;
      assert q[i + 1] == p[j] && q[i] == p[j + 1];
    }
    assert Chain(u, q, b, a);
  }

  lemma EquivTrans(u: Unions, a: Elem, b: Elem, c: Elem)
    requires Equiv(u, a, b) && Equiv(u, b, c)
    ensures Equiv(u, a, c)
  {
    var p :| Chain(u, p, a, b);
    var q :| Chain(u, q, b, c);
    var n := |p|;
    var r := p + q[1..];
    forall i | 0 <= i < |r| - 1 ensures (r[i], r[i + 1]) in u || (r[i + 1], r[i]) in u {
      if i >= n - 1 {
        var j := i - n + 1;
        assert r[i] == q[j] && r[i + 1] == q[j + 1];
      }
    }
    assert Chain(u, r, a, c);
  }

  lemma EquivGrows(u: Unions, v: Unions, a: Elem, b: Elem)
    requires Equiv(u, a, b) && u <= v
    ensures Equiv(v, a, b)
  {
    var p :| Chain(u, p, a, b);
    assert Chain(v, p, a, b);
  }

  /** Equiv lies inside every equivalence relation that contains the unions. */
  lemma EquivLeast(u: Unions, r: iset<(Elem, Elem)>, a: Elem, b: Elem)
    requires forall x :: (x, x) in r
    requires forall x, y :: (x, y) in r ==> (y, x) in r
    requires forall x, y, z :: (x, y) in r && (y, z) in r ==> (x, z) in r
    requires forall x, y :: (x, y) in u ==> (x, y) in r
    requires Equiv(u, a, b)
    ensures (a, b) in r
  {
    var p :| Chain(u, p, a, b);
    for i := 0 to |p| - 1
      invariant (a, p[i]) in r
    {
      var x, y := p[i], p[i + 1];
      assert (x, y) in u || (y, x) in u;
      assert (y, x) in r || (x, y) in r;
      assert (a, x) in r && (x, y) in r;
    }
  }

  // ----- The classes as lists -----

  /** The member list of each leader, and for each element its leader and its place in the list. */
  datatype Classes = Classes(lists: map<Elem, seq<Elem>>, home: map<Elem, Elem>, pos: map<Elem, nat>)

  ghost predicate Listed(c: Classes, l: Elem)
    requires l in c.lists
  {
    var s := c.lists[l];
    && |s| > 0 && s[0] == l
    && forall i :: 0 <= i < |s| ==> s[i] in c.home && s[i] in c.pos && c.home[s[i]] == l && c.pos[s[i]] == i
  }

  ghost predicate Placed(c: Classes, x: Elem)
    requires x in c.home
  {
    var l := c.home[x];
    && l in c.lists && x in c.pos
    && c.pos[x] < |c.lists[l]| && c.lists[l][c.pos[x]] == x
  }

  /** The lists partition the elements, each list starting with its leader. */
  ghost predicate Partition(c: Classes) {
    && c.pos.Keys == c.home.Keys
    && (forall l {:trigger Listed(c, l)} :: l in c.lists ==> Listed(c, l))
    && (forall x {:trigger Placed(c, x)} :: x in c.home ==> Placed(c, x))
  }

  ghost predicate SameClass(c: Classes, a: Elem, b: Elem) {
    a in c.home && b in c.home && c.home[a] == c.home[b]
  }

  ghost predicate Sound(u: Unions, c: Classes) {
    forall a, b :: (a, b) in u ==> SameClass(c, a, b)
  }

  ghost predicate Complete(u: Unions, c: Classes) {
    forall x :: x in c.home ==> Equiv(u, c.home[x], x)
  }

  /** Sharing a leader is the relation the unions generate. */
  ghost predicate Generated(u: Unions, c: Classes) {
    Sound(u, c) && Complete(u, c)
  }

  lemma GeneratedMeans(u: Unions, c: Classes, a: Elem, b: Elem)
    requires Generated(u, c)
    ensures Equiv(u, a, b) <==> a == b || SameClass(c, a, b)
  {
    if Equiv(u, a, b) {
      var p :| Chain(u, p, a, b);
      for i := 0 to |p| - 1
        invariant p[i] == a || SameClass(c, a, p[i])
      {
        assert SameClass(c, p[i], p[i + 1]);
      }
    }
    if a == b {
      EquivRefl(u, a);
    } else if SameClass(c, a, b) {
      var l := c.home[a];
      EquivSym(u, l, a);
      EquivTrans(u, a, l, b);
    }
  }

  // ----- Changing the lists -----

  function Added(c: Classes, x: Elem): (r: Classes) {
    Classes(c.lists[x := [x]], c.home[x := x], c.pos[x := 0])
  }

  lemma AddedOk(u: Unions, c: Classes, x: Elem)
    requires Partition(c) && Generated(u, c) && x !in c.home
    ensures Partition(Added(c, x)) && Generated(u, Added(c, x))
  {
    var d := Added(c, x);
    forall l | l in d.lists ensures Listed(d, l) {
      if l != x {
        assert Listed(c, l);
      }
    }
    forall y | y in d.home ensures Placed(d, y) {
      if y != x {
        assert Placed(c, y) && Placed(c, y);
        assert Listed(c, c.home[y]);
        assert c.home[y] in c.home;
      }
    }
    EquivRefl(u, x);
    assert Sound(u, d) by {
      forall a, b | (a, b) in u ensures SameClass(d, a, b) {
        assert SameClass(c, a, b);
      }
    }
  }

  /** l2's list is appended to l1's. */
  function Joined(c: Classes, l1: Elem, l2: Elem): (r: Classes)
    requires l1 in c.lists && l2 in c.lists
  {
    Classes(
      (map l | l in c.lists && l != l2 :: if l == l1 then c.lists[l1] + c.lists[l2] else c.lists[l]),
      (map x | x in c.home :: if c.home[x] == l2 then l1 else c.home[x]),
      (map x | x in c.pos :: if x in c.home && c.home[x] == l2 then |c.lists[l1]| + c.pos[x] else c.pos[x]))
  }

  lemma JoinedOk(c: Classes, l1: Elem, l2: Elem)
    requires Partition(c) && l1 in c.lists && l2 in c.lists && l1 != l2
    ensures Partition(Joined(c, l1, l2))
  {
    var d := Joined(c, l1, l2);
    assert Listed(c, l1) && Listed(c, l2);
    forall l | l in d.lists ensures Listed(d, l) {
      assert Listed(c, l);
    }
    forall x | x in d.home ensures Placed(d, x) {
      assert Placed(c, x);
    }
  }

  lemma JoinedGenerated(u: Unions, v: Unions, c: Classes, l1: Elem, l2: Elem)
    requires Partition(c) && Generated(u, c) && l1 in c.lists && l2 in c.lists && l1 != l2
    requires u <= v && Equiv(v, l1, l2)
    requires forall a, b :: (a, b) in v && (a, b) !in u ==> SameClass(Joined(c, l1, l2), a, b)
    ensures Generated(v, Joined(c, l1, l2))
  {
    var d := Joined(c, l1, l2);
    forall a, b | (a, b) in v ensures SameClass(d, a, b) {
      if (a, b) in u {
        assert SameClass(c, a, b);
      }
    }
    forall x | x in d.home ensures Equiv(v, d.home[x], x) {
      EquivGrows(u, v, c.home[x], x);
      if c.home[x] == l2 {
        EquivTrans(v, l1, l2, x);
      }
    }
  }

  /** Uniting two elements, by their leaders. */
  lemma UnionGenerated(u: Unions, c: Classes, a: Elem, b: Elem)
    requires Partition(c) && Generated(u, c) && a in c.home && b in c.home
    ensures Placed(c, a) && Placed(c, b)
    ensures var v, l1, l2 := u + {(a, b)}, c.home[a], c.home[b];
      Equiv(v, l1, l2) && if l1 == l2 then Generated(v, c) else Generated(v, Joined(c, l1, l2))
  {
    assert Placed(c, a) && Placed(c, b);
    var v, l1, l2 := u + {(a, b)}, c.home[a], c.home[b];
    EquivGrows(u, v, l1, a);
    EquivGrows(u, v, l2, b);
    EquivStep(v, a, b);
    EquivTrans(v, l1, a, b);
    EquivSym(v, l2, b);
    EquivTrans(v, l1, b, l2);
    if l1 == l2 {
      forall x | x in c.home ensures Equiv(v, c.home[x], x) {
        EquivGrows(u, v, c.home[x], x);
      }
    } else {
      JoinedGenerated(u, v, c, l1, l2);
    }
  }

  lemma UnitedHome(c: Classes, a: Elem, b: Elem)
    requires Partition(c) && a in c.home && b in c.home
    ensures Placed(c, a) && Placed(c, b)
    ensures c.home[a] in c.lists && c.home[b] in c.lists
    ensures var l1, l2 := c.home[a], c.home[b];
      var d := if l1 == l2 then c else Joined(c, l1, l2);
      l1 in d.lists && a in d.lists[l1]
  {
    assert Placed(c, a) && Placed(c, b);
  }

  lemma JoinedList(c: Classes, l1: Elem, l2: Elem)
    requires l1 in c.lists && l2 in c.lists && l1 != l2
    ensures l1 in Joined(c, l1, l2).lists && Joined(c, l1, l2).lists[l1] == c.lists[l1] + c.lists[l2]
  {
  }

  /** A class's list holds exactly the elements equivalent to its members, each once. */
  lemma ListIsClass(u: Unions, c: Classes, a: Elem)
    requires Partition(c) && Generated(u, c) && a in c.home
    ensures Placed(c, a)
    ensures var s := c.lists[c.home[a]];
      && (forall b :: b in s <==> b in c.home && Equiv(u, a, b))
      && (forall i, j :: 0 <= i < j < |s| ==> s[i] != s[j])
  {
    assert Placed(c, a);
    var s := c.lists[c.home[a]];
    assert Listed(c, c.home[a]);
    forall b ensures b in s <==> b in c.home && Equiv(u, a, b) {
      GeneratedMeans(u, c, a, b);
      if b in c.home && c.home[b] == c.home[a] {
        assert Placed(c, b);
      }
    }
  }

  // ----- Copying class by class -----

  /** The classes in done, and of l's class the first n members. */
  ghost function CopiedUpTo(c: Classes, done: set<Elem>, l: Elem, n: nat): (r: Classes)
    requires l in c.lists && n <= |c.lists[l]|
  {
    Classes(
      (map k | k in c.lists && (k in done || k == l) :: if k == l then c.lists[l][..n] else c.lists[k]),
      (map x | x in c.home && (c.home[x] in done || (c.home[x] == l && x in c.lists[l][..n])) :: c.home[x]),
      (map x | x in c.pos && x in c.home && (c.home[x] in done || (c.home[x] == l && x in c.lists[l][..n])) :: c.pos[x]))
  }

  ghost function Copied(c: Classes, done: set<Elem>): (r: Classes) {
    Classes(
      (map k | k in c.lists && k in done :: c.lists[k]),
      (map x | x in c.home && c.home[x] in done :: c.home[x]),
      (map x | x in c.pos && x in c.home && c.home[x] in done :: c.pos[x]))
  }

  lemma CopyStart(c: Classes, done: set<Elem>, l: Elem)
    requires Partition(c) && l in c.lists && l !in done
    ensures Listed(c, l) && l !in Copied(c, done).home
    ensures Added(Copied(c, done), l) == CopiedUpTo(c, done, l, 1)
  {
    assert Listed(c, l);
    assert c.lists[l][..1] == [l];
  }

  lemma CopyStep(c: Classes, done: set<Elem>, l: Elem, n: nat)
    requires Partition(c) && l in c.lists && l !in done && 1 <= n < |c.lists[l]|
    ensures var d, x := CopiedUpTo(c, done, l, n), c.lists[l][n];
      && x !in d.home && l in d.lists && x != l
      && Joined(Added(d, x), l, x) == CopiedUpTo(c, done, l, n + 1)
  {
    var s, d, x := c.lists[l], CopiedUpTo(c, done, l, n), c.lists[l][n];
    assert Listed(c, l);
    assert s[..n] + [x] == s[..n + 1];
    var e, f := Joined(Added(d, x), l, x), CopiedUpTo(c, done, l, n + 1);
    assert x in c.lists ==> Listed(c, x);
    CopyHomes(c, done, l, n);
  }

  lemma CopyHomes(c: Classes, done: set<Elem>, l: Elem, n: nat)
    requires Partition(c) && l in c.lists && l !in done && 1 <= n < |c.lists[l]| && Listed(c, l)
    requires c.lists[l][n] !in c.lists && c.lists[l][n] != l && l in CopiedUpTo(c, done, l, n).lists
    ensures Joined(Added(CopiedUpTo(c, done, l, n), c.lists[l][n]), l, c.lists[l][n]) == CopiedUpTo(c, done, l, n + 1)
  {
    var x := c.lists[l][n];
    var e, f := Joined(Added(CopiedUpTo(c, done, l, n), x), l, x), CopiedUpTo(c, done, l, n + 1);
    hide Joined, Added, CopiedUpTo, Partition, Listed;
    forall y
      ensures (y in e.home <==> y in f.home) && (y in e.pos <==> y in f.pos) && (y in f.home <==> y in f.pos)
      ensures y in f.home ==> e.home[y] == f.home[y] && e.pos[y] == f.pos[y]
      ensures (y in e.lists <==> y in f.lists) && (y in f.lists ==> e.lists[y] == f.lists[y])
    {
      CopyHome(c, done, l, n, y);
      CopyList(c, done, l, n, y);
    }
    SameMaps(e.home, f.home);
    SameMaps(e.pos, f.pos);
    SameMaps(e.lists, f.lists);
  }

  lemma CopyList(c: Classes, done: set<Elem>, l: Elem, n: nat, k: Elem)
    requires l in c.lists && l !in done && 1 <= n < |c.lists[l]|
    requires c.lists[l][n] !in c.lists && c.lists[l][n] != l && l in CopiedUpTo(c, done, l, n).lists
    ensures var e, f := Joined(Added(CopiedUpTo(c, done, l, n), c.lists[l][n]), l, c.lists[l][n]), CopiedUpTo(c, done, l, n + 1);
      (k in e.lists <==> k in f.lists) && (k in f.lists ==> e.lists[k] == f.lists[k])
  {
    assert c.lists[l][..n] + [c.lists[l][n]] == c.lists[l][..n + 1];
  }

  lemma CopyHome(c: Classes, done: set<Elem>, l: Elem, n: nat, y: Elem)
    requires Partition(c) && l in c.lists && l !in done && 1 <= n < |c.lists[l]| && Listed(c, l)
    requires c.lists[l][n] !in c.lists && c.lists[l][n] != l && l in CopiedUpTo(c, done, l, n).lists
    ensures var e, f := Joined(Added(CopiedUpTo(c, done, l, n), c.lists[l][n]), l, c.lists[l][n]), CopiedUpTo(c, done, l, n + 1);
      && (y in e.home <==> y in f.home) && (y in e.pos <==> y in f.pos) && (y in f.home <==> y in f.pos)
      && (y in f.home ==> e.home[y] == f.home[y] && e.pos[y] == f.pos[y])
  {
    assert c.lists[l][..n] + [c.lists[l][n]] == c.lists[l][..n + 1];
    if y in c.home {
      assert Placed(c, y);
    }
  }

  lemma CopyEnd(c: Classes, done: set<Elem>, l: Elem)
    requires Partition(c) && l in c.lists && l !in done
    ensures CopiedUpTo(c, done, l, |c.lists[l]|) == Copied(c, done + {l})
  {
    var s := c.lists[l];
    assert s[..|s|] == s;
    forall x | x in c.home && c.home[x] == l ensures x in s {
      assert Placed(c, x);
    }
  }

  lemma CopyNone(c: Classes)
    ensures Copied(c, {}) == Classes(map[], map[], map[])
  {
  }

  lemma CopyAll(c: Classes)
    requires Partition(c)
    ensures Copied(c, c.lists.Keys) == c
  {
    forall x | x in c.home ensures c.home[x] in c.lists {
      assert Placed(c, x);
    }
  }

  /** A node's two pointers, decoded. */
  datatype Cell = Cell(leader: Elem, next: Option<Elem>, leaderBit: bool)

  ghost predicate CellOk(c: Classes, x: Elem, cell: Cell) {
    && x in c.home && Placed(c, x)
    && var s, i := c.lists[c.home[x]], c.pos[x];
    && (cell.leaderBit <==> i == 0)
    && cell.next == (if i + 1 < |s| then Some(s[i + 1]) else None)
    && if cell.leaderBit then cell.leader == s[|s| - 1]
       else SameClass(c, cell.leader, x) && cell.leader in c.pos && c.pos[cell.leader] < i
  }

  /** What unionSets makes of a cell. */
  function SplicedCell(c: Classes, l1: Elem, l2: Elem, x: Elem, cell: Cell): (r: Cell)
    requires Partition(c) && l1 in c.lists && l2 in c.lists
  {
    assert Listed(c, l1) && Listed(c, l2);
    Cell(
      if x == l1 then c.lists[l2][|c.lists[l2]| - 1] else if x == l2 then l1 else cell.leader,
      if x == c.lists[l1][|c.lists[l1]| - 1] then Some(l2) else cell.next,
      x != l2 && cell.leaderBit)
  }

  lemma SplicedCellOk(c: Classes, l1: Elem, l2: Elem, x: Elem, cell: Cell)
    requires Partition(c) && l1 in c.lists && l2 in c.lists && l1 != l2
    requires CellOk(c, x, cell)
    ensures CellOk(Joined(c, l1, l2), x, SplicedCell(c, l1, l2, x, cell))
  {
    assert Listed(c, l1) && Listed(c, l2) && Listed(c, c.home[x]);
    JoinedOk(c, l1, l2);
    assert Placed(Joined(c, l1, l2), x);
  }

  lemma AddedHome(c: Classes, x: Elem)
    ensures x !in c.home ==> forall y :: y in c.home ==> y in Added(c, x).home && Added(c, x).home[y] == c.home[y]
  {
  }

  lemma AddedCell(c: Classes, x: Elem, y: Elem, cell: Cell)
    requires Partition(c) && x !in c.home && CellOk(c, y, cell)
    ensures CellOk(Added(c, x), y, cell)
  {
    assert Listed(c, c.home[y]) && Placed(c, y);
  }

  // ----- The nodes -----

  class ECValue {
    const data: Elem
    var leader: ECValue
    var next: ECValue?
    var leaderBit: bool

    constructor (data: Elem)
      ensures this.data == data && leader == this && next == null && leaderBit
    {
      this.data, leader, next, leaderBit := data, this, null, true;
    }

    method GetEndOfList() returns (end: ECValue)
      requires leaderBit
      ensures end == leader
    {
      return leader;
    }

    /** Keeps the leader bit. */
    method SetNext(newNext: ECValue)
      requires next == null
      modifies this`next
      ensures next == newNext
    {
      next := newNext;
    }
  }

  type Mapping = map<Elem, ECValue>

  /** The changeable part of a node. */
  datatype Pointers = Pointers(leader: ECValue, next: ECValue?, leaderBit: bool)

  function PointersOf(n: ECValue): (p: Pointers)
    reads n
  {
    Pointers(n.leader, n.next, n.leaderBit)
  }

  function CellOf(p: Pointers): (cell: Cell) {
    Cell(p.leader.data, if p.next == null then None else Some(p.next.data), p.leaderBit)
  }

  ghost predicate InMapping(m: Mapping, n: ECValue) {
    n.data in m && n == m[n.data]
  }

  /** The pointers are null or lead into the mapping. */
  ghost predicate Closed(m: Mapping, p: Pointers) {
    InMapping(m, p.leader) && (p.next != null ==> InMapping(m, p.next))
  }

  ghost predicate PointersOk(m: Mapping, c: Classes, n: ECValue, p: Pointers) {
    InMapping(m, n) && Closed(m, p) && CellOk(c, n.data, CellOf(p))
  }

  ghost predicate NodeOk(m: Mapping, c: Classes, x: Elem)
    requires x in m
    reads m.Values
  {
    m[x].data == x && PointersOk(m, c, m[x], PointersOf(m[x]))
  }

  ghost predicate NodesOk(m: Mapping, c: Classes)
    reads m.Values
  {
    m.Keys == c.home.Keys && forall x {:trigger NodeOk(m, c, x)} :: x in m ==> NodeOk(m, c, x)
  }

  class EquivalenceClasses {
    var mapping: Mapping
    ghost var classes: Classes
    /** The pairs united so far. */
    ghost var unions: Unions

    ghost predicate Valid()
      reads this, mapping.Values
    {
      Partition(classes) && NodesOk(mapping, classes) && Generated(unions, classes)
    }

    constructor ()
      ensures Valid() && unions == {} && mapping == map[]
    {
      mapping, classes, unions := map[], Classes(map[], map[], map[]), {};
    }

    ghost predicate IsNode(node: ECValue)
      reads this, node
    {
      node.data in mapping && mapping[node.data] == node
    }

    /** The path compression of one node. */
    method Compress(node: ECValue, l: ECValue)
      requires Valid() && IsNode(node) && IsNode(l) && l.leaderBit && !node.leaderBit
      requires l.data == classes.home[node.data]
      modifies node`leader
      ensures Valid() && node.leader == l
    {
      assert NodeOk(mapping, classes, l.data) && NodeOk(mapping, classes, node.data);
      assert Listed(classes, l.data);
      label before:
      node.leader := l;
      forall x | x in mapping ensures NodeOk(mapping, classes, x) {
        assert old@before(NodeOk(mapping, classes, x));
      }
    }

    /** ECValue::getLeader: rewrites leader pointers on the way. */
    method GetLeader(node: ECValue) returns (l: ECValue)
      requires Valid() && IsNode(node)
      modifies mapping.Values
      ensures Valid() && IsNode(l) && l.data == classes.home[node.data] && l.leaderBit
      ensures forall n :: n in mapping.Values ==> n.next == old(n.next) && n.leaderBit == old(n.leaderBit)
      decreases classes.pos[node.data]
    {
      hide Generated, Partition;
      assert NodeOk(mapping, classes, node.data);
      NodeIsLeader(node);
      if node.leaderBit {
        return node;
      }
      assert NodeOk(mapping, classes, node.leader.data);
      NodeIsLeader(node.leader);
      if node.leader.leaderBit {
        return node.leader;
      }
      l := GetLeader(node.leader);
      Compress(node, l);
    }

    lemma NodeIsLeader(node: ECValue)
      requires Valid() && IsNode(node)
      ensures node.data in classes.home && node.data in classes.pos
      ensures node.leaderBit <==> classes.home[node.data] == node.data
      ensures node.leaderBit <==> node.data in classes.lists
    {
      assert NodeOk(mapping, classes, node.data);
      assert Listed(classes, classes.home[node.data]);
      if node.data in classes.lists {
        assert Listed(classes, node.data);
      }
    }

    /** insert. */
    method Insert(x: Elem) returns (node: ECValue)
      requires Valid()
      modifies this
      ensures Valid() && IsNode(node) && node.data == x && unions == old(unions)
      ensures if x in old(mapping) then mapping == old(mapping) && classes == old(classes)
              else fresh(node) && mapping == old(mapping)[x := node] && classes == Added(old(classes), x)
      ensures forall n :: n in mapping.Values ==> n in old(mapping.Values) || fresh(n)
    {
      hide Partition, Generated, NodesOk, Added;
      NodeFacts();
      if x in mapping {
        assert NodeOk(mapping, classes, x);
        return mapping[x];
      }
      node := new ECValue(x);
      AddedOk(unions, classes, x);
      NodeAdded(mapping, classes, x, node);
      mapping, classes := mapping[x := node], Added(classes, x);
    }

    /** A new node for a new element. */
    static lemma NodeAdded(m: Mapping, c: Classes, x: Elem, node: ECValue)
      requires Partition(c) && NodesOk(m, c) && x !in m
      requires node.data == x && PointersOf(node) == Pointers(node, null, true)
      ensures NodesOk(m[x := node], Added(c, x))
    {
      var r := m[x := node];
      forall y | y in r ensures NodeOk(r, Added(c, x), y) {
        if y != x {
          assert NodeOk(m, c, y);
          AddedCell(c, x, y, CellOf(PointersOf(m[y])));
        }
      }
    }

    /** findLeader of an element, null standing for member_end(). */
    method FindLeader(x: Elem) returns (l: ECValue?)
      requires Valid()
      modifies mapping.Values
      ensures Valid()
      ensures if x in mapping then l != null && IsNode(l) && l.data == classes.home[x] && l.data in classes.lists else l == null
    {
      if x !in mapping {
        return null;
      }
      assert NodeOk(mapping, classes, x);
      l := GetLeader(mapping[x]);
      NodeIsLeader(l);
    }

    /** isEquivalent. */
    method IsEquivalent(a: Elem, b: Elem) returns (r: bool)
      requires Valid()
      modifies mapping.Values
      ensures Valid()
      ensures r <==> Equiv(unions, a, b)
    {
      GeneratedMeans(unions, classes, a, b);
      if a == b {
        return true;
      }
      var it := FindLeader(a);
      if it == null {
        return false;
      }
      var other := FindLeader(b);
      return it == other;
    }

    /** unionSets of two leaders; v are the unions from now on. */
    method UniteLeaders(l1: ECValue, l2: ECValue, ghost v: Unions) returns (l: ECValue)
      requires Valid() && IsNode(l1) && IsNode(l2) && l1.data in classes.lists && l2.data in classes.lists
      requires unions <= v && Equiv(v, l1.data, l2.data)
      requires l1 == l2 ==> Generated(v, classes)
      requires l1 != l2 ==> Generated(v, Joined(classes, l1.data, l2.data))
      modifies `classes, `unions, mapping.Values
      ensures Valid() && l == l1 && unions == v
      ensures classes == if l1 == l2 then old(classes) else Joined(old(classes), l1.data, l2.data)
      ensures l1 != l2 ==> l1.data in classes.lists && classes.lists[l1.data] == old(classes).lists[l1.data] + old(classes).lists[l2.data]
    {
      hide Partition, NodesOk, Generated, Joined;
      if l1 != l2 {
        NodeIsLeader(l1);
        NodeIsLeader(l2);
        Splice(l1, l2);
        JoinedOk(classes, l1.data, l2.data);
        JoinedList(classes, l1.data, l2.data);
        classes := Joined(classes, l1.data, l2.data);
      }
      unions := v;
      return l1;
    }

    /** The pointer updates of unionSets. */
    method Relink(l1: ECValue, l2: ECValue)
      requires l1 != l2 && l1.leaderBit && l2.leaderBit && l1.leader.next == null
      requires IsNode(l1) && IsNode(l2) && IsNode(l1.leader)
      modifies mapping.Values
      ensures forall x {:trigger mapping[x]} :: x in mapping ==>
        PointersOf(mapping[x]) == Relinked(l1, l2, old(l1.leader), old(l2.leader), mapping[x], old(PointersOf(mapping[x])))
    {
      var end1 := l1.GetEndOfList();
      end1.SetNext(l2);
      var end2 := l2.GetEndOfList();
      l1.leader := end2;
      l2.leaderBit := false;
      l2.leader := l1;
    }

    method Splice(l1: ECValue, l2: ECValue)
      requires Valid() && IsNode(l1) && IsNode(l2) && l1 != l2 && l1.leaderBit && l2.leaderBit
      requires l1.data in classes.lists && l2.data in classes.lists
      modifies mapping.Values
      ensures NodesOk(mapping, Joined(classes, l1.data, l2.data))
    {
      hide PointersOk, PointersOf, Partition, NodesOk, Generated, Joined, Listed, NodeOk, Relinked;
      ghost var m, c := mapping, classes;
      ghost var e1, e2 := l1.leader, l2.leader;
      EndFacts(l1);
      EndFacts(l2);
      NodeFacts();
      ghost var was := map x | x in m :: PointersOf(m[x]);
      Relink(l1, l2);
      forall x | x in m ensures m[x].data == x && PointersOk(m, Joined(c, l1.data, l2.data), m[x], PointersOf(m[x])) {
        RelinkedOk(m, c, l1, l2, e1, e2, m[x], was[x]);
      }
      JoinedKeys(c, l1.data, l2.data);
      NodesFrom(m, Joined(c, l1.data, l2.data));
    }

    lemma NodeFacts()
      requires Valid()
      ensures Partition(classes) && mapping.Keys == classes.home.Keys
      ensures forall x :: x in mapping ==> mapping[x].data == x && PointersOk(mapping, classes, mapping[x], PointersOf(mapping[x]))
    {
      forall x | x in mapping ensures mapping[x].data == x && PointersOk(mapping, classes, mapping[x], PointersOf(mapping[x])) {
        assert NodeOk(mapping, classes, x);
      }
    }

    static lemma NodesFrom(m: Mapping, c: Classes)
      requires m.Keys == c.home.Keys
      requires forall x :: x in m ==> m[x].data == x && PointersOk(m, c, m[x], PointersOf(m[x]))
      ensures NodesOk(m, c)
    {
      forall x | x in m ensures NodeOk(m, c, x) {
      }
    }

    lemma EndFacts(l: ECValue)
      requires Valid() && IsNode(l) && l.data in classes.lists
      ensures Listed(classes, l.data) && IsNode(l.leader) && l.leader.next == null
      ensures l.leader.data == classes.lists[l.data][|classes.lists[l.data]| - 1]
    {
      NodeIsLeader(l);
      assert Listed(classes, l.data) && NodeOk(mapping, classes, l.data);
      assert NodeOk(mapping, classes, l.leader.data);
    }

    /** The arguments of unionSets: both values inserted and their leaders found. */
    method InsertAndFind(a: Elem, b: Elem) returns (l1: ECValue, l2: ECValue)
      requires Valid()
      modifies this, mapping.Values
      ensures Valid() && unions == old(unions) && mapping.Keys == old(mapping.Keys) + {a, b} && classes.home.Keys == mapping.Keys
      ensures forall n :: n in mapping.Values ==> n in old(mapping.Values) || fresh(n)
      ensures IsNode(l1) && l1.data == classes.home[a] && IsNode(l2) && l2.data == classes.home[b]
      ensures forall x :: x in old(classes).home ==> x in classes.home && classes.home[x] == old(classes).home[x]
    {
      hide Partition, NodesOk, Generated, Equiv, Placed, Added;
      KeysAreElements();
      AddedHome(classes, a);
      var n1 := Insert(a);
      KeysAreElements();
      AddedHome(classes, b);
      var n2 := Insert(b);
      KeysAreElements();
      l1 := FindLeader(a);
      l2 := FindLeader(b);
    }

    /** unionSets of two values. */
    method UnionSets(a: Elem, b: Elem) returns (l: ECValue)
      requires Valid()
      modifies this, mapping.Values
      ensures Valid() && unions == old(unions) + {(a, b)} && mapping.Keys == old(mapping.Keys) + {a, b}
      ensures forall n :: n in mapping.Values ==> n in old(mapping.Values) || fresh(n)
      ensures IsNode(l) && l.data in classes.lists && a in classes.lists[l.data]
      ensures a in old(classes).home ==> l.data == old(classes).home[a]
    {
      hide Partition, NodesOk, Generated, Joined, Equiv, Placed;
      var l1, l2 := InsertAndFind(a, b);
      UnionGenerated(unions, classes, a, b);
      UnitedHome(classes, a, b);
      l := UniteLeaders(l1, l2, unions + {(a, b)});
    }

    lemma NextFacts(node: ECValue, l: Elem, i: nat)
      requires Valid() && IsNode(node) && l in classes.lists && i < |classes.lists[l]| && node.data == classes.lists[l][i]
      ensures var s := classes.lists[l];
        if i + 1 < |s| then node.next != null && IsNode(node.next) && node.next.data == s[i + 1] else node.next == null
    {
      assert Listed(classes, l) && NodeOk(mapping, classes, node.data);
    }

    lemma KeysAreElements()
      requires Valid()
      ensures mapping.Keys == classes.home.Keys
    {
    }

    /** The walk from member_begin at x's leader to member_end, which ends at the leader's end of list. */
    method Members(x: Elem) returns (members: seq<Elem>)
      requires Valid()
      modifies mapping.Values
      ensures Valid()
      ensures forall y :: y in members <==> x in mapping && y in mapping && Equiv(unions, x, y)
      ensures forall i, j :: 0 <= i < j < |members| ==> members[i] != members[j]
      ensures x in mapping ==> |members| > 0 && var first, last := members[0], members[|members| - 1];
        && first in mapping && last in mapping && mapping[first].leaderBit
        && mapping[first].leader == mapping[last] && mapping[last].next == null
      ensures x in mapping ==> x in classes.home && classes.home[x] in classes.lists && members == classes.lists[classes.home[x]]
    {
      members := [];
      var node := FindLeader(x);
      if node == null {
        return;
      }
      ListIsClass(unions, classes, x);
      ghost var s := classes.lists[classes.home[x]];
      var leader: ECValue := node;
      hide Partition, NodesOk, Generated;
      EndFacts(leader);
      while node != null
        invariant |members| <= |s| && members == s[..|members|]
        invariant if node == null then members == s else IsNode(node) && |members| < |s| && node.data == s[|members|]
        decreases |s| - |members|
        modifies {}
      {
        members := members + [node.data];
        NextFacts(node, leader.data, |members| - 1);
        node := node.next;
      }
      NodeIsLeader(leader);
    }

    /** getNumClasses. */
    method NumClasses() returns (n: nat)
      requires Valid()
      ensures n == |classes.lists|
    {
      n := 0;
      LeadersAreElements(classes);
      KeysAreElements();
      var rest := mapping.Keys;
      ghost var leaders: set<Elem> := {};
      hide Partition, NodesOk, Generated, NodeOk;
      while rest != {}
        invariant rest <= mapping.Keys && n == |leaders|
        invariant leaders == set l | l in classes.lists && l !in rest
      {
        HasMember(rest);
        var x :| x in rest;
        KeyIsNode(x);
        NodeIsLeader(mapping[x]);
        if mapping[x].leaderBit {
          n, leaders := n + 1, leaders + {x};
        }
        rest := rest - {x};
      }
      assert leaders == classes.lists.Keys;
    }

    /** One class of operator=. */
    method CopyClass(rhs: EquivalenceClasses, l: Elem, ghost done: set<Elem>)
      requires Valid() && rhs.Valid() && this != rhs && forall n :: n in mapping.Values ==> n !in rhs.mapping.Values
      requires l in rhs.classes.lists && l !in done && l in rhs.mapping && classes == Copied(rhs.classes, done)
      modifies this, mapping.Values
      ensures Valid() && classes == Copied(rhs.classes, done + {l})
      ensures forall n :: n in mapping.Values ==> n in old(mapping.Values) || fresh(n)
    {
      hide Partition, NodesOk, Generated, Joined, Equiv, Placed, CopiedUpTo, Copied, Added;
      ghost var c := rhs.classes;
      rhs.FirstMember(l);
      CopyStart(c, done, l);
      KeysAreElements();
      var leaderIt := Insert(rhs.mapping[l].data);
      var mi := rhs.mapping[l].next;
      ghost var k := 1;
      rhs.NextFacts(rhs.mapping[l], l, 0);
      while mi != null
        invariant 1 <= k <= |c.lists[l]|
        invariant Valid() && rhs.Valid() && classes == CopiedUpTo(c, done, l, k) && IsNode(leaderIt) && leaderIt.data == l
        invariant if k < |c.lists[l]| then mi != null && rhs.IsNode(mi) && mi.data == c.lists[l][k] else mi == null
        invariant forall n :: n in mapping.Values ==> n in old(mapping.Values) || fresh(n)
        decreases |c.lists[l]| - k
      {
        mi := CopyMember(rhs, l, done, leaderIt, mi, k);
        k := k + 1;
      }
      CopyEnd(c, done, l);
    }

    /** One round of that loop: member k of l's class. */
    method CopyMember(rhs: EquivalenceClasses, l: Elem, ghost done: set<Elem>, leaderIt: ECValue, mi: ECValue, ghost k: nat) returns (next: ECValue?)
      requires Valid() && rhs.Valid() && this != rhs && forall n :: n in mapping.Values ==> n !in rhs.mapping.Values
      requires l in rhs.classes.lists && l !in done && 1 <= k < |rhs.classes.lists[l]| && classes == CopiedUpTo(rhs.classes, done, l, k)
      requires IsNode(leaderIt) && leaderIt.data == l && rhs.IsNode(mi) && mi.data == rhs.classes.lists[l][k]
      modifies this, mapping.Values
      ensures Valid() && rhs.Valid() && classes == CopiedUpTo(rhs.classes, done, l, k + 1) && IsNode(leaderIt)
      ensures if k + 1 < |rhs.classes.lists[l]| then next != null && rhs.IsNode(next) && next.data == rhs.classes.lists[l][k + 1] else next == null
      ensures forall n :: n in mapping.Values ==> n in old(mapping.Values) || fresh(n)
    {
      hide Partition, NodesOk, Generated, Joined, Equiv, Placed, CopiedUpTo, Copied, Added;
      CopyStep(rhs.classes, done, l, k);
      AppendMember(leaderIt, mi.data);
      rhs.NextFacts(mi, l, k);
      next := mi.next;
    }

    /** unionSets(LeaderIt, member_begin(insert(x))) for a new x. */
    method AppendMember(leaderIt: ECValue, x: Elem)
      requires Valid() && IsNode(leaderIt) && leaderIt.data in classes.lists && x !in classes.home && x != leaderIt.data
      modifies this, mapping.Values
      ensures Valid() && classes == Joined(Added(old(classes), x), leaderIt.data, x) && IsNode(leaderIt)
      ensures forall n :: n in mapping.Values ==> n in old(mapping.Values) || fresh(n)
    {
      hide Partition, NodesOk, Generated, Joined, Equiv;
      KeysAreElements();
      NodeIsLeader(leaderIt);
      var node := Insert(x);
      UnionGenerated(unions, classes, leaderIt.data, x);
      var l := UniteLeaders(leaderIt, node, unions + {(leaderIt.data, x)});
    }

    lemma KeyIsNode(x: Elem)
      requires Valid() && x in mapping
      ensures IsNode(mapping[x]) && mapping[x].data == x
    {
      assert NodeOk(mapping, classes, x);
    }

    lemma FirstMember(l: Elem)
      requires Valid() && l in classes.lists
      ensures Listed(classes, l) && l in mapping && IsNode(mapping[l]) && mapping[l].data == l
    {
      assert Listed(classes, l);
      assert NodeOk(mapping, classes, l);
    }

    /** operator=: the same classes, listed in the same order. Assigned to itself, it empties itself. */
    method Assign(rhs: EquivalenceClasses)
      requires Valid() && rhs.Valid()
      modifies this
      ensures Valid() && forall n :: n in mapping.Values ==> fresh(n)
      ensures if rhs == this then mapping == map[] && unions == {} else classes == rhs.classes && unions == rhs.unions
    {
      hide Partition, NodesOk, Generated, Joined, Equiv, Placed, CopiedUpTo, Copied, Added;
      Clear();
      CopyNone(rhs.classes);
      LeadersAreElements(rhs.classes);
      rhs.KeysAreElements();
      var rest := rhs.mapping.Keys;
      ghost var done: set<Elem> := {};
      while rest != {}
        invariant Valid() && rhs.Valid() && rest <= rhs.mapping.Keys
        invariant if rhs == this then mapping == map[] && unions == {} else classes == Copied(rhs.classes, done)
        invariant done == set l | l in rhs.classes.lists && l !in rest
        invariant forall n :: n in mapping.Values ==> fresh(n)
      {
        HasMember(rest);
        var x :| x in rest;
        rhs.KeyIsNode(x);
        rhs.NodeIsLeader(rhs.mapping[x]);
        if rhs.mapping[x].leaderBit {
          CopyClass(rhs, x, done);
          done := done + {x};
        }
        rest := rest - {x};
      }
      if rhs != this {
        assert done == rhs.classes.lists.Keys;
        CopyAll(rhs.classes);
        unions := rhs.unions;
      }
    }

    method Clear()
      modifies this
      ensures Valid() && unions == {} && mapping == map[] && classes == Classes(map[], map[], map[])
    {
      mapping, classes, unions := map[], Classes(map[], map[], map[]), {};
    }

    static lemma HasMember(s: set<Elem>)
      ensures s == {} || exists x :: x in s
    {
      if forall x :: x !in s {
        assert s == {};
      }
    }

    lemma JoinedKeys(c: Classes, l1: Elem, l2: Elem)
      requires l1 in c.lists && l2 in c.lists
      ensures Joined(c, l1, l2).home.Keys == c.home.Keys
    {
    }
  }

  lemma LeadersAreElements(c: Classes)
    requires Partition(c)
    ensures c.lists.Keys <= c.home.Keys
  {
    forall l | l in c.lists ensures l in c.home {
      assert Listed(c, l);
    }
  }

  function Relinked(l1: ECValue, l2: ECValue, end1: ECValue, end2: ECValue, n: ECValue, p: Pointers): (r: Pointers) {
    Pointers(
      if n == l1 then end2 else if n == l2 then l1 else p.leader,
      if n == end1 then l2 else p.next,
      n != l2 && p.leaderBit)
  }

  lemma RelinkedOk(m: Mapping, c: Classes, l1: ECValue, l2: ECValue, e1: ECValue, e2: ECValue, n: ECValue, p: Pointers)
    requires Partition(c) && l1.data in c.lists && l2.data in c.lists && l1 != l2
    requires InMapping(m, l1) && InMapping(m, l2) && InMapping(m, e1) && InMapping(m, e2)
    requires Listed(c, l1.data) && e1.data == c.lists[l1.data][|c.lists[l1.data]| - 1]
    requires Listed(c, l2.data) && e2.data == c.lists[l2.data][|c.lists[l2.data]| - 1]
    requires PointersOk(m, c, n, p)
    ensures PointersOk(m, Joined(c, l1.data, l2.data), n, Relinked(l1, l2, e1, e2, n, p))
  {
    hide CellOk, Joined, Partition;
    SplicedCellOk(c, l1.data, l2.data, n.data, CellOf(p));
    assert CellOf(Relinked(l1, l2, e1, e2, n, p)) == SplicedCell(c, l1.data, l2.data, n.data, CellOf(p));
  }
}
