/** IntervalMap's NodeBase: two parallel fixed-size arrays, and the moves between siblings. */
module NodeMoves {
  import opened Collections

  class NodeBase<T1(0), T2(0)> {
    const first: array<T1>
    const second: array<T2>

    constructor (capacity: nat)
      ensures Valid() && Capacity() == capacity && fresh(first) && fresh(second)
    {
      first, second := new T1[capacity], new T2[capacity];
    }

    ghost predicate Valid() {
      first.Length == second.Length && (first as object) != (second as object)
    }

    function Capacity(): nat {
      first.Length
    }

    /** The element at i. */
    ghost function Elem(i: nat): (T1, T2)
      requires Valid() && i < Capacity()
      reads first, second
    {
      (first[i], second[i])
    }

    /** The elements in [i, j). */
    ghost function Slice(i: nat, j: nat): (s: seq<(T1, T2)>)
      requires Valid() && i <= j <= Capacity()
      reads first, second
      ensures |s| == j - i && forall k :: 0 <= k < j - i ==> s[k] == Elem(i + k)
    {
      seq(j - i, k requires 0 <= k < j - i reads first, second => Elem(i + k))
    }

    /** No array of one node is an array of the other. */
    ghost predicate Apart(other: NodeBase<T1, T2>) {
      {first as object, second} !! {other.first as object, other.second}
    }

    /** copy, forwards. The same node may be source and destination when moving left. */
    method Copy(other: NodeBase<T1, T2>, i: nat, j: nat, count: nat)
      requires Valid() && other.Valid() && i + count <= other.Capacity() && j + count <= Capacity()
      requires Apart(other) || (other == this && j <= i)
      modifies first, second
      ensures forall k :: j <= k < j + count ==> Elem(k) == old(other.Elem(k - j + i))
      ensures forall k :: 0 <= k < Capacity() && !(j <= k < j + count) ==> Elem(k) == old(Elem(k))
    {
      var n := 0;
      while n < count
        invariant 0 <= n <= count
        invariant forall k :: j <= k < j + n ==> first[k] == old(other.first[k - j + i]) && second[k] == old(other.second[k - j + i])
        invariant forall k :: 0 <= k < Capacity() && !(j <= k < j + n) ==> first[k] == old(first[k]) && second[k] == old(second[k])
        invariant forall k :: i + n <= k < i + count ==> other.first[k] == old(other.first[k]) && other.second[k] == old(other.second[k])
      {
        first[j + n] := other.first[i + n];
        second[j + n] := other.second[i + n];
        n := n + 1;
      }
    }

    /** moveLeft. */
    method MoveLeft(i: nat, j: nat, count: nat)
      requires Valid() && j <= i && i + count <= Capacity()
      modifies first, second
      ensures forall k :: j <= k < j + count ==> Elem(k) == old(Elem(k - j + i))
      ensures forall k :: 0 <= k < Capacity() && !(j <= k < j + count) ==> Elem(k) == old(Elem(k))
    {
      Copy(this, i, j, count);
    }

    /** moveRight, backwards. */
    method MoveRight(i: nat, j: nat, count: nat)
      requires Valid() && i <= j && j + count <= Capacity()
      modifies first, second
      ensures forall k :: j <= k < j + count ==> Elem(k) == old(Elem(k - j + i))
      ensures forall k :: 0 <= k < Capacity() && !(j <= k < j + count) ==> Elem(k) == old(Elem(k))
    {
      var n := count;
      while n > 0
        invariant 0 <= n <= count
        invariant forall k :: j + n <= k < j + count ==> first[k] == old(first[k - j + i]) && second[k] == old(second[k - j + i])
        invariant forall k :: 0 <= k < Capacity() && !(j + n <= k < j + count) ==> first[k] == old(first[k]) && second[k] == old(second[k])
      {
        n := n - 1;
        first[j + n] := first[i + n];
        second[j + n] := second[i + n];
      }
    }

    /** erase [i, j) from a node of the given size. */
    method Erase(i: nat, j: nat, size: nat)
      requires Valid() && i <= j <= size <= Capacity()
      modifies first, second
      ensures Slice(0, size - (j - i)) == old(Slice(0, i) + Slice(j, size))
    {
      MoveLeft(j, i, size - j);
    }

    /** shift [i, size) one position to the right. */
    method Shift(i: nat, size: nat)
      requires Valid() && i <= size < Capacity()
      modifies first, second
      ensures Slice(0, i) == old(Slice(0, i)) && Slice(i + 1, size + 1) == old(Slice(i, size))
    {
      MoveRight(i, i + 1, size - i);
    }

    /** transferToLeftSib: the first count elements of this move to the end of sib. */
    method TransferToLeftSib(size: nat, sib: NodeBase<T1, T2>, ssize: nat, count: nat)
      requires Valid() && sib.Valid() && Apart(sib) && size <= Capacity() && count <= size && ssize + count <= sib.Capacity()
      modifies first, second, sib.first, sib.second
      ensures sib.Slice(0, ssize + count) == old(sib.Slice(0, ssize) + Slice(0, count))
      ensures Slice(0, size - count) == old(Slice(count, size))
    {
      sib.Copy(this, 0, ssize, count);
      assert sib.Slice(0, ssize + count) == old(sib.Slice(0, ssize) + Slice(0, count));
      Erase(0, count, size);
    }

    /** transferToRightSib: the last count elements of this move to the front of sib. */
    method TransferToRightSib(size: nat, sib: NodeBase<T1, T2>, ssize: nat, count: nat)
      requires Valid() && sib.Valid() && Apart(sib) && size <= Capacity() && count <= size && ssize + count <= sib.Capacity()
      modifies sib.first, sib.second
      ensures sib.Slice(0, ssize + count) == old(Slice(size - count, size) + sib.Slice(0, ssize))
    {
      sib.MoveRight(0, count, ssize);
      sib.Copy(this, size - count, 0, count);
    }

    /** adjustFromLeftSib: takes up to add elements from the end of sib, or gives up to -add
        to it, as far as sizes and capacities allow; the two nodes' joint contents stay. */
    method AdjustFromLeftSib(size: nat, sib: NodeBase<T1, T2>, ssize: nat, add: int) returns (d: int)
      requires Valid() && sib.Valid() && Apart(sib) && Capacity() == sib.Capacity() && size <= Capacity() && ssize <= Capacity()
      modifies first, second, sib.first, sib.second
      ensures d == if add > 0 then Min(Min(add, ssize), Capacity() - size) else -Min(Min(-add, size), Capacity() - ssize)
      ensures sib.Slice(0, ssize - d) + Slice(0, size + d) == old(sib.Slice(0, ssize) + Slice(0, size))
    {
      if add > 0 {
        var count := Min(Min(add, ssize), Capacity() - size);
        sib.TransferToRightSib(ssize, this, size, count);
        assert old(sib.Slice(0, ssize)) == old(sib.Slice(0, ssize - count)) + old(sib.Slice(ssize - count, ssize));
        assert sib.Slice(0, ssize - count) == old(sib.Slice(0, ssize - count));
        return count;
      } else {
        var count := Min(Min(-add, size), Capacity() - ssize);
        TransferToLeftSib(size, sib, ssize, count);
        assert old(Slice(0, size)) == old(Slice(0, count)) + old(Slice(count, size));
        return -count;
      }
    }
  }
}
