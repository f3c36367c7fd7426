/** The ordered array that indexes the holes of the heap (kernel/libc/data_structures/ordered_array.c). */
module OrderedArrays {

  /** What insertion computes: the item goes in front of the first element that is not less than it. */
  function Inserted(s: seq<int>, item: int, lessThan: (int, int) -> bool): (r: seq<int>)
    ensures |r| == |s| + 1
  {
    if s == [] then [item]
    else if lessThan(s[0], item) then [s[0]] + Inserted(s[1..], item, lessThan)
    else [item] + s
  }

  function RemovedAt(s: seq<int>, i: nat): (r: seq<int>)
    requires i < |s|
    ensures |r| == |s| - 1
  {
    s[..i] + s[i + 1..]
  }

  /** Insertion adds exactly the item, whatever the comparison says. */
  lemma {:induction false} InsertedElements(s: seq<int>, item: int, lessThan: (int, int) -> bool)
    ensures multiset(Inserted(s, item, lessThan)) == multiset(s) + multiset{item}
  {
    if s != [] {
      assert s == [s[0]] + s[1..];
      InsertedElements(s[1..], item, lessThan);
    }
  }

  /** Removal takes away exactly one occurrence of the element at i. */
  lemma RemovedElements(s: seq<int>, i: nat)
    requires i < |s|
    ensures multiset(RemovedAt(s, i)) == multiset(s) - multiset{s[i]}
  {
    assert s == s[..i] + [s[i]] + s[i + 1..];
  }

  /** The comparison is a strict weak order: irreflexive, and "not less" is transitive. */
  ghost predicate StrictWeak(lessThan: (int, int) -> bool) {
    && (forall a, b :: lessThan(a, b) ==> !lessThan(b, a))
    && (forall a, b, c :: !lessThan(a, b) && !lessThan(b, c) ==> !lessThan(a, c))
  }

  ghost predicate Sorted(s: seq<int>, lessThan: (int, int) -> bool) {
    forall i, j :: 0 <= i < j < |s| ==> !lessThan(s[j], s[i])
  }

  /** Insertion keeps a sorted array sorted. */
  lemma {:induction false} InsertedSorted(s: seq<int>, item: int, lessThan: (int, int) -> bool)
    requires StrictWeak(lessThan) && Sorted(s, lessThan)
    ensures Sorted(Inserted(s, item, lessThan), lessThan)
  {
    if s == [] {
    } else if lessThan(s[0], item) {
      InsertedSorted(s[1..], item, lessThan);
      var tail := Inserted(s[1..], item, lessThan);
      InsertedElements(s[1..], item, lessThan);
      forall j | 0 <= j < |tail| ensures !lessThan(tail[j], s[0]) {
        var x, y := tail[j], s[0];
        assert x in multiset(tail);
        if x != item {
          assert x in multiset(s[1..]);
          var k :| 0 <= k < |s[1..]| && s[1..][k] == x;
          assert !lessThan(s[k + 1], y);
        } else {
          assert lessThan(y, item) && !lessThan(item, y);
        }
      }
    } else {
      forall j | 0 <= j < |s| ensures !lessThan(s[j], item) {
        var x, y := s[j], s[0];
        assert !lessThan(x, y) && !lessThan(y, item);
      }
    }
  }

  lemma RemovedSorted(s: seq<int>, i: nat, lessThan: (int, int) -> bool)
    requires i < |s| && Sorted(s, lessThan)
    ensures Sorted(RemovedAt(s, i), lessThan)
  {
  }

  /** Only the comparisons of array elements with the new item matter. */
  lemma {:induction false} InsertedCongruent(s: seq<int>, item: int, f: (int, int) -> bool, g: (int, int) -> bool)
    requires forall k :: 0 <= k < |s| ==> f(s[k], item) == g(s[k], item)
    ensures Inserted(s, item, f) == Inserted(s, item, g)
  {
    if s != [] && f(s[0], item) {
      assert forall k :: 0 <= k < |s[1..]| ==> s[1..][k] == s[k + 1];
      InsertedCongruent(s[1..], item, f, g);
    }
  }

  /** Where the item lands: k elements are less, the one after them (if any) is not. */
  lemma {:induction false} InsertedAt(s: seq<int>, item: int, lessThan: (int, int) -> bool, k: nat)
    requires k <= |s|
    requires forall j :: 0 <= j < k ==> lessThan(s[j], item)
    requires k < |s| ==> !lessThan(s[k], item)
    ensures Inserted(s, item, lessThan) == s[..k] + [item] + s[k..]
  {
    if k == 0 {
      assert s[..0] + [item] + s[0..] == [item] + s;
    } else {
      var t := s[1..];
      InsertedAt(t, item, lessThan, k - 1);
      assert t[..k - 1] == s[1..k] && t[k - 1..] == s[k..];
      assert s[..k] == [s[0]] + s[1..k];
      calc {
        Inserted(s, item, lessThan);
        [s[0]] + Inserted(t, item, lessThan);
        [s[0]] + (s[1..k] + [item] + s[k..]);
        s[..k] + [item] + s[k..];
      }
    }
  }

  class OrderedArray {
    const elems: array<int>
    var size: nat

    ghost predicate Valid()
      reads this
    {
      size <= elems.Length
    }

    function Contents(): seq<int>
      reads this, elems
      requires size <= elems.Length
    {
      elems[..size]
    }

    constructor (maxSize: nat)
      ensures Valid() && Contents() == [] && elems.Length == maxSize && fresh(elems)
    {
      elems := new int[maxSize](_ => 0);
      size := 0;
    }

    method Insert(item: int, lessThan: (int, int) -> bool)
      requires Valid() && size < elems.Length
      modifies this`size, elems
      ensures Valid() && size == old(size) + 1
      ensures Contents() == Inserted(old(Contents()), item, lessThan)
    {
      hide Inserted;
      ghost var was := Contents();
      var pos := 0;
      while pos < size && lessThan(elems[pos], item)
        invariant pos <= size == old(size)
        invariant forall j :: 0 <= j < pos ==> lessThan(elems[j], item)
        invariant Contents() == was
      {
        pos := pos + 1;
      }
      InsertedAt(was, item, lessThan, pos);
      if pos == size {
        elems[size] := item;
        size := size + 1;
      } else {
        ghost var at := pos;
        var tmp := elems[pos];
        elems[pos] := item;
        while pos < size
          invariant at <= pos <= size == old(size)
          invariant forall j :: 0 <= j < at ==> elems[j] == was[j]
          invariant elems[at] == item
          invariant forall j :: at < j <= pos ==> elems[j] == was[j - 1]
          invariant forall j :: pos < j < size ==> elems[j] == was[j]
          invariant pos < size ==> tmp == was[pos]
        {
          pos := pos + 1;
          var tmp2 := elems[pos];
          elems[pos] := tmp;
          tmp := tmp2;
        }
        size := size + 1;
        assert Contents() == was[..at] + [item] + was[at..];
      }
    }

    method Lookup(i: nat) returns (item: int)
      requires Valid() && i < size
      ensures item == Contents()[i]
    {
      item := elems[i];
    }

    /** The last step copies the cell just past the contents, so one spare cell is required. */
    method Remove(i: nat)
      requires Valid() && i < size < elems.Length
      modifies this`size, elems
      ensures Valid() && size == old(size) - 1
      ensures Contents() == RemovedAt(old(Contents()), i)
    {
      ghost var was := Contents();
      var k := i;
      while k < size
        invariant i <= k <= size == old(size)
        invariant forall j :: 0 <= j < i ==> elems[j] == was[j]
        invariant forall j :: i <= j < k && j + 1 < size ==> elems[j] == was[j + 1]
        invariant forall j :: k <= j < size ==> elems[j] == was[j]
      {
        elems[k] := elems[k + 1];
        k := k + 1;
      }
      size := size - 1;
      assert Contents() == was[..i] + was[i + 1..];
    }
  }
}
