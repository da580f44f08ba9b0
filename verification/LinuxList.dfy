/** The intrusive circular lists: heads linked both ways, embedded in their entries.  An entry's
    head points back to it; the head of the list itself contains nothing, which is what ends an
    iteration. */
module LinuxList {
  import opened KmsObjects

  class ListHead<T> {
    var next: ListHead?<T>
    var prev: ListHead?<T>
    var entry: Option<T>

    /** INIT_LIST_HEAD */
    constructor ()
      ensures Ring([this]) && entry == None
    {
      next, prev, entry := this, this, None;
      new;
    }
  }

  function Succ(i: int, n: int): int { if i == n - 1 then 0 else i + 1 }
  function Pred(i: int, n: int): int { if i == 0 then n - 1 else i - 1 }

  /** The i-th head is linked to its neighbours in the circle r. */
  ghost predicate LinkedAt<T>(r: seq<ListHead<T>>, i: int)
    requires 0 <= i < |r|
    reads r`next, r`prev
  {
    r[i].next == r[Succ(i, |r|)] && r[i].prev == r[Pred(i, |r|)]
  }

  /** The heads of r are linked in a circle, in this order. */
  ghost predicate Ring<T>(r: seq<ListHead<T>>)
    reads r`next, r`prev
  {
    r != [] && Distinct(r) && forall i :: 0 <= i < |r| ==> LinkedAt(r, i)
  }

  lemma RingLinks<T>(r: seq<ListHead<T>>)
    requires Ring(r)
    ensures Distinct(r) && r != []
    ensures forall i {:trigger r[i].next} :: 0 <= i < |r| ==> r[i].next == r[Succ(i, |r|)]
    ensures forall i {:trigger r[i].prev} :: 0 <= i < |r| ==> r[i].prev == r[Pred(i, |r|)]
  {
    forall i | 0 <= i < |r|
      ensures r[i].next == r[Succ(i, |r|)] && r[i].prev == r[Pred(i, |r|)]
    {
      assert LinkedAt(r, i);
    }
  }

  /** A sequence with another one inserted at a position. */
  function Insert<T>(a: seq<T>, k: int, b: seq<T>): seq<T>
    requires 0 <= k <= |a|
  {
    a[..k] + b + a[k..]
  }

  lemma InsertAt<T>(a: seq<T>, k: int, b: seq<T>, i: int)
    requires 0 <= k <= |a| && 0 <= i < |a| + |b|
    ensures |Insert(a, k, b)| == |a| + |b|
    ensures Insert(a, k, b)[i] == if i < k then a[i] else if i < k + |b| then b[i - k] else a[i - |b|]
  {
  }

  lemma DistinctInsert<T>(a: seq<T>, k: int, b: seq<T>)
    requires Distinct(a) && Distinct(b) && 0 <= k <= |a|
    requires forall x :: x in a ==> x !in b
    ensures Distinct(Insert(a, k, b))
  {
    var s := Insert(a, k, b);
    forall i, j | 0 <= i < j < |s|
      ensures s[i] != s[j]
    {
      InsertAt(a, k, b, i);
      InsertAt(a, k, b, j);
      if k <= i < k + |b| <= j {
        assert a[j - |b|] in a && b[i - k] in b;
      } else if i < k <= j < k + |b| {
        assert a[i] in a && b[j - k] in b;
      }
    }
  }

  lemma DistinctWithout<T>(a: seq<T>, k: int)
    requires Distinct(a) && 0 <= k < |a|
    ensures Distinct(Without(a, k))
    ensures forall x :: x in Without(a, k) ==> x in a && x != a[k]
    ensures |Without(a, k)| == |a| - 1
    ensures forall i :: 0 <= i < |a| - 1 ==> Without(a, k)[i] == a[if i < k then i else i + 1]
  {
  }

  /** Insert a single head between two neighbours: what list_add and list_add_tail do. */
  lemma RingWithOne<T>(r: seq<ListHead<T>>, k: int, p: ListHead<T>)
    requires 0 < k <= |r| && Distinct(r) && p !in r
    requires p.prev == r[k - 1] && p.next == r[Succ(k - 1, |r|)]
    requires r[k - 1].next == p && r[Succ(k - 1, |r|)].prev == p
    requires forall i {:trigger r[i].next} :: 0 <= i < |r| && i != k - 1 ==> r[i].next == r[Succ(i, |r|)]
    requires forall i {:trigger r[i].prev} :: 0 <= i < |r| && i != Succ(k - 1, |r|) ==> r[i].prev == r[Pred(i, |r|)]
    ensures Ring(Insert(r, k, [p]))
  {
    var s := Insert(r, k, [p]);
    DistinctInsert(r, k, [p]);
    hide Distinct;
    forall i | 0 <= i < |s|
      ensures LinkedAt(s, i)
    {
      InsertAt(r, k, [p], i);
      InsertAt(r, k, [p], Succ(i, |s|));
      InsertAt(r, k, [p], Pred(i, |s|));
    }
  }

  /** list_add_tail */
  method AddTail<T>(ptr: ListHead<T>, head: ListHead<T>, entry: T, ghost r: seq<ListHead<T>>)
    requires Ring(r) && r[0] == head && ptr !in r
    modifies ptr`next, ptr`prev, ptr`entry, r`next, r`prev
    ensures Ring(r + [ptr])
    ensures ptr.entry == Some(entry)
  {
    ghost var n := |r|;
    RingLinks(r);
    DistinctAt(r, 0);
    DistinctAt(r, n - 1);
    assert forall i :: 0 <= i < n ==> r[i] != ptr;
    hide Ring, LinkedAt;
    var pNode := head.prev;
    ptr.prev := head.prev;
    ptr.next := head;
    pNode.next := ptr;
    head.prev := ptr;
    ptr.entry := Some(entry);
    assert Insert(r, n, [ptr]) == r + [ptr];
    RingWithOne(r, n, ptr);
  }

  /** list_add */
  method Add<T>(ptr: ListHead<T>, head: ListHead<T>, entry: T, ghost r: seq<ListHead<T>>)
    requires Ring(r) && r[0] == head && ptr !in r
    modifies ptr`next, ptr`prev, ptr`entry, r`next, r`prev
    ensures Ring([head, ptr] + r[1..])
    ensures ptr.entry == Some(entry)
  {
    ghost var n := |r|;
    RingLinks(r);
    DistinctAt(r, 0);
    DistinctAt(r, Succ(0, n));
    assert forall i :: 0 <= i < n ==> r[i] != ptr;
    hide Ring, LinkedAt;
    var nNode := head.next;
    ptr.prev := head;
    ptr.next := head.next;
    nNode.prev := ptr;
    head.next := ptr;
    ptr.entry := Some(entry);
    assert Insert(r, 1, [ptr]) == [head, ptr] + r[1..];
    RingWithOne(r, 1, ptr);
  }

  lemma RingWithoutOne<T>(r: seq<ListHead<T>>, k: int)
    requires 0 < k < |r| && Distinct(r)
    requires r[k - 1].next == r[Succ(k, |r|)] && r[Succ(k, |r|)].prev == r[k - 1]
    requires forall i {:trigger r[i].next} :: 0 <= i < |r| && i != k && i != k - 1 ==> r[i].next == r[Succ(i, |r|)]
    requires forall i {:trigger r[i].prev} :: 0 <= i < |r| && i != k && i != Succ(k, |r|) ==>
      r[i].prev == r[Pred(i, |r|)]
    ensures Ring(Without(r, k))
  {
    var s := Without(r, k);
    DistinctWithout(r, k);
    hide Distinct, Without;
    forall i | 0 <= i < |s|
      ensures LinkedAt(s, i)
    {
      assert s[i] == r[if i < k then i else i + 1];
      assert s[Succ(i, |s|)] == r[if Succ(i, |s|) < k then Succ(i, |s|) else Succ(i, |s|) + 1];
      assert s[Pred(i, |s|)] == r[if Pred(i, |s|) < k then Pred(i, |s|) else Pred(i, |s|) + 1];
    }
  }

  /** list_del */
  method Del<T>(ptr: ListHead<T>, ghost r: seq<ListHead<T>>, ghost k: int)
    requires Ring(r) && 0 < k < |r| && r[k] == ptr
    modifies r`next, r`prev
    ensures Ring(Without(r, k))
    ensures ptr.next == null && ptr.prev == null
  {
    ghost var n := |r|;
    RingLinks(r);
    DistinctAt(r, k - 1);
    DistinctAt(r, k);
    DistinctAt(r, Succ(k, n));
    hide Ring, LinkedAt;
    var nNode := ptr.next;
    var pNode := ptr.prev;
    nNode.prev := ptr.prev;
    pNode.next := ptr.next;
    ptr.prev := null;
    ptr.next := null;
    RingWithoutOne(r, k);
  }

  /** list_move_tail, from one ring to another */
  method MoveTail<T>(ptr: ListHead<T>, head: ListHead<T>, entry: T, ghost r: seq<ListHead<T>>, ghost k: int,
                     ghost s: seq<ListHead<T>>)
    requires Ring(r) && 0 < k < |r| && r[k] == ptr
    requires Ring(s) && s[0] == head
    requires forall h :: h in r ==> h !in s
    modifies ptr`entry, r`next, r`prev, s`next, s`prev
    ensures Ring(Without(r, k))
    ensures Ring(s + [ptr])
    ensures ptr.entry == Some(entry)
  {
    DistinctWithout(r, k);
    assert ptr in r && ptr !in s;
    assert forall h :: h in Without(r, k) ==> h != ptr && h !in s;
    assert forall i :: 0 <= i < |s| ==> s[i] !in r;
    assert forall i :: 0 <= i < |Without(r, k)| ==> Without(r, k)[i] != ptr && Without(r, k)[i] !in s;
    hide Without, Distinct;
    Del(ptr, r, k);
    AddTail(ptr, head, entry, s);
  }

  lemma RingWithMany<T>(s: seq<ListHead<T>>, k: int, b: seq<ListHead<T>>)
    requires 0 < k <= |s| && Distinct(s) && Distinct(b) && b != []
    requires forall h :: h in s ==> h !in b
    requires s[k - 1].next == b[0] && b[0].prev == s[k - 1]
    requires b[|b| - 1].next == s[Succ(k - 1, |s|)] && s[Succ(k - 1, |s|)].prev == b[|b| - 1]
    requires forall i {:trigger s[i].next} :: 0 <= i < |s| && i != k - 1 ==> s[i].next == s[Succ(i, |s|)]
    requires forall i {:trigger s[i].prev} :: 0 <= i < |s| && i != Succ(k - 1, |s|) ==> s[i].prev == s[Pred(i, |s|)]
    requires forall i {:trigger b[i].next} :: 0 <= i < |b| - 1 ==> b[i].next == b[i + 1]
    requires forall i {:trigger b[i].prev} :: 0 < i < |b| ==> b[i].prev == b[i - 1]
    ensures Ring(Insert(s, k, b))
  {
    var t := Insert(s, k, b);
    DistinctInsert(s, k, b);
    hide Distinct;
    forall i | 0 <= i < |t|
      ensures LinkedAt(t, i)
    {
      InsertAt(s, k, b, i);
      InsertAt(s, k, b, Succ(i, |t|));
      InsertAt(s, k, b, Pred(i, |t|));
    }
  }

  /** What follows the head of a ring: linked from its first head to its last. */
  lemma BodyOf<T>(r: seq<ListHead<T>>, s: seq<ListHead<T>>)
    requires Ring(r) && |r| > 1
    requires forall h :: h in s ==> h !in r
    ensures Distinct(r[1..]) && forall h :: h in s ==> h !in r[1..]
    ensures r[0].next == r[1] == r[1..][0] && r[0].prev == r[|r| - 1] == r[1..][|r| - 2]
    ensures forall i {:trigger r[1..][i].next} :: 0 <= i < |r| - 2 ==> r[1..][i].next == r[1..][i + 1]
    ensures forall i {:trigger r[1..][i].prev} :: 0 < i < |r| - 1 ==> r[1..][i].prev == r[1..][i - 1]
  {
    RingLinks(r);
    assert forall i :: 0 <= i < |r| - 1 ==> r[1..][i] == r[i + 1];
  }

  lemma SpliceApart<T>(s: seq<ListHead<T>>, k: int, b: seq<ListHead<T>>)
    requires Distinct(s) && Distinct(b) && b != [] && 0 < k <= |s|
    requires forall h :: h in s ==> h !in b
    ensures forall i :: 0 <= i < |s| ==> s[i] != b[0] && s[i] != b[|b| - 1]
    ensures forall i :: 0 <= i < |b| ==> b[i] != s[k - 1] && b[i] != s[Succ(k - 1, |s|)]
    ensures forall i :: 0 <= i < |s| && s[i] == s[k - 1] ==> i == k - 1
    ensures forall i :: 0 <= i < |s| && s[i] == s[Succ(k - 1, |s|)] ==> i == Succ(k - 1, |s|)
    ensures forall i :: 0 <= i < |b| && b[i] == b[0] ==> i == 0
    ensures forall i :: 0 <= i < |b| && b[i] == b[|b| - 1] ==> i == |b| - 1
  {
    DistinctAt(s, k - 1);
    DistinctAt(s, Succ(k - 1, |s|));
    DistinctAt(b, 0);
    DistinctAt(b, |b| - 1);
    assert forall i :: 0 <= i < |s| ==> s[i] in s;
    assert b[0] in b && b[|b| - 1] in b;
    assert forall i :: 0 <= i < |b| ==> b[i] in b;
    assert s[k - 1] in s && s[Succ(k - 1, |s|)] in s;
  }

  /** list_splice: all of `list` except its own head goes between two neighbours of another ring. */
  method Splice<T>(list: ListHead<T>, be: ListHead<T>, ne: ListHead<T>,
                   ghost r: seq<ListHead<T>>, ghost s: seq<ListHead<T>>, ghost k: int)
    requires Ring(r) && r[0] == list
    requires Ring(s) && 0 < k <= |s| && s[k - 1] == be && s[Succ(k - 1, |s|)] == ne
    requires forall h :: h in s ==> h !in r
    modifies r`next, r`prev, s`next, s`prev
    ensures Ring(Insert(s, k, r[1..]))
  {
    ghost var m := |r|;
    RingLinks(r);
    RingLinks(s);
    if list.next != list {
      ghost var b := r[1..];
      BodyOf(r, s);
      SpliceApart(s, k, b);
      hide Ring, LinkedAt;
      var first, last := list.next, list.prev;
      first.prev := be;
      be.next := first;
      last.next := ne;
      ne.prev := last;
      RingWithMany(s, k, b);
    } else {
      assert r[1..] == [];
      assert Insert(s, k, r[1..]) == s;
    }
  }
}
