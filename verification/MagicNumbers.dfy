/** The table of magic numbers of a master: 16 buckets, each a singly linked list with a head and a tail. */
module MagicNumbers {
  import opened KmsObjects

  const HASH_SIZE := 16

  /** drm_hash_magic: the low four bits */
  function Hash(magic: nat): (h: nat)
    ensures h < HASH_SIZE
  {
    magic % HASH_SIZE
  }

  class MagicEntry<F> {
    const magic: nat
    const priv: F
    ghost const home: MagicTable<F>
    var next: MagicEntry?<F>

    constructor (magic: nat, priv: F, ghost home: MagicTable<F>)
      ensures this.magic == magic && this.priv == priv && this.home == home && next == null
    {
      this.magic, this.priv, this.home, next := magic, priv, home, null;
    }
  }

  /** The entries are chained in this order. */
  ghost predicate Chained<F>(l: seq<MagicEntry<F>>)
    reads l`next
  {
    forall i {:trigger l[i].next} :: 0 <= i < |l| ==> l[i].next == if i + 1 < |l| then l[i + 1] else null
  }

  ghost predicate DistinctMagics<F>(l: seq<MagicEntry<F>>) {
    forall i, j :: 0 <= i < j < |l| ==> l[i].magic != l[j].magic
  }

  function First<F>(l: seq<MagicEntry<F>>): MagicEntry?<F> { if l == [] then null else l[0] }
  function Last<F>(l: seq<MagicEntry<F>>): MagicEntry?<F> { if l == [] then null else l[|l| - 1] }

  /** The position of a magic number in a bucket, or the length of the bucket. */
  function Position<F>(l: seq<MagicEntry<F>>, magic: nat): (k: nat)
    ensures k <= |l| && (k < |l| ==> l[k].magic == magic)
    ensures forall i :: 0 <= i < k ==> l[i].magic != magic
  {
    if l == [] || l[0].magic == magic then 0 else Position(l[1..], magic) + 1
  }

  /** The buckets hold exactly the map `contents`. */
  ghost predicate Holds<F>(lists: seq<seq<MagicEntry<F>>>, contents: map<nat, F>)
    requires |lists| == HASH_SIZE
  {
    (forall h, i :: 0 <= h < HASH_SIZE && 0 <= i < |lists[h]| ==>
       lists[h][i].magic in contents && contents[lists[h][i].magic] == lists[h][i].priv) &&
    (forall magic :: magic in contents ==> Position(lists[Hash(magic)], magic) < |lists[Hash(magic)]|)
  }

  lemma {:induction false} PositionOfConcat<F>(l: seq<MagicEntry<F>>, r: seq<MagicEntry<F>>, magic: nat)
    ensures Position(l + r, magic) == if Position(l, magic) < |l| then Position(l, magic) else |l| + Position(r, magic)
  {
    if l == [] {
      assert l + r == r;
    } else {
      assert (l + r)[1..] == l[1..] + r;
      PositionOfConcat(l[1..], r, magic);
    }
  }

  lemma HoldsWithOne<F>(lists: seq<seq<MagicEntry<F>>>, contents: map<nat, F>, e: MagicEntry<F>)
    requires |lists| == HASH_SIZE && Holds(lists, contents) && e.magic !in contents
    ensures Holds(lists[Hash(e.magic) := lists[Hash(e.magic)] + [e]], contents[e.magic := e.priv])
  {
    var l := lists[Hash(e.magic)];
    var after := lists[Hash(e.magic) := l + [e]];
    forall magic | magic in contents || magic == e.magic
      ensures Position(after[Hash(magic)], magic) < |after[Hash(magic)]|
    {
      PositionOfConcat(l, [e], magic);
    }
    hide Position, Hash;
    forall h, i | 0 <= h < HASH_SIZE && 0 <= i < |after[h]|
      ensures after[h][i] == e || (i < |lists[h]| && after[h][i] == lists[h][i])
    {
    }
  }

  lemma ChainedWithOne<F>(l: seq<MagicEntry<F>>, e: MagicEntry<F>)
    requires forall i {:trigger l[i].next} :: 0 <= i < |l| ==> l[i].next == if i + 1 < |l| then l[i + 1] else e
    requires e.next == null
    ensures Chained(l + [e])
  {
  }

  lemma NewMagic<F>(l: seq<MagicEntry<F>>, e: MagicEntry<F>)
    requires DistinctMagics(l) && forall i :: 0 <= i < |l| ==> l[i].magic != e.magic
    ensures DistinctMagics(l + [e])
  {
  }

  /** The other numbers of a bucket are still there when one entry is taken out. */
  lemma OthersFound<F>(l: seq<MagicEntry<F>>, k: nat, m: nat)
    requires k < |l| && l[k].magic != m && Position(l, m) < |l|
    ensures Position(Without(l, k), m) < |l| - 1
  {
    var p := Position(l, m);
    assert l[p].magic == m && p != k;
    assert Without(l, k)[if p < k then p else p - 1] == l[p];
  }

  /** The entries of a bucket without one are those of the others. */
  lemma OthersLeft<F>(l: seq<MagicEntry<F>>, k: nat)
    requires k < |l| && DistinctMagics(l)
    ensures forall i :: 0 <= i < |l| - 1 ==> Without(l, k)[i] in l && Without(l, k)[i].magic != l[k].magic
  {
    forall i | 0 <= i < |l| - 1
      ensures Without(l, k)[i] in l && Without(l, k)[i].magic != l[k].magic
    {
      assert Without(l, k)[i] == l[if i < k then i else i + 1];
    }
  }

  lemma HoldsWithoutOne<F>(lists: seq<seq<MagicEntry<F>>>, contents: map<nat, F>, magic: nat, k: nat)
    requires |lists| == HASH_SIZE && Holds(lists, contents)
    requires k < |lists[Hash(magic)]| && lists[Hash(magic)][k].magic == magic
    requires DistinctMagics(lists[Hash(magic)])
    requires forall h, i :: 0 <= h < HASH_SIZE && 0 <= i < |lists[h]| ==> Hash(lists[h][i].magic) == h
    ensures magic in contents
    ensures Holds(lists[Hash(magic) := Without(lists[Hash(magic)], k)], contents - {magic})
  {
    hide Position, Hash, Without, DistinctMagics;
    var l := lists[Hash(magic)];
    var after := lists[Hash(magic) := Without(l, k)];
    OthersLeft(l, k);
    forall m | m in contents - {magic}
      ensures Position(after[Hash(m)], m) < |after[Hash(m)]|
    {
      if Hash(m) == Hash(magic) {
        OthersFound(l, k, m);
      }
    }
    forall h, i | 0 <= h < HASH_SIZE && 0 <= i < |after[h]|
      ensures after[h][i].magic in contents - {magic} && contents[after[h][i].magic] == after[h][i].priv
    {
      assert after[h][i] in lists[h];
    }
  }

  lemma EntriesApart<F>(l: seq<MagicEntry<F>>)
    requires DistinctMagics(l)
    ensures forall i, j :: 0 <= i < |l| && 0 <= j < |l| && l[i] == l[j] ==> i == j
  {
  }

  lemma UnlinkedChain<F>(l: seq<MagicEntry<F>>, k: nat)
    requires k < |l| && DistinctMagics(l)
    requires forall i {:trigger l[i].next} :: 0 <= i < |l| && i != k - 1 && i != k ==>
      l[i].next == if i + 1 < |l| then l[i + 1] else null
    requires k > 0 ==> l[k - 1].next == if k + 1 < |l| then l[k + 1] else null
    ensures Chained(Without(l, k)) && DistinctMagics(Without(l, k))
    ensures forall i :: 0 <= i < |l| - 1 ==> Without(l, k)[i] == l[if i < k then i else i + 1]
  {
  }

  class MagicTable<F> {
    var heads: seq<MagicEntry?<F>>
    var tails: seq<MagicEntry?<F>>
    ghost var lists: seq<seq<MagicEntry<F>>>
    ghost var contents: map<nat, F>

    ghost var members: set<MagicEntry<F>>

    ghost predicate BucketValid(h: nat)
      requires h < |lists| == |heads| == |tails|
      reads `heads, `tails, `lists, `members, members`next
    {
      var l := lists[h];
      (forall i :: 0 <= i < |l| ==> l[i] in members && l[i].home == this && Hash(l[i].magic) == h) &&
      Chained(l) && DistinctMagics(l) && heads[h] == First(l) && tails[h] == Last(l)
    }

    ghost predicate Valid()
      reads this, members`next
    {
      |heads| == HASH_SIZE && |tails| == HASH_SIZE && |lists| == HASH_SIZE &&
      (forall h: nat :: h < HASH_SIZE ==> BucketValid(h)) && Holds(lists, contents) &&
      forall e :: e in members ==> e.home == this
    }

    constructor ()
      ensures Valid() && contents == map[] && members == {}
    {
      heads := seq(HASH_SIZE, _ => null);
      tails := seq(HASH_SIZE, _ => null);
      lists := seq(HASH_SIZE, _ => []);
      contents := map[];
      members := {};
    }

    /** drm_find_file */
    method Find(magic: nat) returns (file: Option<F>)
      requires Valid()
      ensures file == if magic in contents then Some(contents[magic]) else None
    {
      var hash := Hash(magic);
      ghost var l := lists[hash];
      assert BucketValid(hash);
      var pt := heads[hash];
      ghost var i := 0;
      while pt != null
        invariant 0 <= i <= |l| && pt == if i < |l| then l[i] else null
        invariant forall k :: 0 <= k < i ==> l[k].magic != magic
        decreases |l| - i
      {
        if pt.magic == magic {
          return Some(pt.priv);
        }
        pt := pt.next;
        i := i + 1;
      }
      file := None;
    }

    lemma ApartByHash(g: nat, h: nat, e: MagicEntry<F>)
      requires |lists| == |heads| == |tails| == HASH_SIZE && g < HASH_SIZE && h < HASH_SIZE && g != h
      requires BucketValid(g) && BucketValid(h) && e in lists[h]
      ensures forall i :: 0 <= i < |lists[g]| ==> lists[g][i] != e
    {
    }

    /** The entry goes to the end of its bucket. */
    method Append(hash: nat, entry: MagicEntry<F>)
      requires |lists| == |heads| == |tails| == HASH_SIZE && hash == Hash(entry.magic)
      requires forall h: nat :: h < HASH_SIZE ==> BucketValid(h)
      requires entry !in members && entry.home == this && entry.next == null
      requires forall i :: 0 <= i < |lists[hash]| ==> lists[hash][i].magic != entry.magic
      modifies this, members`next
      ensures |lists| == |heads| == |tails| == HASH_SIZE
      ensures forall h: nat :: h < HASH_SIZE ==> BucketValid(h)
      ensures lists == old(lists)[hash := old(lists[hash]) + [entry]]
      ensures members == old(members) + {entry} && contents == old(contents)
    {
      ghost var l := lists[hash];
      assert BucketValid(hash);
      var tail := tails[hash];
      if tail != null {
        forall g: nat | g < HASH_SIZE && g != hash
          ensures forall i :: 0 <= i < |lists[g]| ==> lists[g][i] != tail
        {
          ApartByHash(g, hash, tail);
        }
        assert forall i :: 0 <= i < |l| - 1 ==> l[i] != tail;
        tail.next := entry;
      } else {
        heads := heads[hash := entry];
      }
      tails := tails[hash := entry];
      members := members + {entry};
      lists := lists[hash := l + [entry]];
      ChainedWithOne(l, entry);
      NewMagic(l, entry);
      hide Hash, Chained, DistinctMagics;
      forall h: nat | h < HASH_SIZE && h != hash
        ensures BucketValid(h)
      {
        assert old(BucketValid(h));
      }
    }

    lemma NotInBucket(magic: nat)
      requires |lists| == HASH_SIZE && Holds(lists, contents) && magic !in contents
      ensures forall i :: 0 <= i < |lists[Hash(magic)]| ==> lists[Hash(magic)][i].magic != magic
    {
    }

    lemma NotThere(magic: nat)
      requires |lists| == HASH_SIZE && Holds(lists, contents)
      requires forall i :: 0 <= i < |lists[Hash(magic)]| ==> lists[Hash(magic)][i].magic != magic
      ensures magic !in contents && contents - {magic} == contents
    {
    }

    /** Take the k-th entry out of its bucket. */
    method Unlink(hash: nat, prev: MagicEntry?<F>, pt: MagicEntry<F>, ghost k: nat)
      requires |lists| == |heads| == |tails| == HASH_SIZE && hash < HASH_SIZE && k < |lists[hash]|
      requires forall h: nat :: h < HASH_SIZE ==> BucketValid(h)
      requires pt == lists[hash][k] && prev == if k == 0 then null else lists[hash][k - 1]
      modifies `heads, `tails, `lists, members`next
      ensures |lists| == |heads| == |tails| == HASH_SIZE
      ensures forall h: nat :: h < HASH_SIZE ==> BucketValid(h)
      ensures lists == old(lists)[hash := Without(old(lists[hash]), k)]
    {
      ghost var l := lists[hash];
      assert BucketValid(hash);
      EntriesApart(l);
      var next := pt.next;
      if heads[hash] == pt {
        heads := heads[hash := next];
      }
      if tails[hash] == pt {
        tails := tails[hash := prev];
      }
      if prev != null {
        forall g: nat | g < HASH_SIZE && g != hash
          ensures forall i :: 0 <= i < |lists[g]| ==> lists[g][i] != prev
        {
          assert old(BucketValid(g)) && old(BucketValid(hash)) && prev in old(lists[hash]);
        }
        prev.next := next;
      }
      lists := lists[hash := Without(l, k)];
      UnlinkedChain(l, k);
      hide Hash, Chained, DistinctMagics;
      assert heads[hash] == First(Without(l, k)) && tails[hash] == Last(Without(l, k));
      forall h: nat | h < HASH_SIZE && h != hash
        ensures BucketValid(h)
      {
        assert old(BucketValid(h));
      }
    }

    /** drm_add_magic.  `memory` says whether the entry can be allocated. */
    method Add(magic: nat, priv: F, memory: bool) returns (ok: bool)
      requires Valid() && magic !in contents
      modifies this, members`next
      ensures Valid() && ok == memory
      ensures contents == if ok then old(contents)[magic := priv] else old(contents)
      ensures fresh(members - old(members)) && members >= old(members)
    {
      hide Holds, BucketValid, Hash, Position;
      ok := memory;
      if memory {
        NotInBucket(magic);
        var entry := new MagicEntry(magic, priv, this);
        HoldsWithOne(lists, contents, entry);
        Append(Hash(magic), entry);
        contents := contents[magic := priv];
        assert Holds(lists, contents);
      }
    }

    lemma HashesOk()
      requires |lists| == |heads| == |tails| == HASH_SIZE && forall h: nat :: h < HASH_SIZE ==> BucketValid(h)
      ensures forall h, i :: 0 <= h < HASH_SIZE && 0 <= i < |lists[h]| ==> Hash(lists[h][i].magic) == h
    {
      forall h, i | 0 <= h < HASH_SIZE && 0 <= i < |lists[h]|
        ensures Hash(lists[h][i].magic) == h
      {
        assert BucketValid(h);
      }
    }

    /** drm_remove_magic: whether the number was there */
    method Remove(magic: nat) returns (ok: bool)
      requires Valid()
      modifies this, members`next
      ensures Valid() && ok == (magic in old(contents))
      ensures contents == old(contents) - {magic}
      ensures members == old(members)
    {
      hide Holds, Hash;
      var hash := Hash(magic);
      ghost var l := lists[hash];
      assert BucketValid(hash);
      var prev: MagicEntry?<F> := null;
      var pt := heads[hash];
      ghost var i := 0;
      while pt != null
        invariant 0 <= i <= |l| && pt == if i < |l| then l[i] else null
        invariant prev == if i == 0 then null else l[i - 1]
        invariant forall k :: 0 <= k < i ==> l[k].magic != magic
        decreases |l| - i
      {
        if pt.magic == magic {
          HashesOk();
          HoldsWithoutOne(lists, contents, magic, i);
          Unlink(hash, prev, pt, i);
          contents := contents - {magic};
          return true;
        }
        prev := pt;
        pt := pt.next;
        i := i + 1;
      }
      NotThere(magic);
      ok := false;
    }
  }
}
