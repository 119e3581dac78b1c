/**
  The intrusive circular lists of `list.h`. A ring of nodes stands for the
  sequence of its entries, and every operation is proved to do to the ring what
  the matching operation does to the sequence.
 */
module Ring {

  // `struct list_head`, with the key of the entry that it is part of. The
  // links of a deleted entry are poison addresses, of nodes or null.
  class ListHead<K> {
    const key: K
    var next: ListHead?<K>
    var prev: ListHead?<K>

    // `INIT_LIST_HEAD`
    constructor (key: K)
      ensures this.key == key
      ensures IsRing([this])
    {
      this.key := key;
      next, prev := this, this;
    }
  }

  function Succ(k: nat, n: nat): nat {
    if k + 1 == n then 0 else k + 1
  }

  ghost predicate Distinct<K>(ring: seq<ListHead<K>>) {
    forall i, j | 0 <= i < j < |ring| :: ring[i] != ring[j]
  }

  // The nodes in the order of their `next` pointers, with the head in front:
  // `next` and `prev` are inverse to each other all around.
  ghost predicate IsRing<K>(ring: seq<ListHead<K>>)
    reads ring
  {
    && ring != [] && Distinct(ring)
    && forall k | 0 <= k < |ring| :: ring[k].next == ring[Succ(k, |ring|)] && ring[Succ(k, |ring|)].prev == ring[k]
  }

  // Seen from another node, the ring is still one.
  lemma Rotate<K>(ring: seq<ListHead<K>>, k: nat)
    requires IsRing(ring) && k < |ring|
    ensures IsRing(ring[k..] + ring[..k])
  {
    var n := |ring|;
    var turned := ring[k..] + ring[..k];
    forall i | 0 <= i < n
      ensures turned[i].next == turned[Succ(i, n)] && turned[Succ(i, n)].prev == turned[i]
    {
      var j := if i + k < n then i + k else i + k - n;
      assert turned[i] == ring[j] && turned[Succ(i, n)] == ring[Succ(j, n)];
    }
  }

  // The pointers of a node lead to its neighbours.
  lemma Neighbours<K>(ring: seq<ListHead<K>>, k: nat)
    requires IsRing(ring) && 0 < k < |ring|
    ensures ring[k].prev == ring[k - 1] && ring[k].next == ring[Succ(k, |ring|)]
  {
    assert ring[Succ(k - 1, |ring|)].prev == ring[k - 1];
  }

  // A ring without node k.
  ghost function Without<K>(ring: seq<ListHead<K>>, k: nat): seq<ListHead<K>>
    requires k < |ring|
  {
    ring[..k] + ring[k + 1..]
  }

  lemma DistinctRemove<K>(ring: seq<ListHead<K>>, k: nat)
    requires Distinct(ring) && k < |ring|
    ensures Distinct(Without(ring, k)) && ring[k] !in Without(ring, k)
  {
    var after := Without(ring, k);
    forall i | 0 <= i < |after|
      ensures after[i] == ring[if i < k then i else i + 1]
    {
    }
  }

  lemma RestElsewhere<K>(ring: seq<ListHead<K>>, other: seq<ListHead<K>>, k: nat)
    requires IsRing(ring) && k < |ring| && other != [] && forall x | x in ring :: x !in other
    ensures var rest := Without(ring, k);
            ring[k] !in rest && other[0] !in rest && other[Succ(0, |other|)] !in rest && other[|other| - 1] !in rest
  {
    DistinctRemove(ring, k);
    assert forall x | x in Without(ring, k) :: x in ring;
    assert other[0] in other && other[Succ(0, |other|)] in other && other[|other| - 1] in other;
  }

  lemma OnlyThere<K>(ring: seq<ListHead<K>>, k: nat)
    requires Distinct(ring) && k < |ring|
    ensures forall i | 0 <= i < |ring| && i != k :: ring[i] != ring[k]
  {
  }

  lemma InsertedAt<K>(ring: seq<ListHead<K>>, x: ListHead<K>, k: nat, i: nat)
    requires k < |ring| && i <= |ring|
    ensures (ring[..k + 1] + [x] + ring[k + 1..])[i] == if i <= k then ring[i] else if i == k + 1 then x else ring[i - 1]
  {
  }

  lemma DistinctInsert<K>(ring: seq<ListHead<K>>, x: ListHead<K>, k: nat)
    requires Distinct(ring) && x !in ring && k <= |ring|
    ensures Distinct(ring[..k] + [x] + ring[k..])
  {
    var after := ring[..k] + [x] + ring[k..];
    forall i, j | 0 <= i < j < |after|
      ensures after[i] != after[j]
    {
      var a, b := if i < k then i else i - 1, if j < k then j else j - 1;
      if i != k {
        assert after[i] == ring[a];
      }
      if j != k {
        assert after[j] == ring[b];
      }
    }
  }

  // `__list_add`, behind node k of a ring
  method InsertBetween<K>(new_: ListHead<K>, prev: ListHead<K>, next: ListHead<K>, ghost ring: seq<ListHead<K>>,
                          ghost k: nat)
    requires IsRing(ring) && new_ !in ring && k < |ring|
    requires prev == ring[k] && next == ring[Succ(k, |ring|)]
    modifies new_, prev, next
    ensures IsRing(ring[..k + 1] + [new_] + ring[k + 1..])
  {
    ghost var after := ring[..k + 1] + [new_] + ring[k + 1..];
    ghost var n := |ring|;
    DistinctInsert(ring, new_, k + 1);
    OnlyThere(ring, k);
    OnlyThere(ring, Succ(k, n));
    next.prev := new_;
    new_.next := next;
    new_.prev := prev;
    prev.next := new_;
    hide Distinct;
    forall i | 0 <= i < n + 1
      ensures after[i].next == after[Succ(i, n + 1)] && after[Succ(i, n + 1)].prev == after[i]
    {
      InsertedAt(ring, new_, k, i);
      InsertedAt(ring, new_, k, Succ(i, n + 1));
      if i < k {
        assert after[i] == ring[i] && after[i + 1] == ring[Succ(i, n)];
      } else if i > k + 1 {
        assert after[i] == ring[i - 1] && after[Succ(i, n + 1)] == ring[Succ(i - 1, n)];
      }
    }
  }

  // Links of one ring do not depend on the nodes of another.
  lemma Elsewhere<K>(ring: seq<ListHead<K>>, other: seq<ListHead<K>>, k: nat)
    requires k < |ring| && forall x | x in ring :: x !in other
    ensures ring[k] !in other && ring[Succ(k, |ring|)] !in other && (k > 0 ==> ring[k - 1] !in other)
  {
    assert ring[k] in ring && ring[Succ(k, |ring|)] in ring;
    if k > 0 {
      assert ring[k - 1] in ring;
    }
  }

  // `list_add`
  method ListAdd<K>(new_: ListHead<K>, head: ListHead<K>, ghost ring: seq<ListHead<K>>)
    requires IsRing(ring) && head == ring[0] && new_ !in ring
    modifies new_, head, ring[Succ(0, |ring|)]
    ensures IsRing([head, new_] + ring[1..])
  {
    InsertBetween(new_, head, head.next, ring, 0);
    assert ring[..1] + [new_] + ring[1..] == [head, new_] + ring[1..];
  }

  // `list_add_tail`, before the head
  method ListAddTail<K>(new_: ListHead<K>, head: ListHead<K>, ghost ring: seq<ListHead<K>>)
    requires IsRing(ring) && head == ring[0] && new_ !in ring
    modifies new_, head, ring[|ring| - 1]
    ensures IsRing(ring + [new_])
  {
    ghost var n := |ring|;
    assert ring[Succ(n - 1, n)].prev == ring[n - 1];
    InsertBetween(new_, head.prev, head, ring, n - 1);
    assert ring[..n] + [new_] + ring[n..] == ring + [new_];
  }

  // `list_add_tail`, before any other node
  method ListAddBefore<K>(new_: ListHead<K>, node: ListHead<K>, ghost ring: seq<ListHead<K>>, ghost k: nat)
    requires IsRing(ring) && 0 < k < |ring| && node == ring[k] && new_ !in ring
    modifies new_, ring
    ensures IsRing(ring[..k] + [new_] + ring[k..])
  {
    assert ring[Succ(k - 1, |ring|)].prev == ring[k - 1];
    InsertBetween(new_, node.prev, node, ring, k - 1);
  }

  // `__list_del`
  method Unlink<K>(prev: ListHead<K>, next: ListHead<K>, ghost ring: seq<ListHead<K>>, ghost k: nat)
    requires IsRing(ring) && 0 < k < |ring|
    requires prev == ring[k - 1] && next == ring[Succ(k, |ring|)]
    modifies prev, next
    ensures IsRing(Without(ring, k))
  {
    next.prev := prev;
    prev.next := next;
    ghost var after := Without(ring, k);
    ghost var n := |ring|;
    DistinctRemove(ring, k);
    forall i | 0 <= i < n - 1
      ensures after[i].next == after[Succ(i, n - 1)] && after[Succ(i, n - 1)].prev == after[i]
    {
      if i < k - 1 {
        assert after[i] == ring[i] && after[i + 1] == ring[Succ(i, n)];
      } else if i == k - 1 {
        assert after[i] == prev && after[Succ(i, n - 1)] == next;
      } else {
        assert after[i] == ring[i + 1] && after[Succ(i, n - 1)] == ring[Succ(i + 1, n)];
      }
    }
  }

  // `list_del`, with the two poison addresses
  method ListDel<K>(entry: ListHead<K>, poison1: ListHead?<K>, poison2: ListHead?<K>, ghost ring: seq<ListHead<K>>,
                    ghost k: nat)
    requires IsRing(ring) && 0 < k < |ring| && entry == ring[k]
    modifies ring
    ensures IsRing(Without(ring, k)) && entry.next == poison1 && entry.prev == poison2
  {
    assert ring[Succ(k - 1, |ring|)].prev == ring[k - 1];
    Unlink(entry.prev, entry.next, ring, k);
    entry.next := poison1;
    entry.prev := poison2;
    assert entry !in Without(ring, k);
  }

  // `list_del_init`
  method ListDelInit<K>(entry: ListHead<K>, ghost ring: seq<ListHead<K>>, ghost k: nat)
    requires IsRing(ring) && 0 < k < |ring| && entry == ring[k]
    modifies ring
    ensures IsRing(Without(ring, k)) && IsRing([entry])
  {
    assert ring[Succ(k - 1, |ring|)].prev == ring[k - 1];
    Unlink(entry.prev, entry.next, ring, k);
    entry.next := entry;
    entry.prev := entry;
    assert entry !in Without(ring, k);
  }

  // `list_move`, to the front of the same list
  method ListMove<K>(entry: ListHead<K>, head: ListHead<K>, ghost ring: seq<ListHead<K>>, ghost k: nat)
    requires IsRing(ring) && 0 < k < |ring| && entry == ring[k] && head == ring[0]
    modifies ring
    ensures IsRing([head, entry] + Without(ring, k)[1..])
  {
    assert ring[Succ(k - 1, |ring|)].prev == ring[k - 1];
    Unlink(entry.prev, entry.next, ring, k);
    assert entry !in Without(ring, k) && Without(ring, k)[0] == head;
    ListAdd(entry, head, Without(ring, k));
  }

  // `list_move`, to the front of another list
  method ListMoveTo<K>(entry: ListHead<K>, head: ListHead<K>, ghost ring: seq<ListHead<K>>, ghost k: nat,
                       ghost other: seq<ListHead<K>>)
    requires IsRing(ring) && 0 < k < |ring| && entry == ring[k]
    requires IsRing(other) && head == other[0] && forall x | x in ring :: x !in other
    modifies ring, other
    ensures IsRing(Without(ring, k)) && IsRing([head, entry] + other[1..])
  {
    Neighbours(ring, k);
    assert other != [];
    hide IsRing, Distinct, Without;
    Elsewhere(ring, other, k);
    RestElsewhere(ring, other, k);
    Unlink(entry.prev, entry.next, ring, k);
    ListAdd(entry, head, other);
  }

  // `list_move_tail`, to the end of the same list
  method ListMoveTail<K>(entry: ListHead<K>, head: ListHead<K>, ghost ring: seq<ListHead<K>>, ghost k: nat)
    requires IsRing(ring) && 0 < k < |ring| && entry == ring[k] && head == ring[0]
    modifies ring
    ensures IsRing(Without(ring, k) + [entry])
  {
    assert ring[Succ(k - 1, |ring|)].prev == ring[k - 1];
    Unlink(entry.prev, entry.next, ring, k);
    assert entry !in Without(ring, k) && Without(ring, k)[0] == head;
    ListAddTail(entry, head, Without(ring, k));
  }

  // `list_move_tail`, to the end of another list
  method ListMoveTailTo<K>(entry: ListHead<K>, head: ListHead<K>, ghost ring: seq<ListHead<K>>, ghost k: nat,
                           ghost other: seq<ListHead<K>>)
    requires IsRing(ring) && 0 < k < |ring| && entry == ring[k]
    requires IsRing(other) && head == other[0] && forall x | x in ring :: x !in other
    modifies ring, other
    ensures IsRing(Without(ring, k)) && IsRing(other + [entry])
  {
    Neighbours(ring, k);
    assert other != [];
    hide IsRing, Distinct, Without;
    Elsewhere(ring, other, k);
    RestElsewhere(ring, other, k);
    Unlink(entry.prev, entry.next, ring, k);
    ListAddTail(entry, head, other);
  }

  // `list_empty`
  method ListEmpty<K>(head: ListHead<K>, ghost ring: seq<ListHead<K>>) returns (empty: bool)
    requires IsRing(ring) && head == ring[0]
    ensures empty <==> |ring| == 1
  {
    assert head.next == ring[Succ(0, |ring|)];
    empty := head.next == head;
  }

  // `list_is_last`
  method ListIsLast<K>(node: ListHead<K>, head: ListHead<K>, ghost ring: seq<ListHead<K>>, ghost k: nat)
    returns (last: bool)
    requires IsRing(ring) && head == ring[0] && k < |ring| && node == ring[k]
    ensures last <==> k == |ring| - 1
  {
    assert node.next == ring[Succ(k, |ring|)];
    last := node.next == head;
  }

  lemma NoneShared<K>(a: seq<ListHead<K>>, b: seq<ListHead<K>>)
    requires forall x | x in a :: x !in b
    ensures forall i, j | 0 <= i < |a| && 0 <= j < |b| :: a[i] != b[j]
  {
    forall i, j | 0 <= i < |a| && 0 <= j < |b|
      ensures a[i] != b[j]
    {
      assert a[i] in a && b[j] in b;
    }
  }

  lemma DistinctSplice<K>(added: seq<ListHead<K>>, ring: seq<ListHead<K>>)
    requires added != [] && ring != [] && Distinct(added) && Distinct(ring) && forall x | x in added :: x !in ring
    ensures var after := [ring[0]] + added[1..] + ring[1..];
            Distinct(after) && added[0] !in after
  {
    var m := |added|;
    var after := [ring[0]] + added[1..] + ring[1..];
    NoneShared(added, ring);
    forall i, j | 0 <= i < j < |after|
      ensures after[i] != after[j]
    {
      if 0 < i {
        assert after[i] == if i < m then added[i] else ring[i - m + 1];
      }
      assert after[j] == if j < m then added[j] else ring[j - m + 1];
    }
    forall i | 0 <= i < |after|
      ensures added[0] != after[i]
    {
      if 0 < i {
        assert after[i] == if i < m then added[i] else ring[i - m + 1];
      }
    }
  }

  // `list_splice`: the entries of one list come to the front of another. The
  // head of the first list is not part of it any more.
  method ListSplice<K>(list: ListHead<K>, head: ListHead<K>, ghost added: seq<ListHead<K>>,
                       ghost ring: seq<ListHead<K>>)
    requires IsRing(added) && list == added[0]
    requires IsRing(ring) && head == ring[0] && forall x | x in added :: x !in ring
    modifies added, ring
    ensures IsRing([head] + added[1..] + ring[1..])
    ensures list.next == old(list.next) && list.prev == old(list.prev)
  {
    var empty := ListEmpty(list, added);
    ghost var after := [head] + added[1..] + ring[1..];
    ghost var m, n := |added|, |ring|;
    DistinctSplice(added, ring);
    if empty {
      assert after == ring;
      return;
    }
    assert list.next == added[Succ(0, m)] && added[Succ(m - 1, m)].prev == added[m - 1] && head.next == ring[Succ(0, n)];
    var first, last, at := list.next, list.prev, head.next;
    assert first == added[1] && last == added[m - 1] && at == ring[Succ(0, n)] && head == ring[0];
    NoneShared(added, ring);
    first.prev := head;
    head.next := first;
    last.next := at;
    at.prev := last;
    forall i | 0 <= i < |after|
      ensures after[i].next == after[Succ(i, |after|)] && after[Succ(i, |after|)].prev == after[i]
    {
      if i == 0 {
        assert after[0] == head && after[1] == first;
      } else if i < m - 1 {
        assert after[i] == added[i] && after[i + 1] == added[Succ(i, m)] && added[i] != last && added[i + 1] != first;
      } else if i == m - 1 {
        assert after[i] == last && after[Succ(i, |after|)] == at;
      } else {
        assert after[i] == ring[i - m + 1] && after[Succ(i, |after|)] == ring[Succ(i - m + 1, n)];
      }
    }
  }

  // `list_splice_init`
  method ListSpliceInit<K>(list: ListHead<K>, head: ListHead<K>, ghost added: seq<ListHead<K>>,
                           ghost ring: seq<ListHead<K>>)
    requires IsRing(added) && list == added[0]
    requires IsRing(ring) && head == ring[0] && forall x | x in added :: x !in ring
    modifies added, ring
    ensures IsRing([head] + added[1..] + ring[1..]) && IsRing([list])
  {
    var empty := ListEmpty(list, added);
    DistinctSplice(added, ring);
    ListSplice(list, head, added, ring);
    if !empty {
      list.next := list;
      list.prev := list;
    }
  }

  // ------------------------------------------------- sorted lists

  // A comparison function for a total preorder.
  ghost predicate TotalPreorder<K(!new)>(compare: (K, K) -> int) {
    && (forall a, b :: compare(a, b) < 0 <==> compare(b, a) > 0)
    && (forall a, b, c :: compare(a, b) <= 0 && compare(b, c) <= 0 ==> compare(a, c) <= 0)
  }

  function Keys<K>(nodes: seq<ListHead<K>>): (r: seq<K>)
    ensures |r| == |nodes|
    ensures forall i | 0 <= i < |nodes| :: r[i] == nodes[i].key
  {
    seq(|nodes|, i requires 0 <= i < |nodes| => nodes[i].key)
  }

  ghost predicate Sorted<K(!new)>(compare: (K, K) -> int, keys: seq<K>) {
    forall i, j | 0 <= i < j < |keys| :: compare(keys[i], keys[j]) <= 0
  }

  // The place of the first key that is not less.
  function Place<K>(compare: (K, K) -> int, keys: seq<K>, key: K): (r: nat)
    ensures r <= |keys|
    ensures forall i | 0 <= i < r :: compare(keys[i], key) < 0
    ensures r < |keys| ==> compare(keys[r], key) >= 0
  {
    if keys == [] then 0
    else if compare(keys[0], key) < 0 then Place(compare, keys[1..], key) + 1
    else 0
  }

  function InsertSorted<K>(compare: (K, K) -> int, keys: seq<K>, key: K): seq<K> {
    var p := Place(compare, keys, key);
    keys[..p] + [key] + keys[p..]
  }

  lemma MultisetInsert<K>(keys: seq<K>, key: K, p: nat)
    requires p <= |keys|
    ensures multiset(keys[..p] + [key] + keys[p..]) == multiset(keys) + multiset{key}
  {
    assert keys == keys[..p] + keys[p..];
  }

  lemma NotLess<K(!new)>(compare: (K, K) -> int, a: K, b: K)
    requires TotalPreorder(compare) && compare(a, b) >= 0
    ensures compare(b, a) <= 0
  {
    assert compare(a, b) < 0 <==> compare(b, a) > 0;
  }

  lemma Transitive<K(!new)>(compare: (K, K) -> int, a: K, b: K, c: K)
    requires TotalPreorder(compare) && compare(a, b) <= 0 && compare(b, c) <= 0
    ensures compare(a, c) <= 0
  {
  }

  // No key behind the place is less.
  lemma NotLessBehind<K(!new)>(compare: (K, K) -> int, keys: seq<K>, key: K, p: nat, i: nat)
    requires TotalPreorder(compare) && Sorted(compare, keys) && p <= i < |keys| && compare(keys[p], key) >= 0
    ensures compare(key, keys[i]) <= 0
  {
    hide TotalPreorder;
    NotLess(compare, keys[p], key);
    if p < i {
      Transitive(compare, key, keys[p], keys[i]);
    }
  }

  lemma SortedAt<K(!new)>(compare: (K, K) -> int, keys: seq<K>, key: K, i: nat, j: nat)
    requires TotalPreorder(compare) && Sorted(compare, keys) && i < j < |InsertSorted(compare, keys, key)|
    ensures var r := InsertSorted(compare, keys, key); compare(r[i], r[j]) <= 0
  {
    hide TotalPreorder;
    var p, r := Place(compare, keys, key), InsertSorted(compare, keys, key);
    if i == p {
      NotLessBehind(compare, keys, key, p, j - 1);
    } else if j != p {
      assert r[i] == keys[if i < p then i else i - 1] && r[j] == keys[if j < p then j else j - 1];
    }
  }

  // Inserting a key keeps a sorted list sorted, and adds only the key.
  lemma InsertKeepsSorted<K(!new)>(compare: (K, K) -> int, keys: seq<K>, key: K)
    requires TotalPreorder(compare) && Sorted(compare, keys)
    ensures Sorted(compare, InsertSorted(compare, keys, key))
    ensures multiset(InsertSorted(compare, keys, key)) == multiset(keys) + multiset{key}
  {
    hide TotalPreorder;
    var r := InsertSorted(compare, keys, key);
    forall i, j | 0 <= i < j < |r|
      ensures compare(r[i], r[j]) <= 0
    {
      SortedAt(compare, keys, key, i, j);
    }
    MultisetInsert(keys, key, Place(compare, keys, key));
  }

  lemma {:induction false} PlaceIs<K>(compare: (K, K) -> int, keys: seq<K>, key: K, p: nat)
    requires p <= |keys| && forall i | 0 <= i < p :: compare(keys[i], key) < 0
    requires p < |keys| ==> compare(keys[p], key) >= 0
    ensures Place(compare, keys, key) == p
    decreases |keys|
  {
    if p == 0 {
    } else {
      PlaceIs(compare, keys[1..], key, p - 1);
    }
  }

  // The loop of `list_add_sort`: the first entry that is not less, or the head.
  method FindPlace<K(!new)>(key: K, head: ListHead<K>, compare: (K, K) -> int, ghost ring: seq<ListHead<K>>)
    returns (insert: ListHead<K>, ghost k: nat)
    requires IsRing(ring) && head == ring[0]
    ensures 1 <= k <= |ring| && insert == (if k == |ring| then head else ring[k])
    ensures k - 1 == Place(compare, Keys(ring[1..]), key)
  {
    hide Place;
    k := 1;
    var pos := head.next;
    insert := head;
    assert head.next == ring[Succ(0, |ring|)];
    while pos != head
      invariant 1 <= k <= |ring| && pos == (if k == |ring| then head else ring[k])
      invariant forall i | 1 <= i < k :: compare(ring[i].key, key) < 0
      invariant insert == head
      decreases |ring| - k
    {
      if compare(pos.key, key) >= 0 {
        insert := pos;
        break;
      }
      assert ring[k].next == ring[Succ(k, |ring|)];
      pos := pos.next;
      k := k + 1;
    }
    PlaceIs(compare, Keys(ring[1..]), key, k - 1);
  }

  // `list_add_sort`
  method ListAddSort<K(!new)>(new_: ListHead<K>, head: ListHead<K>, compare: (K, K) -> int,
                       ghost ring: seq<ListHead<K>>)
    returns (ghost after: seq<ListHead<K>>)
    requires IsRing(ring) && head == ring[0] && new_ !in ring
    modifies new_, ring
    ensures IsRing(after) && after[0] == head
    ensures Keys(after[1..]) == InsertSorted(compare, Keys(ring[1..]), new_.key)
    ensures TotalPreorder(compare) && Sorted(compare, Keys(ring[1..])) ==> Sorted(compare, Keys(after[1..]))
  {
    hide TotalPreorder, Sorted, Place;
    ghost var keys := Keys(ring[1..]);
    ghost var k;
    var insert;
    insert, k := FindPlace(new_.key, head, compare, ring);
    after := ring[..k] + [new_] + ring[k..];
    assert Keys(after[1..]) == keys[..k - 1] + [new_.key] + keys[k - 1..];
    if TotalPreorder(compare) && Sorted(compare, keys) {
      InsertKeepsSorted(compare, keys, new_.key);
    }
    if insert == head {
      assert after == ring + [new_];
      ListAddTail(new_, insert, ring);
    } else {
      ListAddBefore(new_, insert, ring, k);
    }
  }
}
