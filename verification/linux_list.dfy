/** The intrusive circular doubly linked list. A list is a ring of nodes whose first node is
    the list head; the entries are the others, in order. */
module LinuxList {
  import opened Sequences

  class ListHead {
    var next: ListHead?
    var prev: ListHead?

    /** INIT_LIST_HEAD. */
    method Init()
      modifies this
      ensures Ring([this])
    {
      next := this;
      prev := this;
    }
  }

  /** No node is on both sequences. */
  ghost predicate Apart(r: seq<ListHead>, q: seq<ListHead>) {
    forall i, j :: 0 <= i < |r| && 0 <= j < |q| ==> r[i] != q[j]
  }

  function Succ(i: nat, n: nat): nat { if i + 1 == n then 0 else i + 1 }

  function Pred(i: nat, n: nat): nat
    requires n > 0
  {
    if i == 0 then n - 1 else i - 1
  }

  ghost function Nexts(r: seq<ListHead>): (s: seq<ListHead?>)
    reads r
    ensures |s| == |r| && forall i {:trigger s[i]} :: 0 <= i < |r| ==> s[i] == r[i].next
  {
    seq(|r|, i requires 0 <= i < |r| reads r => r[i].next)
  }

  ghost function Prevs(r: seq<ListHead>): (s: seq<ListHead?>)
    reads r
    ensures |s| == |r| && forall i {:trigger s[i]} :: 0 <= i < |r| ==> s[i] == r[i].prev
  {
    seq(|r|, i requires 0 <= i < |r| reads r => r[i].prev)
  }

  /** With these links the nodes of `r` form one circle, in this order. */
  ghost predicate Linked(r: seq<ListHead>, nexts: seq<ListHead?>, prevs: seq<ListHead?>) {
    && 0 < |r| == |nexts| == |prevs|
    && Distinct(r)
    && (forall i {:trigger nexts[i]} :: 0 <= i < |r| ==> nexts[i] == r[Succ(i, |r|)])
    && (forall i {:trigger prevs[i]} :: 0 <= i < |r| ==> prevs[i] == r[Pred(i, |r|)])
  }

  /** The nodes of `r` form one circle, in this order. */
  ghost predicate Ring(r: seq<ListHead>)
    reads r
  {
    && |r| > 0
    && Distinct(r)
    && (forall i {:trigger r[i].next} :: 0 <= i < |r| ==> r[i].next == r[Succ(i, |r|)])
    && (forall i {:trigger r[i].prev} :: 0 <= i < |r| ==> r[i].prev == r[Pred(i, |r|)])
  }

  /** A ring whose links have not changed is still a ring. */
  lemma StillRing(r: seq<ListHead>, nexts: seq<ListHead?>, prevs: seq<ListHead?>)
    requires Linked(r, nexts, prevs)
    requires forall i {:trigger r[i].next} :: 0 <= i < |r| ==> r[i].next == nexts[i]
    requires forall i {:trigger r[i].prev} :: 0 <= i < |r| ==> r[i].prev == prevs[i]
    ensures Ring(r)
  {
  }

  lemma NextOf(r: seq<ListHead>, k: nat)
    requires Ring(r) && k < |r|
    ensures r[k].next == r[Succ(k, |r|)] && r[k].prev == r[Pred(k, |r|)]
  {
  }

  /** next and prev undo each other everywhere on a ring. */
  lemma NextPrevInverse(r: seq<ListHead>, i: nat)
    requires Ring(r) && i < |r|
    ensures r[i].next != null && r[i].next.prev == r[i]
    ensures r[i].prev != null && r[i].prev.next == r[i]
  {
    var j, k := Succ(i, |r|), Pred(i, |r|);
    assert r[i].next == r[j] && r[i].prev == r[k];
    assert Pred(j, |r|) == i && Succ(k, |r|) == i;
  }

  lemma {:induction false} SameUpTo(r: seq<ListHead>, q: seq<ListHead>, i: nat)
    requires Ring(r) && Ring(q) && r[0] == q[0]
    requires i < |r| && i < |q|
    ensures r[i] == q[i]
  {
    if i > 0 {
      SameUpTo(r, q, i - 1);
      assert r[i - 1].next == r[Succ(i - 1, |r|)] && q[i - 1].next == q[Succ(i - 1, |q|)];
    }
  }

  lemma NextIs(q: seq<ListHead>, i: nat)
    requires Ring(q) && i + 1 < |q|
    ensures q[i].next == q[i + 1] && q[i + 1] != q[0]
  {
    assert q[i].next == q[Succ(i, |q|)];
  }

  lemma NotLonger(r: seq<ListHead>, q: seq<ListHead>)
    requires Ring(r) && Ring(q) && r[0] == q[0]
    ensures |q| <= |r|
  {
    var last := |r| - 1;
    assert r[last].next == r[Succ(last, |r|)];
    if |q| > |r| {
      SameUpTo(r, q, last);
      NextIs(q, last);
      assert false;
    }
  }

  /** The links determine the ring: a head belongs to one sequence of nodes only. */
  lemma RingUnique(r: seq<ListHead>, q: seq<ListHead>)
    requires Ring(r) && Ring(q) && r[0] == q[0]
    ensures r == q
  {
    NotLonger(r, q);
    NotLonger(q, r);
    forall i | 0 <= i < |r|
      ensures r[i] == q[i]
    {
      SameUpTo(r, q, i);
    }
  }

  /* ---------- Insertion ---------- */

  function InsertedAt<T>(r: seq<T>, k: nat, x: T): seq<T>
    requires k <= |r|
  {
    r[..k] + [x] + r[k..]
  }

  /** __list_add between the nodes `k - 1` and `k` of a ring. */
  method ListAddBetween(newList: ListHead, prev: ListHead, next: ListHead, ghost r: seq<ListHead>, ghost k: nat)
    requires Ring(r) && newList !in r && 0 < k <= |r|
    requires prev == r[k - 1] && next == r[Succ(k - 1, |r|)]
    modifies newList, prev`next, next`prev
    ensures Ring(InsertedAt(r, k, newList))
  {
    ghost var nexts, prevs := Nexts(r), Prevs(r);
    next.prev := newList;
    newList.next := next;
    newList.prev := prev;
    prev.next := newList;
    assert forall i {:trigger r[i].next} :: 0 <= i < |r| ==> r[i].next == if i == k - 1 then newList else nexts[i];
    assert forall i {:trigger r[i].prev} :: 0 <= i < |r| ==> r[i].prev == if i == Succ(k - 1, |r|) then newList else prevs[i];
    InsertedRing(r, k, newList, nexts, prevs);
  }

  /** `r` was a ring with the given links, which now lead around through `x`. */
  lemma InsertedRing(r: seq<ListHead>, k: nat, x: ListHead, nexts: seq<ListHead?>, prevs: seq<ListHead?>)
    requires Linked(r, nexts, prevs) && x !in r && 0 < k <= |r|
    requires x.next == r[Succ(k - 1, |r|)] && x.prev == r[k - 1]
    requires forall i {:trigger r[i].next} :: 0 <= i < |r| ==> r[i].next == if i == k - 1 then x else nexts[i]
    requires forall i {:trigger r[i].prev} :: 0 <= i < |r| ==> r[i].prev == if i == Succ(k - 1, |r|) then x else prevs[i]
    ensures Ring(InsertedAt(r, k, x))
  {
    var q := InsertedAt(r, k, x);
    InsertedIndex(r, k, x);
    hide InsertedAt;
    forall i | 0 <= i < |q|
      ensures q[i].next == q[Succ(i, |q|)]
    {
      if i < k - 1 {
        assert q[i] == r[i] && nexts[i] == r[i + 1] == q[i + 1];
      } else if i == k - 1 {
        assert q[i] == r[i] && q[i + 1] == x;
      } else if i == k {
        assert q[i] == x && q[Succ(i, |q|)] == r[Succ(k - 1, |r|)];
      } else {
        assert q[i] == r[i - 1] && nexts[i - 1] == r[Succ(i - 1, |r|)] == q[Succ(i, |q|)];
      }
    }
    forall i | 0 <= i < |q|
      ensures q[i].prev == q[Pred(i, |q|)]
    {
      if i < k && i != Succ(k, |q|) {
        assert q[i] == r[i] && prevs[i] == r[Pred(i, |r|)] == q[Pred(i, |q|)];
      } else if i == k {
        assert q[i] == x && q[Pred(i, |q|)] == r[k - 1];
      } else if i == Succ(k, |q|) {
        assert q[i] == r[Succ(k - 1, |r|)] && q[Pred(i, |q|)] == x;
      } else {
        assert q[i] == r[i - 1] && prevs[i - 1] == r[i - 2] == q[i - 1];
      }
    }
    InsertedDistinct(r, k, x);
  }

  lemma InsertedIndex<T>(r: seq<T>, k: nat, x: T)
    requires k <= |r|
    ensures var q := InsertedAt(r, k, x);
      |q| == |r| + 1 && forall i :: 0 <= i < |q| ==> q[i] == if i < k then r[i] else if i == k then x else r[i - 1]
  {
  }

  lemma InsertedDistinct<T>(r: seq<T>, k: nat, x: T)
    requires Distinct(r) && x !in r && k <= |r|
    ensures Distinct(InsertedAt(r, k, x))
  {
    InsertedIndex(r, k, x);
    hide InsertedAt;
  }

  /** list_add: the new entry becomes the first. */
  method ListAdd(newList: ListHead, head: ListHead, ghost r: seq<ListHead>)
    requires Ring(r) && head == r[0] && newList !in r
    modifies newList, head`next, head.next`prev
    ensures Ring([head, newList] + r[1..])
  {
    assert head.next == r[Succ(0, |r|)];
    ListAddBetween(newList, head, head.next, r, 1);
    assert InsertedAt(r, 1, newList) == [head, newList] + r[1..];
  }

  /** list_add_tail: the new entry becomes the last. */
  method ListAddTail(newList: ListHead, head: ListHead, ghost r: seq<ListHead>)
    requires Ring(r) && head == r[0] && newList !in r
    modifies newList, head`prev, head.prev`next
    ensures Ring(r + [newList])
  {
    assert head.prev == r[Pred(0, |r|)];
    ListAddBetween(newList, head.prev, head, r, |r|);
    assert InsertedAt(r, |r|, newList) == r + [newList];
  }

  /* ---------- Deletion ---------- */

  /** __list_del of the neighbours of entry `k`: the entry itself keeps its stale links. */
  method ListDelBetween(prev: ListHead, next: ListHead, ghost r: seq<ListHead>, ghost k: nat)
    requires Ring(r) && 0 < k < |r|
    requires prev == r[k - 1] && next == r[Succ(k, |r|)]
    modifies prev`next, next`prev
    ensures Ring(Without(r, k))
    ensures r[k].next == old(r[k].next) && r[k].prev == old(r[k].prev)
  {
    ghost var nexts, prevs := Nexts(r), Prevs(r);
    next.prev := prev;
    prev.next := next;
    assert forall i {:trigger r[i].next} :: 0 <= i < |r| && i != k ==> r[i].next == if i == k - 1 then next else nexts[i];
    assert forall i {:trigger r[i].prev} :: 0 <= i < |r| && i != k ==> r[i].prev == if i == Succ(k, |r|) then prev else prevs[i];
    WithoutRing(r, k, nexts, prevs);
  }

  /** `r` was a ring with the given links, which now lead around past entry `k`. */
  lemma WithoutRing(r: seq<ListHead>, k: nat, nexts: seq<ListHead?>, prevs: seq<ListHead?>)
    requires Linked(r, nexts, prevs) && 0 < k < |r|
    requires forall i {:trigger r[i].next} :: 0 <= i < |r| && i != k ==> r[i].next == if i == k - 1 then r[Succ(k, |r|)] else nexts[i]
    requires forall i {:trigger r[i].prev} :: 0 <= i < |r| && i != k ==> r[i].prev == if i == Succ(k, |r|) then r[k - 1] else prevs[i]
    ensures Ring(Without(r, k))
  {
    var q := Without(r, k);
    forall i | 0 <= i < |q|
      ensures q[i].next == q[Succ(i, |q|)] && q[i].prev == q[Pred(i, |q|)]
    {
      var j := if i < k then i else i + 1;
      assert q[i] == r[j];
      assert nexts[j] == r[Succ(j, |r|)] && prevs[j] == r[Pred(j, |r|)];
    }
  }

  /** list_del: the entry leaves the ring with null links. */
  method ListDel(entry: ListHead, ghost r: seq<ListHead>, ghost k: nat)
    requires Ring(r) && 0 < k < |r| && entry == r[k]
    modifies entry, entry.prev`next, entry.next`prev
    ensures Ring(Without(r, k))
    ensures entry.next == null && entry.prev == null
  {
    assert entry.prev == r[Pred(k, |r|)] && entry.next == r[Succ(k, |r|)];
    ListDelBetween(entry.prev, entry.next, r, k);
    EntryGone(r, k);
    entry.next := null;
    entry.prev := null;
  }

  lemma EntryGone(r: seq<ListHead>, k: nat)
    requires Distinct(r) && k < |r|
    ensures r[k] !in Without(r, k)
  {
  }

  /** list_del_init: the entry leaves the ring and becomes an empty list. */
  method ListDelInit(entry: ListHead, ghost r: seq<ListHead>, ghost k: nat)
    requires Ring(r) && 0 < k < |r| && entry == r[k]
    modifies entry, entry.prev`next, entry.next`prev
    ensures Ring(Without(r, k)) && Ring([entry])
  {
    assert entry.prev == r[Pred(k, |r|)] && entry.next == r[Succ(k, |r|)];
    ListDelBetween(entry.prev, entry.next, r, k);
    EntryGone(r, k);
    entry.Init();
  }

  /** list_empty. */
  method ListEmpty(head: ListHead, ghost r: seq<ListHead>) returns (b: bool)
    requires Ring(r) && head == r[0]
    ensures b <==> r == [head]
  {
    assert head.next == r[Succ(0, |r|)];
    b := head.next == head;
  }

  /* ---------- Moving ---------- */

  lemma NotIn(x: ListHead, q: seq<ListHead>)
    requires forall j :: 0 <= j < |q| ==> x != q[j]
    ensures x !in q
  {
  }

  lemma WithoutApart(r: seq<ListHead>, q: seq<ListHead>, k: nat)
    requires Apart(r, q) && Distinct(r) && k < |r|
    ensures Apart(Without(r, k), q)
    ensures forall i :: 0 <= i < |Without(r, k)| ==> Without(r, k)[i] != r[k]
  {
  }

  /** list_move to the front of another list. */
  method ListMove(list: ListHead, head: ListHead, ghost r: seq<ListHead>, ghost k: nat, ghost q: seq<ListHead>)
    requires Ring(r) && 0 < k < |r| && list == r[k]
    requires Ring(q) && head == q[0] && Apart(r, q)
    modifies list, list.prev`next, list.next`prev, head`next, head.next`prev
    ensures Ring(Without(r, k)) && Ring([head, list] + q[1..])
  {
    assert list.prev == r[Pred(k, |r|)] && list.next == r[Succ(k, |r|)] && head.next == q[Succ(0, |q|)];
    ghost var qn, qp := Nexts(q), Prevs(q);
    ListDelBetween(list.prev, list.next, r, k);
    EntryGone(r, k);
    StillRing(q, qn, qp);
    ghost var w := Without(r, k);
    ghost var wn, wp := Nexts(w), Prevs(w);
    assert head.next == q[Succ(0, |q|)];
    NotIn(list, q);
    ListAdd(list, head, q);
    WithoutApart(r, q, k);
    StillRing(w, wn, wp);
  }

  /** list_move to the front of the entry's own list. */
  method ListMoveWithin(list: ListHead, head: ListHead, ghost r: seq<ListHead>, ghost k: nat)
    requires Ring(r) && 0 < k < |r| && list == r[k] && head == r[0]
    modifies list, list.prev`next, list.next`prev, head`next, head.next`prev
    ensures Ring([head, list] + Without(r, k)[1..])
  {
    assert list.prev == r[Pred(k, |r|)] && list.next == r[Succ(k, |r|)] && head.next == r[Succ(0, |r|)];
    ListDelBetween(list.prev, list.next, r, k);
    EntryGone(r, k);
    ghost var q := Without(r, k);
    assert head.next == q[Succ(0, |q|)];
    ListAdd(list, head, q);
  }

  /** list_move_tail to the end of another list. */
  method ListMoveTail(list: ListHead, head: ListHead, ghost r: seq<ListHead>, ghost k: nat, ghost q: seq<ListHead>)
    requires Ring(r) && 0 < k < |r| && list == r[k]
    requires Ring(q) && head == q[0] && Apart(r, q)
    modifies list, list.prev`next, list.next`prev, head`prev, head.prev`next
    ensures Ring(Without(r, k)) && Ring(q + [list])
  {
    assert list.prev == r[Pred(k, |r|)] && list.next == r[Succ(k, |r|)] && head.prev == q[Pred(0, |q|)];
    ghost var qn, qp := Nexts(q), Prevs(q);
    ListDelBetween(list.prev, list.next, r, k);
    EntryGone(r, k);
    StillRing(q, qn, qp);
    ghost var w := Without(r, k);
    ghost var wn, wp := Nexts(w), Prevs(w);
    assert head.prev == q[Pred(0, |q|)];
    NotIn(list, q);
    ListAddTail(list, head, q);
    WithoutApart(r, q, k);
    StillRing(w, wn, wp);
  }

  /** list_move_tail to the end of the entry's own list. */
  method ListMoveTailWithin(list: ListHead, head: ListHead, ghost r: seq<ListHead>, ghost k: nat)
    requires Ring(r) && 0 < k < |r| && list == r[k] && head == r[0]
    modifies list, list.prev`next, list.next`prev, head`prev, head.prev`next
    ensures Ring(Without(r, k) + [list])
  {
    assert list.prev == r[Pred(k, |r|)] && list.next == r[Succ(k, |r|)] && head.prev == r[Pred(0, |r|)];
    ListDelBetween(list.prev, list.next, r, k);
    EntryGone(r, k);
    ghost var q := Without(r, k);
    assert q[0] == head;
    NextOf(q, 0);
    ListAddTail(list, head, q);
  }

  /* ---------- Splicing ---------- */

  /** The ring of `head` with the entries of the other list in front of its own. */
  function Spliced<T>(r: seq<T>, q: seq<T>): seq<T>
    requires |r| > 0 && |q| > 0
  {
    [q[0]] + r[1..] + q[1..]
  }

  /** __list_splice of a non-empty list; its head keeps its stale links. */
  method ListSpliceNonEmpty(list: ListHead, head: ListHead, ghost r: seq<ListHead>, ghost q: seq<ListHead>)
    requires Ring(r) && list == r[0] && |r| > 1
    requires Ring(q) && head == q[0] && Apart(r, q)
    modifies list.next`prev, list.prev`next, head`next, head.next`prev
    ensures Ring(Spliced(r, q))
    ensures list.next == old(list.next) && list.prev == old(list.prev)
  {
    assert list.next == r[Succ(0, |r|)] && list.prev == r[Pred(0, |r|)] && head.next == q[Succ(0, |q|)];
    ghost var rn, rp, qn, qp := Nexts(r), Prevs(r), Nexts(q), Prevs(q);
    var first, last, at := list.next, list.prev, head.next;
    first.prev := head;
    head.next := first;
    last.next := at;
    at.prev := last;
    assert forall i {:trigger r[i].next} :: 0 < i < |r| ==> r[i].next == if i == |r| - 1 then at else rn[i];
    assert forall i {:trigger r[i].prev} :: 0 < i < |r| ==> r[i].prev == if i == 1 then head else rp[i];
    assert forall i {:trigger q[i].next} :: 0 <= i < |q| ==> q[i].next == if i == 0 then first else qn[i];
    assert forall i {:trigger q[i].prev} :: 0 <= i < |q| ==> q[i].prev == if i == Succ(0, |q|) then last else qp[i];
    SplicedRing(r, q, rn, rp, qn, qp);
  }

  lemma SplicedRing(r: seq<ListHead>, q: seq<ListHead>, rn: seq<ListHead?>, rp: seq<ListHead?>, qn: seq<ListHead?>, qp: seq<ListHead?>)
    requires Linked(r, rn, rp) && Linked(q, qn, qp) && |r| > 1 && Apart(r, q)
    requires forall i {:trigger r[i].next} :: 0 < i < |r| ==> r[i].next == if i == |r| - 1 then q[Succ(0, |q|)] else rn[i]
    requires forall i {:trigger r[i].prev} :: 0 < i < |r| ==> r[i].prev == if i == 1 then q[0] else rp[i]
    requires forall i {:trigger q[i].next} :: 0 <= i < |q| ==> q[i].next == if i == 0 then r[1] else qn[i]
    requires forall i {:trigger q[i].prev} :: 0 <= i < |q| ==> q[i].prev == if i == Succ(0, |q|) then r[|r| - 1] else qp[i]
    ensures Ring(Spliced(r, q))
  {
    var s := Spliced(r, q);
    SplicedDistinct(r, q);
    SplicedIndex(r, q);
    hide Spliced;
    forall i | 0 <= i < |s|
      ensures s[i].next == s[Succ(i, |s|)]
    {
      if i == 0 {
        assert s[i] == q[0] && s[1] == r[1];
      } else if i < |r| {
        assert s[i] == r[i] && rn[i] == r[Succ(i, |r|)];
      } else {
        var j := i - |r| + 1;
        assert s[i] == q[j] && qn[j] == q[Succ(j, |q|)] == s[Succ(i, |s|)];
      }
    }
    forall i | 0 <= i < |s|
      ensures s[i].prev == s[Pred(i, |s|)]
    {
      if i == 0 {
        assert s[i] == q[0] && qp[0] == q[Pred(0, |q|)];
      } else if i < |r| {
        assert s[i] == r[i] && rp[i] == r[Pred(i, |r|)];
      } else {
        var j := i - |r| + 1;
        assert s[i] == q[j] && qp[j] == q[j - 1];
      }
    }
  }

  lemma SplicedIndex<T>(r: seq<T>, q: seq<T>)
    requires |r| > 0 && |q| > 0
    ensures var s := Spliced(r, q);
      && |s| == |r| + |q| - 1
      && forall i :: 0 <= i < |s| ==> s[i] == if i == 0 then q[0] else if i < |r| then r[i] else q[i - |r| + 1]
  {
  }

  lemma SplicedDistinct(r: seq<ListHead>, q: seq<ListHead>)
    requires Distinct(r) && Distinct(q) && |r| > 0 && |q| > 0 && Apart(r, q)
    ensures Distinct(Spliced(r, q))
    ensures r[0] !in Spliced(r, q)
  {
    SplicedIndex(r, q);
    hide Spliced;
  }

  /** list_splice: the entries of one list go in front of those of the other. */
  method ListSplice(list: ListHead, head: ListHead, ghost r: seq<ListHead>, ghost q: seq<ListHead>)
    requires Ring(r) && list == r[0]
    requires Ring(q) && head == q[0] && Apart(r, q)
    modifies list.next`prev, list.prev`next, head`next, head.next`prev
    ensures Ring(Spliced(r, q))
    ensures |r| == 1 ==> Ring(r)
  {
    var empty := ListEmpty(list, r);
    if !empty {
      ListSpliceNonEmpty(list, head, r, q);
    } else {
      assert Spliced(r, q) == q;
    }
  }

  /** list_splice_init: the emptied list is an empty list again. */
  method ListSpliceInit(list: ListHead, head: ListHead, ghost r: seq<ListHead>, ghost q: seq<ListHead>)
    requires Ring(r) && list == r[0]
    requires Ring(q) && head == q[0] && Apart(r, q)
    modifies list, list.next`prev, list.prev`next, head`next, head.next`prev
    ensures Ring(Spliced(r, q)) && Ring([list])
  {
    var empty := ListEmpty(list, r);
    if !empty {
      ListSpliceNonEmpty(list, head, r, q);
      SplicedDistinct(r, q);
      ghost var s := Spliced(r, q);
      ghost var sn, sp := Nexts(s), Prevs(s);
      list.Init();
      StillRing(s, sn, sp);
    } else {
      assert Spliced(r, q) == q;
    }
  }

  /* ---------- Iteration that allows removal ---------- */

  /** The entries that are not doomed, in order. */
  function Kept<T(==)>(s: seq<T>, doomed: set<T>): (r: seq<T>)
    ensures |r| <= |s| && forall i :: 0 <= i < |r| ==> r[i] in s && r[i] !in doomed
  {
    if s == [] then []
    else
      var n := |s| - 1;
      Kept(s[..n], doomed) + if s[n] in doomed then [] else [s[n]]
  }

  /** What is left of a ring when the loop stands before entry `i`. */
  function Remaining<T(==)>(r: seq<T>, i: nat, doomed: set<T>): seq<T>
    requires 1 <= i <= |r|
  {
    [r[0]] + Kept(r[1..i], doomed) + r[i..]
  }

  lemma RemainingStep<T>(r: seq<T>, i: nat, doomed: set<T>)
    requires 1 <= i < |r|
    ensures var ring, k := Remaining(r, i, doomed), 1 + |Kept(r[1..i], doomed)|;
      && k < |ring| && ring[k] == r[i]
      && ring[Succ(k, |ring|)] == (if i + 1 < |r| then r[i + 1] else r[0])
      && Remaining(r, i + 1, doomed) == (if r[i] in doomed then Without(ring, k) else ring)
  {
    hide Kept;
    KeptStep(r, i, doomed);
    var a := [r[0]] + Kept(r[1..i], doomed);
    var ring, k := a + r[i..], |a|;
    assert ring[..k] == a && ring[k..] == r[i..] && ring[k + 1..] == r[i + 1..];
    assert r[i..] == [r[i]] + r[i + 1..];
  }

  lemma KeptStep<T>(r: seq<T>, i: nat, doomed: set<T>)
    requires 1 <= i < |r|
    ensures Kept(r[1..i + 1], doomed) == Kept(r[1..i], doomed) + if r[i] in doomed then [] else [r[i]]
  {
    var s := r[1..i + 1];
    assert s[|s| - 1] == r[i] && s[..|s| - 1] == r[1..i];
  }

  lemma RemainingStart(r: seq<ListHead>, doomed: set<ListHead>)
    requires |r| > 0
    ensures Remaining(r, 1, doomed) == r
  {
    assert r[1..1] == [];
  }

  /** Only entries that are not doomed, or not reached yet, remain. */
  lemma RemainingNodes(r: seq<ListHead>, i: nat, doomed: set<ListHead>)
    requires 1 <= i <= |r| && Distinct(r)
    ensures forall j :: 0 <= j < |Remaining(r, i, doomed)| ==> Remaining(r, i, doomed)[j] in r
    ensures forall m :: 1 <= m < i && r[m] in doomed ==> r[m] !in Remaining(r, i, doomed)
  {
    var kept := Kept(r[1..i], doomed);
    forall j | 0 <= j < |kept|
      ensures kept[j] in r
    {
      var x := kept[j];
      assert x in r[1..i];
    }
  }

  /** Deleting the current entry, if it is doomed. */
  method DeleteCurrent(pos: ListHead, doomed: set<ListHead>, ghost r: seq<ListHead>, ghost i: nat)
    requires 1 <= i < |r| && pos == r[i] && Distinct(r) && Ring(Remaining(r, i, doomed))
    requires forall m :: 1 <= m < i && r[m] in doomed ==> r[m].next == null && r[m].prev == null
    modifies r
    ensures Ring(Remaining(r, i + 1, doomed))
    ensures forall m :: 1 <= m < i + 1 && r[m] in doomed ==> r[m].next == null && r[m].prev == null
  {
    hide Ring, Kept, Remaining, Without;
    ghost var ring, k := Remaining(r, i, doomed), 1 + |Kept(r[1..i], doomed)|;
    RemainingStep(r, i, doomed);
    RemainingNodes(r, i, doomed);
    NextOf(ring, k);
    if pos in doomed {
      assert ring[Pred(k, |ring|)] in ring && ring[Succ(k, |ring|)] in ring;
      ListDel(pos, ring, k);
    }
  }

  lemma RingStart(r: seq<ListHead>)
    requires Ring(r)
    ensures |r| > 0 && Distinct(r) && r[0].next == r[Succ(0, |r|)] && r[Succ(0, |r|)].next != null
  {
    NextOf(r, 0);
  }

  /** The entry after the current one, deletions so far notwithstanding, is the original next. */
  lemma RemainingNext(r: seq<ListHead>, i: nat, doomed: set<ListHead>)
    requires 1 <= i < |r| && Ring(Remaining(r, i, doomed))
    ensures r[i].next == (if i + 1 < |r| then r[i + 1] else r[0])
  {
    hide Ring, Kept, Remaining, Without;
    RemainingStep(r, i, doomed);
    NextOf(Remaining(r, i, doomed), 1 + |Kept(r[1..i], doomed)|);
  }

  lemma RemainingLinked(r: seq<ListHead>, i: nat, doomed: set<ListHead>, e: ListHead)
    requires 1 <= i <= |r| && Ring(Remaining(r, i, doomed)) && (e == r[0] || e in r[i..])
    ensures e.next != null
  {
    var ring := Remaining(r, i, doomed);
    assert e in ring;
  }

  /** A list_for_each_safe loop whose body deletes the entries of any chosen subset while the
      loop is on them: every entry is visited once, in order, and exactly the others stay. */
  method DeleteDuring(head: ListHead, doomed: set<ListHead>, ghost r: seq<ListHead>) returns (visited: seq<ListHead>)
    requires Ring(r) && head == r[0]
    modifies r
    ensures visited == r[1..]
    ensures Ring([head] + Kept(r[1..], doomed))
    ensures forall m :: 1 <= m < |r| && r[m] in doomed ==> r[m].next == null && r[m].prev == null
  {
    hide Kept, Remaining, Without, Ring, Distinct;
    RingStart(r);
    var pos := head.next;
    var n := pos.next;
    visited := [];
    ghost var i := 1;
    RemainingStart(r, doomed);
    while pos != head
      invariant 1 <= i <= |r|
      invariant pos == if i < |r| then r[i] else head
      invariant visited == r[1..i]
      invariant Ring(Remaining(r, i, doomed)) && n == pos.next
      invariant forall m :: 1 <= m < i && r[m] in doomed ==> r[m].next == null && r[m].prev == null
      decreases |r| - i
    {
      RemainingNext(r, i, doomed);
      SliceGrows(r, 1, i);
      visited := visited + [pos];
      DeleteCurrent(pos, doomed, r, i);
      i := i + 1;
      pos := n;
      RemainingLinked(r, i, doomed, pos);
      n := pos.next;
    }
    assert r[1..|r|] == r[1..];
    RemainingAll(r, doomed);
  }

  lemma RemainingAll(r: seq<ListHead>, doomed: set<ListHead>)
    requires |r| > 0
    ensures Remaining(r, |r|, doomed) == [r[0]] + Kept(r[1..], doomed)
  {
    assert r[1..|r|] == r[1..];
  }
}
