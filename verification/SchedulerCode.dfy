/** The timed task list of jiutai/jf_attask.c as it is stored: items linked both ways, relinked in place. */
module SchedulerCode {
  import opened Scheduler

  /** attask_item_t */
  class Item {
    var expire: nat
    var data: int
    ghost var pos: nat
    var prev: Item?
    var next: Item?

    constructor (expire: nat, data: int, ghost pos: nat)
      ensures this.expire == expire && this.data == data && this.pos == pos && prev == null && next == null
    {
      this.expire := expire;
      this.data := data;
      this.pos := pos;
      prev, next := null, null;
    }
  }

  ghost function Values(nodes: seq<Item>): (r: seq<Entry>)
    reads nodes
    ensures |r| == |nodes| && forall i :: 0 <= i < |r| ==> r[i] == Entry(nodes[i].expire, nodes[i].data, nodes[i].pos)
  {
    if nodes == [] then [] else [Entry(nodes[0].expire, nodes[0].data, nodes[0].pos)] + Values(nodes[1..])
  }

  /** r is s without its element k. */
  ghost predicate Taken(s: seq<Item>, k: nat, r: seq<Item>) {
    && k < |s| && |r| == |s| - 1
    && (forall i :: 0 <= i < k ==> r[i] == s[i])
    && (forall i :: k <= i < |r| ==> r[i] == s[i + 1])
  }

  lemma TakeNode(s: seq<Item>, k: nat) returns (r: seq<Item>)
    requires k < |s| && Distinct(s)
    ensures Taken(s, k, r) && Distinct(r) && s[k] !in r && r == s[..k] + s[k + 1..]
  {
    r := s[..k] + s[k + 1..];
    assert Taken(s, k, r);
  }

  /** r is s with x put in at position k. */
  ghost predicate Inserted(s: seq<Item>, k: nat, x: Item, r: seq<Item>) {
    && k <= |s| && |r| == |s| + 1 && r[k] == x
    && (forall i :: 0 <= i < k ==> r[i] == s[i])
    && (forall i :: k < i < |r| ==> r[i] == s[i - 1])
  }

  lemma InsertNode(s: seq<Item>, k: nat, x: Item) returns (r: seq<Item>)
    requires k <= |s| && Distinct(s) && x !in s
    ensures Inserted(s, k, x, r) && Distinct(r)
  {
    r := s[..k] + [x] + s[k..];
    assert Inserted(s, k, x, r);
  }

  function At(nodes: seq<Item>, k: int): Item? {
    if 0 <= k < |nodes| then nodes[k] else null
  }

  ghost predicate Distinct(nodes: seq<Item>) {
    forall i, j :: 0 <= i < j < |nodes| ==> nodes[i] != nodes[j]
  }

  ghost predicate Forward(nodes: seq<Item>)
    reads nodes`next
  {
    forall i :: 0 <= i < |nodes| ==> nodes[i].next == At(nodes, i + 1)
  }

  ghost predicate Backward(nodes: seq<Item>)
    reads nodes`prev
  {
    forall i :: 0 <= i < |nodes| ==> nodes[i].prev == At(nodes, i - 1)
  }

  /** The nodes are linked forward and backward in this order, ended by null on both sides. */
  ghost predicate Linked(nodes: seq<Item>)
    reads nodes`prev, nodes`next
  {
    Distinct(nodes) && Forward(nodes) && Backward(nodes)
  }

  /** Node k is none of the others. */
  lemma OtherNodes(nodes: seq<Item>, k: nat)
    requires Distinct(nodes) && k < |nodes|
    ensures forall i :: 0 <= i < |nodes| && i != k ==> nodes[i] != nodes[k]
  {
  }

  lemma {:induction false} InsertAt(q: seq<Entry>, e: Entry, k: nat)
    requires k <= |q| && (forall i :: 0 <= i < k ==> e.expire > q[i].expire) && (k < |q| ==> e.expire <= q[k].expire)
    ensures Insert(q, e) == q[..k] + [e] + q[k..]
  {
    if k > 0 {
      InsertAt(q[1..], e, k - 1);
      assert q[1..][..k - 1] == q[1..k] && q[1..][k - 1..] == q[k..];
      assert q[..k] == [q[0]] + q[1..k];
    }
  }

  lemma {:induction false} DueIs(q: seq<Entry>, now: nat, n: nat)
    requires n <= |q| && (forall i :: 0 <= i < n ==> q[i].expire <= now) && (n < |q| ==> q[n].expire > now)
    ensures DueCount(q, now) == n
  {
    if n > 0 { DueIs(q[1..], now, n - 1); }
  }

  lemma {:induction false} FirstIs(q: seq<Entry>, data: int, n: nat)
    requires n <= |q| && (n < |q| ==> q[n].data == data) && forall i :: 0 <= i < n ==> q[i].data != data
    ensures FirstWith(q, data) == n
  {
    if n > 0 { FirstIs(q[1..], data, n - 1); }
  }

  lemma NextOf(nodes: seq<Item>, k: nat)
    requires Linked(nodes) && k < |nodes|
    ensures nodes[k].next == At(nodes, k + 1)
  {
  }

  lemma PrevOf(nodes: seq<Item>, k: nat)
    requires Linked(nodes) && k < |nodes|
    ensures nodes[k].prev == At(nodes, k - 1)
  {
  }

  lemma FirstTaken(ns: seq<Item>, k: nat, ns': seq<Item>)
    requires Taken(ns, k, ns')
    ensures At(ns', 0) == if k == 0 then At(ns, 1) else At(ns, 0)
  {
  }

  lemma FirstKept(ns: seq<Item>, k: nat, x: Item, ns': seq<Item>)
    requires Inserted(ns, k, x, ns')
    ensures At(ns', 0) == if k == 0 then x else At(ns, 0)
  {
  }

  /** The list's contents after an insertion in front of node k. */
  lemma ValuesInserted(ns: seq<Item>, k: nat, x: Item, ns': seq<Item>, q: seq<Entry>, e: Entry)
    requires Inserted(ns, k, x, ns') && q == Values(ns) && e == Entry(x.expire, x.data, x.pos)
    requires (forall j :: 0 <= j < k ==> e.expire > ns[j].expire) && (k < |ns| ==> e.expire <= ns[k].expire)
    ensures Values(ns') == Insert(q, e)
    ensures forall y :: y in ns' ==> y == x || y in ns
  {
    hide Values, Insert;
    InsertAt(q, e, k);
    var r := q[..k] + [e] + q[k..];
    forall i | 0 <= i < |ns'| ensures Values(ns')[i] == r[i] {
      if i > k { assert ns'[i] == ns[i - 1]; }
    }
  }

  function Datas(q: seq<Entry>): (r: seq<int>)
    ensures |r| == |q| && forall i :: 0 <= i < |r| ==> r[i] == q[i].data
  {
    seq(|q|, i requires 0 <= i < |q| => q[i].data)
  }

  /** internal_attask_t */
  class Attask {
    var items: Item?
    ghost var nodes: seq<Item>

    ghost predicate Valid()
      reads this, nodes
    {
      Linked(nodes) && items == At(nodes, 0)
    }

    ghost function Value(): seq<Entry>
      reads this, nodes
    {
      Values(nodes)
    }

    constructor ()
      ensures Valid() && Value() == [] && nodes == []
    {
      items := null;
      nodes := [];
    }

    /** jf_attask_addItem, when the clock shows now */
    method AddItem(data: int, milliseconds: nat, now: nat, ghost pos: nat)
      requires Valid()
      modifies this, nodes`prev, nodes`next
      ensures Valid() && Value() == Insert(old(Value()), Entry(now + milliseconds, data, pos))
      ensures forall x :: x in nodes ==> x in old(nodes) || fresh(x)
    {
      hide Values, Insert, Linked, Inserted;
      var pai := new Item(now + milliseconds, data, pos);
      ghost var ns, q, e, k := nodes, Value(), Entry(now + milliseconds, data, pos), 0;
      if items == null {
        Link(pai, null, null, 0);
        items := pai;
      } else {
        var temp: Item;
        temp, k := FindPlace(pai.expire);
        if pai.expire > temp.expire {
          k := k + 1;
          Link(pai, temp, null, k);
        } else if temp.prev == null {
          Link(pai, null, temp, 0);
          items := pai;
        } else {
          Link(pai, temp.prev, temp, k);
        }
      }
      ValuesInserted(ns, k, pai, nodes, q, e);
      FirstKept(ns, k, pai, nodes);
    }

    /** The first item that expires no earlier, or else the last item; it is node k. */
    method FindPlace(expire: nat) returns (temp: Item, ghost k: nat)
      requires Valid() && items != null
      ensures k < |nodes| && temp == nodes[k] && temp.prev == At(nodes, k - 1) && (forall j :: 0 <= j < k ==> expire > nodes[j].expire)
      ensures expire > temp.expire ==> k == |nodes| - 1
    {
      hide Distinct;
      temp, k := items, 0;
      while expire > temp.expire && temp.next != null
        invariant k < |nodes| && temp == nodes[k] && forall j :: 0 <= j < k ==> expire > nodes[j].expire
        decreases |nodes| - k
      {
        temp := temp.next;
        k := k + 1;
      }
    }

    /** pai goes between two neighbours, either of which may be missing. */
    method Link(pai: Item, before: Item?, after: Item?, ghost k: nat)
      requires Linked(nodes) && k <= |nodes| && after == At(nodes, k) && before == At(nodes, k - 1) && pai !in nodes
      modifies this`nodes, nodes`prev, nodes`next, pai`prev, pai`next
      ensures Linked(nodes) && Inserted(old(nodes), k, pai, nodes)
    {
      hide Distinct, Inserted, Forward, Backward;
      ghost var ns' := InsertNode(nodes, k, pai);
      LinkNext(pai, before, after, k, ns');
      LinkPrev(pai, before, after, k, ns');
      nodes := ns';
    }

    method LinkNext(pai: Item, before: Item?, after: Item?, ghost k: nat, ghost ns': seq<Item>)
      requires Distinct(nodes) && Forward(nodes) && k <= |nodes| && after == At(nodes, k) && before == At(nodes, k - 1)
      requires pai !in nodes && Inserted(nodes, k, pai, ns')
      modifies nodes`next, pai`next
      ensures Forward(ns')
    {
      hide Distinct;
      if k > 0 { OtherNodes(nodes, k - 1); }
      pai.next := after;
      if before != null { before.next := pai; }
    }

    method LinkPrev(pai: Item, before: Item?, after: Item?, ghost k: nat, ghost ns': seq<Item>)
      requires Distinct(nodes) && Backward(nodes) && k <= |nodes| && after == At(nodes, k) && before == At(nodes, k - 1)
      requires pai !in nodes && Inserted(nodes, k, pai, ns')
      modifies nodes`prev, pai`prev
      ensures Backward(ns')
    {
      hide Distinct;
      if k < |nodes| { OtherNodes(nodes, k); }
      pai.prev := before;
      if after != null { after.prev := pai; }
    }

    /** jf_attask_check, when the clock shows now: the data passed to the callbacks, in order, and the block time. */
    method Check(now: nat) returns (called: seq<int>, block: nat)
      requires Valid()
      modifies this, nodes`prev, nodes`next
      ensures Valid() && var n := DueCount(old(Value()), now); Value() == old(Value())[n..] && called == Datas(old(Value())[..n])
      ensures block == BlockTime(old(Value()), now)
      ensures forall x :: x in nodes ==> x in old(nodes)
    {
      hide Values, DueCount, Linked, Datas, BlockTime;
      ghost var q := Value();
      var last, temp;
      ghost var n;
      last, temp, n := FindDue(now);
      DueIs(q, now, n);
      BlockIs(q, now, n);
      ValuesCut(nodes, n);
      called := Release(last, temp, n);
      block := if items == null then DEFAULT_BLOCK else (items.expire - now) % U32;
    }

    /** The items before node n leave the list and are fired. */
    method Release(last: Item?, temp: Item?, ghost n: nat) returns (called: seq<int>)
      requires Valid() && n <= |nodes| && last == At(nodes, n - 1) && temp == At(nodes, n)
      modifies this, nodes`prev, nodes`next
      ensures Valid() && nodes == old(nodes)[n..] && called == Datas(Values(old(nodes)[..n]))
    {
      hide Values, Linked, Datas;
      called := [];
      if last != null {
        var evt := items;
        ghost var due := nodes[..n];
        Cut(last, temp, n);
        items := temp;
        called := FireList(evt, due);
      } else {
        NothingDue();
        assert nodes[n..] == nodes && nodes[..n] == [];
      }
    }

    /** The last item that is due and the first that is not, which is node n. */
    method FindDue(now: nat) returns (last: Item?, temp: Item?, ghost n: nat)
      requires Valid()
      ensures n <= |nodes| && temp == At(nodes, n) && last == At(nodes, n - 1)
      ensures (forall j :: 0 <= j < n ==> nodes[j].expire <= now) && (n < |nodes| ==> nodes[n].expire > now)
    {
      hide Distinct;
      last, temp, n := null, items, 0;
      while temp != null && temp.expire <= now
        invariant n <= |nodes| && temp == At(nodes, n) && last == At(nodes, n - 1) && forall j :: 0 <= j < n ==> nodes[j].expire <= now
        decreases |nodes| - n
      {
        last := temp;
        temp := temp.next;
        n := n + 1;
      }
    }

    /** The list is cut in front of node n. */
    method Cut(last: Item, temp: Item?, ghost n: nat)
      requires Linked(nodes) && 0 < n <= |nodes| && last == nodes[n - 1] && temp == At(nodes, n)
      modifies this`nodes, nodes`prev, nodes`next
      ensures Linked(nodes) && nodes == old(nodes)[n..] && Forward(old(nodes)[..n])
    {
      hide Distinct, Forward, Backward;
      CutNext(last, temp, n);
      CutPrev(temp, n);
      PartDistinct(nodes, n);
      nodes := nodes[n..];
    }

    method CutNext(last: Item, temp: Item?, ghost n: nat)
      requires Distinct(nodes) && Forward(nodes) && 0 < n <= |nodes| && last == nodes[n - 1] && temp == At(nodes, n)
      modifies nodes`next
      ensures Forward(nodes[..n]) && Forward(nodes[n..])
    {
      hide Distinct;
      OtherNodes(nodes, n - 1);
      if temp != null { last.next := null; }
    }

    method CutPrev(temp: Item?, ghost n: nat)
      requires Distinct(nodes) && Backward(nodes) && 0 < n <= |nodes| && temp == At(nodes, n)
      modifies nodes`prev
      ensures Backward(nodes[n..])
    {
      hide Distinct;
      if n < |nodes| { OtherNodes(nodes, n); }
      if temp != null { temp.prev := null; }
    }

    /** _freeAttaskItemList with the callbacks called, for the items of the given nodes. */
    method FireList(item: Item?, ghost due: seq<Item>) returns (called: seq<int>)
      requires Forward(due) && item == At(due, 0)
      ensures called == Datas(Values(due))
    {
      hide Values;
      called := [];
      var pai := item;
      ghost var k := 0;
      while pai != null
        invariant k <= |due| && pai == At(due, k) && |called| == k && forall j :: 0 <= j < k ==> called[j] == due[j].data
        decreases |due| - k
      {
        called := called + [pai.data];
        pai := pai.next;
        k := k + 1;
      }
    }

    /** Node k leaves the list: its neighbours are linked to each other. */
    method Unlink(first: Item, ghost k: nat)
      requires Valid() && k < |nodes| && first == nodes[k]
      modifies this, nodes`prev, nodes`next
      ensures Valid() && Taken(old(nodes), k, nodes) && first !in nodes && nodes == old(nodes[..k] + nodes[k + 1..])
    {
      hide Distinct, Taken, Forward, Backward;
      ghost var ns' := TakeNode(nodes, k);
      NextOf(nodes, k);
      PrevOf(nodes, k);
      FirstTaken(nodes, k, ns');
      var before, after := first.prev, first.next;
      if before == null { items := after; }
      UnlinkNext(before, after, k, ns');
      UnlinkPrev(before, after, k, ns');
      nodes := ns';
    }

    method UnlinkNext(before: Item?, after: Item?, ghost k: nat, ghost ns': seq<Item>)
      requires Distinct(nodes) && Forward(nodes) && k < |nodes| && before == At(nodes, k - 1) && after == At(nodes, k + 1) && Taken(nodes, k, ns')
      modifies nodes`next
      ensures Forward(ns')
    {
      hide Distinct;
      if k > 0 { OtherNodes(nodes, k - 1); }
      if before != null { before.next := after; }
    }

    method UnlinkPrev(before: Item?, after: Item?, ghost k: nat, ghost ns': seq<Item>)
      requires Distinct(nodes) && Backward(nodes) && k < |nodes| && before == At(nodes, k - 1) && after == At(nodes, k + 1) && Taken(nodes, k, ns')
      modifies nodes`prev
      ensures Backward(ns')
    {
      hide Distinct;
      if k + 1 < |nodes| { OtherNodes(nodes, k + 1); }
      if after != null { after.prev := before; }
    }

    /** jf_attask_removeItem: whether an item was found. */
    method RemoveItem(data: int) returns (found: bool)
      requires Valid()
      modifies this, nodes`prev, nodes`next
      ensures Valid() && Value() == RemoveFirst(old(Value()), data) && (found <==> exists e :: e in old(Value()) && e.data == data)
      ensures forall x :: x in nodes ==> x in old(nodes)
    {
      hide Values, Linked, FirstWith, RemoveFirst;
      ghost var ns, q, k := nodes, Value(), 0;
      var first, evt: Item? := items, null;
      while first != null
        invariant evt == null ==> Valid() && nodes == ns && k <= |ns| && first == At(ns, k) && forall j :: 0 <= j < k ==> q[j].data != data
        invariant evt != null ==> first == null && Valid() && k < |ns| && q[k].data == data && Taken(ns, k, nodes) && forall j :: 0 <= j < k ==> q[j].data != data
        invariant Values(ns) == q
        decreases if evt == null then |ns| - k + 1 else 0
      {
        if first.data == data {
          Unlink(first, k);
          evt := first;
          evt.prev, evt.next := null, null;
          first := first.next;
        } else {
          NextOf(nodes, k);
          first := first.next;
          k := k + 1;
        }
      }
      FirstIs(q, data, k);
      if evt != null { ValuesTaken(ns, k, nodes); }
      RemoveIs(q, data);
      found := evt != null;
    }
  }

  lemma ValuesTaken(ns: seq<Item>, k: nat, ns': seq<Item>)
    requires Taken(ns, k, ns')
    ensures Values(ns') == Values(ns)[..k] + Values(ns)[k + 1..]
    ensures forall x :: x in ns' ==> x in ns
  {
    hide Values;
    var r := Values(ns)[..k] + Values(ns)[k + 1..];
    forall i | 0 <= i < |ns'| ensures Values(ns')[i] == r[i] {
      if i >= k { assert ns'[i] == ns[i + 1]; }
    }
    forall x | x in ns' ensures x in ns {
      var i :| 0 <= i < |ns'| && ns'[i] == x;
      assert ns[if i < k then i else i + 1] == x;
    }
  }

  lemma RemoveIs(q: seq<Entry>, data: int)
    ensures var n := FirstWith(q, data); RemoveFirst(q, data) == if n < |q| then q[..n] + q[n + 1..] else q
    ensures FirstWith(q, data) < |q| <==> exists e :: e in q && e.data == data
  {
    hide FirstWith;
    var n := FirstWith(q, data);
    if n < |q| { assert q[n] in q; }
  }

  lemma NothingDue()
    ensures Datas(Values([])) == []
  {
  }

  lemma BlockIs(q: seq<Entry>, now: nat, n: nat)
    requires DueCount(q, now) == n
    ensures BlockTime(q, now) == if n == |q| then DEFAULT_BLOCK else (q[n].expire - now) % U32
  {
  }

  lemma PartDistinct(nodes: seq<Item>, n: nat)
    requires Distinct(nodes) && n <= |nodes|
    ensures Distinct(nodes[n..])
  {
  }

  lemma ValuesCut(nodes: seq<Item>, n: nat)
    requires n <= |nodes|
    ensures Values(nodes[n..]) == Values(nodes)[n..] && Values(nodes[..n]) == Values(nodes)[..n]
  {
    hide Values;
  }
}
