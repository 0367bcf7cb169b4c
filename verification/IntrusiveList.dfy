/** Circular doubly linked lists whose links live in the entries. A list is a head entry and the entries between it and
    itself. */
module IntrusiveList {

  class ListEntry {
    var Flink: ListEntry
    var Blink: ListEntry

    /** CxPlatListInitializeHead on a new entry. */
    constructor ()
      ensures List(this, [])
    {
      Flink := this;
      Blink := this;
    }
  }

  /** Distinct entries, each linked both ways to the next one. */
  ghost predicate Chain(items: seq<ListEntry>)
    reads items
  {
    && (forall i, j :: 0 <= i < j < |items| ==> items[i] != items[j])
    && (forall i {:trigger items[i].Flink} :: 0 <= i < |items| - 1 ==> items[i].Flink == items[i + 1])
    && (forall i {:trigger items[i].Blink} :: 0 < i < |items| ==> items[i].Blink == items[i - 1])
  }

  /** The list under a head holds these entries, in this order: a chain closed to a ring by the head. */
  ghost predicate List(head: ListEntry, items: seq<ListEntry>)
    reads head, items
  {
    && head !in items
    && Chain(items)
    && (items == [] ==> head.Flink == head.Blink == head)
    && (items != [] ==> head.Flink == items[0] && items[0].Blink == head)
    && (items != [] ==> head.Blink == items[|items| - 1] && items[|items| - 1].Flink == head)
  }

  /** Two chains linked at their ends are one. */
  lemma ChainJoin(a: seq<ListEntry>, b: seq<ListEntry>)
    requires Chain(a) && Chain(b) && forall x :: x in a ==> x !in b
    requires a != [] && b != [] ==> a[|a| - 1].Flink == b[0] && b[0].Blink == a[|a| - 1]
    ensures Chain(a + b)
  {
    var c := a + b;
    forall i, j | 0 <= i < j < |c| ensures c[i] != c[j] {
      if i < |a| <= j {
        assert a[i] in a && b[j - |a|] in b;
      }
    }
    forall i {:trigger c[i].Flink} | 0 <= i < |c| - 1 ensures c[i].Flink == c[i + 1] {
      if i < |a| - 1 {
        assert a[i].Flink == a[i + 1];
      } else if i >= |a| {
        assert b[i - |a|].Flink == b[i - |a| + 1];
      }
    }
    forall i {:trigger c[i].Blink} | 0 < i < |c| ensures c[i].Blink == c[i - 1] {
      if i < |a| {
        assert a[i].Blink == a[i - 1];
      } else if i > |a| {
        assert b[i - |a|].Blink == b[i - |a| - 1];
      }
    }
  }

  /** A chain depends only on the links between its entries. */
  twostate lemma ChainKept(items: seq<ListEntry>)
    requires old(Chain(items))
    requires forall i {:trigger items[i].Flink} :: 0 <= i < |items| - 1 ==> items[i].Flink == old(items[i].Flink)
    requires forall i {:trigger items[i].Blink} :: 0 < i < |items| ==> items[i].Blink == old(items[i].Blink)
    ensures Chain(items)
  {
  }

  lemma ChainPart(items: seq<ListEntry>, from: nat, to: nat)
    requires from <= to <= |items| && Chain(items)
    ensures Chain(items[from..to])
  {
  }

  /** The links determine the entries: a head has only one list. */
  lemma {:induction false} EntryAt(head: ListEntry, a: seq<ListEntry>, b: seq<ListEntry>, i: nat)
    requires List(head, a) && List(head, b) && i < |a|
    ensures i < |b| && a[i] == b[i]
  {
    if i > 0 {
      EntryAt(head, a, b, i - 1);
      assert a[i - 1].Flink == a[i];
    }
  }

  lemma ListIsUnique(head: ListEntry, a: seq<ListEntry>, b: seq<ListEntry>)
    requires List(head, a) && List(head, b)
    ensures a == b
  {
    if |a| > |b| {
      EntryAt(head, a, b, |b|);
    } else if |b| > |a| {
      EntryAt(head, b, a, |a|);
    }
    forall i | 0 <= i < |a| && |a| == |b| ensures a[i] == b[i] {
      EntryAt(head, a, b, i);
    }
  }

  lemma EntriesDiffer(items: seq<ListEntry>)
    requires Chain(items)
    ensures forall i, j :: 0 <= i < j < |items| ==> items[i] != items[j]
  {
  }

  lemma EntriesApart(a: seq<ListEntry>, b: seq<ListEntry>)
    requires forall x :: x in a ==> x !in b
    ensures forall i, j :: 0 <= i < |a| && 0 <= j < |b| ==> a[i] != b[j]
  {
    forall i, j | 0 <= i < |a| && 0 <= j < |b| ensures a[i] != b[j] {
      assert a[i] in a && b[j] in b;
    }
  }

  method InitializeHead(head: ListEntry)
    modifies head
    ensures List(head, [])
  {
    head.Flink := head;
    head.Blink := head;
  }

  method IsEmpty(head: ListEntry, ghost items: seq<ListEntry>) returns (empty: bool)
    requires List(head, items)
    ensures empty <==> items == []
  {
    empty := head.Flink == head;
  }

  method InsertHead(head: ListEntry, entry: ListEntry, ghost items: seq<ListEntry>)
    requires List(head, items) && entry != head && entry !in items
    modifies head, entry, head.Flink
    ensures List(head, [entry] + items)
  {
    var flink := head.Flink;
    entry.Flink := flink;
    entry.Blink := head;
    flink.Blink := entry;
    head.Flink := entry;
    ChainJoin([entry], items);
  }

  method InsertTail(head: ListEntry, entry: ListEntry, ghost items: seq<ListEntry>)
    requires List(head, items) && entry != head && entry !in items
    modifies head, entry, head.Blink
    ensures List(head, items + [entry])
  {
    var blink := head.Blink;
    entry.Flink := head;
    entry.Blink := blink;
    blink.Flink := entry;
    head.Blink := entry;
    ChainJoin(items, [entry]);
  }

  /** Unlinks and returns the first entry; an empty list is left as it is and its head returned. */
  method RemoveHead(head: ListEntry, ghost items: seq<ListEntry>) returns (entry: ListEntry)
    requires List(head, items)
    modifies head, head.Flink.Flink
    ensures items == [] ==> entry == head && List(head, [])
    ensures items != [] ==> entry == items[0] && List(head, items[1..])
  {
    entry := head.Flink;
    var flink := entry.Flink;
    head.Flink := flink;
    flink.Blink := head;
  }

  /** Unlinks an entry from whatever list it is in; true exactly when that list is empty now. */
  method EntryRemove(entry: ListEntry, ghost head: ListEntry, ghost items: seq<ListEntry>, ghost k: nat)
      returns (nowEmpty: bool)
    requires List(head, items) && k < |items| && items[k] == entry
    modifies entry.Flink, entry.Blink
    ensures List(head, items[..k] + items[k + 1..])
    ensures nowEmpty <==> items[..k] + items[k + 1..] == []
  {
    ghost var before, after := items[..k], items[k + 1..];
    ChainPart(items, 0, k);
    ChainPart(items, k + 1, |items|);
    var flink := entry.Flink;
    var blink := entry.Blink;
    blink.Flink := flink;
    flink.Blink := blink;
    nowEmpty := flink == blink;
    ChainJoin(before, after);
  }

  /** MoveItems when the destination is empty: it takes over the source's links. */
  method TakeOver(source: ListEntry, destination: ListEntry, ghost from: seq<ListEntry>)
    requires List(source, from) && from != [] && source != destination && destination !in from
    modifies destination, source.Flink, source.Blink
    ensures List(destination, from) && source.Flink == old(source.Flink) && source.Blink == old(source.Blink)
  {
    hide Chain;
    EntriesDiffer(from);
    destination.Flink := source.Flink;
    destination.Blink := source.Blink;
    destination.Flink.Blink := destination;
    destination.Blink.Flink := destination;
    ChainKept(from);
  }

  /** MoveItems when both lists have entries: the destination's last is linked to the source's first, and the source's
      last becomes the destination's. */
  method Append(source: ListEntry, destination: ListEntry, ghost from: seq<ListEntry>, ghost to: seq<ListEntry>)
    requires List(source, from) && List(destination, to) && from != [] && to != []
    requires source != destination && source !in to && destination !in from
    requires forall x :: x in from ==> x !in to
    modifies destination, source.Flink, source.Blink, destination.Blink
    ensures List(destination, to + from) && source.Flink == old(source.Flink) && source.Blink == old(source.Blink)
  {
    hide Chain;
    EntriesDiffer(from);
    EntriesDiffer(to);
    EntriesApart(from, to);
    source.Flink.Blink := destination.Blink;
    destination.Blink.Flink := source.Flink;
    source.Blink.Flink := destination;
    destination.Blink := source.Blink;
    ChainKept(from);
    ChainKept(to);
    ChainJoin(to, from);
  }

  /** Appends everything in one list to another and empties the first. */
  method MoveItems(source: ListEntry, destination: ListEntry, ghost from: seq<ListEntry>, ghost to: seq<ListEntry>)
    requires List(source, from) && List(destination, to)
    requires source != destination && source !in to && destination !in from
    requires forall x :: x in from ==> x !in to
    modifies source, destination, source.Flink, source.Blink, destination.Blink
    ensures List(destination, to + from) && List(source, [])
  {
    hide Chain;
    if source.Flink != source {
      if destination.Flink == destination {
        TakeOver(source, destination, from);
        assert to + from == from;
      } else {
        Append(source, destination, from, to);
      }
      InitializeHead(source);
    } else {
      assert to + from == to;
    }
  }
}
