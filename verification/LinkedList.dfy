/**
 * uspace/include/common/list.h: circular doubly linked lists through a pair of pointers in each entry. A list is the
 * sequence of its entries behind the head; every other module treats lists as such sequences.
 */
module LinkedList {
  import opened Common

  class ListHead {
    var next: ListHead
    var prev: ListHead

    /** INIT_LIST_HEAD */
    constructor ()
      ensures Circle([this])
    {
      next, prev := this, this;
    }
  }

  ghost predicate Linked(x: ListHead, y: ListHead)
    reads x, y
  {
    x.next == y && y.prev == x
  }

  /** Different entries, each linked to the next one. */
  ghost predicate Chain(c: seq<ListHead>)
    reads c
  {
    Distinct(c) && forall i {:trigger c[i]} | 0 <= i < |c| - 1 :: Linked(c[i], c[i + 1])
  }

  /** A chain that ends where it starts. */
  ghost predicate Circle(c: seq<ListHead>)
    reads c
  {
    |c| > 0 && Chain(c) && Linked(c[|c| - 1], c[0])
  }

  /** The list at head has the entries s. */
  ghost predicate List(head: ListHead, s: seq<ListHead>)
    reads [head] + s
  {
    Circle([head] + s)
  }

  // ---------- chains ----------

  lemma {:induction false} ChainParts(a: seq<ListHead>, b: seq<ListHead>)
    requires Chain(a + b)
    ensures Chain(a) && Chain(b)
    ensures a != [] && b != [] ==> Linked(a[|a| - 1], b[0])
    ensures forall x | x in a :: x !in b
  {
    var c := a + b;
    assert forall i | 0 <= i < |b| :: c[|a| + i] == b[i];
    assert forall i | 0 <= i < |a| :: c[i] == a[i];
  }

  lemma {:induction false} ChainJoin(a: seq<ListHead>, b: seq<ListHead>)
    requires Chain(a) && Chain(b) && forall x | x in a :: x !in b
    requires a != [] && b != [] ==> Linked(a[|a| - 1], b[0])
    ensures Chain(a + b)
  {
    hide Linked, Distinct;
    var c, n := a + b, |a|;
    assert forall i | 0 <= i < n :: c[i] == a[i];
    assert forall i | n <= i < |c| :: c[i] == b[i - n];
    forall i {:trigger c[i]} | 0 <= i < |c| - 1 ensures Linked(c[i], c[i + 1]) {
      if i < n - 1 {
        assert Linked(a[i], a[i + 1]);
      } else if i >= n {
        assert Linked(b[i - n], b[i - n + 1]);
      } else {
        assert c[i] == a[n - 1] && c[i + 1] == b[0];
      }
    }
    DistinctJoin(a, b);
  }

  lemma DistinctJoin(a: seq<ListHead>, b: seq<ListHead>)
    requires Distinct(a) && Distinct(b) && forall x | x in a :: x !in b
    ensures Distinct(a + b)
  {
    forall i, j | 0 <= i < j < |a + b| ensures (a + b)[i] != (a + b)[j] {
      if i < |a| <= j { assert a[i] in a && b[j - |a|] in b; }
    }
  }

  /** A circle can be read from any of its entries on. */
  lemma {:induction false} Turn(a: seq<ListHead>, b: seq<ListHead>)
    requires Circle(a + b) && a != [] && b != []
    ensures Circle(b + a)
  {
    hide Chain, Linked;
    assert (a + b)[|a + b| - 1] == b[|b| - 1];
    ChainParts(a, b);
    ChainJoin(b, a);
  }

  lemma {:induction false} HeadLinks(head: ListHead, s: seq<ListHead>)
    requires List(head, s)
    ensures head !in s
    ensures head.next == (if s == [] then head else s[0]) && head.prev == (if s == [] then head else s[|s| - 1])
    ensures s != [] ==> s[|s| - 1].next == head
  {
    hide Chain;
    if s != [] {
      ChainParts([head], s);
      assert head in [head];
      assert ([head] + s)[|s|] == s[|s| - 1];
    }
  }

  // ---------- tests ----------

  /** list_empty */
  method Empty(head: ListHead, ghost s: seq<ListHead>) returns (r: bool)
    requires List(head, s)
    ensures r <==> s == []
  {
    HeadLinks(head, s);
    r := head.next == head;
  }

  /** list_is_last of the entry behind a */
  method IsLast(entry: ListHead, head: ListHead, ghost a: seq<ListHead>, ghost b: seq<ListHead>) returns (r: bool)
    requires List(head, a + [entry] + b)
    ensures r <==> b == []
  {
    EntryLinks(entry, head, a, b);
    HeadLinks(head, a + [entry] + b);
    if b != [] { assert (a + [entry] + b)[|a| + 1] == b[0]; }
    r := entry.next == head;
  }

  lemma {:induction false} EntryLinks(entry: ListHead, head: ListHead, a: seq<ListHead>, b: seq<ListHead>)
    requires List(head, a + [entry] + b)
    ensures entry.next == if b == [] then head else b[0]
    ensures entry.prev == if a == [] then head else a[|a| - 1]
  {
    hide Chain;
    var c := [head] + (a + [entry] + b);
    assert c == ([head] + a) + ([entry] + b);
    ChainParts([head] + a, [entry] + b);
    if b != [] { ChainParts([entry], b); } else { assert c[|c| - 1] == entry; }
    if a != [] { assert ([head] + a)[|a|] == a[|a| - 1]; }
  }

  /** list_is_singular */
  method IsSingular(head: ListHead, ghost s: seq<ListHead>) returns (r: bool)
    requires List(head, s)
    ensures r <==> |s| == 1
  {
    HeadLinks(head, s);
    if |s| > 1 { FirstNotLast(head, s); }
    r := head.next != head && head.next == head.prev;
  }

  lemma FirstNotLast(head: ListHead, s: seq<ListHead>)
    requires List(head, s) && |s| > 1
    ensures s[0] != s[|s| - 1]
  {
    var c := [head] + s;
    assert c[1] == s[0] && c[|s|] == s[|s| - 1];
  }

  // ---------- one entry ----------

  /** Only the last one of a chain is the last one, and only the first one the first. */
  lemma Edges(c: seq<ListHead>)
    requires Distinct(c)
    ensures forall i {:trigger c[i]} | 0 <= i < |c| - 1 :: c[i] != c[|c| - 1] && c[i + 1] != c[0]
  {
  }

  /** __list_add behind the last of c, before the first */
  method Insert(entry: ListHead, prev: ListHead, next: ListHead, ghost c: seq<ListHead>)
    requires Circle(c) && prev == c[|c| - 1] && next == c[0] && entry !in c
    modifies entry, prev`next, next`prev
    ensures Circle(c + [entry])
  {
    hide Distinct;
    Edges(c);
    next.prev := entry;
    entry.next := next;
    entry.prev := prev;
    prev.next := entry;
    forall i | 0 <= i < |c| - 1 ensures Linked(c[i], c[i + 1]) {
      assert c[i] in c && c[i + 1] in c;
    }
    One(entry);
    ChainJoin(c, [entry]);
  }

  /** list_add */
  method Add(entry: ListHead, head: ListHead, ghost s: seq<ListHead>)
    requires List(head, s) && entry !in [head] + s
    modifies entry, head`next, head.next`prev
    ensures List(head, [entry] + s)
  {
    hide Chain;
    HeadLinks(head, s);
    ghost var c := s + [head];
    if s == [] {
      assert [head] + s == c;
    } else {
      Turn([head], s);
    }
    Insert(entry, head, head.next, c);
    assert c + [entry] == s + [head, entry];
    if s == [] {
      assert c + [entry] == [head] + ([entry] + s);
    } else {
      Turn(s, [head, entry]);
      assert [head, entry] + s == [head] + ([entry] + s);
    }
  }

  /** list_add_tail */
  method AddTail(entry: ListHead, head: ListHead, ghost s: seq<ListHead>)
    requires List(head, s) && entry !in [head] + s
    modifies entry, head`prev, head.prev`next
    ensures List(head, s + [entry])
  {
    hide Chain;
    Insert(entry, head.prev, head, [head] + s);
    assert [head] + s + [entry] == [head] + (s + [entry]);
  }

  /** __list_del of the entry behind the last of c */
  method Remove(prev: ListHead, next: ListHead, ghost c: seq<ListHead>, ghost entry: ListHead)
    requires c != [] && Circle(c + [entry]) && prev == c[|c| - 1] && next == c[0]
    modifies prev`next, next`prev
    ensures Circle(c)
  {
    ChainParts(c, [entry]);
    hide Distinct;
    Edges(c);
    next.prev := prev;
    prev.next := next;
    forall i | 0 <= i < |c| - 1 ensures Linked(c[i], c[i + 1]) {
    }
  }

  /** list_del of the entry behind a; it keeps its own pointers. */
  method Del(entry: ListHead, ghost head: ListHead, ghost a: seq<ListHead>, ghost b: seq<ListHead>)
    requires List(head, a + [entry] + b)
    modifies entry.prev`next, entry.next`prev
    ensures List(head, a + b) && entry !in [head] + (a + b)
  {
    hide Chain;
    EntryLinks(entry, head, a, b);
    ghost var front := [head] + a;
    assert [head] + (a + [entry] + b) == front + [entry] + b;
    Apart(front, entry, b);
    if b == [] {
      assert front + [entry] + b == b + front + [entry];
    } else {
      Turn(front + [entry], b);
      assert b + (front + [entry]) == b + front + [entry];
    }
    Remove(entry.prev, entry.next, b + front, entry);
    if b == [] {
      assert b + front == [head] + (a + b);
    } else {
      Turn(b, front);
      assert front + b == [head] + (a + b);
    }
  }

  lemma {:induction false} Apart(a: seq<ListHead>, entry: ListHead, b: seq<ListHead>)
    requires Chain(a + [entry] + b)
    ensures entry !in a + b
  {
    hide Chain;
    ChainParts(a + [entry], b);
    ChainParts(a, [entry]);
    assert entry in [entry] && entry in a + [entry];
  }

  /** list_move_tail, from the list at from to the one at head */
  method MoveTail(entry: ListHead, head: ListHead, ghost from: ListHead, ghost a: seq<ListHead>, ghost b: seq<ListHead>,
                  ghost t: seq<ListHead>)
    requires List(from, a + [entry] + b) && List(head, t)
    requires forall x | x in [from] + (a + [entry] + b) :: x !in [head] + t
    modifies [from] + (a + [entry] + b), [head] + t
    ensures List(from, a + b) && List(head, t + [entry])
  {
    hide Circle;
    ghost var c, d := [from] + (a + [entry] + b), [head] + t;
    EntryLinks(entry, from, a, b);
    Members(from, a, entry, b);
    Del(entry, from, a, b);
    HeadLinks(head, t);
    assert head in d && head.prev in d;
    AddTail(entry, head, t);
  }

  lemma Members(head: ListHead, a: seq<ListHead>, entry: ListHead, b: seq<ListHead>)
    ensures var c := [head] + (a + [entry] + b);
            && head in c && entry in c && (forall x | x in [head] + (a + b) :: x in c)
            && (b != [] ==> b[0] in c) && (a != [] ==> a[|a| - 1] in c)
  {
    var s := a + [entry] + b;
    assert s[|a|] == entry;
  }

  // ---------- whole lists ----------

  /** __list_splice of the entries t of a list behind the last of c, before the first */
  method Splice(first: ListHead, last: ListHead, prev: ListHead, next: ListHead, ghost c: seq<ListHead>,
                ghost t: seq<ListHead>)
    requires Circle(c) && prev == c[|c| - 1] && next == c[0]
    requires t != [] && Chain(t) && first == t[0] && last == t[|t| - 1] && forall x | x in c :: x !in t
    modifies first`prev, prev`next, last`next, next`prev
    ensures Circle(c + t)
  {
    hide Distinct;
    assert prev in c && next in c && first in t && last in t;
    Edges(c);
    Edges(t);
    first.prev := prev;
    prev.next := first;
    last.next := next;
    next.prev := last;
    forall i | 0 <= i < |c| - 1 ensures Linked(c[i], c[i + 1]) {
      assert c[i] in c && c[i + 1] in c;
    }
    forall i | 0 <= i < |t| - 1 ensures Linked(t[i], t[i + 1]) {
      assert t[i] in t && t[i + 1] in t;
    }
    hide Chain;
    ChainJoin(c, t);
    assert (c + t)[0] == next && (c + t)[|c + t| - 1] == last;
  }

  lemma {:induction false} Ends(head: ListHead, s: seq<ListHead>)
    requires List(head, s)
    ensures Chain(s) && head !in s && head in [head] + s
    ensures head.next in [head] + s && head.prev in [head] + s && head.prev == ([head] + s)[|s|]
    ensures head.next == head <==> s == []
    ensures s != [] ==> head.next == s[0] && head.prev == s[|s| - 1] && head.next in s && head.prev in s
  {
    hide Chain;
    HeadLinks(head, s);
    ChainParts([head], s);
  }

  /** list_splice_tail_init: all entries of list go behind those of head, and list is empty. */
  method SpliceTailInit(list: ListHead, head: ListHead, ghost t: seq<ListHead>, ghost s: seq<ListHead>)
    requires List(list, t) && List(head, s) && forall x | x in [list] + t :: x !in [head] + s
    modifies [list] + t, [head] + s
    ensures List(head, s + t) && List(list, [])
  {
    hide Chain, Linked, Distinct;
    Ends(list, t);
    Ends(head, s);
    ghost var c := [head] + s;
    assert s + [] == s && [list] + [] == [list];
    if list.next != list {
      assert forall x | x in t :: x in [list] + t;
      Splice(list.next, list.prev, head.prev, head, c, t);
      assert c + t == [head] + (s + t);
      assert list !in c + t;
      list.next, list.prev := list, list;
      Single(list);
    }
  }

  lemma One(x: ListHead)
    ensures Chain([x])
  {
  }

  lemma Single(x: ListHead)
    requires x.next == x && x.prev == x
    ensures Circle([x])
  {
  }
}
