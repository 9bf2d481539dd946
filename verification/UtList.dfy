/**
 Linked lists on nodes with `prev` and `next` pointers: the doubly linked list macros of
 utlist.h, and the two kinds of list inside a hash table of uthash.h.
 */
module UtList {
  import opened Basics
  import M = MergeSort

  class Node {
    const data: int
    var prev: Node?
    var next: Node?

    constructor (data: int)
      ensures this.data == data
    {
      this.data, prev, next := data, null, null;
    }
  }

  function Key(n: Node): int {
    n.data
  }

  function First(s: seq<Node>): Node? {
    if s == [] then null else s[0]
  }

  function Last(s: seq<Node>): Node? {
    if s == [] then null else s[|s| - 1]
  }

  /** What the first element points back at. */
  function BeforeFirst(s: seq<Node>, layout: Layout): Node? {
    if layout.Straight? || layout.Circular? then Last(s) else null
  }

  /** What the last element points at. */
  function End(s: seq<Node>, circular: bool): Node? {
    if circular then First(s) else null
  }

  /** Neighbours point at each other. */
  predicate Linked(s: seq<Node>)
    reads s
  {
    forall i :: 0 <= i < |s| - 1 ==> s[i].next == s[i + 1] && s[i + 1].prev == s[i]
  }

  /**
   Straight and Circular are the DL and CDL lists: the head's `prev` is the tail.  Application
   is the application-order list of a hash table, which keeps its tail apart, and Chain the
   list of one bucket, by hh_prev and hh_next: their head's `prev` is null.
   */
  datatype Layout = Straight | Circular | Application | Chain

  class List {
    const layout: Layout
    var head: Node?
    var tail: Node? // of an Application list
    ghost var nodes: seq<Node>

    ghost predicate Valid()
      reads this, nodes
    {
      && head == First(nodes)
      && Distinct(nodes)
      && Linked(nodes)
      && (nodes != [] ==> nodes[0].prev == BeforeFirst(nodes, layout) && nodes[|nodes| - 1].next == End(nodes, layout.Circular?))
      && (layout.Application? ==> tail == Last(nodes))
    }

    constructor (layout: Layout)
      ensures Valid() && nodes == [] && this.layout == layout
    {
      this.layout, head, tail, nodes := layout, null, null, [];
    }

    /** DL_APPEND */
    method Append(add: Node)
      requires Valid() && layout.Straight? && add !in nodes
      modifies this, nodes, add
      ensures Valid() && nodes == old(nodes) + [add]
    {
      if head != null {
        add.prev := head.prev;
        head.prev.next := add;
        head.prev := add;
        add.next := null;
      } else {
        head := add;
        head.prev := head;
        head.next := null;
      }
      nodes := nodes + [add];
    }

    /** CDL_APPEND */
    method AppendCircular(add: Node)
      requires Valid() && layout.Circular? && add !in nodes
      modifies this, nodes, add
      ensures Valid() && nodes == old(nodes) + [add]
    {
      if head != null {
        add.prev := head.prev;
        add.next := head;
        head.prev := add;
        add.prev.next := add;
      } else {
        add.prev := add;
        add.next := add;
        head := add;
      }
      nodes := nodes + [add];
    }

    lemma Neighbours(i: nat)
      requires Valid() && i < |nodes|
      ensures nodes[i].next == if i + 1 < |nodes| then nodes[i + 1] else End(nodes, layout.Circular?)
      ensures nodes[i].prev == if i > 0 then nodes[i - 1] else BeforeFirst(nodes, layout)
    {
      if i > 0 { assert nodes[i - 1].next == nodes[i]; }
    }

    /** DL_DELETE */
    method Delete(del: Node, ghost i: nat)
      requires Valid() && layout.Straight? && i < |nodes| && nodes[i] == del
      modifies this, nodes
      ensures Valid() && nodes == old(nodes)[..i] + old(nodes)[i + 1..]
    {
      ghost var s := nodes;
      Neighbours(i);
      if i + 1 < |s| { Neighbours(i + 1); }
      if del.prev == del {
        head := null;
      } else if del == head {
        del.next.prev := del.prev;
        head := del.next;
      } else {
        del.prev.next := del.next;
        if del.next != null {
          del.next.prev := del.prev;
        } else {
          head.prev := del.prev;
        }
      }
      nodes := s[..i] + s[i + 1..];
      forall x | 0 <= x < |nodes| - 1 ensures nodes[x].next == nodes[x + 1] && nodes[x + 1].prev == nodes[x] {
        if x < i - 1 {
          assert old(s[x].next == s[x + 1] && s[x + 1].prev == s[x]);
        } else if x >= i {
          assert old(s[x + 1].next == s[x + 2] && s[x + 2].prev == s[x + 1]);
        }
      }
    }

    /** CDL_DELETE */
    method DeleteCircular(del: Node, ghost i: nat)
      requires Valid() && layout.Circular? && i < |nodes| && nodes[i] == del
      modifies this, nodes
      ensures Valid() && nodes == old(nodes)[..i] + old(nodes)[i + 1..]
    {
      ghost var s := nodes;
      Neighbours(0);
      Neighbours(i);
      if head == del && head.next == head {
        head := null;
      } else {
        del.next.prev := del.prev;
        del.prev.next := del.next;
        if del == head {
          head := del.next;
        }
      }
      nodes := s[..i] + s[i + 1..];
      forall x | 0 <= x < |nodes| - 1 ensures nodes[x].next == nodes[x + 1] && nodes[x + 1].prev == nodes[x] {
        if x < i - 1 {
          assert old(s[x].next == s[x + 1] && s[x + 1].prev == s[x]);
        } else if x >= i {
          assert old(s[x + 1].next == s[x + 2] && s[x + 2].prev == s[x + 1]);
        }
      }
    }

    /** DL_CONCAT: the other list's head is left as it was, the other list is used up. */
    method Concat(other: List)
      requires Valid() && layout.Straight? && other.Valid() && other.layout.Straight? && other != this
      requires forall i, j :: 0 <= i < |nodes| && 0 <= j < |other.nodes| ==> nodes[i] != other.nodes[j]
      modifies this, nodes, other.nodes
      ensures Valid() && nodes == old(nodes) + old(other.nodes)
    {
      if other.head != null {
        if head != null {
          var tmp := other.head.prev;
          other.head.prev := head.prev;
          head.prev.next := other.head;
          head.prev := tmp;
        } else {
          head := other.head;
        }
      }
      nodes := nodes + other.nodes;
    }

    /** DL_LOWER_BOUND: the last element below `like`, if the first one is. */
    method LowerBound(like: int, cmp: (int, int) -> int) returns (elt: Node?)
      requires Valid() && layout.Straight?
      ensures elt == Last(nodes[..Below(nodes, like, cmp)])
    {
      if head == null || cmp(head.data, like) >= 0 {
        elt := null;
      } else {
        ghost var i := 1;
        elt := head;
        Neighbours(0);
        while elt.next != null
          invariant 1 <= i <= |nodes| && elt == nodes[i - 1]
          invariant elt.next == if i < |nodes| then nodes[i] else null
          invariant forall j :: 0 <= j < i ==> cmp(nodes[j].data, like) < 0
          decreases |nodes| - i
        {
          if cmp(elt.next.data, like) >= 0 {
            break;
          }
          Neighbours(i);
          elt, i := elt.next, i + 1;
        }
        LowerBoundAt(nodes, like, cmp, i);
      }
    }

    /** DL_PREPEND */
    method Prepend(add: Node)
      requires Valid() && layout.Straight? && add !in nodes
      modifies this, nodes, add
      ensures Valid() && nodes == [add] + old(nodes)
    {
      add.next := head;
      if head != null {
        add.prev := head.prev;
        head.prev := add;
      } else {
        add.prev := add;
      }
      head := add;
      nodes := [add] + nodes;
    }

    static lemma DistinctInserted(s: seq<Node>, i: nat, add: Node)
      requires Distinct(s) && add !in s && i <= |s|
      ensures Distinct(s[..i] + [add] + s[i..])
    {
    }

    /** DL_APPEND_ELEM */
    method AppendElem(el: Node?, add: Node, ghost i: nat)
      requires Valid() && layout.Straight? && add !in nodes && i <= |nodes| && el == Last(nodes[..i])
      modifies this, nodes, add
      ensures Valid() && nodes == old(nodes[..i] + [add] + nodes[i..])
    {
      ghost var s := nodes;
      if el != null {
        hide Distinct;
        DistinctFrom(s, i - 1);
        if i < |s| { DistinctFrom(s, i); }
        Neighbours(i - 1);
        add.next := el.next;
        add.prev := el;
        el.next := add;
        if add.next != null {
          add.next.prev := add;
        } else {
          head.prev := add;
        }
        nodes := s[..i] + [add] + s[i..];
        DistinctInserted(s, i, add);
        forall x | 0 <= x < |nodes| - 1 ensures nodes[x].next == nodes[x + 1] && nodes[x + 1].prev == nodes[x] {
          if x < i - 1 {
            assert old(s[x].next == s[x + 1] && s[x + 1].prev == s[x]);
          } else if x > i {
            assert old(s[x - 1].next == s[x] && s[x].prev == s[x - 1]);
          }
        }
      } else {
        Prepend(add);
      }
    }

    /** DL_INSERT_INORDER: behind everything smaller, before everything else. */
    method InsertInorder(add: Node, cmp: (int, int) -> int)
      requires Valid() && layout.Straight? && add !in nodes
      modifies this, nodes, add
      ensures Valid()
      ensures nodes == InsertedInorder(old(nodes), add, cmp)
    {
      if head != null {
        var tmp := LowerBound(add.data, cmp);
        AppendElem(tmp, add, Below(nodes, add.data, cmp));
      } else {
        head := add;
        head.prev := head;
        head.next := null;
        nodes := [add];
      }
    }

    // ----- The lists of a hash table

    /** HASH_APPEND_LIST, and the first element of a table. */
    method AppendApplication(add: Node)
      requires Valid() && layout.Application? && add !in nodes
      modifies this, nodes, add
      ensures Valid() && nodes == old(nodes) + [add]
    {
      add.next := null;
      if head == null {
        add.prev := null;
        head := add;
      } else {
        add.prev := tail;
        tail.next := add;
      }
      tail := add;
      nodes := nodes + [add];
    }

    /** The relinking of HASH_ADD_*_INORDER: before `iter`, or at the end if there is none. */
    method InsertApplication(add: Node, iter: Node?, ghost i: nat)
      requires Valid() && layout.Application? && add !in nodes && i <= |nodes| && iter == At(nodes, i)
      modifies this, nodes, add
      ensures Valid() && nodes == old(nodes[..i] + [add] + nodes[i..])
    {
      ghost var s := nodes;
      if iter != null {
        hide Distinct;
        Neighbours(i);
        DistinctFrom(s, i);
        if i > 0 {
          Neighbours(i - 1);
          DistinctFrom(s, i - 1);
        }
        add.next := iter;
        add.prev := iter.prev;
        if add.prev != null {
          add.prev.next := add;
        } else {
          head := add;
        }
        iter.prev := add;
        nodes := s[..i] + [add] + s[i..];
        DistinctInserted(s, i, add);
        forall x | 0 <= x < |nodes| - 1 ensures nodes[x].next == nodes[x + 1] && nodes[x + 1].prev == nodes[x] {
          if x < i - 1 {
            assert old(s[x].next == s[x + 1] && s[x + 1].prev == s[x]);
          } else if x > i {
            assert old(s[x - 1].next == s[x] && s[x].prev == s[x - 1]);
          }
        }
      } else {
        AppendApplication(add);
      }
    }

    /** The relinking of HASH_DELETE_HH. */
    method DeleteApplication(del: Node, ghost i: nat)
      requires Valid() && layout.Application? && i < |nodes| && nodes[i] == del
      modifies this, nodes
      ensures Valid() && nodes == old(nodes)[..i] + old(nodes)[i + 1..]
    {
      Neighbours(i);
      if del.prev == null && del.next == null {
        head, tail := null, null;
        nodes := [];
      } else {
        if del == tail {
          tail := del.prev;
        }
        UnlinkNode(del, i);
      }
    }

    /** Both neighbours are pointed past an element. */
    method UnlinkNode(del: Node, ghost i: nat)
      requires head == First(nodes) && Distinct(nodes) && Linked(nodes) && i < |nodes| && nodes[i] == del
      requires nodes[0].prev == null && nodes[|nodes| - 1].next == null
      modifies this`head, this`nodes, nodes
      ensures nodes == old(nodes)[..i] + old(nodes)[i + 1..]
      ensures head == First(nodes) && Distinct(nodes) && Linked(nodes)
      ensures nodes != [] ==> nodes[0].prev == null && nodes[|nodes| - 1].next == null
    {
      ghost var s := nodes;
      assert i > 0 ==> s[i - 1].next == s[i] && s[i].prev == s[i - 1];
      assert i + 1 < |s| ==> s[i].next == s[i + 1] && s[i + 1].prev == s[i];
      if del.prev != null {
        del.prev.next := del.next;
      } else {
        head := del.next;
      }
      if del.next != null {
        del.next.prev := del.prev;
      }
      nodes := s[..i] + s[i + 1..];
      forall x | 0 <= x < |nodes| - 1 ensures nodes[x].next == nodes[x + 1] && nodes[x + 1].prev == nodes[x] {
        if x < i - 1 {
          assert old(s[x].next == s[x + 1] && s[x + 1].prev == s[x]);
        } else if x >= i {
          assert old(s[x + 1].next == s[x + 2] && s[x + 2].prev == s[x + 1]);
        }
      }
    }

    /** The relinking of HASH_ADD_TO_BKT: a new element comes first in its chain. */
    method PushChain(add: Node)
      requires Valid() && layout.Chain? && add !in nodes
      modifies this, nodes, add
      ensures Valid() && nodes == [add] + old(nodes)
    {
      add.next := head;
      add.prev := null;
      if head != null {
        head.prev := add;
      }
      head := add;
      nodes := [add] + nodes;
    }

    /** The relinking of HASH_DEL_IN_BKT. */
    method DeleteChain(del: Node, ghost i: nat)
      requires Valid() && layout.Chain? && i < |nodes| && nodes[i] == del
      modifies this, nodes
      ensures Valid() && nodes == old(nodes)[..i] + old(nodes)[i + 1..]
    {
      Neighbours(i);
      ChainHead(i);
      UnlinkNode(del, i);
    }

    /** HASH_DEL_IN_BKT tests for the head of the chain where HASH_DELETE_HH tests for no predecessor. */
    lemma ChainHead(i: nat)
      requires Valid() && layout.Chain? && i < |nodes|
      ensures nodes[i].prev == null <==> nodes[i] == head
    {
      Neighbours(i);
    }

    /** In the middle of a merge: the rest of the first run is i..m, the rest of the list starts at j. */
    ghost predicate Merging(s: seq<Node>, i: nat, m: nat, j: nat, out: seq<Node>)
      reads this, s, out
    {
      && Ahead(s, i, m, layout.Circular?) && Ahead(s, j, |s|, layout.Circular?)
      && Apart(out, s, i, m, j) && Within(out, s)
      && head == First(out) && OutLinked(out)
    }

    /** One element goes to the end of the output list. */
    method Emit(e: Node, tail: Node?, ghost s: seq<Node>, ghost i: nat, ghost m: nat, ghost j: nat, ghost out: seq<Node>)
      requires Distinct(s) && Merging(s, i, m, j, out) && tail == Last(out) && m <= j
      requires (i < m && e == s[i]) || (j < |s| && e == s[j])
      modifies this`head, s
      ensures Merging(s, if i < m && e == s[i] then i + 1 else i, m, if i < m && e == s[i] then j else j + 1, out + [e])
    {
      hide Distinct, OutLinked;
      ghost var first := i < m && e == s[i];
      StayApart(out, s, i, m, j, if first then i + 1 else i, if first then j else j + 1, e);
      Link(e, tail, out);
    }

    method Link(e: Node, tail: Node?, ghost out: seq<Node>)
      requires OutLinked(out) && tail == Last(out) && e !in out && head == First(out)
      modifies this`head, e`prev, (if tail == null then {} else {tail})`next
      ensures OutLinked(out + [e]) && head == First(out + [e])
    {
      if tail != null {
        tail.next := e;
      } else {
        head := e;
      }
      e.prev := tail;
    }

    /** Counts at most `insize` elements off the list at `p`. */
    method Advance(p: Node, oldHead: Node, insize: nat, ghost s: seq<Node>, ghost start: nat)
      returns (psize: nat, q: Node?)
      requires insize >= 1 && start < |s| && s[start] == p && s[0] == oldHead && Distinct(s) && Ahead(s, start, |s|, layout.Circular?)
      ensures psize == Min(insize, |s| - start) && q == At(s, start + psize)
    {
      hide Distinct, Following;
      q, psize := p, 0;
      var i := 0;
      while i < insize
        invariant i == psize <= insize && start + psize < |s| && q == s[start + psize]
      {
        psize := psize + 1;
        FollowingAt(s, start + psize - 1, layout.Circular?);
        q := Following(q.next, oldHead, layout.Circular?);
        if q == null {
          break;
        }
        i := i + 1;
      }
    }

    /** The inner loop of DL_SORT2 and CDL_SORT2: two neighbouring runs are merged onto the output list. */
    method MergeRuns(p': Node, oldHead: Node, psize': nat, q': Node?, insize: nat, tail': Node?, cmp: (int, int) -> int,
                     ghost s: seq<Node>, ghost start: nat, ghost out': seq<Node>)
      returns (q: Node?, tail: Node?, ghost out: seq<Node>)
      requires insize >= 1 && start < |s| && s[start] == p' && s[0] == oldHead && Distinct(s)
      requires psize' == Min(insize, |s| - start) && q' == At(s, start + psize')
      requires Merging(s, start, start, start, out') && tail' == Last(out')
      modifies this`head, s
      ensures var m, n := start + psize', Min(start + 2 * insize, |s|);
              && out == out' + M.Merge(s[start..m], s[m..n], Key, cmp)
              && q == At(s, n) && tail == Last(out) && Merging(s, n, n, n, out)
    {
      hide Distinct, Merging, Following, M.Remaining, M.Merge;
      var p: Node?, psize, qsize := p', psize', insize;
      q, tail, out := q', tail', out';
      ghost var m, n := start + psize', Min(start + 2 * insize, |s|);
      ghost var i, j := start, m;
      ghost var target := out' + M.Merge(s[start..m], s[m..n], Key, cmp);
      StartMerging(s, start, m, out');
      M.AllRemaining(s, start, m, n, out', Key, cmp);
      while psize > 0 || (qsize > 0 && q != null)
        invariant start <= i <= m <= j <= n && psize == m - i && qsize == insize - (j - m)
        invariant psize > 0 ==> p == s[i]
        invariant q == At(s, j) && tail == Last(out)
        invariant Merging(s, i, m, j, out)
        invariant M.Remaining(s, i, m, j, n, out, target, Key, cmp)
        decreases m - i + n - j
      {
        var e: Node;
        ghost var i', j' := i, j;
        NextOf(s, i, m, j, out);
        M.Peel(s, i, m, j, n, Key, cmp, out, target);
        if psize == 0 {
          e, q, qsize, j := q, Following(q.next, oldHead, layout.Circular?), qsize - 1, j + 1;
        } else if qsize == 0 || q == null {
          e, p, psize, i := p, Following(p.next, oldHead, layout.Circular?), psize - 1, i + 1;
        } else if cmp(p.data, q.data) <= 0 {
          e, p, psize, i := p, Following(p.next, oldHead, layout.Circular?), psize - 1, i + 1;
        } else {
          DistinctFrom(s, i);
          e, q, qsize, j := q, Following(q.next, oldHead, layout.Circular?), qsize - 1, j + 1;
        }
        Emit(e, tail, s, i', m, j', out);
        tail, out := e, out + [e];
      }
      M.NothingLeft(s, m, n, out, target, Key, cmp);
      EndMerging(s, m, n, out);
    }

    /** One turn of the pass: a run, its neighbour, and their merge. */
    method MergeNext(p: Node, oldHead: Node, insize: nat, tail': Node?, cmp: (int, int) -> int,
                     ghost s: seq<Node>, ghost start: nat, ghost out': seq<Node>)
      returns (q: Node?, tail: Node?, ghost out: seq<Node>)
      requires Distinct(s) && start < |s| && p == s[start] && s[0] == oldHead && tail' == Last(out')
      requires Merging(s, start, start, start, out') && M.Passing(s, start, insize, out', Key, cmp)
      modifies this`head, s
      ensures var n := Min(start + 2 * insize, |s|);
              && q == At(s, n) && tail == Last(out)
              && Merging(s, n, n, n, out) && M.Passing(s, n, insize, out, Key, cmp)
    {
      hide Merging, M.Pass, M.Merge, Distinct, Ahead;
      RestAhead(s, start, out');
      var psize;
      psize, q := Advance(p, oldHead, insize, s, start);
      M.PassStep(s, start, insize, out', Key, cmp);
      q, tail, out := MergeRuns(p, oldHead, psize, q, insize, tail', cmp, s, start, out');
    }

    /** The merging loop of one pass over the list. */
    method MergeAll(insize: nat, cmp: (int, int) -> int, oldHead: Node, ghost s: seq<Node>)
      returns (nmerges: nat, tail: Node?, ghost out: seq<Node>)
      requires Distinct(s) && s != [] && oldHead == s[0] && insize >= 1 && Merging(s, 0, 0, 0, []) && M.Passing(s, 0, insize, [], Key, cmp)
      modifies this`head, s
      ensures tail == Last(out) && Merging(s, |s|, |s|, |s|, out) && M.Passing(s, |s|, insize, out, Key, cmp)
      ensures nmerges <= 1 <==> |s| <= 2 * insize
    {
      hide Merging, M.Passing, Distinct;
      var p: Node? := oldHead;
      nmerges, tail, out := 0, null, [];
      ghost var start := 0;
      while p != null
        invariant start <= |s| && p == At(s, start) && tail == Last(out)
        invariant Merging(s, start, start, start, out) && M.Passing(s, start, insize, out, Key, cmp)
        invariant nmerges == 0 ==> start == 0
        invariant nmerges == 1 ==> start == Min(2 * insize, |s|)
        invariant nmerges >= 2 ==> start > 2 * insize
        decreases |s| - start
      {
        nmerges := nmerges + 1;
        p, tail, out := MergeNext(p, oldHead, insize, tail, cmp, s, start, out);
        start := Min(start + 2 * insize, |s|);
      }
    }

    /** One pass: runs of `insize` elements are merged in pairs. */
    method OnePass(insize: nat, cmp: (int, int) -> int) returns (nmerges: nat)
      requires Valid() && nodes != [] && insize >= 1
      modifies this, nodes
      ensures Valid() && nodes == M.Pass(old(nodes), insize, Key, cmp) && Within(nodes, old(nodes))
      ensures nmerges <= 1 <==> |nodes| <= 2 * insize
    {
      hide *;
      ghost var s := nodes;
      var p := Detach();
      M.StartPass(s, insize, Key, cmp);
      var tail: Node?;
      ghost var out;
      nmerges, tail, out := MergeAll(insize, cmp, p, s);
      M.EndPass(s, insize, out, Key, cmp);
      Close(tail, s, out);
    }

    method Detach() returns (p: Node)
      requires Valid() && nodes != []
      modifies this`head
      ensures p == nodes[0] && Merging(nodes, 0, 0, 0, []) && Distinct(nodes)
    {
      p := head;
      head := null;
      Untouched(nodes);
    }

    method Close(last: Node?, ghost s: seq<Node>, ghost out: seq<Node>)
      requires Merging(s, |s|, |s|, |s|, out) && last == Last(out) && out != []
      modifies this, s
      ensures Valid() && nodes == out && Within(out, s)
    {
      PassDone(s, out);
      if layout.Straight? || layout.Circular? {
        head.prev := last;
      }
      last.next := if layout.Circular? then head else null;
      if layout.Application? {
        tail := last;
      }
      nodes := out;
    }

    /** DL_SORT2, CDL_SORT2 for a circular list, and the relinking of HASH_SRT for an application list. */
    method Sort(cmp: (int, int) -> int)
      requires Valid()
      modifies this, nodes
      ensures Valid() && nodes == M.Sort(old(nodes), Key, cmp)
    {
      hide M.Pass, M.Merge;
      if head != null {
        var insize, looping := 1, true;
        ghost var s := nodes;
        ghost var target := M.Sort(s, Key, cmp);
        while looping
          invariant Valid() && |nodes| == |s| && Within(nodes, s) && insize >= 1
          invariant if looping then M.SortFrom(nodes, insize, Key, cmp) == target else nodes == target
          decreases looping, |s| - insize
        {
          var nmerges := OnePass(insize, cmp);
          if nmerges <= 1 {
            looping := false;
          }
          insize := insize * 2;
        }
      }
    }

    lemma Untouched(s: seq<Node>)
      requires Linked(s) && s != [] && s[|s| - 1].next == End(s, layout.Circular?) && head == null
      ensures Merging(s, 0, 0, 0, [])
    {
    }

    lemma RestAhead(s: seq<Node>, start: nat, out: seq<Node>)
      requires Merging(s, start, start, start, out)
      ensures Ahead(s, start, |s|, layout.Circular?)
    {
    }

    lemma PassDone(s: seq<Node>, out: seq<Node>)
      requires Merging(s, |s|, |s|, |s|, out)
      ensures OutLinked(out) && Within(out, s) && head == First(out)
    {
    }

    lemma StartMerging(s: seq<Node>, start: nat, m: nat, out: seq<Node>)
      requires Merging(s, start, start, start, out) && start <= m <= |s|
      ensures Merging(s, start, m, m, out)
    {
      hide OutLinked;
    }

    lemma EndMerging(s: seq<Node>, m: nat, n: nat, out: seq<Node>)
      requires Merging(s, m, m, n, out) && n <= |s|
      ensures Merging(s, n, n, n, out)
    {
      hide OutLinked;
    }

    lemma NextOf(s: seq<Node>, i: nat, m: nat, j: nat, out: seq<Node>)
      requires Distinct(s) && Merging(s, i, m, j, out) && i <= m <= j <= |s|
      ensures i < m ==> Following(s[i].next, s[0], layout.Circular?) == At(s, i + 1)
      ensures j < |s| ==> Following(s[j].next, s[0], layout.Circular?) == At(s, j + 1)
    {
      hide OutLinked, Distinct, Following;
      if i < m { FollowingAt(s, i, layout.Circular?); }
      if j < |s| { FollowingAt(s, j, layout.Circular?); }
    }
  }

  // ----- Sorting

  /** The element at a position, or the null that ends the list. */
  function At(s: seq<Node>, i: nat): Node? {
    if i < |s| then s[i] else null
  }

  /** The `next` pointers of a stretch are as they were in the list `s`. */
  ghost predicate Ahead(s: seq<Node>, from: nat, to: nat, circular: bool)
    reads s
  {
    to <= |s| && forall i :: from <= i < to ==> s[i].next == Successor(s, i, circular)
  }

  function Successor(s: seq<Node>, i: nat, circular: bool): Node? {
    if i + 1 < |s| then s[i + 1] else End(s, circular)
  }

  /** The next element as the sort sees it: on a circular list the old head is the end. */
  function Following(next: Node?, oldHead: Node, circular: bool): Node? {
    if circular && next == oldHead then null else next
  }

  lemma FollowingAt(s: seq<Node>, i: nat, circular: bool)
    requires Distinct(s) && i < |s| && Ahead(s, i, i + 1, circular)
    ensures Following(s[i].next, s[0], circular) == At(s, i + 1)
  {
    hide Distinct;
    DistinctFrom(s, 0);
  }

  ghost predicate OutLinked(out: seq<Node>)
    reads out
  {
    Distinct(out) && Linked(out) && (out != [] ==> out[0].prev == null)
  }

  /** No output element is still waiting in one of the runs. */
  ghost predicate Apart(out: seq<Node>, s: seq<Node>, i: nat, m: nat, j: nat) {
    forall o, x :: 0 <= o < |out| && 0 <= x < |s| && (i <= x < m || j <= x) ==> out[o] != s[x]
  }

  ghost predicate Within(out: seq<Node>, s: seq<Node>) {
    forall o :: 0 <= o < |out| ==> out[o] in s
  }

  lemma StayApart(out: seq<Node>, s: seq<Node>, i: nat, m: nat, j: nat, i': nat, j': nat, e: Node)
    requires Distinct(s) && Apart(out, s, i, m, j) && m <= j
    requires m <= |s| && (if i' == i then j' == j + 1 && j < |s| && e == s[j] else i' == i + 1 && j' == j && i < m && e == s[i])
    ensures Apart(out + [e], s, i', m, j') && e !in out
  {
    hide Distinct;
    forall o | 0 <= o < |out| ensures out[o] != e {
      assert out[o] != s[if i' == i then j else i];
    }
    if i' == i {
      DistinctFrom(s, j);
    } else {
      DistinctFrom(s, i);
    }
  }

  lemma DistinctFrom(s: seq<Node>, i: nat)
    requires Distinct(s) && i < |s|
    ensures forall x :: 0 <= x < |s| && x != i ==> s[x] != s[i]
  {
  }

  // ----- Sorted insertion

  /** How many elements come before the first one that is not below `like`. */
  function Below(s: seq<Node>, like: int, cmp: (int, int) -> int): (i: nat)
    ensures i <= |s|
  {
    if s == [] || cmp(s[0].data, like) >= 0 then 0 else 1 + Below(s[1..], like, cmp)
  }

  function InsertedInorder(s: seq<Node>, add: Node, cmp: (int, int) -> int): seq<Node> {
    var i := Below(s, add.data, cmp);
    s[..i] + [add] + s[i..]
  }

  lemma {:induction false} LowerBoundAt(s: seq<Node>, like: int, cmp: (int, int) -> int, i: nat)
    requires i <= |s|
    requires forall j :: 0 <= j < i ==> cmp(s[j].data, like) < 0
    requires i < |s| ==> cmp(s[i].data, like) >= 0
    ensures Below(s, like, cmp) == i
  {
    if i > 0 {
      LowerBoundAt(s[1..], like, cmp, i - 1);
    }
  }

  predicate Sorted(s: seq<Node>, cmp: (int, int) -> int) {
    forall i, j :: 0 <= i < j < |s| ==> cmp(s[i].data, s[j].data) <= 0
  }

  lemma {:induction false} BelowMeaning(s: seq<Node>, like: int, cmp: (int, int) -> int)
    ensures var i := Below(s, like, cmp);
            && (forall j :: 0 <= j < i ==> cmp(s[j].data, like) < 0)
            && (i < |s| ==> cmp(s[i].data, like) >= 0)
  {
    if s != [] && cmp(s[0].data, like) < 0 {
      BelowMeaning(s[1..], like, cmp);
    }
  }

  /** In-order insertion keeps a sorted list sorted, and puts the new element before its equals. */
  lemma InsertionKeepsSorted(s: seq<Node>, add: Node, cmp: (int, int) -> int)
    requires M.TotalPreorder(cmp) && Sorted(s, cmp)
    ensures Sorted(InsertedInorder(s, add, cmp), cmp)
    ensures var i := Below(s, add.data, cmp);
            forall j :: 0 <= j < |s| && cmp(s[j].data, add.data) == 0 ==> i <= j
  {
    hide M.TotalPreorder, Below;
    var i, k := Below(s, add.data, cmp), add.data;
    BelowMeaning(s, k, cmp);
    forall j | i <= j < |s| ensures cmp(k, s[j].data) <= 0 {
      Flip(cmp, s[i].data, k);
      Transitive(cmp, k, s[i].data, s[j].data, i == j);
    }
    Spliced(s, i, add, cmp);
  }

  lemma Spliced(s: seq<Node>, i: nat, add: Node, cmp: (int, int) -> int)
    requires i <= |s| && Sorted(s, cmp)
    requires forall j :: 0 <= j < i ==> cmp(s[j].data, add.data) < 0
    requires forall j :: i <= j < |s| ==> cmp(add.data, s[j].data) <= 0
    ensures Sorted(s[..i] + [add] + s[i..], cmp)
  {
    var r := s[..i] + [add] + s[i..];
    forall x, y | 0 <= x < y < |r| ensures cmp(r[x].data, r[y].data) <= 0 {
      assert r[x] == if x < i then s[x] else if x == i then add else s[x - 1];
      assert r[y] == if y < i then s[y] else if y == i then add else s[y - 1];
    }
  }

  lemma Flip(cmp: (int, int) -> int, a: int, b: int)
    requires M.TotalPreorder(cmp) && cmp(a, b) >= 0
    ensures cmp(b, a) <= 0
  {
  }

  lemma Transitive(cmp: (int, int) -> int, a: int, b: int, c: int, same: bool)
    requires M.TotalPreorder(cmp) && cmp(a, b) <= 0 && (if same then b == c else cmp(b, c) <= 0)
    ensures cmp(a, c) <= 0
  {
  }
}
