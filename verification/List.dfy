/** The intrusive doubly linked list of v1-src/lib/list.c in word-addressed memory: an element is
    two words, `prev` at its address and `next` four bytes further on; a list is a `head` element
    at its address and a `tail` element eight bytes further on. */
module Lists {
  import opened Common

  const MEMORY_SIZE := 0x1_0000_0000

  /** The 32-bit word stored at each aligned address; indices that are not aligned are not used. */
  type Words = m: seq<Word> | |m| == MEMORY_SIZE witness seq<Word>(MEMORY_SIZE, i => 0)

  /** An address at which an element fits. */
  type Elem = e: int | 0 <= e < MEMORY_SIZE - 16

  function Tail(list: Elem): int { list + 8 }

  /** head, elements, tail. */
  function Nodes(list: Elem, xs: seq<Elem>): (r: seq<int>)
    ensures |r| == |xs| + 2
  {
    [list] + xs + [Tail(list)]
  }

  /** Two elements do not overlap. */
  predicate Sep(a: int, b: int) { a + 8 <= b || b + 8 <= a }

  /** No two nodes overlap. */
  predicate Apart(nodes: seq<int>) {
    forall i, j {:trigger Sep(nodes[i], nodes[j])} :: 0 <= i < |nodes| && 0 <= j < |nodes| && i != j ==>
        Sep(nodes[i], nodes[j])
  }

  /** Two nodes point at each other. */
  predicate Joined(m: Words, a: int, b: int) { Peek(m, a + 4) == b && Peek(m, b) == a }

  /** All nodes are addresses, and consecutive ones point at each other. */
  predicate Linked(m: Words, nodes: seq<int>) {
    && (forall i :: 0 <= i < |nodes| ==> 0 <= nodes[i] < MEMORY_SIZE - 8)
    && (forall i {:trigger Joined(m, nodes[i], nodes[i + 1])} :: 0 <= i < |nodes| - 1 ==>
        Joined(m, nodes[i], nodes[i + 1]))
  }

  /** The list at `list` holds the elements xs, in this order. */
  predicate IsList(m: Words, list: Elem, xs: seq<Elem>) {
    Apart(Nodes(list, xs)) && Linked(m, Nodes(list, xs))
  }

  // ---------- the operations on memory ----------

  function Initialized(m: Words, list: Elem): Words {
    m[list := 0][list + 4 := list + 8][list + 8 := list][list + 12 := 0]
  }

  function Peek(m: Words, a: int): Word { if 0 <= a < MEMORY_SIZE then m[a] else 0 }

  function Poke(m: Words, a: int, w: Word): Words { if 0 <= a < MEMORY_SIZE then m[a := w] else m }

  /** before->prev->next = elem; elem->prev = before->prev; elem->next = before; before->prev = elem. */
  function InsertedBefore(m: Words, before: int, elem: Elem): Words
    requires 0 <= before < MEMORY_SIZE
  {
    var m1 := Poke(m, Peek(m, before) + 4, elem);
    var m2 := Poke(m1, elem, Peek(m1, before));
    var m3 := Poke(m2, elem + 4, before);
    Poke(m3, before, elem)
  }

  /** elem->prev->next = elem->next; elem->next->prev = elem->prev. */
  function Removed(m: Words, elem: Elem): Words {
    var m1 := Poke(m, Peek(m, elem) + 4, Peek(m, elem + 4));
    Poke(m1, Peek(m1, elem + 4), Peek(m1, elem))
  }

  function Without<T>(xs: seq<T>, k: nat): seq<T>
    requires k < |xs|
  {
    xs[..k] + xs[k + 1..]
  }

  function With<T>(xs: seq<T>, k: nat, x: T): seq<T>
    requires k <= |xs|
  {
    xs[..k] + [x] + xs[k..]
  }

  /** `e` is a whole element apart from every node. */
  predicate ApartFrom(nodes: seq<int>, e: int) {
    forall i {:trigger Sep(nodes[i], e)} :: 0 <= i < |nodes| ==> Sep(nodes[i], e)
  }

  lemma InitializedIsEmpty(m: Words, list: Elem)
    ensures IsList(Initialized(m, list), list, [])
  {
    assert Nodes(list, []) == [list, list + 8];
  }

  /** The nodes around position k point at each other. */
  lemma Neighbours(m: Words, nodes: seq<int>, k: nat)
    requires Linked(m, nodes) && k + 1 < |nodes|
    ensures Joined(m, nodes[k], nodes[k + 1])
  {
  }

  /** Memory after elem has been put between the joined nodes a and b. */
  lemma InsertedBetween(m: Words, a: int, b: int, elem: Elem)
    requires Joined(m, a, b) && Sep(a, b) && Sep(a, elem) && Sep(b, elem)
    requires 0 <= a < MEMORY_SIZE - 8 && 0 <= b < MEMORY_SIZE - 8
    ensures var m' := InsertedBefore(m, b, elem);
            && Joined(m', a, elem) && Joined(m', elem, b)
            && (forall x :: x != a + 4 && x != elem && x != elem + 4 && x != b ==> Peek(m', x) == Peek(m, x))
  {
  }

  lemma ApartWith(nodes: seq<int>, k: nat, e: int)
    requires Apart(nodes) && k <= |nodes| && ApartFrom(nodes, e)
    ensures Apart(With(nodes, k, e))
  {
    var w := With(nodes, k, e);
    forall i, j | 0 <= i < |w| && 0 <= j < |w| && i != j ensures Sep(w[i], w[j]) {
      var i', j' := if i < k then i else i - 1, if j < k then j else j - 1;
      if i == k {
        assert Sep(nodes[j'], e);
      } else if j == k {
        assert Sep(nodes[i'], e);
      } else {
        assert Sep(nodes[i'], nodes[j']);
      }
    }
  }

  /** Inserting before node k + 1 puts the element at position k. */
  lemma InsertedIsList(m: Words, list: Elem, xs: seq<Elem>, k: nat, elem: Elem)
    requires IsList(m, list, xs) && k <= |xs| && ApartFrom(Nodes(list, xs), elem)
    ensures IsList(InsertedBefore(m, Nodes(list, xs)[k + 1], elem), list, With(xs, k, elem))
    ensures OnlyElems(m, InsertedBefore(m, Nodes(list, xs)[k + 1], elem), Nodes(list, xs) + [elem])
  {
    hide InsertedBefore, Peek, Joined, Sep;
    var nodes, nodes' := Nodes(list, xs), Nodes(list, With(xs, k, elem));
    var a, b := nodes[k], nodes[k + 1];
    var m' := InsertedBefore(m, b, elem);
    assert nodes' == With(nodes, k + 1, elem);
    ApartWith(nodes, k + 1, elem);
    Neighbours(m, nodes, k);
    assert Sep(nodes[k], nodes[k + 1]) && Sep(nodes[k], elem) && Sep(nodes[k + 1], elem);
    InsertedBetween(m, a, b, elem);
    forall i | 0 <= i < |nodes'| - 1 ensures Joined(m', nodes'[i], nodes'[i + 1]) {
      if i < k || i > k + 1 {
        var j := if i < k then i else i - 1;
        assert nodes'[i] == nodes[j] && nodes'[i + 1] == nodes[j + 1];
        Neighbours(m, nodes, j);
        assert Sep(nodes[j], elem) && Sep(nodes[j + 1], elem) && Sep(nodes[j], nodes[k])
            && Sep(nodes[j + 1], nodes[k + 1]);
        assert j != k + 1 ==> Sep(nodes[j], nodes[k + 1]);
        assert j + 1 != k ==> Sep(nodes[j + 1], nodes[k]);
        StillJoined(m, m', nodes[j], nodes[j + 1], a, b, elem);
      }
    }
    OnlyThree(m, m', nodes + [elem], k, k + 1, |nodes|);
  }

  lemma StillJoined(m: Words, m': Words, c: int, d: int, a: int, b: int, elem: int)
    requires Joined(m, c, d) && Sep(c, elem) && Sep(d, elem) && Sep(c, a) && Sep(d, b)
    requires Sep(c, b) || c == b
    requires Sep(d, a) || d == a
    requires forall x :: x != a + 4 && x != elem && x != elem + 4 && x != b ==> Peek(m', x) == Peek(m, x)
    ensures Joined(m', c, d)
  {
  }

  lemma OnlyThree(m: Words, m': Words, nodes: seq<int>, i: nat, j: nat, k: nat)
    requires i < |nodes| && j < |nodes| && k < |nodes|
    requires forall x :: x != nodes[i] + 4 && x != nodes[k] && x != nodes[k] + 4 && x != nodes[j] ==>
             Peek(m', x) == Peek(m, x)
    ensures OnlyElems(m, m', nodes)
  {
  }

  /** Node i + 1 is element i, and only the last node is the tail. */
  lemma NodesShape(list: Elem, xs: seq<Elem>)
    requires Apart(Nodes(list, xs))
    ensures Nodes(list, xs)[0] == list && Nodes(list, xs)[|xs| + 1] == list + 8
    ensures forall i :: 0 <= i < |xs| ==> Nodes(list, xs)[i + 1] == xs[i] && xs[i] != list + 8
  {
    var nodes := Nodes(list, xs);
    forall i | 0 <= i < |xs| ensures nodes[i + 1] == xs[i] && xs[i] != list + 8 {
      assert Sep(nodes[i + 1], nodes[|xs| + 1]);
    }
  }

  /** Memory after node b between the joined nodes a, b, c has been taken out. */
  lemma RemovedBetween(m: Words, a: int, b: Elem, c: int)
    requires Joined(m, a, b) && Joined(m, b, c) && Sep(a, b) && Sep(b, c) && Sep(a, c)
    requires 0 <= a < MEMORY_SIZE - 8 && 0 <= c < MEMORY_SIZE - 8
    ensures var m' := Removed(m, b);
            && Joined(m', a, c) && (forall x :: x != a + 4 && x != c ==> Peek(m', x) == Peek(m, x))
  {
  }

  lemma ApartWithout(nodes: seq<int>, k: nat)
    requires Apart(nodes) && k < |nodes|
    ensures Apart(Without(nodes, k))
  {
    var w := Without(nodes, k);
    forall i, j | 0 <= i < |w| && 0 <= j < |w| && i != j ensures Sep(w[i], w[j]) {
      var i', j' := if i < k then i else i + 1, if j < k then j else j + 1;
      assert Sep(nodes[i'], nodes[j']);
    }
  }

  /** Removing the element at position k. */
  lemma RemovedIsList(m: Words, list: Elem, xs: seq<Elem>, k: nat)
    requires IsList(m, list, xs) && k < |xs|
    ensures IsList(Removed(m, xs[k]), list, Without(xs, k)) && OnlyElems(m, Removed(m, xs[k]), Nodes(list, xs))
  {
    hide Removed, Peek, Joined, Sep;
    var nodes, nodes' := Nodes(list, xs), Nodes(list, Without(xs, k));
    assert nodes' == Without(nodes, k + 1);
    ApartWithout(nodes, k + 1);
    var a, b, c := nodes[k], nodes[k + 1], nodes[k + 2];
    assert b == xs[k];
    var m' := Removed(m, b);
    Neighbours(m, nodes, k);
    Neighbours(m, nodes, k + 1);
    assert Sep(nodes[k], nodes[k + 1]) && Sep(nodes[k + 1], nodes[k + 2]) && Sep(nodes[k], nodes[k + 2]);
    RemovedBetween(m, a, b, c);
    forall i | 0 <= i < |nodes'| - 1 ensures Joined(m', nodes'[i], nodes'[i + 1]) {
      if i != k {
        var j := if i < k then i else i + 1;
        assert nodes'[i] == nodes[j] && nodes'[i + 1] == nodes[j + 1];
        Neighbours(m, nodes, j);
        assert Sep(nodes[j], nodes[k]) && Sep(nodes[j + 1], nodes[k + 2]);
        assert j != k + 2 ==> Sep(nodes[j], nodes[k + 2]);
        assert j + 1 != k ==> Sep(nodes[j + 1], nodes[k]);
        StillJoinedToo(m, m', nodes[j], nodes[j + 1], a, c);
      }
    }
    OnlyThree(m, m', nodes, k, k + 2, k);
  }

  lemma StillJoinedToo(m: Words, m': Words, c: int, d: int, a: int, b: int)
    requires Joined(m, c, d) && Sep(c, a) && Sep(d, b)
    requires Sep(c, b) || c == b
    requires Sep(d, a) || d == a
    requires forall x :: x != a + 4 && x != b ==> Peek(m', x) == Peek(m, x)
    ensures Joined(m', c, d)
  {
  }

  /** Memory differs at most in the words of the given elements. */
  ghost predicate OnlyElems(m: Words, m': Words, nodes: seq<int>) {
    forall a :: (forall i :: 0 <= i < |nodes| ==> a != nodes[i] && a != nodes[i] + 4) ==> Peek(m', a) == Peek(m, a)
  }

  /** A list none of whose words change is still that list. */
  lemma UntouchedList(m: Words, m': Words, list: Elem, xs: seq<Elem>)
    requires IsList(m, list, xs)
    requires forall i :: 0 <= i < |xs| + 2 ==>
               var n := Nodes(list, xs)[i]; Peek(m', n) == Peek(m, n) && Peek(m', n + 4) == Peek(m, n + 4)
    ensures IsList(m', list, xs)
  {
    hide Peek;
    var nodes := Nodes(list, xs);
    forall i | 0 <= i < |nodes| - 1 ensures Joined(m', nodes[i], nodes[i + 1]) {
      Neighbours(m, nodes, i);
    }
  }

  // ---------- the functions of list.c ----------

  class Memory {
    var words: Words

    constructor (m: Words)
      ensures words == m
    {
      words := m;
    }

    method ListInit(list: Elem)
      modifies this
      ensures words == Initialized(old(words), list) && IsList(words, list, [])
    {
      InitializedIsEmpty(words, list);
      words := words[list := 0];
      words := words[list + 4 := list + 8];
      words := words[list + 8 := list];
      words := words[list + 12 := 0];
    }

    /** Before node k + 1 of the list that holds xs. */
    method ListInsertBefore(before: int, elem: Elem, ghost list: Elem, ghost xs: seq<Elem>, ghost k: nat)
      requires IsList(words, list, xs) && k <= |xs| && ApartFrom(Nodes(list, xs), elem)
               && before == Nodes(list, xs)[k + 1]
      modifies this
      ensures words == InsertedBefore(old(words), before, elem)
      ensures IsList(words, list, With(xs, k, elem)) && OnlyElems(old(words), words, Nodes(list, xs) + [elem])
    {
      InsertedIsList(words, list, xs, k, elem);
      ghost var nodes := Nodes(list, xs);
      Neighbours(words, nodes, k);
      hide IsList, OnlyElems, ApartFrom;
      words := words[words[before] + 4 := elem];
      words := words[elem := words[before]];
      words := words[elem + 4 := before];
      words := words[before := elem];
    }

    method ListPush(list: Elem, elem: Elem, ghost xs: seq<Elem>)
      requires IsList(words, list, xs) && ApartFrom(Nodes(list, xs), elem)
      modifies this
      ensures IsList(words, list, [elem] + xs) && OnlyElems(old(words), words, Nodes(list, xs) + [elem])
    {
      NodesShape(list, xs);
      Neighbours(words, Nodes(list, xs), 0);
      assert With(xs, 0, elem) == [elem] + xs;
      ListInsertBefore(words[list + 4], elem, list, xs, 0);
    }

    method ListAppend(list: Elem, elem: Elem, ghost xs: seq<Elem>)
      requires IsList(words, list, xs) && ApartFrom(Nodes(list, xs), elem)
      modifies this
      ensures IsList(words, list, xs + [elem]) && OnlyElems(old(words), words, Nodes(list, xs) + [elem])
    {
      assert With(xs, |xs|, elem) == xs + [elem];
      ListInsertBefore(list + 8, elem, list, xs, |xs|);
    }

    method ListRemove(elem: Elem, ghost list: Elem, ghost xs: seq<Elem>, ghost k: nat)
      requires IsList(words, list, xs) && k < |xs| && elem == xs[k]
      modifies this
      ensures IsList(words, list, Without(xs, k)) && OnlyElems(old(words), words, Nodes(list, xs))
    {
      RemovedIsList(words, list, xs, k);
      ghost var nodes := Nodes(list, xs);
      Neighbours(words, nodes, k);
      Neighbours(words, nodes, k + 1);
      assert nodes[k + 1] == xs[k] && Sep(nodes[k], nodes[k + 1]) && Sep(nodes[k + 1], nodes[k + 2]);
      hide IsList, OnlyElems;
      words := words[words[elem] + 4 := words[elem + 4]];
      words := words[words[elem + 4] := words[elem]];
    }

    method ListPop(list: Elem, ghost xs: seq<Elem>) returns (top: Elem)
      requires IsList(words, list, xs) && xs != []
      modifies this
      ensures top == xs[0] && IsList(words, list, xs[1..]) && OnlyElems(old(words), words, Nodes(list, xs))
    {
      NodesShape(list, xs);
      Neighbours(words, Nodes(list, xs), 0);
      assert Without(xs, 0) == xs[1..];
      top := words[list + 4];
      ListRemove(top, list, xs, 0);
    }

    method ListEmpty(list: Elem, ghost xs: seq<Elem>) returns (empty: bool)
      requires IsList(words, list, xs)
      ensures empty <==> xs == []
    {
      ghost var nodes := Nodes(list, xs);
      NodesShape(list, xs);
      Neighbours(words, nodes, 0);
      empty := words[list + 4] == list + 8;
    }

    method ListLen(list: Elem, ghost xs: seq<Elem>) returns (len: nat)
      requires IsList(words, list, xs)
      ensures len == |xs|
    {
      ghost var nodes := Nodes(list, xs);
      NodesShape(list, xs);
      Neighbours(words, nodes, 0);
      len := 0;
      var point: int := words[list + 4];
      while point != list + 8
        invariant 0 <= len <= |xs| && point == nodes[len + 1]
        decreases |xs| - len
      {
        Neighbours(words, nodes, len + 1);
        len := len + 1;
        point := words[point + 4];
      }
    }

    /** The first element for which `func` answers true, if any. */
    method ListTraversal(list: Elem, func: int -> bool, ghost xs: seq<Elem>) returns (found: bool, point: int)
      requires IsList(words, list, xs)
      ensures found <==> exists i :: 0 <= i < |xs| && func(xs[i])
      ensures found ==> exists i ::
              && 0 <= i < |xs| && point == xs[i] && func(xs[i])
              && forall j :: 0 <= j < i ==> !func(xs[j])
    {
      ghost var nodes := Nodes(list, xs);
      NodesShape(list, xs);
      Neighbours(words, nodes, 0);
      point := words[list + 4];
      ghost var i := 0;
      while point != list + 8
        invariant 0 <= i <= |xs| && point == nodes[i + 1]
        invariant forall j :: 0 <= j < i ==> !func(xs[j])
        decreases |xs| - i
      {
        Neighbours(words, nodes, i + 1);
        if func(point) {
          return true, point;
        }
        point := words[point + 4];
        i := i + 1;
      }
      found := false;
    }

    method ElemFind(list: Elem, elem: Elem, ghost xs: seq<Elem>) returns (found: bool)
      requires IsList(words, list, xs)
      ensures found <==> elem in xs
    {
      var point: int;
      found, point := ListTraversal(list, x => x == elem, xs);
    }
  }
}
