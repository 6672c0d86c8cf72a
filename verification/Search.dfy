/** Node lists, and the searches for elements that fill them. */
module Search {
  import opened Bytes
  import opened Nodes
  import opened NodeOps
  import opened FreeOrder
  import opened Freeing

  const STAR: bytes := [0x2A]

  /** A cell of a node list. */
  class NodeList {
    var nodeItem: Node?
    var next: NodeList?

    constructor (item: Node?)
      ensures nodeItem == item && next == null
    {
      nodeItem, next := item, null;
    }
  }

  ghost function Cell(cells: seq<NodeList>, i: nat): NodeList? {
    if i < |cells| then cells[i] else null
  }

  ghost predicate CellsLinked(cells: seq<NodeList>)
    reads cells
  {
    forall i | 0 <= i < |cells| :: cells[i].next == Cell(cells, i + 1)
  }

  /** A list holds `s`: in as many cells, or, when there is nothing to hold, in none or in one without an item. */
  ghost predicate Lists(cells: seq<NodeList>, s: seq<Node>)
    reads cells
  {
    && CellsLinked(cells)
    && if s == [] then cells == [] || (|cells| == 1 && cells[0].nodeItem == null)
       else |cells| == |s| && forall i | 0 <= i < |s| :: cells[i].nodeItem == s[i]
  }

  method LastCell(list: NodeList, ghost cells: seq<NodeList>) returns (p: NodeList)
    requires Cell(cells, 0) == list && CellsLinked(cells)
    ensures p == cells[|cells| - 1]
  {
    p := list;
    var traverse: NodeList? := list;
    ghost var i := 0;
    while traverse != null
      invariant i <= |cells| && traverse == Cell(cells, i) && (i > 0 ==> p == cells[i - 1])
      invariant i == 0 ==> traverse != null
      decreases |cells| - i
    {
      p := traverse;
      traverse := traverse.next;
      i := i + 1;
    }
  }

  /** Appends a node, by walking to the last cell. */
  method AddToNodeList(nList: NodeList?, add: Node, ghost cells: seq<NodeList>, ghost s: seq<Node>)
    returns (list: NodeList, ghost cells': seq<NodeList>)
    requires nList == Cell(cells, 0) && Lists(cells, s)
    modifies cells
    ensures list == Cell(cells', 0) && Lists(cells', s + [add])
    ensures forall i | 0 <= i < |cells'| :: cells'[i] in cells || fresh(cells'[i])
  {
    cells' := cells;
    if nList == null {
      list := new NodeList(null);
      cells' := [list];
    } else {
      list := nList;
    }
    if list.nodeItem == null {
      list.nodeItem := add;
    } else {
      var p := LastCell(list, cells');
      var item := new NodeList(add);
      p.next := item;
      cells' := cells' + [item];
    }
  }

  method Length(nList: NodeList?, ghost cells: seq<NodeList>) returns (n: nat)
    requires nList == Cell(cells, 0) && CellsLinked(cells)
    ensures n == |cells|
  {
    n := 0;
    var list := nList;
    while list != null
      invariant n <= |cells| && list == Cell(cells, n)
      decreases |cells| - n
    {
      n := n + 1;
      list := list.next;
    }
  }

  method Item(nList: NodeList?, index: nat, ghost cells: seq<NodeList>, ghost s: seq<Node>) returns (item: Node?)
    requires nList == Cell(cells, 0) && Lists(cells, s)
    ensures item == if index < |s| then s[index] else null
  {
    if nList == null {
      return null;
    }
    var n := Length(nList, cells);
    if index > n - 1 {
      return null;
    }
    var next: NodeList? := nList;
    var i := 0;
    while i < index && next != null
      invariant i <= index && next == Cell(cells, i)
    {
      next := next.next;
      i := i + 1;
    }
    if next == null {
      return null;
    }
    return next.nodeItem;
  }

  // ----- by tag name

  ghost predicate Matches(f: Forest, x: Node, tagname: bytes)
    requires x in f
  {
    f[x].lab.typ == ElementNode && (tagname == f[x].lab.name || tagname == STAR)
  }

  ghost predicate AllIn(f: Forest, s: seq<Node>) {
    forall i | 0 <= i < |s| :: s[i] in f
  }

  /** The matching nodes, in the order of `s`. */
  ghost function Select(f: Forest, s: seq<Node>, tagname: bytes): seq<Node>
    requires AllIn(f, s)
  {
    if s == [] then []
    else
      assert AllIn(f, s[1..]);
      (if Matches(f, s[0], tagname) then [s[0]] else []) + Select(f, s[1..], tagname)
  }

  lemma {:induction false} SelectConcat(f: Forest, a: seq<Node>, b: seq<Node>, tagname: bytes)
    requires AllIn(f, a) && AllIn(f, b)
    ensures AllIn(f, a + b) && Select(f, a + b, tagname) == Select(f, a, tagname) + Select(f, b, tagname)
  {
    hide Select, Here;
    assert AllIn(f, a + b);
    if a == [] {
      SelectNone(f, tagname);
      ConcatNone(b);
      ConcatNone(Select(f, b, tagname));
    } else {
      SelectOne(f, a, tagname);
      SelectOne(f, a + b, tagname);
      ConcatFirst(a, b);
      SelectConcat(f, a[1..], b, tagname);
      Assoc(Here(f, a[0], tagname), Select(f, a[1..], tagname), Select(f, b, tagname));
    }
  }

  lemma SelectNone(f: Forest, tagname: bytes)
    ensures Select(f, [], tagname) == []
  {
  }

  lemma SelectOne(f: Forest, s: seq<Node>, tagname: bytes)
    requires AllIn(f, s) && s != []
    ensures AllIn(f, s[1..]) && Select(f, s, tagname) == Here(f, s[0], tagname) + Select(f, s[1..], tagname)
  {
    hide Matches;
  }

  /** Every node of a chain of trees is in the forest. */
  lemma ChainIn(f: Forest, a: Node?, ts: seq<Rose>)
    requires WF(f) && Chain(f, a, ts)
    ensures AllIn(f, Preorder(ts))
  {
    forall i | 0 <= i < |Preorder(ts)| ensures Preorder(ts)[i] in f {
      var x := Preorder(ts)[i];
      InPreorder(ts, x);
      var k :| 0 <= k < |ts| && Has(ts[k], x);
      assert ChainAt(f, ts, k);
      HasInForest(f, ts[k].node, x);
    }
  }

  ghost function Found(f: Forest, a: Node?, ts: seq<Rose>, tagname: bytes): seq<Node>
    requires WF(f) && Chain(f, a, ts)
  {
    ChainIn(f, a, ts);
    Select(f, Preorder(ts), tagname)
  }

  ghost function Here(f: Forest, n: Node, tagname: bytes): seq<Node>
    requires n in f
  {
    if Matches(f, n, tagname) then [n] else []
  }

  /** What the recursion finds: the node, then what is below it, then what follows it. */
  lemma FoundStep(f: Forest, a: Node, ts: seq<Rose>, tagname: bytes)
    requires WF(f) && Chain(f, a, ts)
    ensures ts != [] && a in f && ts[0].node == a
    ensures Chain(f, First(f[a].kids), ts[0].kids) && Chain(f, Next(f, a), ts[1..])
    ensures Found(f, a, ts, tagname)
         == Here(f, a, tagname) + Found(f, First(f[a].kids), ts[0].kids, tagname)
           + Found(f, Next(f, a), ts[1..], tagname)
  {
    hide WF, Chain, Next, Select, Preorder, Matches, Here, Has, HasAny, AllIn;
    ChainStep(f, a, ts);
    ChainIn(f, a, ts);
    ChainIn(f, First(f[a].kids), ts[0].kids);
    ChainIn(f, Next(f, a), ts[1..]);
    PreorderFirst(ts);
    SelectThree(f, a, Preorder(ts[0].kids), Preorder(ts[1..]), tagname);
  }

  lemma PreorderFirst(ts: seq<Rose>)
    requires ts != []
    ensures Preorder(ts) == [ts[0].node] + (Preorder(ts[0].kids) + Preorder(ts[1..]))
  {
    PreorderOnce(ts);
    hide Preorder;
    Assoc([ts[0].node], Preorder(ts[0].kids), Preorder(ts[1..]));
  }

  lemma PreorderOnce(ts: seq<Rose>)
    requires ts != []
    ensures Preorder(ts) == [ts[0].node] + Preorder(ts[0].kids) + Preorder(ts[1..])
  {
  }

  lemma SelectThree(f: Forest, a: Node, k: seq<Node>, r: seq<Node>, tagname: bytes)
    requires a in f && AllIn(f, k) && AllIn(f, r)
    ensures AllIn(f, [a] + (k + r))
    ensures Select(f, [a] + (k + r), tagname) == Here(f, a, tagname) + Select(f, k, tagname) + Select(f, r, tagname)
  {
    hide Select, Here;
    SelectConcat(f, k, r, tagname);
    SelectFirst(f, a, k + r, tagname);
    Assoc(Here(f, a, tagname), Select(f, k, tagname), Select(f, r, tagname));
  }

  lemma SelectFirst(f: Forest, a: Node, s: seq<Node>, tagname: bytes)
    requires a in f && AllIn(f, s)
    ensures AllIn(f, [a] + s) && Select(f, [a] + s, tagname) == Here(f, a, tagname) + Select(f, s, tagname)
  {
    hide Select, Here;
    assert ([a] + s)[1..] == s;
    SelectOne(f, [a] + s, tagname);
  }

  lemma FoundNothing(f: Forest, ts: seq<Rose>, tagname: bytes)
    requires WF(f) && Chain(f, null, ts)
    ensures Found(f, null, ts, tagname) == []
  {
    ChainEmpty(f, ts);
  }

  /** Adds the node if it matches. */
  method AddIfMatch(n: Node, tagname: bytes, nList: NodeList?, ghost f: Forest, ghost cells: seq<NodeList>,
                    ghost s: seq<Node>)
    returns (list: NodeList?, ghost cells': seq<NodeList>)
    requires Holds(f) && n in f && nList == Cell(cells, 0) && Lists(cells, s)
    modifies cells
    ensures list == Cell(cells', 0) && Lists(cells', s + Here(f, n, tagname))
    ensures forall i | 0 <= i < |cells'| :: cells'[i] in cells || fresh(cells'[i])
  {
    hide WF, Rep, Lists, CellsLinked, Next, Prev;
    Fields(f, n);
    ConcatNone(s);
    list, cells' := nList, cells;
    if n.nodeType == ElementNode {
      var name := n.nodeName;
      if tagname == name || tagname == STAR {
        list, cells' := AddToNodeList(nList, n, cells, s);
      }
    }
  }

  method GetElementsByTagNameRecursive(n: Node?, tagname: bytes, nList: NodeList?,
                                       ghost f: Forest, ghost ts: seq<Rose>, ghost cells: seq<NodeList>,
                                       ghost s: seq<Node>)
    returns (list: NodeList?, ghost cells': seq<NodeList>)
    requires Holds(f) && Chain(f, n, ts) && nList == Cell(cells, 0) && Lists(cells, s)
    modifies cells
    ensures list == Cell(cells', 0) && Lists(cells', s + Found(f, n, ts, tagname))
    ensures forall i | 0 <= i < |cells'| :: cells'[i] in cells || fresh(cells'[i])
    decreases ts
  {
    hide WF, Rep, Chain, Found, Lists, Next, Here;
    list, cells' := nList, cells;
    if n == null {
      FoundNothing(f, ts, tagname);
      assert s + [] == s;
      return;
    }
    FoundStep(f, n, ts, tagname);
    Fields(f, n);
    list, cells' := AddIfMatch(n, tagname, list, f, cells, s);
    var s1 := s + Here(f, n, tagname);
    list, cells' := GetElementsByTagNameRecursive(n.firstChild, tagname, list, f, ts[0].kids, cells', s1);
    var s2 := s1 + Found(f, First(f[n].kids), ts[0].kids, tagname);
    list, cells' := GetElementsByTagNameRecursive(n.nextSibling, tagname, list, f, ts[1..], cells', s2);
    assert s2 + Found(f, Next(f, n), ts[1..], tagname) == s + Found(f, n, ts, tagname);
  }

  /** The matching nodes of the tree of `n`, in document order. */
  ghost function Selected(f: Forest, n: Node, tagname: bytes): seq<Node>
    requires WF(f) && n in f
  {
    TreeIn(f, n);
    Select(f, Preorder([f[n].tree]), tagname)
  }

  lemma TreeIn(f: Forest, n: Node)
    requires WF(f) && n in f
    ensures AllIn(f, Preorder([f[n].tree]))
  {
    forall i | 0 <= i < |Preorder([f[n].tree])| ensures Preorder([f[n].tree])[i] in f {
      var x := Preorder([f[n].tree])[i];
      InPreorder([f[n].tree], x);
      Edits.HasOne(f[n].tree, x);
      HasInForest(f, n, x);
    }
  }

  lemma SelectedStep(f: Forest, n: Node, tagname: bytes)
    requires WF(f) && n in f
    ensures Chain(f, First(f[n].kids), f[n].tree.kids)
    ensures Selected(f, n, tagname) == Here(f, n, tagname) + Found(f, First(f[n].kids), f[n].tree.kids, tagname)
  {
    ChainKids(f, n);
    ChainIn(f, First(f[n].kids), f[n].tree.kids);
    Ok(f, n);
    PreorderOne(f[n].tree);
    SelectConcat(f, [n], Preorder(f[n].tree.kids), tagname);
    assert Select(f, [n], tagname) == Here(f, n, tagname) by { assert [n][1..] == []; }
  }

  /** Appends the matching elements of the tree of `n` in document order; the siblings of `n` are not visited. */
  method GetElementsByTagName(n: Node, tagname: bytes, nList: NodeList?,
                              ghost f: Forest, ghost cells: seq<NodeList>, ghost s: seq<Node>)
    returns (list: NodeList?, ghost cells': seq<NodeList>)
    requires Holds(f) && n in f && nList == Cell(cells, 0) && Lists(cells, s)
    modifies cells
    ensures list == Cell(cells', 0) && Lists(cells', s + Selected(f, n, tagname))
    ensures forall i | 0 <= i < |cells'| :: cells'[i] in cells || fresh(cells'[i])
  {
    hide WF, Rep, Chain, Found, Lists, Next, Here, Selected;
    SelectedStep(f, n, tagname);
    Fields(f, n);
    list, cells' := AddIfMatch(n, tagname, nList, f, cells, s);
    var s1 := s + Here(f, n, tagname);
    list, cells' := GetElementsByTagNameRecursive(n.firstChild, tagname, list, f, f[n].tree.kids, cells', s1);
    assert s1 + Found(f, First(f[n].kids), f[n].tree.kids, tagname) == s + Selected(f, n, tagname);
  }

  // ----- what the list holds

  lemma {:induction false} InSelect(f: Forest, s: seq<Node>, tagname: bytes, x: Node)
    requires AllIn(f, s)
    ensures x in Select(f, s, tagname) <==> x in s && Matches(f, x, tagname)
  {
    if s != [] {
      assert AllIn(f, s[1..]);
      InSelect(f, s[1..], tagname, x);
      assert s == [s[0]] + s[1..];
    }
  }

  lemma {:induction false} SelectNoDup(f: Forest, s: seq<Node>, tagname: bytes)
    requires AllIn(f, s) && NoDup(s)
    ensures NoDup(Select(f, s, tagname))
  {
    if s != [] {
      assert AllIn(f, s[1..]);
      assert s == [s[0]] + s[1..];
      NoDupParts([s[0]], s[1..]);
      SelectNoDup(f, s[1..], tagname);
      forall x | x in Select(f, s[1..], tagname) ensures x != s[0] {
        InSelect(f, s[1..], tagname, x);
      }
      NoDupConcat(if Matches(f, s[0], tagname) then [s[0]] else [], Select(f, s[1..], tagname));
    }
  }

  /** The search finds exactly the matching elements of the tree, each once. */
  lemma SelectedExactly(f: Forest, n: Node, tagname: bytes)
    requires WF(f) && n in f
    ensures NoDup(Selected(f, n, tagname))
    ensures forall x :: x in Selected(f, n, tagname) <==> Has(f[n].tree, x) && x in f && Matches(f, x, tagname)
  {
    var s := Preorder([f[n].tree]);
    TreeIn(f, n);
    TreeNoDup(f, n);
    SelectNoDup(f, s, tagname);
    forall x ensures x in Selected(f, n, tagname) <==> Has(f[n].tree, x) && x in f && Matches(f, x, tagname) {
      InSelect(f, s, tagname, x);
      InPreorder([f[n].tree], x);
      Edits.HasOne(f[n].tree, x);
    }
  }

  // ----- the first element of a name

  ghost function FirstNamed(f: Forest, s: seq<Node>, name: bytes): Node?
    requires AllIn(f, s)
  {
    if s == [] then null
    else if f[s[0]].lab.typ == ElementNode && f[s[0]].lab.name == name then s[0]
    else assert AllIn(f, s[1..]); FirstNamed(f, s[1..], name)
  }

  lemma {:induction false} FirstNamedConcat(f: Forest, a: seq<Node>, b: seq<Node>, name: bytes)
    requires AllIn(f, a) && AllIn(f, b)
    ensures AllIn(f, a + b)
    ensures FirstNamed(f, a + b, name)
         == if FirstNamed(f, a, name) != null then FirstNamed(f, a, name) else FirstNamed(f, b, name)
  {
    if a == [] {
      assert a + b == b;
    } else {
      assert AllIn(f, a[1..]);
      FirstNamedConcat(f, a[1..], b, name);
      assert (a + b)[1..] == a[1..] + b;
    }
  }

  ghost function ById(f: Forest, a: Node?, ts: seq<Rose>, name: bytes): Node?
    requires WF(f) && Chain(f, a, ts)
  {
    ChainIn(f, a, ts);
    FirstNamed(f, Preorder(ts), name)
  }

  lemma ByIdStep(f: Forest, a: Node, ts: seq<Rose>, name: bytes)
    requires WF(f) && Chain(f, a, ts)
    ensures ts != [] && a in f && ts[0].node == a
    ensures Chain(f, First(f[a].kids), ts[0].kids) && Chain(f, Next(f, a), ts[1..])
    ensures ById(f, a, ts, name)
         == if f[a].lab.typ == ElementNode && f[a].lab.name == name then a
            else
              var k := ById(f, First(f[a].kids), ts[0].kids, name);
              if k != null then k else ById(f, Next(f, a), ts[1..], name)
  {
    hide WF, Chain, Next;
    ChainStep(f, a, ts);
    ChainIn(f, a, ts);
    var k, r := Preorder(ts[0].kids), Preorder(ts[1..]);
    ChainIn(f, First(f[a].kids), ts[0].kids);
    ChainIn(f, Next(f, a), ts[1..]);
    assert Preorder(ts) == [a] + (k + r) && Preorder(ts)[1..] == k + r;
    FirstNamedConcat(f, k, r, name);
  }

  lemma ByIdNothing(f: Forest, ts: seq<Rose>, name: bytes)
    requires WF(f) && Chain(f, null, ts)
    ensures ById(f, null, ts, name) == null
  {
    ChainEmpty(f, ts);
  }

  /** The first element of the name at or below the node, or else at or below the siblings after it. */
  method GetElementById(nodeptr: Node?, tagName: bytes, ghost f: Forest, ghost ts: seq<Rose>) returns (found: Node?)
    requires Holds(f) && Chain(f, nodeptr, ts)
    ensures found == ById(f, nodeptr, ts, tagName)
    decreases ts
  {
    hide WF, Rep, Chain, ById, Next;
    if nodeptr == null {
      ByIdNothing(f, ts, tagName);
      return null;
    }
    ByIdStep(f, nodeptr, ts, tagName);
    Fields(f, nodeptr);
    if nodeptr.nodeType == ElementNode {
      if tagName == nodeptr.nodeName {
        return nodeptr;
      }
      found := GetElementById(nodeptr.firstChild, tagName, f, ts[0].kids);
      if found == null {
        found := GetElementById(nodeptr.nextSibling, tagName, f, ts[1..]);
      }
    } else {
      found := GetElementById(nodeptr.firstChild, tagName, f, ts[0].kids);
      if found == null {
        found := GetElementById(nodeptr.nextSibling, tagName, f, ts[1..]);
      }
    }
  }

  lemma {:induction false} FirstOfSelect(f: Forest, s: seq<Node>, name: bytes)
    requires AllIn(f, s)
    ensures name != STAR ==> FirstNamed(f, s, name) == First(Select(f, s, name))
  {
    if s != [] {
      assert AllIn(f, s[1..]);
      FirstOfSelect(f, s[1..], name);
    }
  }

  lemma {:induction false} FirstNamedIn(f: Forest, s: seq<Node>, name: bytes)
    requires AllIn(f, s)
    ensures var x := FirstNamed(f, s, name);
            x != null ==> x in s && f[x].lab.typ == ElementNode && f[x].lab.name == name
    ensures First(Select(f, s, STAR)) == null ==> FirstNamed(f, s, name) == null
    ensures var h := First(Select(f, s, STAR));
            h != null && h in f && f[h].lab.name == name ==> FirstNamed(f, s, name) == h
  {
    if s != [] {
      assert AllIn(f, s[1..]);
      FirstNamedIn(f, s[1..], name);
    }
  }

  /**
   On a node without a next sibling, such as a document, the result is the head of the list for the same name;
   for "*" only if there is no element, or the first one really has that name.
   */
  lemma ByIdIsHead(f: Forest, n: Node, name: bytes)
    requires WF(f) && n in f && Next(f, n) == null
    ensures Chain(f, n, [f[n].tree])
    ensures ById(f, n, [f[n].tree], name) == First(Selected(f, n, name)) <==>
              || name != STAR || Selected(f, n, STAR) == []
              || (Selected(f, n, STAR)[0] in f && f[Selected(f, n, STAR)[0]].lab.name == STAR)
  {
    ChainFrom(f, n);
    GoRight(f, n);
    TreeIn(f, n);
    var s := Preorder([f[n].tree]);
    FirstOfSelect(f, s, name);
    FirstNamedIn(f, s, name);
  }
}
