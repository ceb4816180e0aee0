/** The nodes a shell keeps over its sorted list, and the search through them. */
module Shell {
  import opened IndexOrder
  import opened IndexRun

  const NODE_LEVEL := 10
  const OUTPOINT := 9
  const RESTRUCT := 9
  const RSTRUCT_THRESH := 10
  const OUTPOINT_THRESH := 6 * (NODE_LEVEL * OUTPOINT)
  /** The end of the node list. */
  const TAIL := -1

  /** A node: the place of its link in the list, and on each level another node or the end. */
  datatype Node = Node(here: int, level: seq<int>)

  /** The link of node j on level i. */
  predicate LevelOk(nodes: seq<Node>, j: int, i: int)
    requires 0 <= j < |nodes| && |nodes[j].level| == NODE_LEVEL && 0 <= i < NODE_LEVEL
  {
    nodes[j].level[i] == TAIL || j < nodes[j].level[i] < |nodes|
  }

  /** The nodes stand in order over a list of n links, the first over the first link, and levels lead forward. */
  ghost predicate Over(nodes: seq<Node>, n: int) {
    && (nodes != [] ==> nodes[0].here == 0)
    && (forall j :: 0 <= j < |nodes| ==> 0 <= nodes[j].here < n && |nodes[j].level| == NODE_LEVEL)
    && (forall j, k :: 0 <= j < k < |nodes| ==> nodes[j].here < nodes[k].here)
    && forall j, i :: 0 <= j < |nodes| && 0 <= i < NODE_LEVEL ==> LevelOk(nodes, j, i)
  }

  function NoLevels(): (l: seq<int>)
    ensures |l| == NODE_LEVEL
  {
    seq(NODE_LEVEL, i => TAIL)
  }

  /** A link put into the list at place p moves the later ones, and the nodes with them. */
  function Shifted(nodes: seq<Node>, p: int): (s: seq<Node>)
    ensures |s| == |nodes|
  {
    seq(|nodes|, j requires 0 <= j < |nodes| =>
      if nodes[j].here >= p then nodes[j].(here := nodes[j].here + 1) else nodes[j])
  }

  lemma ShiftedOver(nodes: seq<Node>, n: int, p: int)
    requires Over(nodes, n) && p > 0
    ensures Over(Shifted(nodes, p), n + 1)
  {
    var s := Shifted(nodes, p);
    forall j, i | 0 <= j < |s| && 0 <= i < NODE_LEVEL ensures LevelOk(s, j, i) {
      assert LevelOk(nodes, j, i);
    }
  }

  /** After a link is put into the list every node is over the link it was over, and leads to the nodes it led to. */
  lemma ShiftedSame<T>(nodes: seq<Node>, list: seq<T>, p: int, x: T, j: int)
    requires Over(nodes, |list|) && 0 <= p <= |list| && 0 <= j < |nodes|
    ensures 0 <= Shifted(nodes, p)[j].here <= |list|
    ensures (list[..p] + [x] + list[p..])[Shifted(nodes, p)[j].here] == list[nodes[j].here]
    ensures Shifted(nodes, p)[j].level == nodes[j].level
  {
    if nodes[j].here >= p {
      assert list[p..][nodes[j].here - p] == list[nodes[j].here];
    }
  }

  /** One node over every ninth link, with nothing on the levels. */
  method NewNodes(n: int) returns (nodes: seq<Node>)
    requires n >= RESTRUCT
    ensures Over(nodes, n) && nodes != [] && n <= 9 * |nodes|
    ensures forall j :: 0 <= j < |nodes| ==> nodes[j] == Node(9 * j, NoLevels())
  {
    var lnk := 0;
    nodes := [Node(lnk, NoLevels())];
    while lnk != n
      invariant 0 <= lnk <= n && nodes != [] && lnk != n && lnk == RESTRUCT * (|nodes| - 1)
      invariant forall j :: 0 <= j < |nodes| ==> nodes[j] == Node(RESTRUCT * j, NoLevels()) && nodes[j].here < n
      decreases n - lnk
    {
      var counter := 0;
      ghost var from := lnk;
      while counter < RESTRUCT && lnk != n
        invariant 0 <= counter <= RESTRUCT && lnk == from + counter <= n
      {
        counter, lnk := counter + 1, lnk + 1;
      }
      if lnk == n {
        break;
      }
      nodes := nodes + [Node(lnk, NoLevels())];
    }
  }

  /** The node after node j on a level, the plain list being level -1. */
  function NextOn(nodes: seq<Node>, j: int, i: int): int
    requires 0 <= j < |nodes| && -1 <= i < NODE_LEVEL && |nodes[j].level| == NODE_LEVEL
  {
    if i >= 0 then nodes[j].level[i] else if j + 1 < |nodes| then j + 1 else TAIL
  }

  lemma NextForward(nodes: seq<Node>, n: int, j: int, i: int)
    requires Over(nodes, n) && 0 <= j < |nodes| && -1 <= i < NODE_LEVEL
    ensures NextOn(nodes, j, i) == TAIL || j < NextOn(nodes, j, i) < |nodes|
  {
    if i >= 0 {
      assert LevelOk(nodes, j, i);
    }
  }

  /** Nine steps along a level. */
  method Stride(nodes: seq<Node>, ghost n: int, from: int, i: int) returns (node: int)
    requires Over(nodes, n) && 0 <= from < |nodes| && -1 <= i < NODE_LEVEL
    ensures node == TAIL || from < node < |nodes|
  {
    node := from;
    var counter := 0;
    while counter < RESTRUCT && node != TAIL
      invariant 0 <= counter <= RESTRUCT
      invariant node == TAIL || (from <= node < |nodes| && (counter > 0 ==> from < node))
    {
      NextForward(nodes, n, node, i);
      counter, node := counter + 1, NextOn(nodes, node, i);
    }
  }

  lemma LevelSet(nodes: seq<Node>, n: int, j: int, i: int, k: int)
    requires Over(nodes, n) && 0 <= j < k < |nodes| && 0 <= i < NODE_LEVEL
    ensures Over(nodes[j := nodes[j].(level := nodes[j].level[i := k])], n)
  {
    var s := nodes[j := nodes[j].(level := nodes[j].level[i := k])];
    forall a, b | 0 <= a < |s| && 0 <= b < NODE_LEVEL ensures LevelOk(s, a, b) {
      assert LevelOk(nodes, a, b);
    }
  }

  /** Links on level i + 1 over every ninth node of level i, and how many there are. */
  method BuildLevel(nodes0: seq<Node>, ghost n: int, i: int) returns (nodes: seq<Node>, counted: int)
    requires Over(nodes0, n) && nodes0 != [] && -1 <= i < NODE_LEVEL - 1
    ensures Over(nodes, n) && |nodes| == |nodes0| && forall j :: 0 <= j < |nodes| ==> nodes[j].here == nodes0[j].here
  {
    nodes, counted := nodes0, 0;
    var node, oldLNode := 0, 0;
    while node != TAIL
      invariant |nodes| == |nodes0| && forall j :: 0 <= j < |nodes| ==> nodes[j].here == nodes0[j].here
      invariant Over(nodes, n) && (node == TAIL || 0 <= node == oldLNode < |nodes|)
      decreases if node == TAIL then 0 else |nodes| - node
    {
      node := Stride(nodes, n, node, i);
      if node == TAIL {
        break;
      }
      LevelSet(nodes, n, oldLNode, i + 1, node);
      nodes := nodes[oldLNode := nodes[oldLNode].(level := nodes[oldLNode].level[i + 1 := node])];
      oldLNode, counted := node, counted + 1;
    }
  }

  /** restructureShellNodes: new nodes for a list of n links, and levels over them as long as they are crowded. */
  method Restructure(n: int) returns (nodes: seq<Node>)
    requires n >= 0
    ensures Over(nodes, n) && if n < 9 then nodes == [] else 9 * (|nodes| - 1) < n <= 9 * |nodes|
    ensures forall j :: 0 <= j < |nodes| ==> nodes[j].here == 9 * j
  {
    if n < RESTRUCT {
      return [];
    }
    nodes := NewNodes(n);
    var counted := |nodes|;
    var i := -1;
    while i < NODE_LEVEL - 1
      invariant -1 <= i <= NODE_LEVEL - 1 && Over(nodes, n) && nodes != [] && n <= 9 * |nodes|
      invariant forall j :: 0 <= j < |nodes| ==> nodes[j].here == 9 * j
    {
      if counted > RESTRUCT {
        nodes, counted := BuildLevel(nodes, n, i);
      } else {
        counted := 0;
      }
      i := i + 1;
    }
    assert nodes[|nodes| - 1].here < n;
  }

  /** The links before p are at most the key searched for. */
  ghost predicate Passed<K>(cmp: Compare<K>, list: seq<KeyItem<K>>, x: KeyItem<K>, p: int) {
    p == 0 || (0 < p <= |list| && cmp(x, list[p - 1]) > 0)
  }

  lemma StopsHere<K>(cmp: Compare<K>, list: seq<KeyItem<K>>, x: KeyItem<K>, p: int)
    requires 0 <= p < |list| && cmp(x, list[0]) > 0 && cmp(x, list[p]) < 0
    requires SignsOrdered(cmp, list, x) ==> Passed(cmp, list, x, p)
    ensures p > 0 && Answer(cmp, list, x, p - 1)
  {
  }

  lemma EqualHere<K>(cmp: Compare<K>, list: seq<KeyItem<K>>, x: KeyItem<K>, p: int)
    requires 0 <= p < |list| && cmp(x, list[p]) == 0
    ensures Answer(cmp, list, x, p)
  {
  }

  lemma AboveHere<K>(cmp: Compare<K>, list: seq<KeyItem<K>>, x: KeyItem<K>, p: int)
    requires 0 <= p < |list| && cmp(x, list[p]) > 0
    ensures SignsOrdered(cmp, list, x) ==> Passed(cmp, list, x, p) && Passed(cmp, list, x, p + 1)
    ensures p == |list| - 1 ==> Answer(cmp, list, x, p)
  {
  }

  /** The list alone, from its first link. */
  method SearchList<K>(cmp: Compare<K>, list: seq<KeyItem<K>>, x: KeyItem<K>, compares0: int)
    returns (found: int, compares: int)
    requires list != []
    ensures if cmp(x, list[0]) < 0 then found == 0 else Answer(cmp, list, x, found)
  {
    compares := compares0;
    var link := 0;
    while link < |list|
      invariant 0 <= link <= |list| && Passed(cmp, list, x, link)
      invariant link > 0 ==> cmp(x, list[0]) > 0
    {
      var status := cmp(x, list[link]);
      compares := compares + 1;
      if status == 0 {
        EqualHere(cmp, list, x, link);
        return link, compares;
      }
      if status < 0 {
        return if link > 0 then link - 1 else link, compares;
      }
      link := link + 1;
    }
    found := |list| - 1;
  }

  /** Backwards from the last link, which is level with x, over all that are. */
  method FirstOfLast<K>(cmp: Compare<K>, list: seq<KeyItem<K>>, x: KeyItem<K>, compares0: int)
    returns (found: int, compares: int)
    requires list != [] && cmp(x, list[0]) > 0 && cmp(x, list[|list| - 1]) == 0
    ensures Answer(cmp, list, x, found) && cmp(x, list[found]) == 0
    ensures found > 0 && cmp(x, list[found - 1]) != 0
  {
    compares := compares0;
    var link := |list| - 1;
    while link != -1
      invariant -1 <= link < |list| && forall j :: link < j < |list| ==> cmp(x, list[j]) == 0
    {
      var status := cmp(x, list[link]);
      compares := compares + 1;
      if status != 0 {
        break;
      }
      link := link - 1;
    }
    if link + 1 != |list| {
      link := link + 1;
    }
    found := link;
    EqualHere(cmp, list, x, found);
  }

  /** Down the levels: the last node found in this way that is below x. */
  method Descend<K>(cmp: Compare<K>, list: seq<KeyItem<K>>, nodes: seq<Node>, x: KeyItem<K>, compares0: int)
    returns (node: int, compares: int)
    requires list != [] && Over(nodes, |list|) && nodes != [] && cmp(x, list[0]) > 0
    ensures 0 <= node < |nodes| && cmp(x, list[nodes[node].here]) > 0
  {
    compares, node := compares0, 0;
    var i := NODE_LEVEL - 1;
    while i >= 0
      invariant -1 <= i < NODE_LEVEL && 0 <= node < |nodes| && cmp(x, list[nodes[node].here]) > 0
    {
      while nodes[node].level[i] != TAIL
        invariant 0 <= node < |nodes| && cmp(x, list[nodes[node].here]) > 0
        decreases |nodes| - node
      {
        assert LevelOk(nodes, node, i);
        var status := cmp(x, list[nodes[nodes[node].level[i]].here]);
        compares := compares + 1;
        if status <= 0 {
          break;
        }
        node := nodes[node].level[i];
      }
      i := i - 1;
    }
  }

  /** The links from one place up to another, or the end; found is -1 if none of them stops the search. */
  method SearchStretch<K>(cmp: Compare<K>, list: seq<KeyItem<K>>, x: KeyItem<K>, from: int, to: int, compares0: int)
    returns (found: int, compares: int)
    requires 0 <= from < to <= |list| && cmp(x, list[0]) > 0
    requires SignsOrdered(cmp, list, x) ==> Passed(cmp, list, x, from)
    ensures found == -1 || Answer(cmp, list, x, found)
    ensures found == -1 ==> Passed(cmp, list, x, to)
  {
    compares := compares0;
    var link := from;
    while link != to
      invariant from <= link <= to && (link > from ==> Passed(cmp, list, x, link))
      invariant SignsOrdered(cmp, list, x) ==> Passed(cmp, list, x, link)
    {
      var status := cmp(x, list[link]);
      compares := compares + 1;
      if status == 0 {
        EqualHere(cmp, list, x, link);
        return link, compares;
      }
      if status < 0 {
        StopsHere(cmp, list, x, link);
        return if link > 0 then link - 1 else link, compares;
      }
      link := link + 1;
    }
    found := -1;
  }

  /** Along the nodes from the one reached, and through the links of the stretch where x belongs. */
  method SearchNodes<K>(cmp: Compare<K>, list: seq<KeyItem<K>>, nodes: seq<Node>, x: KeyItem<K>, node0: int,
    compares0: int) returns (found: int, compares: int)
    requires list != [] && Over(nodes, |list|) && 0 <= node0 < |nodes| && cmp(x, list[nodes[node0].here]) > 0
    requires cmp(x, list[0]) > 0 && cmp(x, list[|list| - 1]) < 0
    ensures Answer(cmp, list, x, found)
  {
    compares := compares0;
    var node := node0;
    AboveHere(cmp, list, x, nodes[node].here);
    hide SignsOrdered, Passed, Answer;
    while node + 1 < |nodes|
      invariant 0 <= node < |nodes|
      invariant SignsOrdered(cmp, list, x) ==> Passed(cmp, list, x, nodes[node].here)
      decreases |nodes| - node
    {
      var next := nodes[node + 1].here;
      var status := cmp(x, list[next]);
      compares := compares + 1;
      if status <= 0 {
        found, compares := SearchStretch(cmp, list, x, nodes[node].here, next, compares);
        if found != -1 {
          return;
        }
      } else {
        AboveHere(cmp, list, x, next);
      }
      node := node + 1;
    }
    found, compares := SearchStretch(cmp, list, x, nodes[node].here, |list|, compares);
    if found == -1 {
      PassedEnd(cmp, list, x);
    }
  }

  /** The search cannot pass a last link that is above x. */
  lemma PassedEnd<K>(cmp: Compare<K>, list: seq<KeyItem<K>>, x: KeyItem<K>)
    requires list != [] && Passed(cmp, list, x, |list|)
    ensures cmp(x, list[|list| - 1]) > 0
  {
  }

  /** Whether so many comparisons were made that the nodes are to be built anew, and the count of such searches. */
  method Overdue(compares: int, thresh0: int) returns (due: bool, thresh: int)
    ensures due <==> compares > 540 && thresh0 >= 10
    ensures thresh == if due then 0 else if compares > 540 then thresh0 + 1 else thresh0
  {
    due, thresh := false, thresh0;
    if compares > OUTPOINT_THRESH {
      thresh := thresh + 1;
      if thresh > RSTRUCT_THRESH {
        thresh, due := 0, true;
      }
    }
  }

  /** The search of a list with the given nodes over it; -1 in an empty list. */
  method Search<K>(cmp: Compare<K>, list: seq<KeyItem<K>>, nodes: seq<Node>, x: KeyItem<K>)
    returns (found: int, compares: int)
    requires Over(nodes, |list|)
    ensures list == [] ==> found == -1
    ensures list != [] ==> if cmp(x, list[0]) < 0 then found == 0 else Answer(cmp, list, x, found)
  {
    if list == [] {
      return -1, 0;
    }
    if nodes == [] {
      found, compares := SearchList(cmp, list, x, 0);
      return;
    }
    var status := cmp(x, list[0]);
    if status == 0 {
      EqualHere(cmp, list, x, 0);
    }
    if status <= 0 {
      return 0, 1;
    }
    status := cmp(x, list[|list| - 1]);
    if status == 0 {
      found, compares := FirstOfLast(cmp, list, x, 2);
      return;
    }
    if status > 0 {
      AboveHere(cmp, list, x, |list| - 1);
      return |list| - 1, 2;
    }
    var node;
    node, compares := Descend(cmp, list, nodes, x, 2);
    found, compares := SearchNodes(cmp, list, nodes, x, node, compares);
  }
}
