// Dividing the block tree into cells: toCells of document/editor/cell.go. It prunes lists
// and quotes without code blocks, and recurses into the others; collecting code blocks is a plain
// pre-order walk. The two are proved to agree, and no leaf block is lost or shown twice.
module Cells {
  import opened Basics
  import opened DocumentTree

  datatype CellKind = CodeKind | MarkupKind

  // What stands in front of a list item: the list's bullet, or a number.
  datatype Marker = Bullet(c: char) | Number(n: nat)

  // A cell shows the text of one block, and of everything below it; the first paragraph
  // of a list item gets the item's marker back.
  datatype Cell = Cell(kind: CellKind, origin: Node, prefix: Option<Marker>)

  // What FindNode is asked for.
  predicate IsCode(node: Node) {
    node.block.CodeBlock?
  }

  predicate HasCode(node: Node) {
    exists k :: 0 <= k < |PostOrder(node)| && IsCode(PostOrder(node)[k])
  }

  function Whole(node: Node): Cell {
    Cell(MarkupKind, node, None)
  }

  // The cells for the children of a node from the i-th on.
  function CellsFrom(node: Node, i: nat): seq<Cell>
    requires i <= |node.children|
    decreases node, |node.children| - i, 1
  {
    if i == |node.children| then [] else ChildCells(node, i) + CellsFrom(node, i + 1)
  }

  function ChildCells(node: Node, i: nat): seq<Cell>
    requires i < |node.children|
    decreases node, |node.children| - i, 0
  {
    var child := node.children[i];
    match child.block
    case InnerList => if HasCode(child) then ItemCells(child, 0) else [Whole(child)]
    case InnerQuote => if HasCode(child) then CellsFrom(child, 0) else [Whole(child)]
    case CodeBlock(_, _, _) => if Ignored(child.block) then [Whole(child)] else [Cell(CodeKind, child, None)]
    case MarkdownBlock(_) => [Cell(MarkupKind, child, if i == 0 then OpeningMarker(node.block) else None)]
    case _ => []
  }

  function OpeningMarker(block: Block): Option<Marker> {
    if block.InnerItem? then Some(MarkerOf(block.list, |block.preceding|)) else None
  }

  // The marker of the item at position `j` of a list.
  function MarkerOf(list: ListInfo, j: nat): Marker {
    if list.ordered then Number(list.start + j) else Bullet(list.bullet)
  }

  // The cells for the items of a list that contains code, from the j-th on.
  function ItemCells(list: Node, j: nat): seq<Cell>
    requires j <= |list.children|
    decreases list, |list.children| - j, 0
  {
    if j == |list.children| then []
    else CellsOfItem(list.children[j]) + ItemCells(list, j + 1)
  }

  function CellsOfItem(item: Node): seq<Cell>
    decreases item, |item.children| + 1, 0
  {
    if HasCode(item) then CellsFrom(item, 0) else [Whole(item)]
  }

  method ToCells(node: Node) returns (cells: seq<Cell>)
    ensures cells == CellsFrom(node, 0)
  {
    cells := ToCellsRec(node, []);
  }

  method ContainsCode(node: Node) returns (found: bool)
    ensures found == HasCode(node)
  {
    var nodeWithCode := FindNode(node, IsCode);
    return nodeWithCode.Some?;
  }

  // Counts the siblings before the item, one by one.
  method ItemMarker(list: ListInfo, preceding: seq<Item>) returns (marker: Marker)
    ensures marker == MarkerOf(list, |preceding|)
    ensures marker == if list.ordered then Number(list.start + |preceding|) else Bullet(list.bullet)
  {
    if !list.ordered {
      return Bullet(list.bullet);
    }
    var itemNumber, before := list.start, preceding;
    while before != []
      invariant itemNumber + |before| == list.start + |preceding|
    {
      before := before[..|before| - 1];
      itemNumber := itemNumber + 1;
    }
    return Number(itemNumber);
  }

  // Appends to the cells so far.
  method ToCellsRec(node: Node, sofar: seq<Cell>) returns (cells: seq<Cell>)
    ensures cells == sofar + CellsFrom(node, 0)
    decreases node, 1
  {
    cells := sofar;
    for i := 0 to |node.children|
      invariant cells + CellsFrom(node, i) == sofar + CellsFrom(node, 0)
    {
      var child := node.children[i];
      ghost var before, here := cells, ChildCells(node, i);
      match child.block {
        case InnerList =>
          var hasCode := ContainsCode(child);
          if !hasCode {
            cells := cells + [Whole(child)];
          } else {
            cells := ListItems(child, cells);
          }
        case InnerQuote =>
          var hasCode := ContainsCode(child);
          if hasCode {
            cells := ToCellsRec(child, cells);
          } else {
            cells := cells + [Whole(child)];
          }
        case CodeBlock(_, _, _) =>
          if Ignored(child.block) {
            cells := cells + [Whole(child)];
          } else {
            cells := cells + [Cell(CodeKind, child, None)];
          }
        case MarkdownBlock(_) =>
          var prefix := None;
          if i == 0 && node.block.InnerItem? {
            var marker := ItemMarker(node.block.list, node.block.preceding);
            prefix := Some(marker);
          }
          cells := cells + [Cell(MarkupKind, child, prefix)];
        case _ =>
      }
      assert cells == before + here;
      assert before + (here + CellsFrom(node, i + 1)) == (before + here) + CellsFrom(node, i + 1);
    }
  }

  method ListItems(list: Node, sofar: seq<Cell>) returns (cells: seq<Cell>)
    ensures cells == sofar + ItemCells(list, 0)
    decreases list, 0
  {
    cells := sofar;
    for j := 0 to |list.children|
      invariant cells + ItemCells(list, j) == sofar + ItemCells(list, 0)
    {
      var item := list.children[j];
      ghost var before, here := cells, CellsOfItem(item);
      var hasCode := ContainsCode(item);
      if hasCode {
        cells := ToCellsRec(item, cells);
      } else {
        cells := cells + [Whole(item)];
      }
      assert cells == before + here;
      assert before + (here + ItemCells(list, j + 1)) == (before + here) + ItemCells(list, j + 1);
    }
  }

  // ---------- the two traversals agree ----------

  function CodeOrigins(cells: seq<Cell>): seq<Node> {
    if cells == [] then []
    else (if cells[0].kind == CodeKind then [cells[0].origin] else []) + CodeOrigins(cells[1..])
  }

  lemma {:induction false} CodeOriginsAppend(a: seq<Cell>, b: seq<Cell>)
    ensures CodeOrigins(a + b) == CodeOrigins(a) + CodeOrigins(b)
  {
    if a == [] {
      assert a + b == b;
    } else {
      assert (a + b)[1..] == a[1..] + b;
      CodeOriginsAppend(a[1..], b);
      Assoc(if a[0].kind == CodeKind then [a[0].origin] else [], CodeOrigins(a[1..]), CodeOrigins(b));
    }
  }

  // The leaf blocks under a node, in reading order.
  function Leaves(node: Node): seq<Node>
    decreases node, |node.children| + 1
  {
    if node.block.CodeBlock? || node.block.MarkdownBlock? then [node] else LeavesFrom(node, 0)
  }

  function LeavesFrom(node: Node, i: nat): seq<Node>
    requires i <= |node.children|
    decreases node, |node.children| - i
  {
    if i == |node.children| then [] else Leaves(node.children[i]) + LeavesFrom(node, i + 1)
  }

  // The leaf blocks that a sequence of cells shows, cell by cell.
  function Covered(cells: seq<Cell>): seq<Node> {
    if cells == [] then [] else Leaves(cells[0].origin) + Covered(cells[1..])
  }

  lemma {:induction false} CoveredAppend(a: seq<Cell>, b: seq<Cell>)
    ensures Covered(a + b) == Covered(a) + Covered(b)
  {
    if a == [] {
      assert a + b == b;
    } else {
      assert (a + b)[1..] == a[1..] + b;
      CoveredAppend(a[1..], b);
      Assoc(Leaves(a[0].origin), Covered(a[1..]), Covered(b));
    }
  }

  // The shape of the trees that buildBlocksTree makes: leaves have no children, lists have
  // items and nothing else, and items occur nowhere else.
  ghost predicate Shaped(node: Node) {
    match node.block
    case CodeBlock(_, _, _) => node.children == []
    case MarkdownBlock(_) => node.children == []
    case InnerList => forall c :: c in node.children ==> c.block.InnerItem? && Shaped(c)
    case _ => forall c :: c in node.children ==> !c.block.InnerItem? && !c.block.Root? && Shaped(c)
  }

  lemma {:induction false} BuildShaped(ast: Ast)
    ensures Shaped(Build(ast)) && !Build(ast).block.InnerItem? && !Build(ast).block.Root?
    decreases ast
  {
    match ast
    case Quote(inside) => BuildAllShaped(inside);
    case List(info, items) => BuildItemsShaped(info, items, []);
    case _ =>
  }

  lemma {:induction false} BuildAllShaped(asts: seq<Ast>)
    ensures forall c :: c in BuildAll(asts) ==> Shaped(c) && !c.block.InnerItem? && !c.block.Root?
    decreases asts
  {
    if asts == [] {
    } else {
      BuildShaped(asts[0]);
      BuildAllShaped(asts[1..]);
    }
  }

  lemma {:induction false} BuildItemsShaped(info: ListInfo, items: seq<Item>, preceding: seq<Item>)
    ensures forall c :: c in BuildItems(info, items, preceding) ==> Shaped(c) && c.block.InnerItem?
    decreases items
  {
    if items == [] {
    } else {
      BuildAllShaped(items[0].inside);
      BuildItemsShaped(info, items[1..], preceding + [items[0]]);
    }
  }

  // ---------- pruning loses nothing ----------

  lemma {:induction false} PostOrderHas(node: Node, i: nat, j: nat)
    requires i <= j < |node.children|
    ensures exists a, b :: PostOrderFrom(node, i) == a + PostOrder(node.children[j]) + b
    decreases j - i
  {
    if i == j {
      assert PostOrderFrom(node, i) == [] + PostOrder(node.children[j]) + PostOrderFrom(node, i + 1);
    } else {
      PostOrderHas(node, i + 1, j);
      var a, b :| PostOrderFrom(node, i + 1) == a + PostOrder(node.children[j]) + b;
      assert PostOrderFrom(node, i) == (PostOrder(node.children[i]) + a) + PostOrder(node.children[j]) + b;
    }
  }

  lemma CodeBelow(node: Node, j: nat)
    requires j < |node.children| && HasCode(node.children[j])
    ensures HasCode(node)
  {
    PostOrderHas(node, 0, j);
    var a, b :| PostOrderFrom(node, 0) == a + PostOrder(node.children[j]) + b;
    var k :| 0 <= k < |PostOrder(node.children[j])| && IsCode(PostOrder(node.children[j])[k]);
    assert PostOrder(node)[|a| + k] == PostOrder(node.children[j])[k];
  }

  lemma {:induction false} NoCodeNothingCollected(node: Node, i: nat)
    requires i <= |node.children| && !HasCode(node)
    ensures CodesFrom(node, i) == []
    decreases node, |node.children| - i
  {
    if i == |node.children| {
    } else {
      var child := node.children[i];
      if HasCode(child) {
        CodeBelow(node, i);
      } else {
        assert PostOrder(child)[|PostOrder(child)| - 1] == child;
        NoCodeNothingCollected(child, 0);
        NoCodeNothingCollected(node, i + 1);
      }
    }
  }

  // ---------- both results, by the structure of the tree ----------

  ghost predicate Container(node: Node) {
    Shaped(node) && (node.block.Root? || node.block.InnerItem? || node.block.InnerQuote?)
  }

  lemma {:induction false} CellsAgree(node: Node, i: nat)
    requires Container(node) && i <= |node.children|
    ensures CodeOrigins(CellsFrom(node, i)) == CodesFrom(node, i)
    ensures Covered(CellsFrom(node, i)) == LeavesFrom(node, i)
    decreases node, |node.children| - i, 1
  {
    if i == |node.children| {
    } else {
      ChildAgrees(node, i);
      CellsAgree(node, i + 1);
      CodeOriginsAppend(ChildCells(node, i), CellsFrom(node, i + 1));
      CoveredAppend(ChildCells(node, i), CellsFrom(node, i + 1));
    }
  }

  lemma {:induction false} ChildAgrees(node: Node, i: nat)
    requires Container(node) && i < |node.children|
    ensures var child := node.children[i];
            && CodeOrigins(ChildCells(node, i)) == (if Collected(child) then [child] else []) + CodesFrom(child, 0)
            && Covered(ChildCells(node, i)) == Leaves(child)
    decreases node, |node.children| - i, 0
  {
    var child := node.children[i];
    assert Shaped(child);
    match child.block
    case InnerList =>
      if HasCode(child) {
        ItemsAgree(child, 0);
      } else {
        NoCodeNothingCollected(child, 0);
      }
    case InnerQuote =>
      if HasCode(child) {
        CellsAgree(child, 0);
      } else {
        NoCodeNothingCollected(child, 0);
      }
    case _ =>
  }

  lemma {:induction false} ItemsAgree(list: Node, j: nat)
    requires Shaped(list) && list.block.InnerList? && j <= |list.children|
    ensures CodeOrigins(ItemCells(list, j)) == CodesFrom(list, j)
    ensures Covered(ItemCells(list, j)) == LeavesFrom(list, j)
    decreases list, |list.children| - j, 0
  {
    if j == |list.children| {
    } else {
      var item := list.children[j];
      ItemAgrees(item);
      ItemsAgree(list, j + 1);
      assert ItemCells(list, j) == CellsOfItem(item) + ItemCells(list, j + 1);
      assert CodesFrom(list, j) == CodesFrom(item, 0) + CodesFrom(list, j + 1);
      CodeOriginsAppend(CellsOfItem(item), ItemCells(list, j + 1));
      CoveredAppend(CellsOfItem(item), ItemCells(list, j + 1));
    }
  }

  lemma {:induction false} ItemAgrees(item: Node)
    requires Shaped(item) && item.block.InnerItem?
    ensures CodeOrigins(CellsOfItem(item)) == CodesFrom(item, 0)
    ensures Covered(CellsOfItem(item)) == Leaves(item)
    decreases item, |item.children| + 1, 0
  {
    if HasCode(item) {
      CellsAgree(item, 0);
    } else {
      NoCodeNothingCollected(item, 0);
    }
  }

  // For every document: the code cells are, in order, exactly the collected code blocks.
  lemma CodeCellsAreCollectedBlocks(asts: seq<Ast>)
    ensures CodeOrigins(CellsFrom(BuildDocument(asts), 0)) == CodesFrom(BuildDocument(asts), 0)
  {
    BuildAllShaped(asts);
    CellsAgree(BuildDocument(asts), 0);
  }

  // For every document: reading the cells one after the other reads every leaf block once, in order.
  lemma CellsConserveContent(asts: seq<Ast>)
    ensures Covered(CellsFrom(BuildDocument(asts), 0)) == Leaves(BuildDocument(asts))
  {
    BuildAllShaped(asts);
    CellsAgree(BuildDocument(asts), 0);
  }

  // The shape matters: an item outside a list would vanish from the cells, with its code.
  lemma StrayItemIsLost()
    ensures exists node :: CellsFrom(node, 0) == [] && CodesFrom(node, 0) != []
  {
    var code := Node(CodeBlock(map[], "sh", "ls"), []);
    var item := Node(InnerItem(ListInfo(false, 0, '-'), []), [code]);
    var root := Node(Root, [item]);
    assert Collected(code) && root.children[0] == item && item.children[0] == code;
    assert CodesFrom(item, 0) == [code] + CodesFrom(code, 0) + CodesFrom(item, 1);
    assert CodesFrom(root, 0) == [] + CodesFrom(item, 0) + CodesFrom(root, 1);
    assert ChildCells(root, 0) == [] && CellsFrom(root, 0) == [] + CellsFrom(root, 1);
  }

  // ---------- which cells show a marker ----------

  predicate AstHasCode(ast: Ast)
    decreases ast
  {
    match ast
    case Code(_, _, _) => true
    case Quote(inside) => AnyHasCode(inside)
    case List(_, items) => exists item :: item in items && AnyHasCode(item.inside)
    case Other(_) => false
  }

  predicate AnyHasCode(asts: seq<Ast>)
    decreases asts
  {
    exists a :: a in asts && AstHasCode(a)
  }

  datatype Leaf = Leaf(node: Node, marker: Option<Marker>)

  // The leaves of a document in reading order. A marker stands before a paragraph that opens
  // an item with code: the bullet of its list, or the start number plus its position.
  function Marked(asts: seq<Ast>, first: Option<Marker>): seq<Leaf>
    decreases asts
  {
    if asts == [] then [] else MarkedBlock(asts[0], first) + Marked(asts[1..], None)
  }

  function MarkedBlock(ast: Ast, marker: Option<Marker>): seq<Leaf>
    decreases ast
  {
    match ast
    case Code(attributes, language, text) => [Leaf(Node(CodeBlock(attributes, language, text), []), None)]
    case Quote(inside) => Marked(inside, None)
    case List(info, items) => MarkedItems(info, items, 0)
    case Other(text) => [Leaf(Node(MarkdownBlock(text), []), marker)]
  }

  function MarkedItems(info: ListInfo, items: seq<Item>, j: nat): seq<Leaf>
    decreases items
  {
    if items == [] then []
    else
      var inside, marker := items[0].inside, if info.ordered then Number(info.start + j) else Bullet(info.bullet);
      Marked(inside, if AnyHasCode(inside) then Some(marker) else None)
      + MarkedItems(info, items[1..], j + 1)
  }

  // The leaves that the cells show, each with the marker of its cell.
  function Shown(cells: seq<Cell>): seq<Leaf> {
    if cells == [] then [] else Tagged(Leaves(cells[0].origin), cells[0].prefix) + Shown(cells[1..])
  }

  function Tagged(nodes: seq<Node>, marker: Option<Marker>): seq<Leaf> {
    seq(|nodes|, i requires 0 <= i < |nodes| => Leaf(nodes[i], marker))
  }

  lemma {:induction false} ShownAppend(a: seq<Cell>, b: seq<Cell>)
    ensures Shown(a + b) == Shown(a) + Shown(b)
  {
    if a == [] {
      assert a + b == b;
    } else {
      assert (a + b)[1..] == a[1..] + b;
      ShownAppend(a[1..], b);
      Assoc(Tagged(Leaves(a[0].origin), a[0].prefix), Shown(a[1..]), Shown(b));
    }
  }

  lemma ShownOne(cell: Cell)
    ensures Shown([cell]) == Tagged(Leaves(cell.origin), cell.prefix)
  {
    assert [cell][1..] == [];
  }

  // ---------- finding code in a built tree is finding it in the Markdown ----------

  lemma {:induction false} PostOrderWithin(node: Node, i: nat, k: nat)
    requires i <= |node.children| && k < |PostOrderFrom(node, i)|
    ensures exists c :: c in node.children && PostOrderFrom(node, i)[k] in PostOrder(c)
    decreases |node.children| - i
  {
    if i == |node.children| {
    } else {
      var here := PostOrder(node.children[i]);
      if k < |here| {
        assert PostOrderFrom(node, i)[k] == here[k];
        assert node.children[i] in node.children;
      } else {
        assert PostOrderFrom(node, i)[k] == PostOrderFrom(node, i + 1)[k - |here|];
        PostOrderWithin(node, i + 1, k - |here|);
      }
    }
  }

  lemma HasCodeIff(node: Node)
    ensures HasCode(node) <==> IsCode(node) || exists c :: c in node.children && HasCode(c)
  {
    if IsCode(node) {
      assert PostOrder(node)[|PostOrder(node)| - 1] == node;
    } else if HasCode(node) {
      var k :| 0 <= k < |PostOrder(node)| && IsCode(PostOrder(node)[k]);
      assert PostOrder(node)[k] == PostOrderFrom(node, 0)[k];
      PostOrderWithin(node, 0, k);
    }
    forall j | 0 <= j < |node.children| && HasCode(node.children[j])
      ensures HasCode(node)
    {
      CodeBelow(node, j);
    }
  }

  lemma {:induction false} BuildHasCode(ast: Ast)
    ensures HasCode(Build(ast)) <==> AstHasCode(ast)
    decreases ast
  {
    HasCodeIff(Build(ast));
    match ast
    case Quote(inside) => BuildAllHasCode(inside);
    case List(info, items) => BuildItemsHasCode(info, items, []);
    case _ =>
  }

  lemma {:induction false} BuildAllHasCode(asts: seq<Ast>)
    ensures (exists c :: c in BuildAll(asts) && HasCode(c)) <==> AnyHasCode(asts)
    decreases asts
  {
    if asts == [] {
    } else {
      BuildHasCode(asts[0]);
      BuildAllHasCode(asts[1..]);
      AnyHasCodeStep(asts);
      ExistsStep(Build(asts[0]), BuildAll(asts[1..]));
    }
  }

  lemma AnyHasCodeStep(asts: seq<Ast>)
    requires asts != []
    ensures AnyHasCode(asts) <==> AstHasCode(asts[0]) || AnyHasCode(asts[1..])
  {
    if a :| a in asts && AstHasCode(a) {
      assert a == asts[0] || a in asts[1..];
    }
  }

  lemma ExistsStep(first: Node, rest: seq<Node>)
    ensures (exists c :: c in [first] + rest && HasCode(c)) <==> HasCode(first) || exists c :: c in rest && HasCode(c)
  {
    assert first in [first] + rest;
  }

  lemma ItemHasCode(info: ListInfo, item: Item, preceding: seq<Item>)
    ensures HasCode(Node(InnerItem(info, preceding), BuildAll(item.inside))) <==> AnyHasCode(item.inside)
    decreases item
  {
    HasCodeIff(Node(InnerItem(info, preceding), BuildAll(item.inside)));
    BuildAllHasCode(item.inside);
  }

  lemma {:induction false} BuildItemsHasCode(info: ListInfo, items: seq<Item>, preceding: seq<Item>)
    ensures (exists c :: c in BuildItems(info, items, preceding) && HasCode(c))
            <==> exists item :: item in items && AnyHasCode(item.inside)
    decreases items
  {
    if items == [] {
    } else {
      var rest := BuildItems(info, items[1..], preceding + [items[0]]);
      ItemHasCode(info, items[0], preceding);
      BuildItemsHasCode(info, items[1..], preceding + [items[0]]);
      ExistsStep(Node(InnerItem(info, preceding), BuildAll(items[0].inside)), rest);
      assert forall item :: item in items <==> item == items[0] || item in items[1..];
    }
  }

  // ---------- the cells show exactly these markers ----------

  lemma TaggedAppend(a: seq<Node>, b: seq<Node>, marker: Option<Marker>)
    ensures Tagged(a + b, marker) == Tagged(a, marker) + Tagged(b, marker)
  {
  }

  // A block without code is shown whole and has no marker inside.
  lemma {:induction false} UnmarkedBlock(ast: Ast)
    requires !AstHasCode(ast)
    ensures MarkedBlock(ast, None) == Tagged(Leaves(Build(ast)), None)
    decreases ast
  {
    match ast
    case Quote(inside) => UnmarkedBlocks(inside, Build(ast), 0);
    case List(info, items) => UnmarkedItems(info, items, [], Build(ast));
    case _ =>
  }

  lemma {:induction false} UnmarkedBlocks(asts: seq<Ast>, node: Node, i: nat)
    requires i <= |node.children| && node.children[i..] == BuildAll(asts) && !AnyHasCode(asts)
    ensures Marked(asts, None) == Tagged(LeavesFrom(node, i), None)
    decreases asts
  {
    if asts == [] {
    } else {
      assert node.children[i] == node.children[i..][0] && node.children[i + 1..] == node.children[i..][1..];
      UnmarkedBlock(asts[0]);
      UnmarkedBlocks(asts[1..], node, i + 1);
      TaggedAppend(Leaves(node.children[i]), LeavesFrom(node, i + 1), None);
    }
  }

  lemma {:induction false} UnmarkedItems(info: ListInfo, items: seq<Item>, preceding: seq<Item>, list: Node)
    requires |preceding| <= |list.children| && list.children[|preceding|..] == BuildItems(info, items, preceding)
    requires forall item :: item in items ==> !AnyHasCode(item.inside)
    ensures MarkedItems(info, items, |preceding|) == Tagged(LeavesFrom(list, |preceding|), None)
    decreases items
  {
    if items == [] {
    } else {
      var j := |preceding|;
      assert list.children[j] == list.children[j..][0] && list.children[j + 1..] == list.children[j..][1..];
      UnmarkedBlocks(items[0].inside, list.children[j], 0);
      UnmarkedItems(info, items[1..], preceding + [items[0]], list);
      TaggedAppend(Leaves(list.children[j]), LeavesFrom(list, j + 1), None);
    }
  }

  function MarkerAt(node: Node, i: nat): Option<Marker> {
    if i == 0 then OpeningMarker(node.block) else None
  }

  lemma {:induction false} BlocksMarked(asts: seq<Ast>, node: Node, i: nat)
    requires i <= |node.children| && node.children[i..] == BuildAll(asts)
    ensures Shown(CellsFrom(node, i)) == Marked(asts, MarkerAt(node, i))
    decreases asts
  {
    if asts == [] {
    } else {
      assert node.children[i] == node.children[i..][0] && node.children[i + 1..] == node.children[i..][1..];
      BlockMarked(asts[0], node, i);
      BlocksMarked(asts[1..], node, i + 1);
      ShownAppend(ChildCells(node, i), CellsFrom(node, i + 1));
    }
  }

  lemma {:induction false} BlockMarked(ast: Ast, node: Node, i: nat)
    requires i < |node.children| && node.children[i] == Build(ast)
    ensures Shown(ChildCells(node, i)) == MarkedBlock(ast, MarkerAt(node, i))
    decreases ast
  {
    var child := node.children[i];
    BuildHasCode(ast);
    if ChildCells(node, i) == [Whole(child)] {
      ShownOne(Whole(child));
    }
    match ast
    case Code(_, _, _) => ShownOne(Cell(CodeKind, child, None));
    case Other(_) => ShownOne(Cell(MarkupKind, child, MarkerAt(node, i)));
    case Quote(inside) =>
      if HasCode(child) {
        BlocksMarked(inside, child, 0);
      } else {
        UnmarkedBlock(ast);
      }
    case List(info, items) =>
      if HasCode(child) {
        ItemsMarked(info, items, [], child);
      } else {
        UnmarkedBlock(ast);
      }
  }

  lemma {:induction false} ItemsMarked(info: ListInfo, items: seq<Item>, preceding: seq<Item>, list: Node)
    requires |preceding| <= |list.children| && list.children[|preceding|..] == BuildItems(info, items, preceding)
    ensures Shown(ItemCells(list, |preceding|)) == MarkedItems(info, items, |preceding|)
    decreases items
  {
    if items == [] {
    } else {
      var j := |preceding|;
      var item := list.children[j];
      assert item == list.children[j..][0] && list.children[j + 1..] == list.children[j..][1..];
      ItemHasCode(info, items[0], preceding);
      if HasCode(item) {
        BlocksMarked(items[0].inside, item, 0);
      } else {
        ShownOne(Whole(item));
        UnmarkedBlocks(items[0].inside, item, 0);
      }
      ItemsMarked(info, items[1..], preceding + [items[0]], list);
      ShownAppend(CellsOfItem(item), ItemCells(list, j + 1));
    }
  }

  // For every document: read cell by cell, the leaves come in reading order, and a cell shows a
  // marker exactly for a paragraph that opens an item with code, namely the one the item has.
  lemma MarkersAreShown(asts: seq<Ast>)
    ensures Shown(CellsFrom(BuildDocument(asts), 0)) == Marked(asts, None)
  {
    var root := BuildDocument(asts);
    assert root.children[0..] == BuildAll(asts);
    BlocksMarked(asts, root, 0);
  }
}
