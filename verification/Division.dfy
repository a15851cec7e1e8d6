// How a document is divided into cells, said on its Markdown alone. Where one cell ends and the
// next begins depends only on which quotes, lists and items have code below them.
module Division {
  import opened Basics
  import opened DocumentTree
  import opened Cells

  predicate ListHasCode(items: seq<Item>) {
    exists item :: item in items && AnyHasCode(item.inside)
  }

  // The cells of some blocks; `first` is the marker for a paragraph at their head.
  function Divided(asts: seq<Ast>, first: Option<Marker>): seq<Cell>
    decreases asts
  {
    if asts == [] then [] else DividedBlock(asts[0], first) + Divided(asts[1..], None)
  }

  // A quote or list without code is one cell, and so is every code block and paragraph.
  function DividedBlock(ast: Ast, marker: Option<Marker>): seq<Cell>
    decreases ast
  {
    match ast
    case Code(attributes, language, text) =>
      var block := CodeBlock(attributes, language, text);
      [Cell(if Ignored(block) then MarkupKind else CodeKind, Node(block, []), None)]
    case Other(text) => [Cell(MarkupKind, Node(MarkdownBlock(text), []), marker)]
    case Quote(inside) =>
      if AnyHasCode(inside) then Divided(inside, None)
      else [Cell(MarkupKind, Node(InnerQuote, BuildAll(inside)), None)]
    case List(info, items) =>
      if ListHasCode(items) then DividedItems(info, items, [])
      else [Cell(MarkupKind, Node(InnerList, BuildItems(info, items, [])), None)]
  }

  // In a list with code an item without code is one cell. The others are divided; their marker goes
  // to a paragraph at their head.
  function DividedItems(info: ListInfo, items: seq<Item>, preceding: seq<Item>): seq<Cell>
    decreases items
  {
    if items == [] then []
    else
      var inside := items[0].inside;
      (if AnyHasCode(inside) then Divided(inside, Some(ItemMarkerOf(info, |preceding|)))
       else [Cell(MarkupKind, Node(InnerItem(info, preceding), BuildAll(inside)), None)])
      + DividedItems(info, items[1..], preceding + [items[0]])
  }

  function ItemMarkerOf(info: ListInfo, j: nat): Marker {
    if info.ordered then Number(info.start + j) else Bullet(info.bullet)
  }

  lemma {:induction false} BlocksDivided(asts: seq<Ast>, node: Node, i: nat)
    requires i <= |node.children| && node.children[i..] == BuildAll(asts)
    ensures CellsFrom(node, i) == Divided(asts, MarkerAt(node, i))
    decreases asts
  {
    if asts == [] {
    } else {
      assert node.children[i] == node.children[i..][0] && node.children[i + 1..] == node.children[i..][1..];
      BlockDivided(asts[0], node, i);
      BlocksDivided(asts[1..], node, i + 1);
    }
  }

  lemma {:induction false} BlockDivided(ast: Ast, node: Node, i: nat)
    requires i < |node.children| && node.children[i] == Build(ast)
    ensures ChildCells(node, i) == DividedBlock(ast, MarkerAt(node, i))
    decreases ast
  {
    var child := node.children[i];
    BuildHasCode(ast);
    match ast
    case Quote(inside) =>
      if HasCode(child) {
        BlocksDivided(inside, child, 0);
      }
    case List(info, items) =>
      if HasCode(child) {
        ItemsDivided(info, items, [], child);
      }
    case _ =>
  }

  lemma {:induction false} ItemsDivided(info: ListInfo, items: seq<Item>, preceding: seq<Item>, list: Node)
    requires |preceding| <= |list.children| && list.children[|preceding|..] == BuildItems(info, items, preceding)
    ensures ItemCells(list, |preceding|) == DividedItems(info, items, preceding)
    decreases items
  {
    if items == [] {
    } else {
      var j := |preceding|;
      var item := list.children[j];
      assert item == list.children[j..][0] && list.children[j + 1..] == list.children[j..][1..];
      ItemHasCode(info, items[0], preceding);
      if HasCode(item) {
        BlocksDivided(items[0].inside, item, 0);
      }
      ItemsDivided(info, items[1..], preceding + [items[0]], list);
    }
  }

  // For every document the cells are those that its Markdown says.
  lemma CellsFollowMarkdown(asts: seq<Ast>)
    ensures CellsFrom(BuildDocument(asts), 0) == Divided(asts, None)
  {
    var root := BuildDocument(asts);
    assert root.children[0..] == BuildAll(asts);
    BlocksDivided(asts, root, 0);
  }
}
