// The block tree of a document (document/document.go, document/node.go) and its division
// into notebook cells (document/editor/cell.go).
module DocumentTree {
  import opened Basics

  // What the Markdown parser hands over. Only lists have items, and items are nothing but parts
  // of a list. `Other` stands for every other node; its own children are never visited.
  datatype Ast =
    | Code(attributes: map<string, string>, language: string, text: string)
    | Quote(inside: seq<Ast>)
    | List(info: ListInfo, items: seq<Item>)
    | Other(text: string)

  datatype Item = Item(inside: seq<Ast>)

  datatype ListInfo = ListInfo(ordered: bool, start: nat, bullet: char)

  // The block tree.
  datatype Node = Node(block: Block, children: seq<Node>)

  datatype Block =
    | Root
    | CodeBlock(attributes: map<string, string>, language: string, text: string)
    | InnerList
    | InnerItem(list: ListInfo, preceding: seq<Item>)
    | InnerQuote
    | MarkdownBlock(text: string)

  // ---------- buildBlocksTree ----------

  function Build(ast: Ast): Node
    decreases ast
  {
    match ast
    case Code(attributes, language, text) => Node(CodeBlock(attributes, language, text), [])
    case Quote(inside) => Node(InnerQuote, BuildAll(inside))
    case List(info, items) => Node(InnerList, BuildItems(info, items, []))
    case Other(text) => Node(MarkdownBlock(text), [])
  }

  function BuildAll(asts: seq<Ast>): (nodes: seq<Node>)
    ensures |nodes| == |asts|
    decreases asts
  {
    if asts == [] then [] else [Build(asts[0])] + BuildAll(asts[1..])
  }

  // Items know their list and, through the Markdown tree, the siblings before them.
  function BuildItems(info: ListInfo, items: seq<Item>, preceding: seq<Item>): (nodes: seq<Node>)
    ensures |nodes| == |items|
    decreases items
  {
    if items == [] then []
    else
      [Node(InnerItem(info, preceding), BuildAll(items[0].inside))]
      + BuildItems(info, items[1..], preceding + [items[0]])
  }

  function BuildDocument(asts: seq<Ast>): Node {
    Node(Root, BuildAll(asts))
  }

  // ---------- ignored code blocks ----------

  // strconv.ParseBool
  function ParseBool(s: string): Option<bool> {
    if s in ["1", "t", "T", "TRUE", "true", "True"] then Some(true)
    else if s in ["0", "f", "F", "FALSE", "false", "False"] then Some(false)
    else None
  }

  function Attribute(attributes: map<string, string>, key: string): string {
    if key in attributes then attributes[key] else ""
  }

  predicate Ignored(block: Block)
    requires block.CodeBlock?
  {
    var transform := ParseBool(Attribute(block.attributes, "transform"));
    var ignore := ParseBool(Attribute(block.attributes, "ignore"));
    if transform.Some? then !transform.value
    else if ignore.Some? then ignore.value
    else block.language == "mermaid"
  }

  // `transform` decides if it is a boolean, then `ignore`, and only then the language.
  lemma IgnoredByAttributes(attributes: map<string, string>, language: string, text: string)
    ensures var trues, falses := ["1", "t", "T", "TRUE", "true", "True"], ["0", "f", "F", "FALSE", "false", "False"];
            var transform, ignore := Attribute(attributes, "transform"), Attribute(attributes, "ignore");
            var ignored := Ignored(CodeBlock(attributes, language, text));
            && (transform in trues ==> !ignored)
            && (transform in falses ==> ignored)
            && (transform !in trues + falses && ignore in trues ==> ignored)
            && (transform !in trues + falses && ignore in falses ==> !ignored)
            && (transform !in trues + falses && ignore !in trues + falses ==> (ignored <==> language == "mermaid"))
  {
  }

  // ---------- CollectCodeBlocks ----------

  predicate Collected(node: Node) {
    node.block.CodeBlock? && !Ignored(node.block)
  }

  // The collected blocks under the children of a node from the i-th on, in pre-order.
  function CodesFrom(node: Node, i: nat): seq<Node>
    requires i <= |node.children|
    decreases node, |node.children| - i
  {
    if i == |node.children| then []
    else
      var child := node.children[i];
      (if Collected(child) then [child] else []) + CodesFrom(child, 0) + CodesFrom(node, i + 1)
  }

  method CollectCodeBlocks(node: Node) returns (result: seq<Node>)
    ensures result == CodesFrom(node, 0)
  {
    result := CollectRec(node, []);
  }

  // Appends to the blocks collected so far.
  method CollectRec(node: Node, sofar: seq<Node>) returns (result: seq<Node>)
    ensures result == sofar + CodesFrom(node, 0)
    decreases node
  {
    result := sofar;
    for i := 0 to |node.children|
      invariant result + CodesFrom(node, i) == sofar + CodesFrom(node, 0)
    {
      var child := node.children[i];
      ghost var before, here, below := result, if Collected(child) then [child] else [], CodesFrom(child, 0);
      if child.block.CodeBlock? && !Ignored(child.block) {
        result := result + [child];
      }
      assert result == before + here;
      result := CollectRec(child, result);
      assert before + (here + below + CodesFrom(node, i + 1)) == (before + here + below) + CodesFrom(node, i + 1);
    }
  }

  // ---------- FindNode ----------

  function PostOrder(node: Node): seq<Node>
    decreases node, |node.children| + 1
  {
    PostOrderFrom(node, 0) + [node]
  }

  function PostOrderFrom(node: Node, i: nat): seq<Node>
    requires i <= |node.children|
    decreases node, |node.children| - i
  {
    if i == |node.children| then [] else PostOrder(node.children[i]) + PostOrderFrom(node, i + 1)
  }

  // A node comes after everything below it, and what is below one child before what is below
  // the next.
  lemma PostOrderIsBottomUp(node: Node, i: nat, j: nat)
    requires i < j < |node.children|
    ensures PostOrder(node)[|PostOrder(node)| - 1] == node
    ensures exists a, b, c ::
              PostOrder(node) == a + PostOrder(node.children[i]) + b + PostOrder(node.children[j]) + c
  {
    var a, rest := PostOrderSkips(node, 0, i);
    var b, c := PostOrderSkips(node, i + 1, j);
    assert PostOrder(node)
        == a + PostOrder(node.children[i]) + b + PostOrder(node.children[j]) + (c + [node]);
  }

  lemma {:induction false} PostOrderSkips(node: Node, i: nat, j: nat) returns (a: seq<Node>, b: seq<Node>)
    requires i <= j < |node.children|
    ensures PostOrderFrom(node, i) == a + PostOrder(node.children[j]) + b && b == PostOrderFrom(node, j + 1)
    decreases j - i
  {
    if i == j {
      a, b := [], PostOrderFrom(node, j + 1);
    } else {
      a, b := PostOrderSkips(node, i + 1, j);
      a := PostOrder(node.children[i]) + a;
    }
  }

  ghost predicate IsFirst(found: Option<Node>, nodes: seq<Node>, fn: Node -> bool) {
    match found
    case None => forall k :: 0 <= k < |nodes| ==> !fn(nodes[k])
    case Some(n) => exists k :: 0 <= k < |nodes| && n == nodes[k] && fn(n) && forall j :: 0 <= j < k ==> !fn(nodes[j])
  }

  // The first node in post-order that satisfies the predicate.
  method FindNode(node: Node, fn: Node -> bool) returns (found: Option<Node>)
    ensures IsFirst(found, PostOrder(node), fn)
    decreases node
  {
    ghost var all := PostOrder(node);
    ghost var seen: seq<Node> := [];
    for i := 0 to |node.children|
      invariant all == seen + PostOrderFrom(node, i) + [node]
      invariant IsFirst(None, seen, fn)
    {
      var n := FindNode(node.children[i], fn);
      ghost var below, rest := PostOrder(node.children[i]), PostOrderFrom(node, i + 1) + [node];
      assert all == seen + below + rest;
      if n.Some? {
        FirstInMiddle(n, seen, below, rest, fn);
        return n;
      }
      seen := seen + below;
    }
    if fn(node) {
      assert all[|seen|] == node;
      return Some(node);
    }
    return None;
  }

  lemma FirstInMiddle(found: Option<Node>, a: seq<Node>, b: seq<Node>, c: seq<Node>, fn: Node -> bool)
    requires found.Some? && IsFirst(None, a, fn) && IsFirst(found, b, fn)
    ensures IsFirst(found, a + b + c, fn)
  {
    var k :| 0 <= k < |b| && found.value == b[k] && fn(found.value) && forall j :: 0 <= j < k ==> !fn(b[j]);
    assert (a + b + c)[|a| + k] == b[k];
  }
}
