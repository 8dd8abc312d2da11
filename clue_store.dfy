/** The clue inventory as the program keeps it: `NoPista` nodes on the heap,
    linked by `esquerda`/`direita` pointers. A null root is the empty
    inventory. Each node carries, as ghost state, the set of nodes below it
    (`Repr`) and the value of its subtree (`Tree`), so that the operations can
    be stated against ClueTree. */
module ClueStore {
  import opened TextOrder
  import opened ClueTree

  class ClueNode {
    var text: string
    var left: ClueNode?
    var right: ClueNode?

    ghost var Repr: set<object>
    ghost var Tree: Tree

    /** The subtree rooted here is a finite tree of distinct nodes, and
        `Tree` is its value. */
    ghost predicate Valid()
      reads this, Repr
      decreases Repr
    {
      this in Repr &&
      (left != null ==>
        left in Repr && left.Repr <= Repr && this !in left.Repr && left.Valid()) &&
      (right != null ==>
        right in Repr && right.Repr <= Repr && this !in right.Repr && right.Valid()) &&
      (left != null && right != null ==> left.Repr !! right.Repr) &&
      Tree == Node(TreeOf(left), text, TreeOf(right))
    }

    /** The leaf that `inserirPista` allocates when it reaches a null link. */
    constructor (text: string)
      ensures Valid() && fresh(Repr)
      ensures Tree == Node(Empty, text, Empty)
    {
      this.text := text;
      left := null;
      right := null;
      Repr := {this};
      Tree := Node(Empty, text, Empty);
    }
  }

  /** The value of the subtree at `n`; a null link is the empty tree. */
  ghost function TreeOf(n: ClueNode?): Tree
    reads n
  {
    if n == null then Empty else n.Tree
  }

  ghost function ReprOf(n: ClueNode?): set<object>
    reads n
  {
    if n == null then {} else n.Repr
  }

  /** `inserirPista(raiz, texto)`: returns the root of the tree after the
      insertion. A null root yields a new node; a text equal to the root's
      leaves the tree as it is; a text that sorts first is inserted into the
      left subtree and any other into the right one, and the same root comes
      back. The new value is `Insert` of the old one. */
  method InsertClue(root: ClueNode?, text: string) returns (r: ClueNode)
    requires root != null ==> root.Valid()
    modifies ReprOf(root)
    ensures r.Valid()
    ensures r.Tree == Insert(old(TreeOf(root)), text)
    ensures root != null ==> r == root
    ensures fresh(r.Repr - old(ReprOf(root)))
    decreases ReprOf(root), 1
  {
    if root == null {
      r := new ClueNode(text);
    } else if text == root.text {
      r := root;
    } else if Less(text, root.text) {
      InsertLeft(root, text);
      r := root;
    } else {
      LessTrichotomy(text, root.text);
      InsertRight(root, text);
      r := root;
    }
  }

  /** `raiz->esquerda = inserirPista(raiz->esquerda, texto)`: the left link
      is reassigned to the root of the left subtree after the insertion. */
  method InsertLeft(root: ClueNode, text: string)
    requires root.Valid() && Less(text, root.text)
    modifies root.Repr
    ensures root.Valid()
    ensures root.Tree == Insert(old(root.Tree), text)
    ensures fresh(root.Repr - old(root.Repr))
    decreases root.Repr, 0
  {
    LessIrreflexive(text);
    var l := InsertClue(root.left, text);
    root.left, root.Repr, root.Tree :=
      l, {root} + l.Repr + ReprOf(root.right), Node(l.Tree, root.text, TreeOf(root.right));
  }

  /** `raiz->direita = inserirPista(raiz->direita, texto)`: the right link
      is reassigned to the root of the right subtree after the insertion. */
  method InsertRight(root: ClueNode, text: string)
    requires root.Valid() && Less(root.text, text)
    modifies root.Repr
    ensures root.Valid()
    ensures root.Tree == Insert(old(root.Tree), text)
    ensures fresh(root.Repr - old(root.Repr))
    decreases root.Repr, 0
  {
    LessTrichotomy(text, root.text);
    LessIrreflexive(text);
    var rt := InsertClue(root.right, text);
    root.right, root.Repr, root.Tree :=
      rt, {root} + ReprOf(root.left) + rt.Repr, Node(TreeOf(root.left), root.text, rt.Tree);
  }

  /** `exibirPistas(raiz)`: the texts in the order the in-order walk prints
      them, one line per clue. */
  method ListClues(root: ClueNode?) returns (lines: seq<string>)
    requires root != null ==> root.Valid()
    ensures lines == InOrder(TreeOf(root))
    decreases ReprOf(root)
  {
    if root == null {
      return [];
    }
    var before := ListClues(root.left);
    var after := ListClues(root.right);
    lines := before + [root.text] + after;
  }
}
