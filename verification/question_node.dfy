/** A node of the question tree. A node is a question or an answer only by
    its text: a text ending in "?" is a question, anything else an answer. */
module QuestionNode {
  import opened Strings

  /** A reference to a node: `Null` is the null reference, `Node` an
      allocated node. Nodes are never shared, so a `Node` value is the whole
      subtree hanging from it. `left` is followed on yes, `right` on no. */
  datatype Tree = Null | Node(value: string, left: Tree, right: Tree)

  /** `new QuestionNode(value)`: the given text and no children. */
  function NewNode(value: string): (n: Tree)
    ensures n.Node? && n.value == value
    ensures IsLeaf(n) && Size(n) == 1 && Leaves(n) == 1
  {
    Node(value, Null, Null)
  }

  predicate IsLeaf(n: Tree) {
    n.Node? && n.left == Null && n.right == Null
  }

  /** `setLeft(yes)`: replaces the yes-child and nothing else. */
  function SetLeft(n: Tree, yes: Tree): (r: Tree)
    requires n.Node?
    ensures r.Node? && r.left == yes
    ensures r.value == n.value && r.right == n.right
  {
    n.(left := yes)
  }

  /** `setRight(no)`: replaces the no-child and nothing else. */
  function SetRight(n: Tree, no: Tree): (r: Tree)
    requires n.Node?
    ensures r.Node? && r.right == no
    ensures r.value == n.value && r.left == n.left
  {
    n.(right := no)
  }

  /** `isAnswer()`: the text does not end in "?". So "?" alone is a
      question and the empty text is an answer. */
  function IsAnswer(n: Tree): (r: bool)
    requires n.Node?
    ensures r <==> (n.value == [] || n.value[|n.value| - 1] != '?')
  {
    !EndsWith(n.value, "?")
  }

  /** Number of nodes. */
  function Size(t: Tree): nat {
    match t
    case Null => 0
    case Node(_, l, r) => 1 + Size(l) + Size(r)
  }

  /** Number of nodes without children. */
  function Leaves(t: Tree): nat {
    match t
    case Null => 0
    case Node(_, l, r) => if l == Null && r == Null then 1 else Leaves(l) + Leaves(r)
  }

  /** The shape the game relies on: every question has both children and
      every answer has none, all the way down. */
  predicate WellFormed(t: Tree) {
    t.Node? &&
    if IsAnswer(t) then t.left == Null && t.right == Null
    else WellFormed(t.left) && WellFormed(t.right)
  }

  /** A well-formed tree is a proper binary tree: it has one more answer
      than it has questions. */
  lemma {:induction false} WellFormedSize(t: Tree)
    requires WellFormed(t)
    ensures Size(t) == 2 * Leaves(t) - 1
    decreases t
  {
    if !IsAnswer(t) {
      WellFormedSize(t.left);
      WellFormedSize(t.right);
    }
  }
}
