/** Positions in a question tree. Nodes are never shared and the tree has no
    cycles, so the answers that lead from the root to a node identify it;
    positions stand in for the object identity the game compares nodes by. */
module Positions {
  import opened Results
  import opened QuestionNode

  /** The answers leading to a node: `true` (yes) steps to the left child,
      `false` (no) to the right child. */
  type Path = seq<bool>

  /** The child a yes (`true`) or no (`false`) answer leads to. */
  function Child(n: Tree, yes: bool): Tree
    requires n.Node?
  {
    if yes then n.left else n.right
  }

  /** The subtree at position `p`, or `Null` if `p` leaves the tree. */
  function At(t: Tree, p: Path): Tree
    decreases |p|
  {
    if p == [] then t
    else match t
      case Null => Null
      case Node(_, _, _) => At(Child(t, p[0]), p[1..])
  }

  /** The text at position `p`, if a node is there. */
  function Label(t: Tree, p: Path): Option<string> {
    var n := At(t, p);
    if n.Node? then Some(n.value) else None
  }

  /** `t` with the subtree at `p` replaced by `sub`; unchanged when `p`
      leaves the tree. */
  function ReplaceAt(t: Tree, p: Path, sub: Tree): Tree
    decreases |p|
  {
    if p == [] then sub
    else match t
      case Null => Null
      case Node(v, l, r) =>
        if p[0] then Node(v, ReplaceAt(l, p[1..], sub), r)
        else Node(v, l, ReplaceAt(r, p[1..], sub))
  }

  /** `p` is a prefix of `q`: the node at `q` lies in the subtree at `p`. */
  predicate IsPrefix(p: Path, q: Path) {
    |p| <= |q| && q[..|p|] == p
  }

  /** Walking `p` and then `q` is walking `p + q`. */
  lemma {:induction false} AtConcat(t: Tree, p: Path, q: Path)
    ensures At(t, p + q) == At(At(t, p), q)
    decreases |p|
  {
    if p == [] {
      assert p + q == q;
    } else if t.Node? {
      assert (p + q)[1..] == p[1..] + q;
      AtConcat(Child(t, p[0]), p[1..], q);
    } else {
      AtNull(q);
    }
  }

  /** Nothing lies below a null reference. */
  lemma {:induction false} AtNull(q: Path)
    ensures At(Null, q) == Null
  {
  }

  /** One more step from a node reaches one of its children. */
  lemma AtStep(t: Tree, p: Path, yes: bool)
    requires At(t, p).Node?
    ensures At(t, p + [yes]) == Child(At(t, p), yes)
  {
    AtConcat(t, p, [yes]);
  }

  /** After the replacement, the subtree at `p` is `sub` and whatever lies
      below it is `sub`'s. */
  lemma {:induction false} ReplaceAtBelow(t: Tree, p: Path, sub: Tree, q: Path)
    requires At(t, p).Node?
    ensures At(ReplaceAt(t, p, sub), p + q) == At(sub, q)
    decreases |p|
  {
    if p == [] {
      assert p + q == q;
    } else {
      assert (p + q)[1..] == p[1..] + q;
      ReplaceAtBelow(Child(t, p[0]), p[1..], sub, q);
    }
  }

  /** Every position that is not inside the replaced subtree keeps its
      text, including the positions above it. */
  lemma {:induction false} ReplaceAtElsewhere(t: Tree, p: Path, sub: Tree, q: Path)
    requires At(t, p).Node?
    requires !IsPrefix(p, q)
    ensures Label(ReplaceAt(t, p, sub), q) == Label(t, q)
    decreases |q|
  {
    if q != [] {
      assert p != [];
      var t' := ReplaceAt(t, p, sub);
      if p[0] == q[0] {
        assert !IsPrefix(p[1..], q[1..]);
        ReplaceAtElsewhere(Child(t, p[0]), p[1..], sub, q[1..]);
      } else {
        assert Child(t', q[0]) == Child(t, q[0]);
      }
    }
  }

  /** Replacing a subtree changes the node count by the difference. */
  lemma {:induction false} ReplaceAtSize(t: Tree, p: Path, sub: Tree)
    requires At(t, p).Node?
    ensures Size(ReplaceAt(t, p, sub)) == Size(t) - Size(At(t, p)) + Size(sub)
    ensures Size(At(t, p)) <= Size(t)
    decreases |p|
  {
    if p != [] {
      ReplaceAtSize(Child(t, p[0]), p[1..], sub);
    }
  }

  /** Replacing a subtree by a node (never by null) changes the leaf count
      by the difference. */
  lemma {:induction false} ReplaceAtLeaves(t: Tree, p: Path, sub: Tree)
    requires At(t, p).Node? && sub.Node?
    ensures Leaves(ReplaceAt(t, p, sub)) == Leaves(t) - Leaves(At(t, p)) + Leaves(sub)
    ensures Leaves(At(t, p)) <= Leaves(t)
    decreases |p|
  {
    if p != [] {
      ReplaceAtLeaves(Child(t, p[0]), p[1..], sub);
    }
  }

  /** Setting a child slot of the node at `p` is replacing the subtree one
      step further down. */
  lemma {:induction false} ReplaceChild(t: Tree, p: Path, yes: bool, sub: Tree)
    requires At(t, p).Node?
    ensures ReplaceAt(t, p, if yes then SetLeft(At(t, p), sub) else SetRight(At(t, p), sub))
         == ReplaceAt(t, p + [yes], sub)
    decreases |p|
  {
    if p != [] {
      assert (p + [yes])[1..] == p[1..] + [yes];
      ReplaceChild(Child(t, p[0]), p[1..], yes, sub);
    }
  }

  /** In a well-formed tree every node above a node is a question, so a
      replacement keeps the tree well formed exactly when the new subtree
      is well formed. */
  lemma {:induction false} ReplaceAtWellFormed(t: Tree, p: Path, sub: Tree)
    requires WellFormed(t) && At(t, p).Node?
    ensures WellFormed(ReplaceAt(t, p, sub)) <==> WellFormed(sub)
    decreases |p|
  {
    if p != [] {
      assert !IsAnswer(t) by {
        if IsAnswer(t) {
          AtNull(p[1..]);
        }
      }
      ReplaceAtWellFormed(Child(t, p[0]), p[1..], sub);
    }
  }
}
