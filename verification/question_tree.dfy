/** The game: a question tree plus the two counters, played one round at a
    time and learning a new object from every lost round. */
module QuestionTree {
  import opened Results
  import opened Strings
  import opened QuestionNode
  import opened Positions
  import opened LineText
  import opened TreeFormat

  // ------------------------------------------------------------ counters

  /** Java's `int`. */
  newtype int32 = x: int | -0x8000_0000 <= x < 0x8000_0000

  const MinInt: int32 := -0x8000_0000
  const MaxInt: int32 := 0x7fff_ffff

  /** `x++` on an `int`: two's-complement wrap-around past `MaxInt`. */
  function Inc(x: int32): (r: int32)
    ensures r as int == (x as int + 1 + 0x8000_0000) % 0x1_0000_0000 - 0x8000_0000
    ensures x < MaxInt ==> r as int == x as int + 1
  {
    if x == MaxInt then MinInt else x + 1
  }

  /** The state of a `QuestionTree`: the root reference and the counters. */
  datatype Game = Game(root: Tree, totalGames: int32, gamesWon: int32)

  /** The constructor: one answer, "computer", and no games played. */
  function NewGame(): (g: Game)
    ensures WellFormed(g.root) && IsLeaf(g.root) && IsAnswer(g.root)
    ensures g.root.value == "computer"
    ensures g.totalGames == 0 && g.gamesWon == 0
  {
    Game(NewNode("computer"), 0, 0)
  }

  /** What the counters are meant to satisfy: no more games won than
      played, and neither negative. */
  predicate CountersConsistent(g: Game) {
    0 <= g.gamesWon <= g.totalGames
  }

  // ------------------------------------------------------------ parents

  /** The node at `target` lies strictly inside `current`, the subtree found
      at position `here`. */
  predicate Below(current: Tree, here: Path, target: Path) {
    |here| < |target| && IsPrefix(here, target) && At(current, target[|here|..]).Node?
  }

  /** A node is strictly inside a subtree exactly when it is one of the
      subtree's children or strictly inside one of them. */
  lemma BelowStep(current: Tree, here: Path, target: Path)
    requires current.Node?
    ensures Below(current, here, target) <==>
      || (current.left.Node? && here + [true] == target)
      || (current.right.Node? && here + [false] == target)
      || Below(current.left, here + [true], target)
      || Below(current.right, here + [false], target)
  {
    if |here| < |target| && target[..|here|] == here {
      var q := target[|here|..];
      var b := q[0];
      assert target[..|here| + 1] == here + [b];
      assert target[|here| + 1..] == q[1..];
      if |q| == 1 {
        assert q == [b] && q[1..] == [];
        assert target == here + [b];
        assert At(current, q) == Child(current, b);
      }
    }
  }

  /** `findParentNode(current, target)`: a depth-first search, checking a
      node's own children before searching its yes-subtree and then its
      no-subtree. Nodes are compared by position; a null child is never the
      target node. The result is the position of the parent, or `None`
      (null) when the target is `current` itself or is not inside it. */
  function FindParent(current: Tree, here: Path, target: Path): (r: Option<Path>)
    ensures r.Some? <==> Below(current, here, target)
    ensures r.Some? ==> r.value == target[..|target| - 1]
    decreases current
  {
    match current
    case Null => None
    case Node(_, l, r) =>
      BelowStep(current, here, target);
      if (l.Node? && here + [true] == target) || (r.Node? && here + [false] == target) then
        Some(here)
      else
        match FindParent(l, here + [true], target)
        case Some(p) => Some(p)
        case None => FindParent(r, here + [false], target)
  }

  /** Searched from the root, the parent of every node but the root is
      found, one step above it. */
  lemma FindParentFromRoot(root: Tree, at: Path)
    requires At(root, at).Node?
    ensures FindParent(root, [], at) == if at == [] then None else Some(at[..|at| - 1])
  {
    assert at[..0] == [] && at[0..] == at;
  }

  // ------------------------------------------------------------ learning

  /** What the player types after a lost round: the object, a question
      telling it apart from the wrong guess, and the object's answer to
      that question. */
  datatype Lesson = Lesson(userObject: string, question: string, userAnswer: bool)

  /** The question node built in `handleWrongGuess`: the new answer on the
      side of the object's answer and the old node on the other. */
  function Splice(node: Tree, lesson: Lesson): (q: Tree)
    requires node.Node?
    ensures q.Node? && q.value == lesson.question
    ensures Child(q, lesson.userAnswer) == NewNode(lesson.userObject)
    ensures Child(q, !lesson.userAnswer) == node
  {
    var newAnswer := NewNode(lesson.userObject);
    var newQuestion := NewNode(lesson.question);
    if lesson.userAnswer then SetRight(SetLeft(newQuestion, newAnswer), node)
    else SetRight(SetLeft(newQuestion, node), newAnswer)
  }

  /** `handleWrongGuess(node)` for the node at position `at`: the root is
      replaced outright; any other node is replaced in whichever child slot
      of its parent holds it. Either way the new question takes the place
      of the guessed node. */
  function HandleWrongGuess(root: Tree, at: Path, lesson: Lesson): (r: Tree)
    requires At(root, at).Node?
    ensures r == ReplaceAt(root, at, Splice(At(root, at), lesson))
  {
    var node := At(root, at);
    var newQuestion := Splice(node, lesson);
    if at == [] then
      newQuestion
    else
      FindParentFromRoot(root, at);
      var parent := FindParent(root, [], at).value;
      var b := at[|at| - 1];
      assert at == parent + [b];
      AtConcat(root, parent, [b]);
      AtNull([b]);
      var parentNode := At(root, parent);
      ReplaceChild(root, parent, b, newQuestion);
      if parent + [true] == at then ReplaceAt(root, parent, SetLeft(parentNode, newQuestion))
      else ReplaceAt(root, parent, SetRight(parentNode, newQuestion))
  }

  /** The learning step: the guessed node moves under the new question, on
      the side away from the object's answer, the new answer on the other
      side; the tree gains one question and one answer. */
  lemma HandleWrongGuessSplices(root: Tree, at: Path, lesson: Lesson)
    requires At(root, at).Node?
    ensures var r := HandleWrongGuess(root, at, lesson);
      && At(r, at).Node? && At(r, at).value == lesson.question
      && At(r, at + [lesson.userAnswer]) == NewNode(lesson.userObject)
      && At(r, at + [!lesson.userAnswer]) == At(root, at)
      && Size(r) == Size(root) + 2
      && Leaves(r) == Leaves(root) + 1
  {
    var node := At(root, at);
    var q := Splice(node, lesson);
    ReplaceAtBelow(root, at, q, []);
    assert at + [] == at;
    ReplaceAtBelow(root, at, q, [lesson.userAnswer]);
    ReplaceAtBelow(root, at, q, [!lesson.userAnswer]);
    ReplaceAtSize(root, at, q);
    ReplaceAtLeaves(root, at, q);
  }

  /** Outside the new question's subtree every position keeps its text. */
  lemma HandleWrongGuessElsewhere(root: Tree, at: Path, lesson: Lesson, q: Path)
    requires At(root, at).Node? && !IsPrefix(at, q)
    ensures Label(HandleWrongGuess(root, at, lesson), q) == Label(root, q)
  {
    ReplaceAtElsewhere(root, at, Splice(At(root, at), lesson), q);
  }

  /** The new question node is well formed exactly when its text is a
      question and the new object's text an answer. */
  lemma SpliceWellFormed(node: Tree, lesson: Lesson)
    requires WellFormed(node)
    ensures WellFormed(Splice(node, lesson)) <==>
      EndsWith(lesson.question, "?") && !EndsWith(lesson.userObject, "?")
  {
    var q := Splice(node, lesson);
    var a := NewNode(lesson.userObject);
    assert WellFormed(a) <==> !EndsWith(lesson.userObject, "?");
    assert IsAnswer(q) <==> !EndsWith(lesson.question, "?");
    assert WellFormed(q) <==> !IsAnswer(q) && WellFormed(a) by {
      assert q.left == a || q.right == a;
      assert q.left == node || q.right == node;
    }
  }

  /** Learning at a node of a well-formed tree keeps it well formed
      exactly when the new question is a question and the new object is an
      answer. */
  lemma HandleWrongGuessWellFormed(root: Tree, at: Path, lesson: Lesson)
    requires WellFormed(root) && At(root, at).Node?
    ensures WellFormed(HandleWrongGuess(root, at, lesson)) <==>
      EndsWith(lesson.question, "?") && !EndsWith(lesson.userObject, "?")
  {
    var node := At(root, at);
    ReplaceAtWellFormed(root, at, Splice(node, lesson));
    WellFormedAt(root, at);
    SpliceWellFormed(node, lesson);
  }

  /** Every node of a well-formed tree heads a well-formed subtree. */
  lemma {:induction false} WellFormedAt(t: Tree, p: Path)
    requires WellFormed(t) && At(t, p).Node?
    ensures WellFormed(At(t, p))
    decreases |p|
  {
    if p != [] {
      assert !IsAnswer(t) by {
        if IsAnswer(t) {
          AtNull(p[1..]);
        }
      }
      WellFormedAt(Child(t, p[0]), p[1..]);
    }
  }

  // ------------------------------------------------------------ playing

  /** Why a round cannot finish: a null reference was reached (a question
      with a missing child, or an empty tree), or the answers ran out. */
  datatype PlayError = NullReference | InputExhausted

  /** `p` leads from the root through questions only to an answer. */
  predicate IsRoute(t: Tree, p: Path) {
    && At(t, p).Node? && IsAnswer(At(t, p))
    && forall k :: 0 <= k < |p| ==> At(t, p[..k]).Node? && !IsAnswer(At(t, p[..k]))
  }

  /** A route through a question is the step to a child followed by a route
      from that child. */
  lemma RouteCons(t: Tree, b: bool, p: Path)
    requires t.Node? && !IsAnswer(t)
    ensures IsRoute(t, [b] + p) <==> IsRoute(Child(t, b), p)
  {
    var bp := [b] + p;
    assert bp[1..] == p;
    assert bp[..0] == [];
    forall k | 0 <= k < |p|
      ensures At(t, bp[..k + 1]) == At(Child(t, b), p[..k])
    {
      assert bp[..k + 1][1..] == p[..k];
    }
    if IsRoute(Child(t, b), p) {
      forall k | 0 <= k < |bp|
        ensures At(t, bp[..k]).Node? && !IsAnswer(At(t, bp[..k]))
      {
        if k > 0 {
          assert At(t, bp[..k]) == At(Child(t, b), p[..k - 1]);
        }
      }
    }
    if IsRoute(t, bp) {
      forall k | 0 <= k < |p|
        ensures At(Child(t, b), p[..k]).Node? && !IsAnswer(At(Child(t, b), p[..k]))
      {
        assert At(t, bp[..k + 1]) == At(Child(t, b), p[..k]);
      }
    }
  }

  /** The descent `playGame` makes: the answers it follows down to the
      guess, leaving at least one answer to confirm the guess with. */
  function Walk(t: Tree, answers: seq<bool>): (r: Result<Path, PlayError>)
    ensures r.Ok? ==> |r.value| < |answers| && r.value == answers[..|r.value|]
    ensures r.Ok? ==> At(t, r.value).Node? && IsAnswer(At(t, r.value))
    decreases |answers|
  {
    match t
    case Null => Err(NullReference)
    case Node(_, _, _) =>
      if answers == [] then Err(InputExhausted)
      else if IsAnswer(t) then Ok([])
      else
        match Walk(Child(t, answers[0]), answers[1..])
        case Err(e) => Err(e)
        case Ok(p) =>
          assert answers[..|p| + 1] == [answers[0]] + answers[1..][..|p|];
          assert ([answers[0]] + p)[1..] == p;
          Ok([answers[0]] + p)
  }

  /** The descent passes through questions only: it is a route. */
  lemma {:induction false} WalkRoute(t: Tree, answers: seq<bool>)
    requires Walk(t, answers).Ok?
    ensures IsRoute(t, Walk(t, answers).value)
    decreases |answers|
  {
    var p := Walk(t, answers).value;
    if p != [] {
      var p' := Walk(Child(t, answers[0]), answers[1..]).value;
      WalkRoute(Child(t, answers[0]), answers[1..]);
      assert p == [answers[0]] + p';
      RouteCons(t, answers[0], p');
    }
  }

  /** Whenever the answers begin with a route and have one more answer
      after it, the descent takes that route. */
  lemma {:induction false} WalkFindsRoute(t: Tree, answers: seq<bool>, k: nat)
    requires k < |answers| && IsRoute(t, answers[..k])
    ensures Walk(t, answers) == Ok(answers[..k])
    decreases k
  {
    var p := answers[..k];
    if k == 0 {
      assert p == [];
    } else {
      assert At(t, p[..0]) == t by { assert p[..0] == []; }
      assert p == [answers[0]] + answers[1..][..k - 1];
      RouteCons(t, answers[0], answers[1..][..k - 1]);
      WalkFindsRoute(Child(t, answers[0]), answers[1..], k - 1);
    }
  }

  /** On a well-formed tree the descent never meets a null reference, and
      as many answers as the tree has nodes always reach a guess. */
  lemma {:induction false} WalkWellFormed(t: Tree, answers: seq<bool>)
    requires WellFormed(t)
    ensures Walk(t, answers).Err? ==> Walk(t, answers).error == InputExhausted
    ensures |answers| >= Size(t) ==> Walk(t, answers).Ok?
    decreases |answers|
  {
    if answers != [] && !IsAnswer(t) {
      WalkWellFormed(Child(t, answers[0]), answers[1..]);
    }
  }

  /** `playGame(node)` for the node at position `here`: questions consume
      an answer and descend, yes to the left; at an answer, `totalGames`
      goes up, a yes wins and bumps `gamesWon`, a no runs the learning
      step at that answer. */
  function PlayGame(g: Game, here: Path, answers: seq<bool>, lesson: Lesson): (r: Result<Game, PlayError>)
    ensures var w := Walk(At(g.root, here), answers);
      && (r.Ok? <==> w.Ok?)
      && (r.Err? ==> r.error == w.error)
      && (r.Ok? ==> r.value.totalGames == Inc(g.totalGames))
      && (r.Ok? ==> r.value.gamesWon == if answers[|w.value|] then Inc(g.gamesWon) else g.gamesWon)
      && (r.Ok? && answers[|w.value|] ==> r.value.root == g.root)
    decreases |answers|
  {
    var node := At(g.root, here);
    if node.Null? then Err(NullReference)
    else if answers == [] then Err(InputExhausted)
    else if IsAnswer(node) then
      var total := Inc(g.totalGames);
      if answers[0] then Ok(Game(g.root, total, Inc(g.gamesWon)))
      else Ok(Game(HandleWrongGuess(g.root, here, lesson), total, g.gamesWon))
    else
      AtStep(g.root, here, answers[0]);
      PlayGame(g, here + [answers[0]], answers[1..], lesson)
  }

  lemma StepThenPath(here: Path, b: bool, p: Path)
    ensures (here + [b]) + p == here + ([b] + p)
  {
  }

  /** A lost round leaves the tree with the learning step applied at the
      guessed answer, the one at the end of the route. */
  lemma {:induction false} PlayGameLearns(g: Game, here: Path, answers: seq<bool>, lesson: Lesson)
    requires PlayGame(g, here, answers, lesson).Ok?
    requires !answers[|Walk(At(g.root, here), answers).value|]
    ensures var at := here + Walk(At(g.root, here), answers).value;
      && At(g.root, at).Node?
      && PlayGame(g, here, answers, lesson).value.root == HandleWrongGuess(g.root, at, lesson)
    decreases |answers|
  {
    var node := At(g.root, here);
    var w := Walk(node, answers).value;
    if IsAnswer(node) {
      assert w == [] && here + w == here;
    } else {
      var b := answers[0];
      var next := here + [b];
      AtStep(g.root, here, b);
      var w' := Walk(At(g.root, next), answers[1..]).value;
      assert w == [b] + w';
      assert answers[|w|] == answers[1..][|w'|];
      assert PlayGame(g, here, answers, lesson) == PlayGame(g, next, answers[1..], lesson);
      PlayGameLearns(g, next, answers[1..], lesson);
      var at := next + w';
      StepThenPath(here, b, w');
      assert At(g.root, at).Node?;
      assert PlayGame(g, next, answers[1..], lesson).value.root == HandleWrongGuess(g.root, at, lesson);
    }
  }

  /** One round, `play()`: inputs for the whole round. */
  datatype Round = Round(answers: seq<bool>, lesson: Lesson)

  /** `play()`: `playGame` from the root. */
  function Play(g: Game, round: Round): (r: Result<Game, PlayError>)
    ensures var w := Walk(g.root, round.answers);
      && (r.Ok? <==> w.Ok?)
      && (r.Err? ==> r.error == w.error)
      && (r.Ok? ==> r.value.totalGames == Inc(g.totalGames))
      && (r.Ok? ==> r.value.gamesWon == if round.answers[|w.value|] then Inc(g.gamesWon) else g.gamesWon)
      && (r.Ok? && round.answers[|w.value|] ==> r.value.root == g.root)
  {
    PlayGame(g, [], round.answers, round.lesson)
  }

  /** A lost round applies the learning step at the guessed answer. */
  lemma PlayLearns(g: Game, round: Round)
    requires Play(g, round).Ok? && !round.answers[|Walk(g.root, round.answers).value|]
    ensures var at := Walk(g.root, round.answers).value;
      && At(g.root, at).Node?
      && Play(g, round).value.root == HandleWrongGuess(g.root, at, round.lesson)
  {
    PlayGameLearns(g, [], round.answers, round.lesson);
    assert [] + Walk(g.root, round.answers).value == Walk(g.root, round.answers).value;
  }

  /** Played on a well-formed tree, a round only fails for lack of answers,
      and with consistent counters that are not about to wrap, it keeps the
      counters consistent. */
  lemma PlayKeepsCounters(g: Game, round: Round)
    requires WellFormed(g.root) && CountersConsistent(g) && g.totalGames < MaxInt
    ensures Play(g, round).Err? ==> Play(g, round).error == InputExhausted
    ensures Play(g, round).Ok? ==> CountersConsistent(Play(g, round).value)
  {
    WalkWellFormed(g.root, round.answers);
  }

  /** A round on a well-formed tree keeps it well formed when the lesson
      pairs a question with an answer: a won round leaves it as it was, a
      lost one adds one question and one answer. */
  lemma PlayKeepsWellFormed(g: Game, round: Round)
    requires WellFormed(g.root) && Play(g, round).Ok?
    requires EndsWith(round.lesson.question, "?") && !EndsWith(round.lesson.userObject, "?")
    ensures WellFormed(Play(g, round).value.root)
    ensures Size(Play(g, round).value.root) == Size(g.root) + (if round.answers[|Walk(g.root, round.answers).value|] then 0 else 2)
    ensures Leaves(Play(g, round).value.root) == Leaves(g.root) + (if round.answers[|Walk(g.root, round.answers).value|] then 0 else 1)
  {
    var w := Walk(g.root, round.answers).value;
    if !round.answers[|w|] {
      PlayLearns(g, round);
      HandleWrongGuessSplices(g.root, w, round.lesson);
      HandleWrongGuessWellFormed(g.root, w, round.lesson);
    }
  }

  // ------------------------------------------------------------ files

  /** `save(output)`: the text written to the file. When no node's text
      holds a line break, the file's lines are the lines `saveTree` writes. */
  function Save(g: Game): (text: string)
    ensures g.root == Null <==> text == []
    ensures NoBreaks(g.root) ==> Split(text) == SaveTree(g.root)
  {
    if NoBreaks(g.root) then
      SaveTreeNoBreaks(g.root);
      SplitJoin(SaveTree(g.root));
      SaveText(g.root)
    else
      SaveText(g.root)
  }

  /** `load(input)`: the root becomes the tree read from the start of the
      file; the counters are untouched. On a badly formed line the call
      fails and the game keeps its old tree. Lines after the tree are left
      unread. */
  function Load(g: Game, text: string): (r: Result<Game, LoadError>)
    ensures r.Ok? <==> LoadText(text).Ok?
    ensures r.Ok? ==> r.value.root == LoadTree(Split(text)).value.tree
    ensures r.Ok? ==> r.value.totalGames == g.totalGames && r.value.gamesWon == g.gamesWon
    ensures text == [] ==> r == Ok(g.(root := Null))
  {
    match LoadText(text)
    case Ok(p) => Ok(g.(root := p.tree))
    case Err(e) => Err(e)
  }

  /** Saving and loading back restores the tree, into any game, when no
      text holds a line break or ends in a character `trim` removes. */
  lemma LoadSave(g: Game, h: Game)
    requires WellFormed(g.root) && Savable(g.root)
    ensures Load(h, Save(g)) == Ok(h.(root := g.root))
  {
    LoadSaveText(g.root);
  }

  // ------------------------------------------------------------ a session

  /** The lesson of the example session: a toaster is electronic. */
  const Toaster := Lesson("toaster", "Is it electronic?", true)

  /** The tree the example session learns. */
  const ToasterTree := Node("Is it electronic?", NewNode("toaster"), NewNode("computer"))

  /** The file that tree is saved as. */
  const ToasterFile := "Q:Is it electronic?\nA:toaster\nA:computer\n"

  /** The example tree's lines. */
  const ToasterLines: seq<string> := ["Q:Is it electronic?", "A:toaster", "A:computer"]

  lemma ToasterShape()
    ensures WellFormed(ToasterTree) && Savable(ToasterTree)
  {
    var t := ToasterTree;
    assert !IsAnswer(t) && IsAnswer(t.left) && IsAnswer(t.right);
  }

  /** An answer is saved as its one tagged line. */
  lemma SavedAnswer(v: string)
    requires !EndsWith(v, "?")
    ensures SaveTree(NewNode(v)) == [AnswerTag + v]
  {
  }

  lemma ToasterTagged()
    ensures QuestionTag + "Is it electronic?" == "Q:Is it electronic?"
    ensures AnswerTag + "toaster" == "A:toaster"
    ensures AnswerTag + "computer" == "A:computer"
  {
  }

  lemma ToasterSaveTree()
    ensures SaveTree(ToasterTree) == ToasterLines
  {
    var t := ToasterTree;
    SavedAnswer("toaster");
    SavedAnswer("computer");
    ToasterTagged();
    assert !IsAnswer(t);
    assert SaveTree(t) == [QuestionTag + t.value] + SaveTree(t.left) + SaveTree(t.right);
  }

  lemma ToasterJoin()
    ensures Join(ToasterLines) == ToasterFile
  {
    var ls := ToasterLines;
    assert ls[1..] == ["A:toaster", "A:computer"];
    assert ls[1..][1..] == ["A:computer"];
    assert ls[1..][1..][1..] == [];
  }

  /** The example tree is well formed and savable, and saves as the
      example file. */
  lemma ToasterSaved()
    ensures WellFormed(ToasterTree) && Savable(ToasterTree)
    ensures Save(Game(ToasterTree, 0, 0)) == ToasterFile
  {
    ToasterShape();
    ToasterSaveTree();
    ToasterJoin();
  }

  /** A fresh game guesses "computer"; told no and taught "toaster", it
      learns the example tree. */
  lemma LearnToaster()
    ensures Play(NewGame(), Round([false], Toaster)) == Ok(Game(ToasterTree, 1, 0))
    ensures Save(Play(NewGame(), Round([false], Toaster)).value) == ToasterFile
  {
    var g := NewGame();
    assert Walk(g.root, [false]) == Ok([]);
    PlayLearns(g, Round([false], Toaster));
    ToasterSaved();
  }

  /** Loading the example file into any game gives it the example tree. */
  lemma ReloadToaster(h: Game)
    ensures Load(h, ToasterFile) == Ok(h.(root := ToasterTree))
  {
    ToasterSaved();
    LoadSave(Game(ToasterTree, 0, 0), h);
  }

  /** In the example tree, yes to "Is it electronic?" leads to "toaster". */
  lemma ToasterRoute()
    ensures IsRoute(ToasterTree, [true])
  {
    assert [true][..0] == [];
    assert At(ToasterTree, [true]) == NewNode("toaster");
    assert IsAnswer(NewNode("toaster"));
  }

  /** Answering yes, then yes, on the example tree wins the round. */
  lemma WinToaster(g: Game)
    requires g.root == ToasterTree
    ensures Play(g, Round([true, true], Toaster))
         == Ok(Game(ToasterTree, Inc(g.totalGames), Inc(g.gamesWon)))
  {
    assert [true, true][..1] == [true];
    ToasterRoute();
    WalkFindsRoute(ToasterTree, [true, true], 1);
  }
}
