# Twenty Questions, modelled in Dafny

A model of the self-learning yes/no guessing game of the TwentyQuestions
repository: `QuestionTree` and `QuestionNode`. The game keeps a binary tree
of question and answer nodes. A node is a question exactly when its text
ends in `?`. A round walks the tree, following the left child on yes and
the right child on no, until it reaches an answer, which it offers as its
guess. When the guess is wrong, the game learns: it splices a new question
into the tree with the player's object as a new answer. The tree is saved
to a file and loaded back from it, one `Q:` or `A:` line per node in
pre-order. The game also counts games played and games won.

The project is split into modules:

- `Strings` (strings.dfy): `startsWith`, `endsWith` and `trim`.
- `LineText` (lines.dfy): the file as text, written by `println` and cut
  back into lines by `Scanner.nextLine`.
- `QuestionNode` (question_node.dfy): the node as an immutable datatype,
  `isAnswer`, and the well-formedness predicate. A well-formed tree has
  questions with two children and answers with none.
- `Positions` (positions.dfy): nodes named by the yes/no path from the
  root, and replacing the subtree at a position.
- `TreeFormat` (tree_format.dfy): `saveTree` and `loadTree`, at line level
  and at text level, with both round trips.
- `QuestionTree` (question_tree.dfy): the game state, `findParentNode`,
  `handleWrongGuess`, `playGame`/`play`, `save` and `load`.
- `Sequences` (sequences.dfy) and `Results` (results.dfy) are helpers.

Java object identity is modelled by position. Nodes are never shared and
the tree has no cycles, so the yes/no path from the root names a node. Two
references are the same node exactly when their paths are equal and a node
is there. `null` is the `Null` tree.

## Behaviour of the code worth knowing

- If `load` meets a bad line, `loadTree` throws before `overallRoot` is
  assigned, so the game keeps its previous tree. `QuestionTree.Load`
  returns an error and the caller keeps the old game.
- The load error message is "Invalid node format in the input file". It
  does not say which line was bad, so `LoadError` has no payload.
- A file that ends right after a `Q:` line is not an error. It gives a
  question whose children are null.
- An empty file loads as an empty tree. Playing on an empty tree, or
  reaching a question with a missing child, dereferences `null`. `Walk`,
  `PlayGame` and `Play` report this as `NullReference`.

## Model

| member | source | states |
|---|---|---|
| QuestionNode.NewNode | QuestionNode.java:8-10 | a new node holds the given text and has no children: it is a leaf, one node, one leaf |
| QuestionNode.SetLeft | QuestionNode.java:24-26 | only the yes-child changes; text and no-child are kept |
| QuestionNode.SetRight | QuestionNode.java:28-30 | only the no-child changes; text and yes-child are kept |
| QuestionNode.IsAnswer | QuestionNode.java:32-34 | a node is an answer exactly when its text is empty or its last character is not `?`, so `"?"` alone is a question and `""` an answer |
| Strings.Trim | QuestionTree.java:175 | `trim` keeps a contiguous infix of the line: every character stripped before or after it is at most U+0020, and the infix neither starts nor ends with such a character |
| Strings.TrimIdempotent | QuestionTree.java:175 | trimming a trimmed line changes nothing |
| LineText.Join | QuestionTree.java:144-146 | the text written is empty exactly when there are no lines, and otherwise ends with a line separator |
| LineText.Split | QuestionTree.java:171-175 | the lines `nextLine` returns hold no line terminator; an empty text has no lines and any other text has at least one |
| LineText.SplitJoin | QuestionTree.java:171-175 | reading back the text `println` wrote gives the same lines, provided no line holds a terminator |
| TreeFormat.SaveTree | QuestionTree.java:141-151 | null writes nothing; a node's first line is its tag and its text; an answer writes exactly one line, so its children are never visited; a well-formed tree writes one line per node |
| TreeFormat.SaveTreeTagged | QuestionTree.java:141-151 | every line written starts with `Q:` or `A:` |
| TreeFormat.SaveRendersEntries | QuestionTree.java:141-151 | the lines written are the nodes' tagged texts in pre-order: a node, then its yes subtree, then its no subtree |
| TreeFormat.ParseLine | QuestionTree.java:175-188 | a line is a question exactly when its trimmed form starts with `Q:`, malformed exactly when its trimmed form has neither tag, and the text kept is the trimmed line after the tag |
| TreeFormat.ReadTree | QuestionTree.java:170-189 | no lines left gives null; a malformed first line is an error; a success consumes exactly as many lines as the subtree has nodes and leaves the rest unread |
| TreeFormat.LoadTree | QuestionTree.java:170-189 | the same at the level of raw lines: an empty file gives null, a first line with neither tag is an invalid-format error, and the lines after the subtree are left unread |
| TreeFormat.LoadErrorHasBadLine | QuestionTree.java:186-188 | a load fails only when some line, once trimmed, has neither tag |
| TreeFormat.ReadOkTagged | QuestionTree.java:170-189 | a successful read consumed only question and answer lines: every malformed line it reaches is an error |
| TreeFormat.LoadOkTagged | QuestionTree.java:175-188 | a successful load consumed only lines that, once trimmed, start with `Q:` or `A:`; any other line the recursion reaches makes the load fail |
| TreeFormat.TruncatedQuestion | QuestionTree.java:171-181 | a file holding only a `Q:` line loads as that question with both children null, not as an error |
| TreeFormat.ParseSaved | QuestionTree.java:141-151 | the lines saved for a savable tree are read back as that tree's pre-order entries |
| TreeFormat.ReadEntries | QuestionTree.java:170-189 | reading the entries of a well-formed tree, followed by anything, rebuilds the same tree and leaves exactly what follows |
| TreeFormat.LoadSaveTree | QuestionTree.java:141-189 | loading the saved lines of a well-formed, savable tree, followed by any lines, rebuilds the identical tree and leaves the following lines unread |
| TreeFormat.EntriesRead | QuestionTree.java:170-189 | a load that builds a well-formed tree consumed exactly that tree's pre-order entries, provided every question line it read has a question's text |
| TreeFormat.SaveLoadTree | QuestionTree.java:141-189 | saving a loaded well-formed tree writes back the lines that were read, each in trimmed form |
| TreeFormat.SaveTreeNoBreaks | QuestionTree.java:141-151 | when no node's text holds a line terminator, no saved line holds one |
| TreeFormat.LoadSaveText | QuestionTree.java:132-189 | the whole file round trip: the text saved for a well-formed, savable tree loads back as the identical tree |
| QuestionTree.Inc | QuestionTree.java:54 | `++` on a Java `int` is addition modulo 2^32 in two's complement: one more below the maximum, the minimum after it |
| QuestionTree.NewGame | QuestionTree.java:28-35 | a new game is one well-formed answer leaf, "computer", with both counters at zero |
| QuestionTree.FindParent | QuestionTree.java:103-123 | the search finds a parent exactly when the target node lies strictly inside the subtree searched; the parent is then the position one step above the target; it finds none when the target is the subtree's own root or lies outside it |
| QuestionTree.FindParentFromRoot | QuestionTree.java:91-95 | searched from the root, the root has no parent and every other node's parent is one step above it |
| QuestionTree.Splice | QuestionTree.java:80-89 | the new question node holds the new question; its child on the side of the player's answer is the new answer leaf, and its other child is the guessed node |
| QuestionTree.HandleWrongGuess | QuestionTree.java:71-101 | whether the guessed node is the root or sits in a parent's yes or no slot, the result is the tree with the new question node in the guessed node's place |
| QuestionTree.HandleWrongGuessSplices | QuestionTree.java:71-101 | after learning, the guessed position holds the new question, one step on the player's answer is the new answer, one step the other way is the old node; the tree has two more nodes and one more leaf |
| QuestionTree.HandleWrongGuessElsewhere | QuestionTree.java:91-100 | every position outside the new question's subtree keeps its text |
| QuestionTree.HandleWrongGuessWellFormed | QuestionTree.java:80-89 | learning keeps a well-formed tree well formed exactly when the new question ends in `?` and the new object does not |
| QuestionTree.Walk | QuestionTree.java:51-69 | the descent follows the answers, yes to the left and no to the right, and stops at an answer node, leaving at least one answer to confirm the guess |
| QuestionTree.WalkRoute | QuestionTree.java:51-69 | every node the descent passes before its guess is a question |
| QuestionTree.WalkFindsRoute | QuestionTree.java:51-69 | conversely, answers that begin with a route to an answer, with one more answer after it, make the descent take that route |
| QuestionTree.WalkWellFormed | QuestionTree.java:51-69 | on a well-formed tree the descent never meets null, and as many answers as the tree has nodes always reach a guess |
| QuestionTree.PlayGame | QuestionTree.java:51-69 | a round ends exactly when the descent does; it adds one to `totalGames`, adds one to `gamesWon` exactly when the guess is confirmed, and a confirmed guess leaves the tree alone |
| QuestionTree.PlayGameLearns | QuestionTree.java:51-69 | a refused guess runs the learning step at the guessed answer, the end of the route |
| QuestionTree.Play | QuestionTree.java:47-49 | `play` is the same round from the root |
| QuestionTree.PlayLearns | QuestionTree.java:47-69 | a round whose guess is refused leaves the tree the learning step makes at the guessed answer |
| QuestionTree.PlayKeepsCounters | QuestionTree.java:51-69 | on a well-formed tree a round fails only when the answers run out, and it keeps `0 <= gamesWon <= totalGames` |
| QuestionTree.PlayKeepsWellFormed | QuestionTree.java:51-101 | with a question ending in `?` and an object that does not, a round keeps the tree well formed; a won round keeps its size, a lost round adds two nodes and one leaf |
| QuestionTree.Save | QuestionTree.java:132-139 | the file is empty exactly when the tree is empty; when no node's text holds a line terminator, the lines `nextLine` reads back from the file are exactly the lines `saveTree` writes |
| QuestionTree.Load | QuestionTree.java:162-168 | `load` succeeds exactly when the file's tree can be read; the root it installs is the tree `loadTree` reads from the file's lines, whatever wrote the file; it keeps both counters, and an empty file gives the empty tree |
| QuestionTree.LoadSave | QuestionTree.java:132-168 | loading a saved well-formed, savable tree into any game installs the identical tree and keeps that game's counters |
| QuestionTree.LearnToaster | QuestionTree.java:51-101 | from a new game, refusing "computer" and teaching "toaster" with "Is it electronic?" (yes) gives one game played, none won, and the file `Q:Is it electronic?`, `A:toaster`, `A:computer` |
| QuestionTree.ReloadToaster | QuestionTree.java:162-189 | loading that three-line file into any game installs the learned tree |
| QuestionTree.WinToaster | QuestionTree.java:51-69 | on that tree, yes to "Is it electronic?" and yes to "toaster" wins: both counters go up by one and the tree is unchanged |

## Left out

- The `UserInterface` prompts and their wording (`print`, `println`) are not modelled. The player's input for a round is a `Round`: the yes/no answers and a `Lesson` holding the object, the question and its answer.
- Real `PrintStream` and `Scanner` objects and `output.close()` are left out. The file is its text, and `println` writes "\n"; the platform line separator is not modelled.
- The null-argument checks for `ui`, `output` and `input` (QuestionTree.java:29-31, 133-135, 163-165) are left out: the model's arguments cannot be null.
- The getters `getValue`, `getLeft`, `getRight` (QuestionNode.java:12-22) and `totalGames()`, `gamesWon()` (QuestionTree.java:200-215) are the datatypes' fields.
- Java object identity and the heap are not modelled. Nodes are named by position; no node is shared, so comparing references and comparing positions agree.
- QuestionTree.PlayGame: when the answers run out at the confirmation prompt, Java has already incremented `totalGames` before the `UserInterface` fails. The model reports `InputExhausted` and keeps no partial state, because what the interface does when input runs out is not part of the model.
- QuestionTree.PlayKeepsCounters: `gamesWon <= totalGames` is proved only while `totalGames` is below 2^31 - 1. After that many games the Java `int` counter wraps to a negative value.
- TreeFormat.SaveLoadTree: it requires that every `Q:` line the load reads has a text ending in `?`; the lines after the tree are not constrained. A line such as `Q:abc` loads as a node that `isAnswer` calls an answer, so it is saved back as `A:abc` without its subtree.
- TreeFormat.LoadSaveTree, TreeFormat.LoadSaveText, QuestionTree.LoadSave: these require a savable tree. A text holding a line terminator is split across lines, and trailing characters at or below U+0020 are lost to `trim`.
