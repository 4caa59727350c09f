/** The tree's file format: one line per node in pre-order, `Q:<text>` for a
    question, followed by its yes and then its no subtree, and `A:<text>`
    for an answer. There is no header, count or escaping. */
module TreeFormat {
  import opened Results
  import opened Strings
  import opened LineText
  import opened QuestionNode
  import opened Sequences

  const QuestionTag: string := "Q:"
  const AnswerTag: string := "A:"

  /** A line the loader accepts: it starts with one of the two tags. */
  predicate IsTagged(line: string) {
    StartsWith(line, QuestionTag) || StartsWith(line, AnswerTag)
  }

  // ---------------------------------------------------------------- save

  /** `saveTree`: the lines written for the subtree `t`. A null reference
      writes nothing; an answer writes one line and its children, if any,
      are never visited. */
  function SaveTree(t: Tree): (lines: seq<string>)
    ensures t == Null <==> lines == []
    ensures t.Node? ==> lines[0] == (if IsAnswer(t) then AnswerTag else QuestionTag) + t.value
    ensures t.Node? && IsAnswer(t) ==> |lines| == 1
    ensures WellFormed(t) ==> |lines| == Size(t)
  {
    match t
    case Null => []
    case Node(v, l, r) =>
      if IsAnswer(t) then [AnswerTag + v]
      else [QuestionTag + v] + SaveTree(l) + SaveTree(r)
  }

  /** Every saved line carries a tag the loader accepts. */
  lemma {:induction false} SaveTreeTagged(t: Tree)
    ensures forall i :: 0 <= i < |SaveTree(t)| ==> IsTagged(SaveTree(t)[i])
    decreases t
  {
    if t.Node? && !IsAnswer(t) {
      var ls := SaveTree(t.left);
      var rs := SaveTree(t.right);
      SaveTreeTagged(t.left);
      SaveTreeTagged(t.right);
      var lines := SaveTree(t);
      forall i | 0 <= i < |lines| ensures IsTagged(lines[i]) {
        if i == 0 {
        } else if i <= |ls| {
          assert lines[i] == ls[i - 1];
        } else {
          assert lines[i] == rs[i - 1 - |ls|];
        }
      }
    }
  }

  // ---------------------------------------------------------------- lines

  /** What one line holds once the loader has trimmed it and looked at its
      two-character tag. */
  datatype Line = QuestionLine(text: string) | AnswerLine(text: string) | Malformed

  /** Trims the line and splits off its tag; `Q:` is tried before `A:`. */
  function ParseLine(line: string): (k: Line)
    ensures k.QuestionLine? <==> StartsWith(Trim(line), QuestionTag)
    ensures k.Malformed? <==> !IsTagged(Trim(line))
    ensures k.QuestionLine? ==> Trim(line) == QuestionTag + k.text
    ensures k.AnswerLine? ==> Trim(line) == AnswerTag + k.text
  {
    var t := Trim(line);
    if StartsWith(t, QuestionTag) then QuestionLine(t[2..])
    else if StartsWith(t, AnswerTag) then AnswerLine(t[2..])
    else Malformed
  }

  /** Each line as the loader sees it. */
  function ParseAll(lines: seq<string>): (ks: seq<Line>)
    ensures |ks| == |lines|
    ensures forall i :: 0 <= i < |lines| ==> ks[i] == ParseLine(lines[i])
  {
    Map(ParseLine, lines)
  }

  /** The line a node is saved as, in its parsed form. */
  function Entry(n: Tree): Line
    requires n.Node?
  {
    if IsAnswer(n) then AnswerLine(n.value) else QuestionLine(n.value)
  }

  /** The parsed lines `saveTree` writes: the pre-order sequence of the
      nodes it visits. */
  function Entries(t: Tree): (es: seq<Line>)
    ensures Malformed !in es
  {
    match t
    case Null => []
    case Node(_, l, r) =>
      if IsAnswer(t) then [Entry(t)] else [Entry(t)] + Entries(l) + Entries(r)
  }

  // ---------------------------------------------------------------- load

  /** Why a load fails: a line, once trimmed, carries neither tag. */
  datatype LoadError = InvalidNodeFormat

  /** A subtree read from parsed lines, and the lines left unread. */
  datatype Read = Read(tree: Tree, rest: seq<Line>)

  /** The recursive descent of `loadTree` over parsed lines. Running out of
      lines gives the null reference rather than an error; a question line
      is followed by its yes subtree and then its no subtree. */
  function ReadTree(ks: seq<Line>): (r: Result<Read, LoadError>)
    ensures ks == [] ==> r == Ok(Read(Null, []))
    ensures ks != [] && ks[0].Malformed? ==> r == Err(InvalidNodeFormat)
    ensures r.Ok? ==> |r.value.rest| + Size(r.value.tree) == |ks|
    ensures r.Ok? ==> IsSuffix(r.value.rest, ks)
    decreases |ks|
  {
    if ks == [] then Ok(Read(Null, []))
    else
      match ks[0]
      case QuestionLine(text) =>
        var yes := ReadTree(ks[1..]);
        if yes.Err? then Err(yes.error)
        else
          var no := ReadTree(yes.value.rest);
          if no.Err? then Err(no.error)
          else
            SuffixTrans(yes.value.rest, ks[1..], ks);
            SuffixTrans(no.value.rest, yes.value.rest, ks);
            var node := SetRight(SetLeft(NewNode(text), yes.value.tree), no.value.tree);
            Ok(Read(node, no.value.rest))
      case AnswerLine(text) => Ok(Read(NewNode(text), ks[1..]))
      case Malformed => Err(InvalidNodeFormat)
  }

  /** A loaded subtree and the lines left unread after it. */
  datatype Parsed = Parsed(tree: Tree, rest: seq<string>)

  /** `loadTree`: reads one subtree in pre-order from the lines. Each line
      is trimmed and classified by its tag as it is reached; the lines after
      the subtree are left unread. */
  function LoadTree(lines: seq<string>): (r: Result<Parsed, LoadError>)
    ensures lines == [] ==> r == Ok(Parsed(Null, []))
    ensures lines != [] && !IsTagged(Trim(lines[0])) ==> r == Err(InvalidNodeFormat)
    ensures r.Ok? ==> |r.value.rest| + Size(r.value.tree) == |lines|
    ensures r.Ok? ==> IsSuffix(r.value.rest, lines)
  {
    var ks := ParseAll(lines);
    match ReadTree(ks)
    case Err(e) => Err(e)
    case Ok(Read(t, rest)) => Ok(Parsed(t, lines[|lines| - |rest|..]))
  }

  // ---------------------------------------------------------------- errors

  /** A read fails only because of a line it reached: some line is
      malformed. */
  lemma {:induction false} ReadErrorHasBadLine(ks: seq<Line>)
    requires ReadTree(ks).Err?
    ensures exists i :: 0 <= i < |ks| && ks[i].Malformed?
    decreases |ks|
  {
    if !ks[0].Malformed? {
      var yes := ReadTree(ks[1..]);
      if yes.Err? {
        ReadErrorHasBadLine(ks[1..]);
        var i :| 0 <= i < |ks[1..]| && ks[1..][i].Malformed?;
        assert ks[i + 1].Malformed?;
      } else {
        var rest := yes.value.rest;
        ReadErrorHasBadLine(rest);
        var i :| 0 <= i < |rest| && rest[i].Malformed?;
        assert ks[|ks| - |rest| + i].Malformed?;
      }
    }
  }

  /** A successful read met only tagged lines: every line it consumed is a
      question line or an answer line. */
  lemma {:induction false} ReadOkTagged(ks: seq<Line>)
    requires ReadTree(ks).Ok?
    ensures forall i :: 0 <= i < |ks| - |ReadTree(ks).value.rest| ==> !ks[i].Malformed?
    decreases |ks|
  {
    if ks != [] && ks[0].QuestionLine? {
      ReadQuestion(ks);
      var yes := ReadTree(ks[1..]).value;
      var n := |ks| - |ReadTree(ks).value.rest|;
      ReadOkTagged(ks[1..]);
      ReadOkTagged(yes.rest);
      forall i | 0 <= i < n ensures !ks[i].Malformed? {
        if 0 < i < |ks| - |yes.rest| {
          assert ks[i] == ks[1..][i - 1];
        } else if i >= |ks| - |yes.rest| {
          assert ks[i] == yes.rest[i - (|ks| - |yes.rest|)];
        }
      }
    }
  }

  /** A load fails only because some line of the input, once trimmed,
      carries neither tag. */
  lemma LoadErrorHasBadLine(lines: seq<string>)
    requires LoadTree(lines).Err?
    ensures exists i :: 0 <= i < |lines| && !IsTagged(Trim(lines[i]))
  {
    var ks := ParseAll(lines);
    ReadErrorHasBadLine(ks);
    var i :| 0 <= i < |ks| && ks[i].Malformed?;
    assert !IsTagged(Trim(lines[i]));
  }

  /** A successful load read only tagged lines: every line it consumed,
      once trimmed, starts with `Q:` or `A:`. */
  lemma LoadOkTagged(lines: seq<string>)
    requires LoadTree(lines).Ok?
    ensures forall i :: 0 <= i < |lines| - |LoadTree(lines).value.rest| ==> IsTagged(Trim(lines[i]))
  {
    var ks := ParseAll(lines);
    ReadOkTagged(ks);
    forall i | 0 <= i < |lines| - |LoadTree(lines).value.rest| ensures IsTagged(Trim(lines[i])) {
      assert !ks[i].Malformed?;
    }
  }

  /** A file that ends right after a question line yields that question
      with both children null, not an error. */
  lemma TruncatedQuestion(line: string)
    requires StartsWith(Trim(line), QuestionTag)
    ensures LoadTree([line]) == Ok(Parsed(Node(Trim(line)[2..], Null, Null), []))
  {
    var ks := ParseAll([line]);
    assert ks == [QuestionLine(Trim(line)[2..])];
    assert ks[1..] == [];
  }

  // ---------------------------------------------------------------- load after save

  /** No text of the tree holds a line terminator. */
  predicate NoBreaks(t: Tree) {
    match t
    case Null => true
    case Node(v, l, r) => HasNoLineBreak(v) && NoBreaks(l) && NoBreaks(r)
  }

  /** The texts of a tree can be saved and read back unchanged: no text
      holds a line terminator, and no text ends in a character that `trim`
      would strip. Question texts end in "?", so for them only the first
      condition matters. */
  predicate Savable(t: Tree) {
    match t
    case Null => true
    case Node(v, l, r) =>
      && HasNoLineBreak(v)
      && (v == [] || !IsTrimmable(v[|v| - 1]))
      && Savable(l) && Savable(r)
  }

  /** A savable tree has no line terminator in any text. */
  lemma {:induction false} SavableNoBreaks(t: Tree)
    requires Savable(t)
    ensures NoBreaks(t)
    decreases t
  {
    if t.Node? {
      SavableNoBreaks(t.left);
      SavableNoBreaks(t.right);
    }
  }

  /** A line written for a savable node parses back to the node's entry. */
  lemma ParseSavedLine(tag: string, v: string)
    requires tag == QuestionTag || tag == AnswerTag
    requires v == [] || !IsTrimmable(v[|v| - 1])
    ensures ParseLine(tag + v) == if tag == QuestionTag then QuestionLine(v) else AnswerLine(v)
  {
    var s := tag + v;
    assert s[0] == tag[0] && !IsTrimmable(s[0]);
    assert !IsTrimmable(s[|s| - 1]) by {
      if v != [] {
        assert s[|s| - 1] == v[|v| - 1];
      }
    }
    TrimUntrimmed(s);
    assert s[..2] == tag && s[2..] == v;
  }

  lemma ParseAllAppend(a: seq<string>, b: seq<string>)
    ensures ParseAll(a + b) == ParseAll(a) + ParseAll(b)
  {
    MapAppend(ParseLine, a, b);
  }

  lemma ParseAllCons(a: string, l: seq<string>, r: seq<string>)
    ensures ParseAll([a] + l + r) == [ParseLine(a)] + ParseAll(l) + ParseAll(r)
  {
    MapCons(ParseLine, a, l, r);
  }

  /** Parsing the saved lines of a savable tree gives its entries. */
  lemma {:induction false} ParseSaved(t: Tree)
    requires Savable(t)
    ensures ParseAll(SaveTree(t)) == Entries(t)
    decreases t
  {
    if t.Node? {
      if IsAnswer(t) {
        ParseSavedLine(AnswerTag, t.value);
      } else {
        var line := QuestionTag + t.value;
        ParseSavedLine(QuestionTag, t.value);
        ParseSaved(t.left);
        ParseSaved(t.right);
        ParseAllCons(line, SaveTree(t.left), SaveTree(t.right));
      }
    }
  }

  /** Reading the entries of a well-formed tree, followed by anything at
      all, rebuilds the same tree and leaves exactly what follows. */
  lemma {:induction false} ReadEntries(t: Tree, rest: seq<Line>)
    requires WellFormed(t)
    ensures ReadTree(Entries(t) + rest) == Ok(Read(t, rest))
    decreases t
  {
    var ks := Entries(t) + rest;
    if IsAnswer(t) {
      assert ks[1..] == rest;
    } else {
      var ls := Entries(t.left);
      var rs := Entries(t.right);
      assert ks[1..] == ls + (rs + rest);
      ReadEntries(t.left, rs + rest);
      ReadEntries(t.right, rest);
    }
  }

  /** Loading what `saveTree` wrote, followed by any other lines, rebuilds
      the same tree and leaves exactly the following lines unread. */
  lemma LoadSaveTree(t: Tree, rest: seq<string>)
    requires WellFormed(t) && Savable(t)
    ensures LoadTree(SaveTree(t) + rest) == Ok(Parsed(t, rest))
  {
    ParseAllAppend(SaveTree(t), rest);
    ParseSaved(t);
    ReadEntries(t, ParseAll(rest));
  }

  // ---------------------------------------------------------------- save after load

  /** Line `i`, if it is a question line, has a question's text: it ends in
      "?". The loader does not check this; a `Q:` line without it builds a
      node that `isAnswer` then classifies as an answer. */
  predicate MarkedAt(ks: seq<Line>, i: nat)
    requires i < |ks|
  {
    ks[i].QuestionLine? ==> EndsWith(ks[i].text, "?")
  }

  /** The first `n` lines are marked. */
  predicate QuestionsMarked(ks: seq<Line>, n: nat) {
    forall i :: 0 <= i < n && i < |ks| ==> MarkedAt(ks, i)
  }

  /** A question line is followed by its yes subtree and then its no
      subtree. */
  lemma ReadQuestion(ks: seq<Line>)
    requires ReadTree(ks).Ok? && ks != [] && ks[0].QuestionLine?
    ensures ReadTree(ks[1..]).Ok?
    ensures ReadTree(ReadTree(ks[1..]).value.rest).Ok?
    ensures var yes := ReadTree(ks[1..]).value;
            var no := ReadTree(yes.rest).value;
            ReadTree(ks).value == Read(Node(ks[0].text, yes.tree, no.tree), no.rest)
  {
  }

  /** When the lines read for a question are marked, so are the lines read
      for its yes subtree and for its no subtree. */
  lemma QuestionsMarkedParts(ks: seq<Line>, mid: seq<Line>, rest: seq<Line>)
    requires IsSuffix(mid, ks) && |rest| <= |mid| < |ks|
    requires QuestionsMarked(ks, |ks| - |rest|)
    ensures QuestionsMarked(ks[1..], |ks| - 1 - |mid|)
    ensures QuestionsMarked(mid, |mid| - |rest|)
  {
    forall i | 0 <= i < |ks| - 1 - |mid| ensures MarkedAt(ks[1..], i) {
      assert MarkedAt(ks, i + 1);
    }
    forall i | 0 <= i < |mid| - |rest| ensures MarkedAt(mid, i) {
      assert MarkedAt(ks, |ks| - |mid| + i);
    }
  }

  /** A question line, then the lines of its yes subtree, then those of
      its no subtree, then the rest. */
  lemma SpliceLines(ks: seq<Line>, head: Line, e1: seq<Line>, r1: seq<Line>, e2: seq<Line>, r2: seq<Line>)
    requires ks != [] && ks[0] == head && ks[1..] == e1 + r1 && r1 == e2 + r2
    ensures ks == ([head] + e1 + e2) + r2
  {
    assert ks == [ks[0]] + ks[1..];
  }

  /** A well-formed question read from marked lines: its children are well
      formed and were read, in turn, from marked lines, and its entries are
      its own line followed by theirs. */
  lemma ReadMarkedQuestion(ks: seq<Line>, t: Tree, rest: seq<Line>) returns (yes: Read, no: Read)
    requires ReadTree(ks) == Ok(Read(t, rest)) && WellFormed(t)
    requires QuestionsMarked(ks, |ks| - |rest|)
    requires ks != [] && ks[0].QuestionLine?
    ensures ReadTree(ks[1..]) == Ok(yes) && ReadTree(yes.rest) == Ok(no) && no.rest == rest
    ensures WellFormed(yes.tree) && WellFormed(no.tree)
    ensures QuestionsMarked(ks[1..], |ks[1..]| - |yes.rest|)
    ensures QuestionsMarked(yes.rest, |yes.rest| - |no.rest|)
    ensures Entries(t) == [ks[0]] + Entries(yes.tree) + Entries(no.tree)
  {
    ReadQuestion(ks);
    yes := ReadTree(ks[1..]).value;
    no := ReadTree(yes.rest).value;
    assert t == Node(ks[0].text, yes.tree, no.tree) && rest == no.rest;
    assert MarkedAt(ks, 0);
    QuestionsMarkedParts(ks, yes.rest, rest);
  }

  /** Reading a well-formed tree consumes exactly that tree's entries,
      provided every question line read has a question's text. */
  lemma {:induction false} EntriesRead(ks: seq<Line>, t: Tree, rest: seq<Line>)
    requires ReadTree(ks) == Ok(Read(t, rest)) && WellFormed(t)
    requires QuestionsMarked(ks, |ks| - |rest|)
    ensures ks == Entries(t) + rest
    decreases |ks|
  {
    if ks[0].QuestionLine? {
      var yes, no := ReadMarkedQuestion(ks, t, rest);
      EntriesRead(ks[1..], yes.tree, yes.rest);
      EntriesRead(yes.rest, no.tree, no.rest);
      SpliceLines(ks, ks[0], Entries(yes.tree), yes.rest, Entries(no.tree), no.rest);
    } else {
      assert ks[0].AnswerLine?;
      assert t == NewNode(ks[0].text) && rest == ks[1..];
      assert ks == [ks[0]] + ks[1..];
    }
  }

  /** A parsed line put back into text: its tag and its text. A malformed
      line has no text to put back; it never occurs among a tree's
      entries. */
  function Render(k: Line): string {
    match k
    case QuestionLine(v) => QuestionTag + v
    case AnswerLine(v) => AnswerTag + v
    case Malformed => ""
  }

  /** Rendering a well-tagged line gives back the line, trimmed. */
  lemma RenderParsed(line: string)
    requires !ParseLine(line).Malformed?
    ensures Render(ParseLine(line)) == Trim(line)
  {
  }

  /** The saved lines are the tree's entries, rendered. */
  lemma {:induction false} SaveRendersEntries(t: Tree)
    ensures SaveTree(t) == Map(Render, Entries(t))
    decreases t
  {
    if t.Node? && !IsAnswer(t) {
      SaveRendersEntries(t.left);
      SaveRendersEntries(t.right);
      MapCons(Render, Entry(t), Entries(t.left), Entries(t.right));
    }
  }

  /** Saving a well-formed tree that was loaded gives back the lines it was
      loaded from, each in trimmed form, provided every question line read
      has a question's text. */
  lemma SaveLoadTree(lines: seq<string>)
    requires LoadTree(lines).Ok? && WellFormed(LoadTree(lines).value.tree)
    requires QuestionsMarked(ParseAll(lines), |lines| - |LoadTree(lines).value.rest|)
    ensures var p := LoadTree(lines).value;
            var used := lines[..|lines| - |p.rest|];
            |SaveTree(p.tree)| == |used| &&
            forall i :: 0 <= i < |used| ==> SaveTree(p.tree)[i] == Trim(used[i])
  {
    var ks := ParseAll(lines);
    var r := ReadTree(ks).value;
    var p := LoadTree(lines).value;
    assert p.tree == r.tree && |p.rest| == |r.rest|;
    EntriesRead(ks, r.tree, r.rest);
    var es := Entries(r.tree);
    assert ks[..|es|] == es;
    SaveRendersEntries(p.tree);
    var used := lines[..|lines| - |p.rest|];
    forall i | 0 <= i < |used| ensures SaveTree(p.tree)[i] == Trim(used[i]) {
      assert es[i] == ks[i] == ParseLine(used[i]);
      assert es[i] in es;
      RenderParsed(used[i]);
    }
  }

  // ---------------------------------------------------------------- text

  /** A tag followed by a text without line terminators has none. */
  lemma TaggedNoBreak(tag: string, v: string)
    requires HasNoLineBreak(tag) && HasNoLineBreak(v)
    ensures HasNoLineBreak(tag + v)
  {
    forall i | 0 <= i < |tag + v| ensures !IsLineTerminator((tag + v)[i]) {
      if i >= |tag| {
        assert (tag + v)[i] == v[i - |tag|];
      }
    }
  }

  /** A line followed by two blocks of lines, none with a line terminator. */
  lemma NoBreaksCons(a: string, l: seq<string>, r: seq<string>)
    requires HasNoLineBreak(a)
    requires forall i :: 0 <= i < |l| ==> HasNoLineBreak(l[i])
    requires forall i :: 0 <= i < |r| ==> HasNoLineBreak(r[i])
    ensures forall i :: 0 <= i < |[a] + l + r| ==> HasNoLineBreak(([a] + l + r)[i])
  {
    var s := [a] + l + r;
    forall i | 0 <= i < |s| ensures HasNoLineBreak(s[i]) {
      if i == 0 {
      } else if i <= |l| {
        assert s[i] == l[i - 1];
      } else {
        assert s[i] == r[i - 1 - |l|];
      }
    }
  }

  /** When no text of the tree holds a line terminator, no saved line
      does. */
  lemma {:induction false} SaveTreeNoBreaks(t: Tree)
    requires NoBreaks(t)
    ensures forall i :: 0 <= i < |SaveTree(t)| ==> HasNoLineBreak(SaveTree(t)[i])
    decreases t
  {
    if t.Node? {
      var tag := if IsAnswer(t) then AnswerTag else QuestionTag;
      TaggedNoBreak(tag, t.value);
      if !IsAnswer(t) {
        SaveTreeNoBreaks(t.left);
        SaveTreeNoBreaks(t.right);
        NoBreaksCons(tag + t.value, SaveTree(t.left), SaveTree(t.right));
      }
    }
  }

  /** `saveTree` followed by closing the stream: the whole file's text. */
  function SaveText(t: Tree): (text: string)
    ensures t == Null <==> text == []
  {
    Join(SaveTree(t))
  }

  /** `loadTree` applied to a file's text. */
  function LoadText(text: string): (r: Result<Parsed, LoadError>)
    ensures text == [] ==> r == Ok(Parsed(Null, []))
  {
    LoadTree(Split(text))
  }

  /** The file round trip: a well-formed, savable tree is read back from its
      own file, with no line left over. */
  lemma LoadSaveText(t: Tree)
    requires WellFormed(t) && Savable(t)
    ensures LoadText(SaveText(t)) == Ok(Parsed(t, []))
  {
    SavableNoBreaks(t);
    SaveTreeNoBreaks(t);
    SplitJoin(SaveTree(t));
    LoadSaveTree(t, []);
    assert SaveTree(t) + [] == SaveTree(t);
  }
}
