/** The file as text: `PrintStream.println` writes each line followed by a
    line separator, and `Scanner.nextLine` cuts the text back into lines.
    The separator written is "\n"; the reader accepts every terminator
    `Scanner` recognises. */
module LineText {

  /** The characters `Scanner` treats as ending a line ("\r\n" is one
      terminator made of two of them). */
  predicate IsLineTerminator(c: char) {
    c == '\n' || c == '\r' || c == '\U{2028}' || c == '\U{2029}' || c == '\U{0085}'
  }

  predicate HasNoLineBreak(s: string) {
    forall i :: 0 <= i < |s| ==> !IsLineTerminator(s[i])
  }

  /** The text written by calling `println` on each line in turn. */
  function Join(lines: seq<string>): (text: string)
    ensures lines == [] <==> text == []
    ensures text != [] ==> text[|text| - 1] == '\n'
  {
    if lines == [] then [] else lines[0] + "\n" + Join(lines[1..])
  }

  /** Position of the first line terminator in `s`, or `|s|` if none. */
  function FirstBreak(s: string): (i: nat)
    ensures i <= |s|
    ensures HasNoLineBreak(s[..i])
    ensures i < |s| ==> IsLineTerminator(s[i])
  {
    if s == [] || IsLineTerminator(s[0]) then 0
    else
      var i := 1 + FirstBreak(s[1..]);
      assert s[..i] == [s[0]] + s[1..][..i - 1];
      i
  }

  /** The lines successive `nextLine` calls return until `hasNextLine` is
      false: text up to each terminator, the terminator dropped, and a
      final unterminated piece kept as a line of its own. */
  function Split(text: string): (lines: seq<string>)
    ensures text == [] <==> lines == []
    ensures forall i :: 0 <= i < |lines| ==> HasNoLineBreak(lines[i])
    ensures |lines| <= |text|
    decreases |text|
  {
    if text == [] then []
    else
      var i := FirstBreak(text);
      if i == |text| then [text]
      else
        var k := if text[i] == '\r' && i + 1 < |text| && text[i + 1] == '\n' then 2 else 1;
        [text[..i]] + Split(text[i + k..])
  }

  /** Reading back what `println` wrote gives the same lines, provided no
      line holds a terminator of its own. */
  lemma {:induction false} SplitJoin(lines: seq<string>)
    requires forall i :: 0 <= i < |lines| ==> HasNoLineBreak(lines[i])
    ensures Split(Join(lines)) == lines
    decreases |lines|
  {
    if lines != [] {
      var l := lines[0];
      var rest := Join(lines[1..]);
      var text := l + "\n" + rest;
      assert text == Join(lines);
      assert text[..|l|] == l;
      assert HasNoLineBreak(text[..|l|]);
      assert FirstBreak(text) == |l| by {
        assert HasNoLineBreak(l);
        assert text[|l|] == '\n';
      }
      assert text[|l| + 1..] == rest;
      SplitJoin(lines[1..]);
      assert lines == [l] + lines[1..];
    }
  }
}
