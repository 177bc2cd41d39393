/**
 * QuickFixHelper.contentForRange: the source text from the start of one
 * token to the end of another, rebuilt from the lines of the file.
 */
module SourceText {
  import opened Wrappers
  import opened Syntax
  import TokenLocator

  /** Pieces of text joined with "\n" between consecutive pieces. */
  function JoinLines(pieces: seq<string>): (s: string)
    requires |pieces| >= 1
    ensures |pieces| == 1 ==> s == pieces[0]
  {
    if |pieces| == 1 then pieces[0] else pieces[0] + "\n" + JoinLines(pieces[1..])
  }

  /** Joining one more piece appends a separator and that piece. */
  lemma {:induction false} JoinLinesSnoc(pieces: seq<string>, last: string)
    requires |pieces| >= 1
    ensures JoinLines(pieces + [last]) == JoinLines(pieces) + "\n" + last
    decreases |pieces|
  {
    if |pieces| > 1 {
      assert (pieces + [last])[1..] == pieces[1..] + [last];
      JoinLinesSnoc(pieces[1..], last);
    } else {
      assert (pieces + [last])[1..] == [last];
    }
  }

  /** String.indexOf(char): the first position holding `c`. */
  function IndexOfChar(s: string, c: char): (k: nat)
    requires c in s
    ensures k < |s| && s[k] == c && c !in s[..k]
  {
    if s[0] == c then 0
    else
      var k := 1 + IndexOfChar(s[1..], c);
      assert s[..k] == [s[0]] + s[1..][..k - 1];
      k
  }

  /** Splits a text at every "\n": the inverse of JoinLines. */
  function SplitLines(s: string): (pieces: seq<string>)
    ensures |pieces| >= 1
    decreases |s|
  {
    if '\n' !in s then [s]
    else
      var k := IndexOfChar(s, '\n');
      [s[..k]] + SplitLines(s[k + 1..])
  }

  /** Pieces free of "\n" are recovered by splitting their join. */
  lemma {:induction false} SplitJoinLines(pieces: seq<string>)
    requires |pieces| >= 1
    requires forall i :: 0 <= i < |pieces| ==> '\n' !in pieces[i]
    ensures SplitLines(JoinLines(pieces)) == pieces
    decreases |pieces|
  {
    if |pieces| > 1 {
      var s := JoinLines(pieces);
      var head := pieces[0];
      assert s == head + "\n" + JoinLines(pieces[1..]);
      assert s[|head|] == '\n';
      assert s[..|head|] == head;
      assert IndexOfChar(s, '\n') == |head|;
      assert s[|head| + 1..] == JoinLines(pieces[1..]);
      SplitJoinLines(pieces[1..]);
      assert [head] + pieces[1..] == pieces;
    }
  }

  /** What contentForRange needs of its arguments to not throw. */
  ghost predicate RangeInBounds(firstToken: Token, endToken: Token, fileLines: seq<string>) {
    var beginIndex := firstToken.column;
    var endIndex := endToken.column + |endToken.text|;
    && 1 <= firstToken.line <= endToken.line <= |fileLines|
    && (if firstToken.line == endToken.line then
          beginIndex <= endIndex <= |fileLines[firstToken.line - 1]|
        else
          beginIndex <= |fileLines[firstToken.line - 1]| && endIndex <= |fileLines[endToken.line - 1]|)
  }

  /**
   * The pieces of a range spanning several lines: the tail of the first
   * line, every line in between, and the head of the last line.
   */
  function RangePieces(firstToken: Token, endToken: Token, fileLines: seq<string>): (pieces: seq<string>)
    requires RangeInBounds(firstToken, endToken, fileLines) && firstToken.line < endToken.line
    ensures |pieces| == endToken.line - firstToken.line + 1
    ensures pieces[0] == fileLines[firstToken.line - 1][firstToken.column..]
    ensures pieces[|pieces| - 1] == fileLines[endToken.line - 1][..endToken.column + |endToken.text|]
    ensures forall i :: 0 < i < |pieces| - 1 ==> pieces[i] == fileLines[firstToken.line - 1 + i]
  {
    [fileLines[firstToken.line - 1][firstToken.column..]]
    + fileLines[firstToken.line..endToken.line - 1]
    + [fileLines[endToken.line - 1][..endToken.column + |endToken.text|]]
  }

  /** The text a range stands for. */
  function RangeText(firstToken: Token, endToken: Token, fileLines: seq<string>): string
    requires RangeInBounds(firstToken, endToken, fileLines)
  {
    if firstToken.line == endToken.line then
      fileLines[firstToken.line - 1][firstToken.column..endToken.column + |endToken.text|]
    else
      JoinLines(RangePieces(firstToken, endToken, fileLines))
  }

  /**
   * contentForRange. `fileLines` are the lines of the file, given by the
   * caller in place of the scanner context.
   */
  method ContentForRange(firstToken: Token, endToken: Token, fileLines: seq<string>) returns (content: string)
    requires RangeInBounds(firstToken, endToken, fileLines)
    ensures content == RangeText(firstToken, endToken, fileLines)
  {
    var startLine := firstToken.line;
    var endLine := endToken.line;
    var beginIndex := firstToken.column;
    var endIndex := endToken.column + |endToken.text|;
    if startLine == endLine {
      return fileLines[startLine - 1][beginIndex..endIndex];
    }
    var lines := fileLines[startLine - 1..endLine];
    ghost var pieces := RangePieces(firstToken, endToken, fileLines);
    var sb := lines[0][beginIndex..] + "\n";
    var i := 1;
    while i < |lines| - 1
      invariant 1 <= i <= |lines| - 1
      invariant sb == JoinLines(pieces[..i]) + "\n"
    {
      JoinLinesSnoc(pieces[..i], lines[i]);
      assert pieces[..i] + [lines[i]] == pieces[..i + 1];
      sb := sb + lines[i] + "\n";
      i := i + 1;
    }
    sb := sb + lines[|lines| - 1][..endIndex];
    JoinLinesSnoc(pieces[..i], pieces[i]);
    assert pieces[..i] + [pieces[i]] == pieces;
    content := sb;
  }

  /**
   * The single-line case is exactly the characters from the first token's
   * column up to the end of the end token.
   */
  lemma SingleLineRange(firstToken: Token, endToken: Token, fileLines: seq<string>)
    requires RangeInBounds(firstToken, endToken, fileLines) && firstToken.line == endToken.line
    ensures var text := RangeText(firstToken, endToken, fileLines);
      && |text| == endToken.column + |endToken.text| - firstToken.column
      && forall i :: 0 <= i < |text| ==> text[i] == fileLines[firstToken.line - 1][firstToken.column + i]
  {
  }

  /**
   * When the lines carry no "\n" of their own, the text of a multi-line
   * range splits back into its pieces: one "\n" between consecutive pieces
   * and none after the last.
   */
  lemma MultiLineRangeSplits(firstToken: Token, endToken: Token, fileLines: seq<string>)
    requires RangeInBounds(firstToken, endToken, fileLines) && firstToken.line < endToken.line
    requires forall i :: 0 <= i < |fileLines| ==> '\n' !in fileLines[i]
    ensures SplitLines(RangeText(firstToken, endToken, fileLines)) == RangePieces(firstToken, endToken, fileLines)
  {
    var pieces := RangePieces(firstToken, endToken, fileLines);
    forall i | 0 <= i < |pieces| ensures '\n' !in pieces[i] {
      var line := fileLines[firstToken.line - 1 + i];
      if i == 0 {
        assert forall c :: c in line[firstToken.column..] ==> c in line;
      } else if i == |pieces| - 1 {
        line := fileLines[endToken.line - 1];
        assert forall c :: c in line[..endToken.column + |endToken.text|] ==> c in line;
      }
    }
    SplitJoinLines(pieces);
  }

  /**
   * contentForTree: the text of a subtree, from its first token to its last.
   * The source dereferences both tokens, so the subtree must hold one.
   */
  method ContentForTree(t: TokenLocator.Tree, n: nat, fileLines: seq<string>) returns (content: string)
    requires n < |t| && t[n].firstToken.Some? && t[n].lastToken.Some?
    requires RangeInBounds(t[n].firstToken.value, t[n].lastToken.value, fileLines)
    ensures content == RangeText(t[n].firstToken.value, t[n].lastToken.value, fileLines)
  {
    content := ContentForRange(t[n].firstToken.value, t[n].lastToken.value, fileLines);
  }
}
