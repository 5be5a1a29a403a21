/** Multi-line text: joining lines with a newline separator, as
    `Array.prototype.join("\n")` does, and splitting text back into lines. */
module TextLines {

  const Newline: char := '\n'

  /** The lines separated by one newline each; no newline before the first
      line or after the last. */
  function JoinLines(lines: seq<string>): (s: string)
  {
    if |lines| == 0 then ""
    else if |lines| == 1 then lines[0]
    else JoinLines(lines[..|lines| - 1]) + [Newline] + lines[|lines| - 1]
  }

  /** The joined text starts with the first line and ends with the last, and
      holds a newline as soon as there are two lines; no lines join to "". */
  lemma {:induction false} JoinLinesEnds(lines: seq<string>)
    ensures |lines| == 0 ==> JoinLines(lines) == ""
    ensures |lines| >= 1 ==> var s, first := JoinLines(lines), lines[0];
      |first| <= |s| && s[..|first|] == first
    ensures |lines| >= 1 ==> var s, last := JoinLines(lines), lines[|lines| - 1];
      |last| <= |s| && s[|s| - |last|..] == last
    ensures |lines| >= 2 ==> Newline in JoinLines(lines)
  {
    if |lines| >= 2 {
      var init, last := lines[..|lines| - 1], lines[|lines| - 1];
      JoinLinesEnds(init);
      var head := JoinLines(init);
      var s := head + [Newline] + last;
      assert s[..|init[0]|] == head[..|init[0]|];
      assert s[|head|] == Newline;
      assert s[|s| - |last|..] == last;
    }
  }

  /** Joining two non-empty groups of lines separately and then joining the
      two results gives the join of all the lines. */
  lemma {:induction false} JoinLinesConcat(a: seq<string>, b: seq<string>)
    requires |a| >= 1 && |b| >= 1
    ensures JoinLines(a + b) == JoinLines(a) + [Newline] + JoinLines(b)
    decreases |b|
  {
    var ab := a + b;
    if |b| == 1 {
      assert ab[..|ab| - 1] == a;
    } else {
      var init := b[..|b| - 1];
      JoinLinesConcat(a, init);
      assert ab[..|ab| - 1] == a + init;
    }
  }

  /** Appending a piece that is itself a join of a group of lines extends the
      joined text by that group. */
  lemma JoinPiece(pieces: seq<string>, piece: string, before: seq<string>, group: seq<string>)
    requires |pieces| >= 1 && |before| >= 1 && |group| >= 1
    requires JoinLines(pieces) == JoinLines(before) && piece == JoinLines(group)
    ensures JoinLines(pieces + [piece]) == JoinLines(before + group)
  {
    JoinLinesConcat(pieces, [piece]);
    JoinLinesConcat(before, group);
  }

  /** `s` holds no newline. */
  predicate NoNewline(s: string) {
    forall i :: 0 <= i < |s| ==> s[i] != Newline
  }

  /** The position of the last newline of `s`, or -1 when there is none. */
  function LastNewline(s: string): (k: int)
    ensures -1 <= k < |s|
    ensures k >= 0 ==> s[k] == Newline
    ensures forall i :: k < i < |s| ==> s[i] != Newline
  {
    if s == [] then -1
    else if s[|s| - 1] == Newline then |s| - 1
    else LastNewline(s[..|s| - 1])
  }

  /** The lines of `s`: the maximal newline-free pieces between newlines. */
  function SplitLines(s: string): (lines: seq<string>)
    ensures |lines| >= 1
    ensures forall i :: 0 <= i < |lines| ==> NoNewline(lines[i])
    decreases |s|
  {
    var k := LastNewline(s);
    if k < 0 then [s] else SplitLines(s[..k]) + [s[k + 1..]]
  }

  /** Splitting joined newline-free lines gives the lines back: the text has
      exactly `|lines|` lines. */
  lemma {:induction false} SplitJoin(lines: seq<string>)
    requires |lines| >= 1
    requires forall i :: 0 <= i < |lines| ==> NoNewline(lines[i])
    ensures SplitLines(JoinLines(lines)) == lines
  {
    if |lines| == 1 {
      assert LastNewline(lines[0]) == -1;
    } else {
      var init, last := lines[..|lines| - 1], lines[|lines| - 1];
      var head := JoinLines(init);
      var s := head + [Newline] + last;
      assert s[..|head|] == head;
      assert s[|head| + 1..] == last;
      LastNewlineAfter(head, last);
      SplitJoin(init);
      assert lines == init + [last];
    }
  }

  /** The last newline of `head + "\n" + last` is the separator when `last`
      holds none. */
  lemma {:induction false} LastNewlineAfter(head: string, last: string)
    requires NoNewline(last)
    ensures LastNewline(head + [Newline] + last) == |head|
    decreases |last|
  {
    var s := head + [Newline] + last;
    if last != [] {
      assert s[..|s| - 1] == head + [Newline] + last[..|last| - 1];
      assert s[|s| - 1] == last[|last| - 1];
      LastNewlineAfter(head, last[..|last| - 1]);
    }
  }
}
