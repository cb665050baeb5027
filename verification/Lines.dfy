/** Lines of at most k bytes, a newline ending a line and belonging to it. */
module Lines {
  import opened Protocol

  const NEWLINE: Byte := 10

  function FirstLine(s: seq<Byte>, k: nat): (line: seq<Byte>)
    ensures line <= s && |line| <= k && (k > 0 && s != [] ==> line != [])
  {
    if k == 0 || s == [] then [] else if s[0] == NEWLINE then [s[0]] else [s[0]] + FirstLine(s[1..], k - 1)
  }

  /** A piece with no newline before its last byte. */
  predicate Unbroken(line: seq<Byte>) {
    forall i :: 0 <= i < |line| - 1 ==> line[i] != NEWLINE
  }

  predicate Complete(line: seq<Byte>) {
    line != [] && line[|line| - 1] == NEWLINE
  }

  /** A piece off the front is the first line when it is unbroken and stops for one of three reasons only. */
  lemma {:induction false} OnlyFirstLine(s: seq<Byte>, k: nat, line: seq<Byte>)
    requires line <= s && |line| <= k && Unbroken(line)
    requires |line| == k || Complete(line) || line == s
    ensures line == FirstLine(s, k)
  {
    if line != [] {
      var tail := line[1..];
      assert line == [s[0]] + tail;
      if s[0] == NEWLINE {
        assert line[0] == NEWLINE;
      } else {
        TailOf(s, line);
        OnlyFirstLine(s[1..], k - 1, tail);
      }
    }
  }

  lemma TailOf(s: seq<Byte>, line: seq<Byte>)
    requires line != [] && line <= s && Unbroken(line) && line[0] != NEWLINE
    ensures line[1..] <= s[1..] && Unbroken(line[1..]) && (Complete(line) ==> Complete(line[1..]))
  {
    assert forall i :: 0 <= i < |line| - 1 ==> line[1..][i] == line[i + 1];
  }

  lemma Following<T>(before: seq<T>, line: seq<T>, content: seq<T>)
    requires before + line <= content
    ensures before <= content && line <= content[|before|..]
    ensures before + line == content ==> line == content[|before|..]
  {
    assert (before + line)[|before|..] == line;
  }

  lemma {:induction false} FirstLineShape(s: seq<Byte>, k: nat)
    ensures var line := FirstLine(s, k);
      Unbroken(line) && (|line| == k || Complete(line) || line == s)
  {
    if k > 0 && s != [] && s[0] != NEWLINE {
      FirstLineShape(s[1..], k - 1);
      var line, tail := FirstLine(s, k), FirstLine(s[1..], k - 1);
      assert forall i :: 1 <= i < |line| ==> line[i] == tail[i - 1];
    }
  }

  /** What successive calls with these room sizes return. */
  function Split(s: seq<Byte>, sizes: seq<nat>): (pieces: seq<seq<Byte>>)
    ensures |pieces| == |sizes|
  {
    if sizes == [] then [] else
    var line := FirstLine(s, sizes[0]);
    [line] + Split(s[|line|..], sizes[1..])
  }

  function Join(pieces: seq<seq<Byte>>): seq<Byte> {
    if pieces == [] then [] else pieces[0] + Join(pieces[1..])
  }

  /** The pieces always make up a prefix of the content, and all of it after as many calls as it has bytes. */
  lemma {:induction false} PiecesMakeContent(s: seq<Byte>, sizes: seq<nat>)
    requires forall i :: 0 <= i < |sizes| ==> sizes[i] > 0
    ensures Join(Split(s, sizes)) <= s
    ensures |sizes| >= |s| ==> Join(Split(s, sizes)) == s
  {
    hide FirstLine, Unbroken, Complete;
    if sizes != [] {
      var line := FirstLine(s, sizes[0]);
      var rest := s[|line|..];
      FirstLineShape(s, sizes[0]);
      PiecesMakeContent(rest, sizes[1..]);
      Halves(s, |line|, Join(Split(rest, sizes[1..])));
      assert Split(s, sizes)[0] == line && Split(s, sizes)[1..] == Split(rest, sizes[1..]);
    }
  }

  lemma Halves<T>(s: seq<T>, k: nat, more: seq<T>)
    requires k <= |s| && more <= s[k..]
    ensures s[..k] + more <= s && (more == s[k..] ==> s[..k] + more == s)
  {
  }

  /** The lines of s, those that have no newline in their first k bytes being broken there. */
  function AllLines(s: seq<Byte>, k: nat): (lines: seq<seq<Byte>>)
    requires k > 0
    decreases |s|
  {
    if s == [] then [] else
    var line := FirstLine(s, k);
    [line] + AllLines(s[|line|..], k)
  }

  /** The last piece stops where a line does. */
  predicate Stopped(lines: seq<seq<Byte>>, k: nat) {
    lines != [] ==> |lines[|lines| - 1]| == k || Complete(lines[|lines| - 1])
  }

  /** Pieces none of which is empty, larger than k or goes on behind a newline, and of which only the last may fall short. */
  predicate InLines(lines: seq<seq<Byte>>, k: nat) {
    forall i :: 0 <= i < |lines| ==>
      0 < |lines[i]| <= k && Unbroken(lines[i]) && (i < |lines| - 1 ==> |lines[i]| == k || Complete(lines[i]))
  }

  lemma NoLines(k: nat)
    ensures InLines([], k) && Stopped([], k) && Join([]) == []
  {
  }

  lemma OneMore(lines: seq<seq<Byte>>, line: seq<Byte>, k: nat)
    requires InLines(lines, k) && Stopped(lines, k) && 0 < |line| <= k && Unbroken(line)
    ensures InLines(lines + [line], k) && Join(lines + [line]) == Join(lines) + line
    ensures Stopped(lines + [line], k) <==> |line| == k || Complete(line)
  {
    hide Unbroken, Complete;
    JoinMore(lines, line);
  }

  lemma {:induction false} JoinMore(pieces: seq<seq<Byte>>, last: seq<Byte>)
    ensures Join(pieces + [last]) == Join(pieces) + last
  {
    if pieces == [] {
      assert last + [] == last;
    } else {
      JoinMore(pieces[1..], last);
      assert (pieces + [last])[1..] == pieces[1..] + [last];
    }
  }

  lemma {:induction false} LinesFit(s: seq<Byte>, k: nat)
    requires k > 0
    ensures InLines(AllLines(s, k), k) && Join(AllLines(s, k)) == s
  {
    hide FirstLine, Unbroken, Complete;
    if s != [] {
      var line, lines := FirstLine(s, k), AllLines(s, k);
      FirstLineShape(s, k);
      LinesFit(s[|line|..], k);
      assert lines[0] == line && lines[1..] == AllLines(s[|line|..], k);
      forall i | 0 < i < |lines| ensures lines[i] == lines[1..][i - 1] {
      }
    }
  }

  lemma {:induction false} LinesDetermined(lines: seq<seq<Byte>>, k: nat)
    requires k > 0 && InLines(lines, k)
    ensures lines == AllLines(Join(lines), k)
  {
    hide FirstLine, Unbroken, Complete;
    if lines != [] {
      var s, rest := Join(lines), lines[1..];
      forall i | 0 <= i < |rest| ensures rest[i] == lines[i + 1] {
      }
      LinesDetermined(rest, k);
      assert rest == [] ==> lines[0] == s;
      OnlyFirstLine(s, k, lines[0]);
      assert s[|lines[0]|..] == Join(rest);
    }
  }

  /** Such pieces that make up s are its lines, and the lines are such pieces. */
  lemma OnlyLines(s: seq<Byte>, k: nat, lines: seq<seq<Byte>>)
    requires k > 0
    ensures InLines(lines, k) && Join(lines) == s <==> lines == AllLines(s, k)
  {
    hide AllLines, InLines, Join;
    LinesFit(s, k);
    if InLines(lines, k) {
      LinesDetermined(lines, k);
    }
  }
}
