/** What the test driver reads out of the reporter's text: the parser state
    of getResults as a value (`Scanner`), one getc step of it (`Step`), a whole
    stretch of bytes (`Feed`), and an independent line-by-line description of
    the verdicts a stream yields (`Verdicts`), with the lemmas tying them. */
module ResultLines {
  import opened Stream

  /** The values getResults stores for a passed and a failed case. */
  const SUCCESS: int := 1
  const FAILURE: int := 0

  /** UTF-8 encoding of U+2713 CHECK MARK, the reporter's success marker. */
  const SuccessMark: seq<Byte> := [0xE2, 0x9C, 0x93]

  /** UTF-8 encoding of U+2715 MULTIPLICATION X, the reporter's failure marker. */
  const FailureMark: seq<Byte> := [0xE2, 0x9C, 0x95]

  /** The size of the `linestart` buffer: how many non-space bytes of a line
      are collected before the line is classified. */
  const WindowSize: nat := 4

  /** The entry recorded for a completed window: its first three bytes
      decide, see ClassifyMarkers. */
  function Classify(w: seq<Byte>): seq<int>
    requires |w| == WindowSize
  {
    if w[0] == 0xE2 && w[1] == 0x9C && w[2] == 0x93 then [SUCCESS]
    else if w[0] == 0xE2 && w[1] == 0x9C && w[2] == 0x95 then [FAILURE]
    else []
  }

  /** A completed window records SUCCESS exactly when its first three bytes
      are the success marker, FAILURE exactly when they are the failure
      marker, and nothing when they are neither. */
  lemma ClassifyMarkers(w: seq<Byte>)
    requires |w| == WindowSize
    ensures Classify(w) == [SUCCESS] <==> w[..3] == SuccessMark[..3]
    ensures Classify(w) == [FAILURE] <==> w[..3] == FailureMark[..3]
    ensures Classify(w) == [] <==> w[..3] != SuccessMark[..3] && w[..3] != FailureMark[..3]
  {
    assert w[..3] == [w[0], w[1], w[2]];
    assert SuccessMark[..3] == SuccessMark && FailureMark[..3] == FailureMark;
  }

  /** The state getResults keeps between two bytes: `linedone`, the filled
      part `linestart[..linestartidx]` of the window, and `results[..resultidx]`. */
  datatype Scanner = Scanner(lineDone: bool, window: seq<Byte>, found: seq<int>)

  /** The state before the first byte of a call. */
  const Start: Scanner := Scanner(false, [], [])

  /** One byte read by getResults, without the stop at `count`. */
  function Step(s: Scanner, c: Byte): Scanner
  {
    var done := if c == Newline then false else s.lineDone;
    if IsSpace(c) || done then s.(lineDone := done)
    else if |s.window| == WindowSize - 1 then
      Scanner(true, [], s.found + Classify(s.window + [c]))
    else s.(window := s.window + [c])
  }

  /** The state after reading `bytes`, one Step at a time. */
  function Feed(s: Scanner, bytes: seq<Byte>): Scanner
    decreases |bytes|
  {
    if bytes == [] then s
    else Step(Feed(s, bytes[..|bytes| - 1]), bytes[|bytes| - 1])
  }

  /** A state getResults can be in: fewer than four bytes in the window, none
      of them whitespace, and only SUCCESS and FAILURE recorded. */
  ghost predicate Valid(s: Scanner)
  {
    && |s.window| < WindowSize
    && (forall b :: b in s.window ==> !IsSpace(b))
    && (forall x :: x in s.found ==> x == SUCCESS || x == FAILURE)
  }

  /** The non-space bytes of `bytes`, in order. */
  function NonSpace(bytes: seq<Byte>): (r: seq<Byte>)
    ensures |r| <= |bytes|
    decreases |bytes|
  {
    if bytes == [] then []
    else
      var last := bytes[|bytes| - 1];
      NonSpace(bytes[..|bytes| - 1]) + (if IsSpace(last) then [] else [last])
  }

  /** The index of the first '\n' in `text`, or |text| when there is none. */
  function LineEnd(text: seq<Byte>): (k: nat)
    ensures k <= |text|
    ensures k < |text| ==> text[k] == Newline
    ensures Newline !in text[..k]
    decreases |text|
  {
    if text == [] || text[0] == Newline then 0
    else
      var k := 1 + LineEnd(text[1..]);
      assert text[..k] == [text[0]] + text[1..][..k - 1];
      k
  }

  /** The verdict a line (no '\n') contributes when the bytes `w` are
      carried into it: its non-space bytes join `w`, and once four bytes are
      together they are classified. */
  function LineVerdict(w: seq<Byte>, line: seq<Byte>): seq<int>
  {
    var ns := w + NonSpace(line);
    if |ns| >= WindowSize then Classify(ns[..WindowSize]) else []
  }

  /** The bytes a line (no '\n') carries into the next one: none once a
      verdict was taken, otherwise all of its non-space bytes after `w`. */
  function Carry(w: seq<Byte>, line: seq<Byte>): (c: seq<Byte>)
    ensures |c| < WindowSize
  {
    var ns := w + NonSpace(line);
    if |ns| >= WindowSize then [] else ns
  }

  /** The verdicts a stretch of reporter output yields, line by line: each
      line gives its LineVerdict and hands its Carry to the next; the rest of
      a line whose window filled is skipped. */
  function Verdicts(w: seq<Byte>, text: seq<Byte>): (v: seq<int>)
    ensures forall x :: x in v ==> x == SUCCESS || x == FAILURE
    decreases |text|
  {
    var k := LineEnd(text);
    if k == |text| then LineVerdict(w, text)
    else LineVerdict(w, text[..k]) + Verdicts(Carry(w, text[..k]), text[k + 1..])
  }

  /** `v` cut down to its first `count` entries. */
  function Truncated(v: seq<int>, count: nat): seq<int>
  {
    if |v| <= count then v else v[..count]
  }

  /** A prefix of `all` that is cut only by `count` is `all` truncated. */
  lemma TruncatedPrefix(read: seq<int>, all: seq<int>, count: nat)
    requires read <= all && |read| <= count
    requires |read| < count ==> read == all
    ensures read == Truncated(all, count)
  {
  }

  /** Concatenation regroups freely (stated once so that proofs need not
      rediscover it element by element). */
  lemma ConcatAssoc<T>(a: seq<T>, b: seq<T>, c: seq<T>)
    ensures a + b + c == a + (b + c)
  {
  }

  /** Reading `a` and then `b` is reading `a + b`. */
  lemma {:induction false} FeedAppend(s: Scanner, a: seq<Byte>, b: seq<Byte>)
    ensures Feed(s, a + b) == Feed(Feed(s, a), b)
    decreases |b|
  {
    if b == [] {
      assert a + b == a;
    } else {
      var ab := a + b;
      assert ab[..|ab| - 1] == a + b[..|b| - 1];
      assert ab[|ab| - 1] == b[|b| - 1];
      FeedAppend(s, a, b[..|b| - 1]);
    }
  }

  /** Results are only ever appended: what is recorded stays recorded, in
      stream order. */
  lemma {:induction false} FoundOnlyGrows(s: Scanner, bytes: seq<Byte>)
    ensures s.found <= Feed(s, bytes).found
    decreases |bytes|
  {
    if bytes != [] {
      FoundOnlyGrows(s, bytes[..|bytes| - 1]);
    }
  }

  /** Reading keeps the state valid: whitespace never enters the window, the
      window never reaches four bytes between steps, and only SUCCESS and
      FAILURE are recorded. */
  lemma {:induction false} FeedKeepsValid(s: Scanner, bytes: seq<Byte>)
    requires Valid(s)
    ensures Valid(Feed(s, bytes))
    decreases |bytes|
  {
    if bytes != [] {
      FeedKeepsValid(s, bytes[..|bytes| - 1]);
      var t := Feed(s, bytes[..|bytes| - 1]);
      var c := bytes[|bytes| - 1];
      if !IsSpace(c) && !(if c == Newline then false else t.lineDone) {
        assert forall b :: b in t.window + [c] ==> b in t.window || b == c;
      }
    }
  }

  /** Once a line is done, every byte up to the next '\n' is ignored. */
  lemma {:induction false} DoneLineIgnored(s: Scanner, rest: seq<Byte>)
    requires s.lineDone
    requires Newline !in rest
    ensures Feed(s, rest) == s
    decreases |rest|
  {
    if rest != [] {
      var p := rest[..|rest| - 1];
      assert Newline !in p;
      DoneLineIgnored(s, p);
    }
  }

  /** The state inside a line once its non-space bytes so far, after the
      carried ones, are `ns`: at four bytes the window was classified and
      the line is done, below four they wait in the window. */
  function InLine(found: seq<int>, ns: seq<Byte>): Scanner
  {
    if |ns| >= WindowSize then Scanner(true, [], found + Classify(ns[..WindowSize]))
    else Scanner(false, ns, found)
  }

  /** One byte inside a line adds to `ns` exactly when it is not a space. */
  lemma WindowStep(found: seq<int>, ns: seq<Byte>, c: Byte)
    requires c != Newline
    ensures Step(InLine(found, ns), c) == InLine(found, ns + (if IsSpace(c) then [] else [c]))
  {
    if !IsSpace(c) {
      if |ns| >= WindowSize {
        assert (ns + [c])[..WindowSize] == ns[..WindowSize];
      } else if |ns| == WindowSize - 1 {
        assert (ns + [c])[..WindowSize] == ns + [c];
      }
    }
  }

  /** Reading one line (no '\n') from a state that has not finished a line:
      its non-space bytes join the window, and the first four are
      classified. */
  lemma {:induction false} FeedLine(w: seq<Byte>, found: seq<int>, line: seq<Byte>)
    requires |w| < WindowSize
    requires Newline !in line
    ensures Feed(Scanner(false, w, found), line) == InLine(found, w + NonSpace(line))
    decreases |line|
  {
    if line == [] {
      assert w + NonSpace(line) == w;
    } else {
      var p, c := line[..|line| - 1], line[|line| - 1];
      assert Newline !in p;
      FeedLine(w, found, p);
      assert w + NonSpace(line) == (w + NonSpace(p)) + (if IsSpace(c) then [] else [c]);
      WindowStep(found, w + NonSpace(p), c);
    }
  }

  /** A whole line and its '\n': the line's verdict, if its window filled,
      is recorded, and the next line starts not done, with an empty window
      after a verdict or with the carried bytes otherwise. */
  lemma FeedTerminatedLine(w: seq<Byte>, found: seq<int>, line: seq<Byte>)
    requires |w| < WindowSize
    requires Newline !in line
    ensures Feed(Scanner(false, w, found), line + [Newline]) ==
      Scanner(false, Carry(w, line), found + LineVerdict(w, line))
  {
    var s := Scanner(false, w, found);
    FeedLine(w, found, line);
    FeedAppend(s, line, [Newline]);
    assert Feed(Feed(s, line), [Newline]) == Step(Feed(s, line), Newline);
    assert Step(InLine(found, w + NonSpace(line)), Newline) ==
      Scanner(false, Carry(w, line), found + LineVerdict(w, line));
  }

  /** Reading a line, its '\n' and then `rest` is reading `rest` from the
      state the line leaves. */
  lemma FeedOverLine(w: seq<Byte>, found: seq<int>, line: seq<Byte>, rest: seq<Byte>)
    requires |w| < WindowSize
    requires Newline !in line
    ensures Feed(Scanner(false, w, found), line + [Newline] + rest) ==
      Feed(Scanner(false, Carry(w, line), found + LineVerdict(w, line)), rest)
  {
    FeedTerminatedLine(w, found, line);
    FeedAppend(Scanner(false, w, found), line + [Newline], rest);
  }

  /** The verdicts of a line, its '\n' and then `rest`: that line's verdict,
      then those of `rest` with what the line carries. */
  lemma VerdictsOverLine(w: seq<Byte>, line: seq<Byte>, rest: seq<Byte>)
    requires Newline !in line
    ensures Verdicts(w, line + [Newline] + rest) ==
      LineVerdict(w, line) + Verdicts(Carry(w, line), rest)
  {
    var text := line + [Newline] + rest;
    LineEndIs(text, |line|);
    assert text[..|line|] == line && text[|line| + 1..] == rest;
  }

  /** The parser's results on any text are exactly the line-by-line verdicts. */
  lemma {:induction false} FeedFollowsLines(w: seq<Byte>, found: seq<int>, text: seq<Byte>)
    requires |w| < WindowSize
    ensures Feed(Scanner(false, w, found), text).found == found + Verdicts(w, text)
    decreases |text|
  {
    var k := LineEnd(text);
    if k == |text| {
      assert text[..k] == text;
      FeedLine(w, found, text);
    } else {
      var line, rest := text[..k], text[k + 1..];
      assert text == line + [Newline] + rest;
      var w', found' := Carry(w, line), found + LineVerdict(w, line);
      FeedOverLine(w, found, line, rest);
      VerdictsOverLine(w, line, rest);
      FeedFollowsLines(w', found', rest);
      ConcatAssoc(found, LineVerdict(w, line), Verdicts(w', rest));
    }
  }

  /** From the start of a call, the results are the line-by-line verdicts. */
  lemma ScanIsVerdicts(bytes: seq<Byte>)
    ensures Feed(Start, bytes).found == Verdicts([], bytes)
  {
    FeedFollowsLines([], [], bytes);
    assert [] + Verdicts([], bytes) == Verdicts([], bytes);
  }

  /** One more byte of a stream is one more Step. */
  lemma FeedSnoc(f: seq<Byte>, from: nat, i: nat)
    requires from <= i < |f|
    ensures Feed(Start, f[from..i + 1]) == Step(Feed(Start, f[from..i]), f[i])
  {
    assert f[from..i + 1][..i - from] == f[from..i];
  }

  /** Verdicts only accumulate: reading on after `a` never takes back or
      reorders a verdict already found. */
  lemma VerdictsPrefix(a: seq<Byte>, b: seq<Byte>)
    ensures Verdicts([], a) <= Verdicts([], a + b)
  {
    ScanIsVerdicts(a);
    ScanIsVerdicts(a + b);
    FeedAppend(Start, a, b);
    FoundOnlyGrows(Feed(Start, a), b);
  }

  /** Up to an earlier position of a stream, no more verdicts are found. */
  lemma FewerEarlier(f: seq<Byte>, from: nat, j: nat, last: nat)
    requires from <= j <= last <= |f|
    ensures |Verdicts([], f[from..j])| <= |Verdicts([], f[from..last])|
  {
    assert f[from..last] == f[from..j] + f[j..last];
    VerdictsPrefix(f[from..j], f[j..last]);
  }

  /** If fewer than `count` verdicts were found up to `last`, fewer were
      found up to every earlier position. */
  lemma StopsAtFirst(f: seq<Byte>, from: nat, last: nat, count: nat)
    requires from <= last <= |f|
    requires |Verdicts([], f[from..last])| < count
    ensures forall j :: from <= j <= last ==> |Verdicts([], f[from..j])| < count
  {
    forall j | from <= j <= last
      ensures |Verdicts([], f[from..j])| < count
    {
      FewerEarlier(f, from, j, last);
    }
  }

  /** What a call of getResults has stored when it stops at `next`: fewer
      than `count` results only at EOF, and exactly `count` otherwise. Those
      are the stream's verdicts cut at `count`. */
  lemma StoppedResults(f: seq<Byte>, from: nat, next: nat, count: nat)
    requires from <= next <= |f|
    requires |Verdicts([], f[from..next])| <= count
    requires |Verdicts([], f[from..next])| < count ==> next == |f|
    ensures Verdicts([], f[from..next]) == Truncated(Verdicts([], f[from..]), count)
  {
    assert f[from..] == f[from..next] + f[next..];
    VerdictsPrefix(f[from..next], f[next..]);
    if next == |f| {
      assert f[from..next] == f[from..];
    }
    TruncatedPrefix(Verdicts([], f[from..next]), Verdicts([], f[from..]), count);
  }

  /** LineEnd is the only index with its three properties. */
  lemma LineEndIs(text: seq<Byte>, k: nat)
    requires k <= |text|
    requires k < |text| ==> text[k] == Newline
    requires Newline !in text[..k]
    ensures LineEnd(text) == k
  {
  }

  /** Non-space bytes of a concatenation. */
  lemma {:induction false} NonSpaceAppend(a: seq<Byte>, b: seq<Byte>)
    ensures NonSpace(a + b) == NonSpace(a) + NonSpace(b)
    decreases |b|
  {
    if b == [] {
      assert a + b == a;
    } else {
      var ab, pb, c := a + b, b[..|b| - 1], b[|b| - 1];
      assert ab[..|ab| - 1] == a + pb && ab[|ab| - 1] == c;
      NonSpaceAppend(a, pb);
      assert NonSpace(ab) == NonSpace(a + pb) + (if IsSpace(c) then [] else [c]);
      ConcatAssoc(NonSpace(a), NonSpace(pb), if IsSpace(c) then [] else [c]);
    }
  }

  /** Indentation contributes nothing to a window. */
  lemma {:induction false} NonSpaceOfBlanks(blanks: seq<Byte>)
    requires forall j :: 0 <= j < |blanks| ==> IsSpace(blanks[j])
    ensures NonSpace(blanks) == []
    decreases |blanks|
  {
    if blanks != [] {
      NonSpaceOfBlanks(blanks[..|blanks| - 1]);
    }
  }

  /** The markers hold no whitespace. */
  lemma NonSpaceOfMark(mark: seq<Byte>)
    requires mark == SuccessMark || mark == FailureMark
    ensures NonSpace(mark) == mark
  {
    assert mark[..2][..1] == mark[..1] && mark[..|mark| - 1] == mark[..2];
  }

  /** The first four non-space bytes of a reporter line are its marker and
      the first byte of the case's name, whatever whitespace comes before
      the marker or between the marker and the name. */
  lemma MarkedLineWindow(indent: seq<Byte>, mark: seq<Byte>, gap: seq<Byte>, name: seq<Byte>)
    requires forall j :: 0 <= j < |indent| ==> IsSpace(indent[j])
    requires mark == SuccessMark || mark == FailureMark
    requires forall j :: 0 <= j < |gap| ==> IsSpace(gap[j])
    requires name != [] && !IsSpace(name[0])
    ensures |NonSpace(indent + mark + gap + name)| >= WindowSize
    ensures NonSpace(indent + mark + gap + name)[..WindowSize] == mark + [name[0]]
  {
    assert NonSpace(indent + mark) == mark by {
      NonSpaceOfBlanks(indent);
      NonSpaceOfMark(mark);
      NonSpaceAppend(indent, mark);
    }
    assert NonSpace(indent + mark + gap) == mark by {
      NonSpaceOfBlanks(gap);
      NonSpaceAppend(indent + mark, gap);
    }
    assert NonSpace(name) == [name[0]] + NonSpace(name[1..]) by {
      assert name == [name[0]] + name[1..];
      NonSpaceAppend([name[0]], name[1..]);
      assert NonSpace([name[0]]) == [name[0]];
    }
    NonSpaceAppend(indent + mark + gap, name);
    assert NonSpace(indent + mark + gap + name) == mark + [name[0]] + NonSpace(name[1..]);
  }

  /** A reporter line (indentation, a marker, whitespace, then the case's
      name, which starts with a non-space byte) yields that marker's verdict,
      whatever else the line holds, and the next line starts afresh. */
  lemma MarkedLine(indent: seq<Byte>, mark: seq<Byte>, gap: seq<Byte>, name: seq<Byte>, rest: seq<Byte>)
    requires forall j :: 0 <= j < |indent| ==> IsSpace(indent[j]) && indent[j] != Newline
    requires mark == SuccessMark || mark == FailureMark
    requires forall j :: 0 <= j < |gap| ==> IsSpace(gap[j]) && gap[j] != Newline
    requires name != [] && !IsSpace(name[0]) && Newline !in name
    ensures Verdicts([], indent + mark + gap + name + [Newline] + rest) ==
      (if mark == SuccessMark then [SUCCESS] else [FAILURE]) + Verdicts([], rest)
  {
    var line := indent + mark + gap + name;
    var text := line + [Newline] + rest;
    assert Newline !in indent && Newline !in mark && Newline !in gap;
    assert Newline !in line;
    LineEndIs(text, |line|);
    assert text[..|line|] == line && text[|line| + 1..] == rest;
    MarkedLineWindow(indent, mark, gap, name);
    assert [] + NonSpace(line) == NonSpace(line);
    ClassifyMarkers(mark + [name[0]]);
    assert (mark + [name[0]])[..3] == mark;
  }

  /** A report line like "  ✓ S:": two spaces, the check mark,
      a space and a name. */
  lemma SpacedReportLine(rest: seq<Byte>)
    ensures Verdicts([], [32, 32] + SuccessMark + [32] + [83, 58] + [Newline] + rest) ==
      [SUCCESS] + Verdicts([], rest)
  {
    MarkedLine([32, 32], SuccessMark, [32], [83, 58], rest);
  }

  /** A line with fewer than four non-space bytes is not classified: its
      non-space bytes, if any, open the next line's window, so a line with
      one to three of them shifts the window of the line after it. */
  lemma CarryOver(short: seq<Byte>, rest: seq<Byte>)
    requires Newline !in short
    requires |NonSpace(short)| < WindowSize
    ensures Verdicts([], short + [Newline] + rest) == Verdicts(NonSpace(short), rest)
  {
    var text := short + [Newline] + rest;
    LineEndIs(text, |short|);
    assert text[..|short|] == short && text[|short| + 1..] == rest;
    assert [] + NonSpace(short) == NonSpace(short);
  }
}
