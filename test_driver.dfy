/** The byte-stream helpers of the framework's self-test driver: comparing
    two buffers over a prefix, reading pass/fail verdicts out of the
    reporter's output, and comparing two streams byte for byte. */
module TestDriver {
  import opened Stream
  import opened ResultLines

  /** bufeq: 1 when the first `len` bytes of the two buffers agree, else 0. */
  method BufEq(b1: seq<Byte>, b2: seq<Byte>, len: nat) returns (r: int)
    requires len <= |b1| && len <= |b2|
    ensures r == 0 || r == 1
    ensures r == 1 <==> b1[..len] == b2[..len]
    ensures r == 1 <==> forall i :: 0 <= i < len ==> b1[i] == b2[i]
  {
    for i := 0 to len
      invariant b1[..i] == b2[..i]
    {
      if b1[i] != b2[i] {
        assert b1[..len][i] != b2[..len][i];
        return 0;
      }
    }
    return 1;
  }

  /** The verdict step of getResults, once four non-space bytes of a line
      are in: stores 1 at `results[idx]` when the window opens with the
      success mark, 0 when it opens with the failure mark, and nothing
      otherwise. Returns the new number of stored verdicts. */
  method StoreVerdict(window: seq<Byte>, results: array<int>, idx: nat) returns (next: nat)
    requires |window| == WindowSize && idx < results.Length
    modifies results
    ensures next == idx + |Classify(window)|
    ensures results[..next] == old(results[..idx]) + Classify(window)
    ensures forall k :: next <= k < results.Length ==> results[k] == old(results[k])
  {
    ClassifyMarkers(window);
    var isSuccess := BufEq(window, SuccessMark, 3);
    if isSuccess == 1 {
      results[idx] := SUCCESS;
      next := idx + 1;
    } else {
      var isFailure := BufEq(window, FailureMark, 3);
      if isFailure == 1 {
        results[idx] := FAILURE;
        next := idx + 1;
      } else {
        next := idx;
      }
    }
  }

  /** getResults on the stream `f` whose read position is `from`: reads
      bytes until EOF or until `count` verdicts are stored, storing them in
      `results` in stream order. Returns how many were stored and the read
      position afterwards (the test cases go on reading from there). */
  method GetResults(f: seq<Byte>, from: nat, results: array<int>, count: nat) returns (n: nat, next: nat)
    requires from <= |f|
    requires 1 <= count <= results.Length
    modifies results
    ensures n <= count && from <= next <= |f|
    ensures results[..n] == Truncated(Verdicts([], f[from..]), count)
    ensures results[..n] == Verdicts([], f[from..next])
    ensures n < count ==> next == |f|
    ensures forall j :: from <= j < next ==> |Verdicts([], f[from..j])| < count
    ensures forall k :: n <= k < results.Length ==> results[k] == old(results[k])
  {
    var linestart := new Byte[WindowSize];
    var resultidx: nat := 0;
    var linedone := false;
    var linestartidx: nat := 0;
    var i := from;
    // st is the parser state as a value; last is where the latest byte was read
    ghost var st := Start;
    ghost var last := from;
    while i < |f|
      invariant from <= last <= i <= |f| && (i == from || last == i - 1)
      invariant linestartidx < WindowSize && resultidx < count
      invariant st == Feed(Start, f[from..i])
      invariant st == Scanner(linedone, linestart[..linestartidx], results[..resultidx])
      invariant |Feed(Start, f[from..last]).found| < count
      invariant forall k :: resultidx <= k < results.Length ==> results[k] == old(results[k])
    {
      FeedSnoc(f, from, i);
      last := i;
      var c := f[i];
      i := i + 1;
      ghost var before := st;
      assert before == Feed(Start, f[from..last]);
      st := Step(st, c);
      if c == Newline {
        linedone := false;
      }
      if IsSpace(c) {
        continue;
      }
      if !linedone {
        linestart[linestartidx] := c;
        linestartidx := linestartidx + 1;
        if linestartidx == WindowSize {
          linedone := true;
          linestartidx := 0;
          var window := linestart[..];
          assert window == before.window + [c];
          assert st == Scanner(true, [], before.found + Classify(window));
          resultidx := StoreVerdict(window, results, resultidx);
          assert linestart[..linestartidx] == [];
          if resultidx == count {
            break;
          }
        } else {
          assert linestart[..linestartidx] == before.window + [c];
        }
      }
    }
    n, next := resultidx, i;
    ScanIsVerdicts(f[from..next]);
    ScanIsVerdicts(f[from..last]);
    StopsAtFirst(f, from, last, count);
    StoppedResults(f, from, next, count);
  }

  /** compareFiles: reads one byte from each stream per round (EOF counting
      as a value) and answers 0 at the first round where the two differ, or
      1 once both reach EOF together. Also returns how many rounds it took. */
  method CompareFiles(f1: seq<Byte>, f2: seq<Byte>) returns (same: int, rounds: nat)
    ensures same == 0 || same == 1
    ensures same == 1 <==> f1 == f2
    ensures rounds >= 1
    ensures forall j :: 0 <= j < rounds - 1 ==> j < |f1| && j < |f2| && f1[j] == f2[j]
    ensures same == 0 <==> Getc(f1, rounds - 1) != Getc(f2, rounds - 1)
    ensures same == 1 ==> rounds == |f1| + 1
  {
    var i: nat := 0;
    var c1, c2;
    while true
      invariant i <= |f1| && i <= |f2|
      invariant forall j :: 0 <= j < i ==> f1[j] == f2[j]
      decreases |f1| - i
    {
      c1 := Getc(f1, i);
      c2 := Getc(f2, i);
      i := i + 1;
      if c1 != c2 {
        if i - 1 < |f1| && i - 1 < |f2| {
          assert f1[i - 1] != f2[i - 1];
        }
        return 0, i;
      }
      if c1 == EOF || c2 == EOF {
        break;
      }
    }
    same := if c1 == c2 then 1 else 0;
    rounds := i;
    assert f1[..|f1|] == f2[..|f2|];
  }
}
