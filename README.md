# Result parsing and stream comparison of the snow self-test driver

The self-test driver `test/test.c` runs example test programs and reads
their reporter output back. This project models its byte-stream core:

- `bufeq`: compares two buffers over a prefix.
- `getResults`: a small state machine that reads the reporter's text one
  `getc` at a time. On each line it collects the first four non-space bytes
  into the `linestart` window. It classifies the window by its first three
  bytes: the UTF-8 check mark `✓` (E2 9C 93) stores 1, the multiplication
  X `✕` (E2 9C 95) stores 0, anything else stores nothing. The rest of the
  line is then skipped. It stops at EOF or once `count` results are stored.
- `compareFiles`: reads both streams in lock step and answers whether they
  are identical.

Modules:

- `Stream` models a `FILE *` as the sequence of its bytes (`Byte` is
  0..255), `getc` past the end as `EOF` (-1), and `isspace` in the C
  locale.
- `ResultLines` holds the specification side:
  - the parser state as a value (`Scanner`, `Step`, `Feed`);
  - an independent line-by-line description of what a stream yields
    (`Verdicts`, via `LineEnd`, `NonSpace`, `LineVerdict` and `Carry`);
  - the lemmas connecting the two, with `FeedFollowsLines` as the main
    theorem.
- `TestDriver` holds the three routines as imperative methods:
  - `linestart` is a four-byte `array`;
  - `results` is the caller's `array<int>`;
  - each stream is read through an index.

The test cases call `getResults` several times on one stream. Each call
goes on where the previous one stopped, so `GetResults` takes the read
position and returns the position after the call. `CompareFiles` also
returns how many rounds it took: the number of `getc` pairs read, the
last one included, where both values may be EOF.

## Model

| member | source | states |
|---|---|---|
| ResultLines.Classify | test/test.c:63-66 | the two `bufeq` tests on a completed window: [1] when its first three bytes are the success marker, [0] when they are the failure marker, nothing otherwise (its properties are stated by ClassifyMarkers) |
| ResultLines.Step | test/test.c:47-67 | one byte of the loop, without the stop at `count`: '\n' clears `linedone`, whitespace is skipped, on an unfinished line the byte joins the window, and the fourth byte classifies it, marks the line done and restarts the window |
| ResultLines.Feed | test/test.c:47-72 | a run of the loop over a stretch of bytes without the stop at `count`, one Step per byte in stream order (the stop is modelled by GetResults, with StopsAtFirst and StoppedResults) |
| ResultLines.ClassifyMarkers | test/test.c:63-66 | a completed window stores 1 exactly when its first three bytes are E2 9C 93, 0 exactly when they are E2 9C 95, and nothing exactly when they are neither |
| ResultLines.Verdicts | test/test.c:63-66 | every verdict a stream yields is SUCCESS (1) or FAILURE (0) |
| ResultLines.FoundOnlyGrows | test/test.c:63-66 | results are only appended: what was stored before a stretch of input is a prefix of what is stored after it |
| ResultLines.FeedKeepsValid | test/test.c:52-61 | reading keeps the window free of whitespace and shorter than four bytes between steps, and stores only 1 and 0 |
| ResultLines.DoneLineIgnored | test/test.c:49-61 | once a line is done, every byte up to the next '\n' leaves the whole state unchanged |
| ResultLines.WindowStep | test/test.c:52-61 | inside a line, a byte joins the window exactly when it is not whitespace; at four bytes the window is classified and the line is marked done |
| ResultLines.FeedLine | test/test.c:47-61 | reading a line with no '\n' from a state that has not finished a line gives the state determined by the line's non-space bytes after the carried ones |
| ResultLines.FeedTerminatedLine | test/test.c:49-61 | after a line and its '\n', the line's verdict is stored, `linedone` is cleared, and the window is empty after a verdict or holds the line's carried bytes |
| ResultLines.FeedOverLine | test/test.c:47-72 | reading a line, its '\n' and a rest is reading the rest from the state that line leaves |
| ResultLines.VerdictsOverLine | test/test.c:47-72 | the line-by-line verdicts of a line, its '\n' and a rest are that line's verdict followed by the rest's verdicts with the carried bytes |
| ResultLines.FeedFollowsLines | test/test.c:36-75 | the byte-at-a-time parser stores exactly the line-by-line verdicts of any text, appended to the results already stored |
| ResultLines.ScanIsVerdicts | test/test.c:41-47 | from the state at the start of a call, the stored results are the line-by-line verdicts of the bytes read |
| ResultLines.FeedSnoc | test/test.c:47-72 | reading one more byte of the stream is one more parser step |
| ResultLines.VerdictsPrefix | test/test.c:63-66 | the verdicts of a stretch of stream are a prefix of the verdicts of any longer stretch, so results come in stream order |
| ResultLines.FewerEarlier | test/test.c:63-69 | at an earlier stream position no more verdicts have been found |
| ResultLines.StopsAtFirst | test/test.c:68-69 | if fewer than `count` verdicts are found up to a position, fewer are found up to every earlier position |
| ResultLines.StoppedResults | test/test.c:68-74 | results cut off at EOF with fewer than `count`, or at exactly `count`, are the stream's verdicts truncated to `count` |
| ResultLines.NonSpaceAppend | test/test.c:52-53 | the non-space bytes of a concatenation are those of its parts, in order |
| ResultLines.NonSpaceOfBlanks | test/test.c:52-53 | indentation contributes no byte to the window |
| ResultLines.NonSpaceOfMark | test/test.c:38-39 | neither marker contains a whitespace byte |
| ResultLines.MarkedLineWindow | test/test.c:55-58 | the first four non-space bytes of a line made of indentation, a marker, whitespace and a name are the marker and the first byte of the name |
| ResultLines.MarkedLine | test/test.c:47-72 | a reporter line (indentation, a marker, whitespace, a name starting with a non-space byte) yields exactly that marker's verdict, whatever else the line holds, and the next line starts afresh |
| ResultLines.SpacedReportLine | test/test.c:47-72 | the line "  ✓ S:" followed by '\n' yields SUCCESS and leaves the rest of the stream to start afresh |
| ResultLines.CarryOver | test/test.c:44-61 | a line with fewer than four non-space bytes stores nothing and hands those bytes to the next line's window, because `linestartidx` is not reset at '\n' |
| TestDriver.BufEq | test/test.c:20-27 | returns 1 or 0, and 1 exactly when the first `len` bytes agree, element by element; so it returns 1 when `len` is 0 |
| TestDriver.StoreVerdict | test/test.c:63-66 | stores the completed window's classification at `results[resultidx]`, advances the index by one exactly when a marker matched, and leaves every other entry alone |
| TestDriver.GetResults | test/test.c:36-75 | returns at most `count`; the stored results, in stream order, are the stream's line-by-line verdicts truncated to `count`; it stops at EOF only with fewer than `count`, and otherwise at the first byte where the `count`-th verdict completes; no entry from the returned count onwards is written |
| TestDriver.CompareFiles | test/test.c:81-97 | returns 1 or 0, and 1 exactly when the two streams are equal, length included; every round before the last matched, and the last round is the first where the two `getc` values differ, or where both are EOF |

## Left out

- `runcmd` (test/test.c:12-18) builds a shell command and calls `popen`. That is process I/O, so it is not modelled.
- `compareOutput` (test/test.c:103-116) opens a command's output and a file and closes them around `compareFiles`. Only `compareFiles` is modelled.
- The test suites (test/test.c:124-265) use `describe`, `test`, `it`, `defer`, `assert`, `asserteq`, `assertneq` and `snow_main`. These come from `snow/snow.h`. snow/snow.h is not part of this model.
- The expectations in the test bodies (for example test/test.c:131-136) depend on the output of external programs. They are left out.
- `isspace` is fixed to the C locale. Bytes are unsigned 0..255. The `(char)` conversions at test/test.c:49,57 are not modelled. For `c` in 0..255, `(char)c == '\n'` holds exactly when `c` is 10. The bytes stored in `linestart` and the marker strings that `bufeq` compares them with are both `char`, so a byte matches a marker byte exactly when the two byte values are equal.
- The counter `cnt` in `compareFiles` (test/test.c:84,93) is never read. It is left out.
- GetResults: requires `count >= 1` and an array of at least `count` entries. `count == 0` is not modelled. The C code then tests `resultidx == count` after the first completed window. If that window matched no marker, `resultidx` is still 0 and the call stops there, having stored nothing. If it matched a marker, the code writes `results[0]`, beyond a zero-length array, and `resultidx` never equals 0 again, so it goes on storing every verdict until EOF. Every call site passes 4, 5 or 8.
- GetResults: a stream is an index into a byte sequence rather than a `FILE *` object. Buffering and read errors are left out; a read error here would appear as EOF.
- CompareFiles: stream positions after the call are not returned. The call sites close both streams right after.
