/** Byte streams standing in for the C `FILE *` handles the test driver reads
    with getc/fgetc: a stream is the sequence of its bytes, and reading past
    the last one yields EOF. */
module Stream {

  /** The value getc returns for a byte that is not EOF (an unsigned char). */
  type Byte = x: int | 0 <= x < 256

  /** getc's end-of-file indicator. */
  const EOF: int := -1

  /** The byte '\n'. */
  const Newline: Byte := 10

  /** What getc returns when the stream's read position is `i`. */
  function Getc(f: seq<Byte>, i: nat): int
  {
    if i < |f| then f[i] else EOF
  }

  /** isspace in the C locale: ' ', '\t', '\n', '\v', '\f' and '\r'. */
  predicate IsSpace(c: int)
  {
    c == 32 || 9 <= c <= 13
  }
}
