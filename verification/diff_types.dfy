/**
 * The diff shapes the split view consumes (src/lib/types.ts): a line of a
 * hunk with its one-character origin tag, and a hunk with its position
 * metadata. Text is a Dafny string: a sequence of Unicode scalar values.
 * The proofs compare characters only for equality, as JavaScript compares
 * UTF-16 code units, but a Dafny string cannot hold a lone surrogate.
 */
module DiffTypes {

  datatype Option<T> = None | Some(value: T)

  /**
   * One line of a hunk; `origin` is git's one-character tag ('-', '+', ' ',
   * '=', '>', '<', ...), a `char` in the backend that produces it.
   */
  datatype DiffLine = DiffLine(
    origin: char,
    content: string,
    oldLineno: Option<int>,
    newLineno: Option<int>)

  datatype DiffHunk = DiffHunk(
    oldStart: int,
    oldLines: int,
    newStart: int,
    newLines: int,
    header: string,
    lines: seq<DiffLine>)

  /** How the pairing treats a line: "-" and "+" are buffered, every other tag is context. */
  datatype Origin = Deletion | Addition | Other(tag: char)

  function Classify(origin: char): (kind: Origin)
    ensures kind == Deletion <==> origin == '-'
    ensures kind == Addition <==> origin == '+'
    ensures kind.Other? ==> kind.tag == origin
  {
    if origin == '-' then Deletion
    else if origin == '+' then Addition
    else Other(origin)
  }
}

/**
 * The larger and the smaller of two integers: Max is the Math.max bound of the
 * flush loop, and Min expresses the suffix loop's two bounds together.
 */
module MinMax {

  function Max(a: int, b: int): int
  {
    if a < b then b else a
  }

  function Min(a: int, b: int): int
  {
    if a < b then a else b
  }
}
