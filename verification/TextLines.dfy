/** The lines of a buffer, and the functions that change them; src/nvim/memline.c as far as its callers see it. */
module TextLines {
  import opened LineCompare

  /** Stands for the end of a line in place of a column. */
  const MAXCOL: int := 0x7fff_ffff

  /** `ml_append`: a new line below line l, which can be 0. Fails when there is no line l. */
  function Appended(lines: seq<Line>, l: int, s: Line): seq<Line> {
    if l < 0 || l > |lines| then lines else lines[..l] + [s] + lines[l..]
  }

  /** `ml_delete`: without line l. The only line of a buffer is replaced by an empty one. */
  function Deleted(lines: seq<Line>, l: int): seq<Line> {
    if l < 1 || l > |lines| then lines
    else if |lines| == 1 then [""]
    else lines[..l - 1] + lines[l..]
  }

  /** `bufempty` */
  predicate IsEmpty(lines: seq<Line>) { |lines| == 1 && lines[0] == "" }

  class Buffer {
    var lines: seq<Line>

    constructor (lines: seq<Line>)
      ensures this.lines == lines
    {
      this.lines := lines;
    }

    method MlAppend(l: int, s: Line)
      modifies this
      ensures lines == Appended(old(lines), l, s)
    {
      if 0 <= l <= |lines| {
        lines := lines[..l] + [s] + lines[l..];
      }
    }

    method MlDelete(l: int)
      modifies this
      ensures lines == Deleted(old(lines), l)
    {
      if 1 <= l <= |lines| {
        lines := if |lines| == 1 then [""] else lines[..l - 1] + lines[l..];
      }
    }

    /** `ml_get`, for a line that exists. */
    function MlGet(l: int): Line
      requires 1 <= l <= |lines|
      reads this
    {
      lines[l - 1]
    }

    method MlReplace(l: int, s: Line)
      requires 1 <= l <= |lines|
      modifies this
      ensures lines == old(lines)[l - 1 := s]
    {
      lines := lines[l - 1 := s];
    }
  }
}
