/** An open instance file, seen as its split lines and a read cursor. */
module LineFiles {
  import opened Tokens

  class LineFile {
    const lines: seq<Line>
    var pos: nat

    ghost predicate Valid()
      reads this
    {
      pos <= |lines|
    }

    constructor (lines: seq<Line>)
      ensures Valid() && this.lines == lines && pos == 0
    {
      this.lines := lines;
      pos := 0;
    }

    /** file.readline().split() */
    method ReadLine() returns (line: Line)
      requires Valid()
      modifies this
      ensures Valid()
      ensures line == LineAt(lines, old(pos)) && pos == Next(lines, old(pos))
    {
      line := LineAt(lines, pos);
      pos := Next(lines, pos);
    }
  }
}
