/**
  The command-line module (src/cli.rs). It holds its own copy of the
  coordinate parser of src/main.rs, line for line the same; `AgreesWithMain`
  proves that the two copies compute the same command on every input, and the
  documented examples follow from that. The `Command` enum of this file is
  identical to the one of src/main.rs, so both use `Io.Command`.
*/
module Cli {
  import opened Strings
  import Game
  import Io

  /** `parse_letter`: a column letter, `A` for column 0. */
  function ParseLetter(c: char): (r: Option<nat>)
    ensures r.Some? <==> 'A' <= c <= 'O'
    ensures r.Some? ==> r.value < Game.SIZE && r.value == c as int - 'A' as int
  {
    var letter := c as int;
    var a := 'A' as int;
    if letter >= a && letter < a + Game.SIZE then Some(letter - a) else None
  }

  /** `parse_number`: a row number 1..SIZE, as a zero-based row; 0 and larger numbers are refused. */
  function ParseNumber(s: string): (r: Option<nat>)
    ensures r.Some? <==> ParseU32(s).Some? && 1 <= ParseU32(s).value <= Game.SIZE
    ensures r.Some? ==> r.value < Game.SIZE && ParseU32(s) == Some(r.value + 1)
  {
    match ParseU32(s)
    case Some(n) => if n > 0 && n <= Game.SIZE then Some(n - 1) else None
    case None => None
  }

  /** `parse_pos`: the first character is the column, all the rest the row. */
  function ParsePos(s: string): (r: Io.Command)
    ensures r != Io.Exit
    ensures r.Move? <==> |s| >= 2 && ParseLetter(s[0]).Some? && ParseNumber(s[1..]).Some?
    ensures r.Move? ==> r.x < Game.SIZE && r.y < Game.SIZE
  {
    if Utf8Len(s) < 2 then Io.Invalid
    else
      var head := s[0];
      var tail := s[1..];
      match (ParseLetter(head), ParseNumber(tail))
      case (Some(x), Some(y)) => Io.Move(x, y)
      case _ => Io.Invalid
  }

  /** The dispatch of `read_move` on the line it read. */
  function ReadMove(line: string): (r: Io.Command)
    ensures r == Io.Exit <==> Trim(line) in {"exit", "quit", "q"}
    ensures r != Io.Exit ==> r == ParsePos(Trim(line))
  {
    var input := Trim(line);
    if input == "exit" || input == "quit" || input == "q" then Io.Exit
    else ParsePos(input)
  }

  /** The parser of src/cli.rs and that of src/main.rs give the same result on every input. */
  lemma AgreesWithMain(c: char, s: string)
    ensures ParseLetter(c) == Io.ParseLetter(c)
    ensures ParseNumber(s) == Io.ParseNumber(s)
    ensures ParsePos(s) == Io.ParsePos(s)
    ensures ReadMove(s) == Io.ReadMove(s)
  {
    if |s| >= 1 {
      assert ParseNumber(s[1..]) == Io.ParseNumber(s[1..]);
    }
    var t := Trim(s);
    if |t| >= 1 {
      assert ParseNumber(t[1..]) == Io.ParseNumber(t[1..]);
    }
  }

  /** The examples in the documentation of `parse_pos` in src/cli.rs. */
  lemma ParsePosExamples()
    ensures ParsePos("A1") == Io.Move(0, 0)
    ensures ParsePos("C10") == Io.Move(2, 9)
    ensures ParsePos("Z99") == Io.Invalid
    ensures ParsePos("A 1") == Io.Invalid
    ensures ParsePos("A0") == Io.Invalid
    ensures ParsePos("a1") == Io.Invalid
  {
    Io.ParsePosAccepts();
    Io.ParsePosRefuses();
    AgreesWithMain('A', "A1");
    AgreesWithMain('A', "C10");
    AgreesWithMain('A', "Z99");
    AgreesWithMain('A', "A 1");
    AgreesWithMain('A', "A0");
    AgreesWithMain('A', "a1");
  }

  /** Input of fewer than two characters is never a move. */
  lemma ShortInputRejected(s: string)
    requires |s| < 2
    ensures ParsePos(s) == Io.Invalid
  {
    AgreesWithMain('A', s);
    Io.ShortInputRejected(s);
  }

  /** Typing the labels of a cell selects that cell. */
  lemma LabelRoundTrip(x: nat, y: nat)
    requires x < Game.SIZE && y < Game.SIZE
    ensures ParsePos(Io.Label(x, y)) == Io.Move(x, y)
  {
    AgreesWithMain('A', Io.Label(x, y));
    Io.LabelRoundTrip(x, y);
  }
}
