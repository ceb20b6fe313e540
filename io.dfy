/**
  The coordinate parser and command dispatch of the text interface
  (src/main.rs). A move is typed as a column letter `A`..`O` followed by a
  row number 1..15, and comes out as zero-based (column, row).
*/
module Io {
  import opened Strings
  import Game

  /** What one line of input asks for. `Invalid` is the source's `Command::None`. */
  datatype Command = Exit | Move(x: nat, y: nat) | Invalid

  /** `parse_letter`: a column letter, `A` for column 0. Lower case is not a column. */
  function ParseLetter(c: char): (r: Option<nat>)
    ensures r.Some? <==> 'A' <= c <= 'O'
    ensures r.Some? ==> r.value < Game.SIZE && r.value == c as int - 'A' as int
  {
    var letter := c as int;
    var a := 'A' as int;
    if letter >= a && letter < a + Game.SIZE then Some(letter - a) else None
  }

  /** `parse_number`: a row number 1..SIZE, as a zero-based row. */
  function ParseNumber(s: string): (r: Option<nat>)
    ensures r.Some? <==> ParseU32(s).Some? && 1 <= ParseU32(s).value <= Game.SIZE
    ensures r.Some? ==> r.value < Game.SIZE && ParseU32(s) == Some(r.value + 1)
  {
    match ParseU32(s)
    case Some(n) => if n > 0 && n <= Game.SIZE then Some(n - 1) else None
    case None => None
  }

  /**
    `parse_pos`: the first character is the column, all the rest the row.
    Inputs shorter than two bytes are refused before either is looked at.
  */
  function ParsePos(s: string): (r: Command)
    ensures r != Exit
    ensures r.Move? <==> |s| >= 2 && ParseLetter(s[0]).Some? && ParseNumber(s[1..]).Some?
    ensures r.Move? ==> r.x < Game.SIZE && r.y < Game.SIZE
    ensures r.Move? ==> ParseLetter(s[0]) == Some(r.x) && ParseNumber(s[1..]) == Some(r.y)
  {
    if Utf8Len(s) < 2 then Invalid
    else
      var head := s[0];
      var tail := s[1..];
      match (ParseLetter(head), ParseNumber(tail))
      case (Some(x), Some(y)) => Move(x, y)
      case _ => Invalid
  }

  /** The dispatch of `read_move` on the line it read: the three exit words, otherwise a position. */
  function ReadMove(line: string): (r: Command)
    ensures r == Exit <==> Trim(line) in {"exit", "quit", "q"}
    ensures r != Exit ==> r == ParsePos(Trim(line))
  {
    var input := Trim(line);
    if input == "exit" || input == "quit" || input == "q" then Exit
    else ParsePos(input)
  }

  /** The label of column x in the board display: `A` + x. */
  function ColumnLabel(x: nat): (c: char)
    requires x < Game.SIZE
    ensures 'A' <= c <= 'O' && c as int - 'A' as int == x
  {
    ('A' as int + x) as char
  }

  /**
    The coordinate a player types for (x, y): column letter, then row number
    y + 1 in plain decimal. The display prints the row number right-aligned in
    two columns, so rows 1 to 9 appear with a leading space; that space is not
    part of what is typed (`A 1` is refused).
  */
  function Label(x: nat, y: nat): string
    requires x < Game.SIZE && y < Game.SIZE
  {
    [ColumnLabel(x)] + Decimal(y + 1)
  }

  /** Typing the labels of a cell selects that cell. */
  lemma LabelRoundTrip(x: nat, y: nat)
    requires x < Game.SIZE && y < Game.SIZE
    ensures ParsePos(Label(x, y)) == Move(x, y)
  {
    var s := Label(x, y);
    assert s[0] == ColumnLabel(x) && s[1..] == Decimal(y + 1);
    ParseDecimal(y + 1);
  }

  /** The first character of an accepted input is its column's label, and the rest parses to its row label's number. */
  lemma MoveParts(s: string)
    requires ParsePos(s).Move?
    ensures |s| >= 2 && s[0] == ColumnLabel(ParsePos(s).x)
    ensures ParseU32(s[1..]) == Some(ParsePos(s).y + 1)
  {
  }

  /** A string is its first character followed by the rest. */
  lemma SplitHead(s: string, sign: string, zeros: string, row: string)
    requires |s| >= 1 && s[1..] == sign + zeros + row
    ensures s == [s[0]] + sign + zeros + row
  {
    assert s == [s[0]] + s[1..];
  }

  /**
    Every input that selects a cell is that cell's label, up to a `+` and
    leading zeros before the row number: the converse of `LabelRoundTrip`.
  */
  lemma MoveHasLabels(s: string) returns (sign: string, zeros: string)
    requires ParsePos(s).Move?
    ensures sign == [] || sign == "+"
    ensures AllZeros(zeros)
    ensures s == [ColumnLabel(ParsePos(s).x)] + sign + zeros + Decimal(ParsePos(s).y + 1)
  {
    MoveParts(s);
    sign, zeros := ParseU32Form(s[1..]);
    SplitHead(s, sign, zeros, Decimal(ParsePos(s).y + 1));
  }

  /** The accepted examples in the documentation of `parse_pos`. */
  lemma ParsePosAccepts()
    ensures ParsePos("A1") == Move(0, 0)
    ensures ParsePos("C10") == Move(2, 9)
  {
    assert "A1"[1..] == "1";
    assert "C10"[1..] == "10" && "10"[..1] == "1";
  }

  /** The refused examples in the documentation of `parse_pos`. */
  lemma ParsePosRefuses()
    ensures ParsePos("Z99") == Invalid
    ensures ParsePos("A 1") == Invalid
    ensures ParsePos("A0") == Invalid
    ensures ParsePos("a1") == Invalid
  {
    assert "A 1"[1..] == " 1";
    assert "A0"[1..] == "0";
  }

  /** A leading `+` and leading zeros on the row number are accepted, as `u32` parsing accepts them. */
  lemma ParsePosSignAndZeros()
    ensures ParsePos("A+1") == Move(0, 0)
    ensures ParsePos("A01") == Move(0, 0)
  {
    assert "A+1"[1..] == "+1" && "+1"[1..] == "1";
    assert "A01"[1..] == "01" && "01"[..1] == "0";
  }

  /** A minus sign, the column after `O` and the row after 15 are refused. */
  lemma ParsePosOutOfRange()
    ensures ParsePos("A-1") == Invalid
    ensures ParsePos("P1") == Invalid
    ensures ParsePos("A16") == Invalid
  {
    assert "A-1"[1..] == "-1";
    assert "A16"[1..] == "16" && "16"[..1] == "1";
  }

  /** Input of fewer than two characters is never a move, whether or not it is ASCII. */
  lemma ShortInputRejected(s: string)
    requires |s| < 2
    ensures ParsePos(s) == Invalid
  {
    if |s| == 1 {
      assert s[1..] == [];
    }
  }

  /**
    Whitespace around the line, such as the newline `read_line` keeps, does
    not matter: an exit word is recognised and anything else is parsed as a
    position, exactly as if it had been typed bare.
  */
  lemma ReadMovePadded(pre: string, word: string, post: string)
    requires AllWhitespace(pre) && AllWhitespace(post) && Unpadded(word)
    ensures word in {"exit", "quit", "q"} ==> ReadMove(pre + word + post) == Exit
    ensures word !in {"exit", "quit", "q"} ==> ReadMove(pre + word + post) == ParsePos(word)
  {
    TrimPadded(pre, word, post);
  }
}
