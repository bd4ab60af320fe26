/**
 What one pass of the loop does to the terminal: clear it, or print a line.
 Number formatting and the escape sequence that clears the screen are not
 modelled; a printed field carries the values it shows.
 */
module Display {
  import opened Nmea

  /** A value placed into a printed line. */
  datatype Value =
    | Int(i: int)
    | Real(x: real)
    | Char(c: char)
    | Str(s: string)
    | Time(t: DateTime)

  /** One `printf` call. */
  datatype Line =
    | Heading(text: string)                    // a fixed caption
    | Field(caption: string, values: seq<Value>) // a caption with values
    | ParseFailure                             // the parse-failure notice

  datatype Action = ClearView | Print(line: Line)

  /** The underline printed under most sentence titles. */
  const Rule: Line := Heading("---------------")

  /** Printing each line in turn. */
  function Prints(ls: seq<Line>): seq<Action>
  {
    seq(|ls|, i requires 0 <= i < |ls| => Print(ls[i]))
  }
}
