/**
 Sentence dispatch: the second half of one pass of the receive loop.  The
 loop tests the decoded sentence's type against five tags in five separate
 `if` statements, each printing that sentence's fields; the RMC branch clears
 the view before printing and the GSA branch clears it after printing unless
 the receiver reports no fix.
 */
module Dispatcher {
  import opened Nmea
  import opened Display

  /** The lines of the GPTXT branch. */
  function TxtLines(s: Sentence): seq<Line>
    requires s.Gptxt?
  {
    [ Heading("GPTXT Sentence:"), Rule,
      Field("ID", [Int(s.id00), Int(s.id01), Int(s.id02)]),
      Field("Text", [Str(s.text)]) ]
  }

  /** The lines printed for one coordinate of an RMC fix. */
  function PositionLines(caption: string, p: Position): seq<Line>
  {
    [ Heading(caption),
      Field("Degrees", [Int(p.degrees)]),
      Field("Minutes", [Real(p.minutes)]),
      Field("Cardinal", [Char(p.cardinal)]) ]
  }

  /** The lines of the GPRMC branch. */
  function RmcLines(s: Sentence): seq<Line>
    requires s.Gprmc?
  {
    [Heading("GPRMC sentence"), Rule]
    + PositionLines("Longitude:", s.longitude)
    + PositionLines("Latitude:", s.latitude)
    + [ Field("Date & Time", [Time(s.dateTime)]),
        Field("Speed, in Knots", [Real(s.gndspdKnots)]),
        Field("Track, in degrees", [Real(s.trackDeg)]) ]
  }

  /** The lines of the GPVTG branch. */
  function VtgLines(s: Sentence): seq<Line>
    requires s.Gpvtg?
  {
    [ Heading("GPVTG Sentence:"), Rule,
      Field("Track [deg]", [Real(s.trackDeg)]),
      Field("Speed [kmph]", [Real(s.gndspdKmph)]),
      Field("Speed [knots]", [Real(s.gndspdKnots)]) ]
  }

  /** The lines of the GPGSA branch. */
  function GsaLines(s: Sentence): seq<Line>
    requires s.Gpgsa?
  {
    [ Heading("GPGSA Sentence:"), Rule,
      Field("Mode", [Char(s.mode)]),
      Heading("Fix Key: 1 = no fix, 2 = 2D, 3 = 3D"),
      Field("Fix", [Int(s.fixType)]),
      Field("PDOP", [Real(s.pdop)]),
      Field("HDOP", [Real(s.hdop)]),
      Field("VDOP", [Real(s.vdop)]) ]
  }

  /** Caption of satellite slot `k`: "#1" to "#4". */
  function SlotCaption(k: nat): string
    requires k < 4
  {
    ["#"[0], "1234"[k]]
  }

  /** The line printed for satellite slot `k`. */
  function SatelliteLine(s: Sentence, k: nat): Line
    requires s.Gpgsv? && k < 4
  {
    var sat := Slot(s, k);
    Field(SlotCaption(k), [Int(sat.prn), Int(sat.elevationDeg), Int(sat.azimuthDeg), Int(sat.snrDb)])
  }

  /** The lines of the GPGSV branch: all four slots, whatever the count says. */
  function GsvLines(s: Sentence): seq<Line>
    requires s.Gpgsv?
  {
    [ Heading("GPGSV Sentence:"),
      Field("Total sentences", [Int(s.sentences)]),
      Field("Current sentence", [Int(s.sentenceNumber)]),
      Field("Satellites", [Int(s.satellites)]),
      SatelliteLine(s, 0), SatelliteLine(s, 1), SatelliteLine(s, 2), SatelliteLine(s, 3) ]
  }

  /** Reference routing: one handler per variant, chosen by a match.  The
      view is cleared only for RMC and for GSA with a fix, only the ignored
      types print nothing, and no handler prints the parse-failure notice. */
  function Present(s: Sentence): (r: seq<Action>)
    ensures ClearView in r <==> s.Gprmc? || (s.Gpgsa? && s.fixType != NoFix)
    ensures r == [] <==> s.Other?
    ensures Print(ParseFailure) !in r
  {
    match s
    case Gptxt(_, _, _, _) => Prints(TxtLines(s))
    case Gprmc(_, _, _, _, _) => [ClearView] + Prints(RmcLines(s))
    case Gpvtg(_, _, _) => Prints(VtgLines(s))
    case Gpgsa(_, _, _, _, _) =>
      Prints(GsaLines(s)) + (if s.fixType != NoFix then [ClearView] else [])
    case Gpgsv(_, _, _, _, _, _, _) => Prints(GsvLines(s))
    case Other(_) => []
  }

  /** The five tag tests as the loop writes them: independent `if`s, run
      one after the other, whose outputs follow each other. */
  function Dispatch(s: Sentence): (r: seq<Action>)
    ensures r == Present(s)
    ensures ClearView in r <==> s.Gprmc? || (s.Gpgsa? && s.fixType != NoFix)
    ensures r == [] <==> s.Other?
    ensures Print(ParseFailure) !in r
  {
    (if s.Gptxt? then Prints(TxtLines(s)) else [])
    + (if s.Gprmc? then [ClearView] + Prints(RmcLines(s)) else [])
    + (if s.Gpvtg? then Prints(VtgLines(s)) else [])
    + (if s.Gpgsa? then Prints(GsaLines(s)) + (if s.fixType != NoFix then [ClearView] else []) else [])
    + (if s.Gpgsv? then Prints(GsvLines(s)) else [])
  }

  /** An RMC sentence clears the view once, before any of its lines. */
  lemma RmcClearsFirst(s: Sentence)
    requires s.Gprmc?
    ensures |Dispatch(s)| > 1 && Dispatch(s)[0] == ClearView
    ensures forall i :: 0 < i < |Dispatch(s)| ==> Dispatch(s)[i].Print?
  {
  }

  /** A GSA sentence prints all its lines, then clears the view exactly when
      the fix type is not "no fix". */
  lemma GsaClearsAfterPrinting(s: Sentence)
    requires s.Gpgsa?
    ensures |Dispatch(s)| == |GsaLines(s)| + (if s.fixType != NoFix then 1 else 0)
    ensures forall i :: 0 <= i < |GsaLines(s)| ==> Dispatch(s)[i].Print?
    ensures s.fixType != NoFix ==> Dispatch(s)[|Dispatch(s)| - 1] == ClearView
  {
  }

  /** TXT, VTG and GSV sentences only print. */
  lemma OnlyPrintsOtherwise(s: Sentence)
    requires s.Gptxt? || s.Gpvtg? || s.Gpgsv?
    ensures forall i :: 0 <= i < |Dispatch(s)| ==> Dispatch(s)[i].Print?
  {
  }

  /** A GSV sentence always prints all four satellite slots, in slot order,
      after its four header lines. */
  lemma GsvPrintsFourSlots(s: Sentence)
    requires s.Gpgsv?
    ensures |Dispatch(s)| == 8
    ensures forall k :: 0 <= k < 4 ==> Dispatch(s)[4 + k] == Print(SatelliteLine(s, k))
  {
    GsvPrintsItsLines(s);
  }

  /** What a GSV sentence prints for its slots does not depend on the
      satellite count it reports. */
  lemma GsvSlotsIgnoreCount(s: Sentence, n: int)
    requires s.Gpgsv?
    ensures Dispatch(s.(satellites := n))[4..] == Dispatch(s)[4..]
  {
    var t := s.(satellites := n);
    GsvPrintsItsLines(s);
    GsvPrintsItsLines(t);
    GsvLinesIgnoreCount(s, n);
    PrintsKeepsSuffix(GsvLines(s), GsvLines(t), 4);
  }

  /** The slot lines of a GSV sentence do not read its satellite count. */
  lemma GsvLinesIgnoreCount(s: Sentence, n: int)
    requires s.Gpgsv?
    ensures |GsvLines(s.(satellites := n))| == |GsvLines(s)| == 8
    ensures GsvLines(s.(satellites := n))[4..] == GsvLines(s)[4..]
  {
    var t := s.(satellites := n);
    assert forall k :: 0 <= k < 4 ==> Slot(t, k) == Slot(s, k);
  }

  /** Lines that agree from index `k` on are printed alike from `k` on. */
  lemma PrintsKeepsSuffix(ls: seq<Line>, lt: seq<Line>, k: nat)
    requires |ls| == |lt| && k <= |ls| && ls[k..] == lt[k..]
    ensures Prints(ls)[k..] == Prints(lt)[k..]
  {
    assert forall i :: k <= i < |ls| ==> ls[i] == lt[i] by {
      forall i | k <= i < |ls|
        ensures ls[i] == lt[i]
      {
        assert ls[k..][i - k] == lt[k..][i - k];
      }
    }
  }

  /** The GSV branch is the only one a GSV sentence reaches. */
  lemma GsvPrintsItsLines(s: Sentence)
    requires s.Gpgsv?
    ensures Dispatch(s) == Prints(GsvLines(s))
  {
  }

  /** A TXT sentence reaches the TXT branch alone, which shows its three
      identifiers and then its text. */
  lemma TxtShowsIdsAndText(s: Sentence)
    requires s.Gptxt?
    ensures Dispatch(s) == Prints(TxtLines(s))
    ensures Print(Field("ID", [Int(s.id00), Int(s.id01), Int(s.id02)])) in Dispatch(s)
    ensures Print(Field("Text", [Str(s.text)])) in Dispatch(s)
  {
    assert Dispatch(s)[2] == Print(Field("ID", [Int(s.id00), Int(s.id01), Int(s.id02)]));
    assert Dispatch(s)[3] == Print(Field("Text", [Str(s.text)]));
  }
}
