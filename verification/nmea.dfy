/**
 The decoded sentences the parsing library hands back.  Decoding itself
 (grammar, checksum, field extraction) belongs to the library and is not
 modelled; these are only the shapes the receive loop reads fields from.
 */
module Nmea {

  /** One coordinate as the library reports it. */
  datatype Position = Position(degrees: int, minutes: real, cardinal: char)

  /** The broken-down time of an RMC fix (a `struct tm`). */
  datatype DateTime = DateTime(year: int, month: int, day: int, hour: int, minute: int, second: int)

  /** One satellite record of a GSV sentence; absent records are all zero. */
  datatype SatelliteInfo = SatelliteInfo(prn: int, elevationDeg: int, azimuthDeg: int, snrDb: int)

  /** A decoded sentence, one variant per type tag the loop tests. */
  datatype Sentence =
    | Gptxt(id00: int, id01: int, id02: int, text: string)
    | Gprmc(longitude: Position, latitude: Position, dateTime: DateTime, gndspdKnots: real, trackDeg: real)
    | Gpvtg(trackDeg: real, gndspdKmph: real, gndspdKnots: real)
    | Gpgsa(mode: char, fixType: int, pdop: real, hdop: real, vdop: real)
    | Gpgsv(sentences: int, sentenceNumber: int, satellites: int,
            s0: SatelliteInfo, s1: SatelliteInfo, s2: SatelliteInfo, s3: SatelliteInfo)
    | Other(tag: string)  // GPGGA, GPGLL and every other type the loop does not test

  /** Fix type 1 means "no fix"; 2 and 3 are 2D and 3D fixes. */
  const NoFix: int := 1

  /** The satellite record in slot `k` (0 to 3) of a GSV sentence. */
  function Slot(s: Sentence, k: nat): SatelliteInfo
    requires s.Gpgsv? && k < 4
  {
    if k == 0 then s.s0 else if k == 1 then s.s1 else if k == 2 then s.s2 else s.s3
  }
}
