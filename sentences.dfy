/**
 * `parse_nmea_sentence`: one NMEA 0183 line becomes a typed GGA (fix data)
 * or RMC (recommended minimum) record, or `None`.
 */
module Sentences {
  import opened Wrappers
  import opened Text
  import opened Numbers
  import opened Coordinates

  /** The fields of a GGA sentence that the reader keeps. */
  datatype GgaFix = GgaFix(
    time: Option<string>,
    latitude: Option<real>,
    longitude: Option<real>,
    fixQuality: int,
    satellites: int,
    altitude: Option<real>,
    altitudeUnits: Option<string>)

  /** The fields of an RMC sentence that the reader keeps. */
  datatype RmcFix = RmcFix(
    time: Option<string>,
    status: Option<string>,
    latitude: Option<real>,
    longitude: Option<real>,
    speedKnots: Option<real>,
    course: Option<real>,
    date: Option<string>)

  /** A parsed sentence; the constructor is the record's `type` entry. */
  datatype Sentence = Gga(gga: GgaFix) | Rmc(rmc: RmcFix)

  /** The `type` string the reader stores in the record. */
  function TypeTag(s: Sentence): (tag: string)
    ensures tag == "GPGGA" <==> s.Gga?
    ensures tag == "GPRMC" <==> s.Rmc?
  {
    match s
    case Gga(_) => "GPGGA"
    case Rmc(_) => "GPRMC"
  }

  predicate IsGgaId(id: string)
  {
    id == "$GPGGA" || id == "$GNGGA"
  }

  predicate IsRmcId(id: string)
  {
    id == "$GPRMC" || id == "$GNRMC"
  }

  /** `fields[i] if len(fields) > i else None`. */
  function Field(fields: seq<string>, i: nat): Option<string>
  {
    if |fields| > i then Some(fields[i]) else None
  }

  /** `parse_gps_coordinates(fields[i], fields[i + 1]) if len(fields) > i + 1 else None`. */
  function CoordinateAt(fields: seq<string>, i: nat): Option<real>
  {
    if |fields| > i + 1 then Convert(fields[i], fields[i + 1]) else None
  }

  /** A present, non-empty field that `int()` rejects. */
  predicate BadInt(fields: seq<string>, i: nat)
  {
    |fields| > i && fields[i] != [] && ParseInt(fields[i]).None?
  }

  /** A present, non-empty field that `float()` rejects. */
  predicate BadReal(fields: seq<string>, i: nat)
  {
    |fields| > i && fields[i] != [] && ParseDecimal(fields[i]).None?
  }

  /** What reading one numeric field gives: a value, or the exception that ends the record. */
  datatype Reading<T> = Read(value: T) | Raised

  /** `int(fields[i]) if len(fields) > i and fields[i] else 0`. */
  function IntOrZero(fields: seq<string>, i: nat): Reading<int>
  {
    if |fields| > i && fields[i] != [] then
      match ParseInt(fields[i])
      case Some(n) => Read(n)
      case None => Raised
    else Read(0)
  }

  /** `float(fields[i]) if len(fields) > i and fields[i] else None`. */
  function RealOrNone(fields: seq<string>, i: nat): Reading<Option<real>>
  {
    if |fields| > i && fields[i] != [] then
      match ParseDecimal(fields[i])
      case Some(v) => Read(Some(v))
      case None => Raised
    else Read(None)
  }

  /**
   * The GGA branch: time (1), latitude (2, 3), longitude (4, 5), fix quality
   * (6), satellites (7), altitude (9) and its unit (10). All entries are built
   * inside one `try`, so a malformed numeric field discards the whole record;
   * a malformed coordinate only leaves that coordinate `None`.
   */
  function ParseGga(fields: seq<string>): (r: Option<GgaFix>)
    ensures r.None? <==> BadInt(fields, 6) || BadInt(fields, 7) || BadReal(fields, 9)
    ensures r.Some? ==> var g := r.value;
      && (g.time.Some? <==> |fields| > 1) && (|fields| > 1 ==> g.time.value == fields[1])
      && (|fields| <= 3 ==> g.latitude.None?)
      && (|fields| > 3 ==> g.latitude == Convert(fields[2], fields[3]))
      && (|fields| <= 5 ==> g.longitude.None?)
      && (|fields| > 5 ==> g.longitude == Convert(fields[4], fields[5]))
      && (|fields| <= 6 || fields[6] == [] ==> g.fixQuality == 0)
      && (|fields| > 6 && fields[6] != [] ==> ParseInt(fields[6]) == Some(g.fixQuality))
      && (|fields| <= 7 || fields[7] == [] ==> g.satellites == 0)
      && (|fields| > 7 && fields[7] != [] ==> ParseInt(fields[7]) == Some(g.satellites))
      && (g.altitude.Some? <==> |fields| > 9 && fields[9] != [])
      && (g.altitude.Some? ==> ParseDecimal(fields[9]) == g.altitude)
      && (g.altitudeUnits.Some? <==> |fields| > 10) && (|fields| > 10 ==> g.altitudeUnits.value == fields[10])
  {
    var quality, satellites, altitude := IntOrZero(fields, 6), IntOrZero(fields, 7), RealOrNone(fields, 9);
    if quality.Raised? || satellites.Raised? || altitude.Raised? then None
    else Some(GgaFix(
      Field(fields, 1), CoordinateAt(fields, 2), CoordinateAt(fields, 4),
      quality.value, satellites.value, altitude.value, Field(fields, 10)))
  }

  /**
   * The RMC branch: time (1), status (2), latitude (3, 4), longitude (5, 6),
   * speed in knots (7), course (8) and date (9), under the same single `try`.
   */
  function ParseRmc(fields: seq<string>): (r: Option<RmcFix>)
    ensures r.None? <==> BadReal(fields, 7) || BadReal(fields, 8)
    ensures r.Some? ==> var m := r.value;
      && (m.time.Some? <==> |fields| > 1) && (|fields| > 1 ==> m.time.value == fields[1])
      && (m.status.Some? <==> |fields| > 2) && (|fields| > 2 ==> m.status.value == fields[2])
      && (|fields| <= 4 ==> m.latitude.None?)
      && (|fields| > 4 ==> m.latitude == Convert(fields[3], fields[4]))
      && (|fields| <= 6 ==> m.longitude.None?)
      && (|fields| > 6 ==> m.longitude == Convert(fields[5], fields[6]))
      && (m.speedKnots.Some? <==> |fields| > 7 && fields[7] != [])
      && (m.speedKnots.Some? ==> ParseDecimal(fields[7]) == m.speedKnots)
      && (m.course.Some? <==> |fields| > 8 && fields[8] != [])
      && (m.course.Some? ==> ParseDecimal(fields[8]) == m.course)
      && (m.date.Some? <==> |fields| > 9) && (|fields| > 9 ==> m.date.value == fields[9])
  {
    var speed, course := RealOrNone(fields, 7), RealOrNone(fields, 8);
    if speed.Raised? || course.Raised? then None
    else Some(RmcFix(
      Field(fields, 1), Field(fields, 2), CoordinateAt(fields, 3), CoordinateAt(fields, 5),
      speed.value, course.value, Field(fields, 9)))
  }

  /**
   * Dispatch on the sentence identifier, field 0: only the four exact
   * identifiers produce a record, every other one is ignored.
   */
  function Dispatch(fields: seq<string>): (r: Option<Sentence>)
    requires |fields| >= 1
    ensures !IsGgaId(fields[0]) && !IsRmcId(fields[0]) ==> r.None?
    ensures IsGgaId(fields[0]) ==> r == (if ParseGga(fields).Some? then Some(Gga(ParseGga(fields).value)) else None)
    ensures IsRmcId(fields[0]) ==> r == (if ParseRmc(fields).Some? then Some(Rmc(ParseRmc(fields).value)) else None)
    ensures r.Some? ==> (TypeTag(r.value) == "GPGGA" <==> IsGgaId(fields[0]))
  {
    if IsGgaId(fields[0]) then
      match ParseGga(fields)
      case Some(g) => Some(Gga(g))
      case None => None
    else if IsRmcId(fields[0]) then
      match ParseRmc(fields)
      case Some(m) => Some(Rmc(m))
      case None => None
    else None
  }

  /**
   * Framing of a stripped line: it must start with '$' and split on '*' into
   * exactly two parts; the part before '*' is split on ','. The checksum
   * after '*' is not looked at.
   */
  function Frame(t: string): (r: Option<seq<string>>)
    ensures r.Some? <==> |t| > 0 && t[0] == '$' && Count(t, '*') == 1
    ensures r.Some? ==> |r.value| >= 1 && NoneContains(r.value, ',')
    ensures r.Some? ==> Join(r.value, ',') == t[..IndexOf(t, '*')]
  {
    if !(|t| > 0 && t[0] == '$') || '*' !in t then None
    else
      var halves := Split(t, '*');
      if |halves| != 2 then None
      else Some(Split(halves[0], ','))
  }

  /** `parse_nmea_sentence(line)`. */
  function ParseSentence(line: string): (r: Option<Sentence>)
    ensures r.Some? ==> var t := Strip(line); |t| > 0 && t[0] == '$' && Count(t, '*') == 1
    ensures r.Some? ==> var id := Frame(Strip(line)).value[0];
      (r.value.Gga? && IsGgaId(id)) || (r.value.Rmc? && IsRmcId(id))
  {
    match Frame(Strip(line))
    case None => None
    case Some(fields) => Dispatch(fields)
  }

  /** Whitespace around a sentence makes no difference. */
  lemma WhitespaceIgnored(w1: string, t: string, w2: string)
    requires AllSpace(w1) && AllSpace(w2) && Trimmed(t)
    ensures ParseSentence(w1 + t + w2) == ParseSentence(t)
  {
    StripPadded(w1, t, w2);
    StripTrimmed(t);
  }

  /**
   * The checksum after '*' is never compared: any two checksums give the same
   * result. A checksum is taken without the line ending; `ChecksumIgnoredWithLineEnd`
   * covers lines as read, with trailing whitespace such as "\r\n".
   */
  lemma ChecksumIgnored(data: string, c1: string, c2: string)
    requires |data| > 0 && data[0] == '$'
    requires '*' !in data && '*' !in c1 && '*' !in c2
    requires c1 == [] || !IsSpace(c1[|c1| - 1])
    requires c2 == [] || !IsSpace(c2[|c2| - 1])
    ensures ParseSentence(data + "*" + c1) == ParseSentence(data + "*" + c2)
  {
    FrameOfChecksummed(data, c1);
    FrameOfChecksummed(data, c2);
  }

  /** The same for lines as read: a line ending after either checksum makes no difference. */
  lemma ChecksumIgnoredWithLineEnd(data: string, c1: string, w1: string, c2: string, w2: string)
    requires |data| > 0 && data[0] == '$'
    requires '*' !in data && '*' !in c1 && '*' !in c2
    requires c1 == [] || !IsSpace(c1[|c1| - 1])
    requires c2 == [] || !IsSpace(c2[|c2| - 1])
    requires AllSpace(w1) && AllSpace(w2)
    ensures ParseSentence(data + "*" + c1 + w1) == ParseSentence(data + "*" + c2 + w2)
  {
    var t1, t2 := data + "*" + c1, data + "*" + c2;
    assert Trimmed(t1) && Trimmed(t2);
    assert t1 + w1 == [] + t1 + w1 && t2 + w2 == [] + t2 + w2;
    WhitespaceIgnored([], t1, w1);
    WhitespaceIgnored([], t2, w2);
    ChecksumIgnored(data, c1, c2);
  }

  lemma FrameOfChecksummed(data: string, c: string)
    requires |data| > 0 && data[0] == '$'
    requires '*' !in data && '*' !in c
    requires c == [] || !IsSpace(c[|c| - 1])
    ensures Frame(Strip(data + "*" + c)) == Some(Split(data, ','))
  {
    var t := data + "*" + c;
    assert Trimmed(t);
    StripTrimmed(t);
    SplitTwo(data, '*', c);
  }

  /**
   * Framing undoes writing a sentence: fields free of ',' and '*' whose first
   * starts with '$', joined with ',' and followed by '*' and a checksum, are
   * dispatched exactly as given.
   */
  lemma FramedFields(fields: seq<string>, c: string)
    requires |fields| >= 1 && |fields[0]| > 0 && fields[0][0] == '$'
    requires NoneContains(fields, ',') && NoneContains(fields, '*')
    requires '*' !in c && (c == [] || !IsSpace(c[|c| - 1]))
    ensures ParseSentence(Join(fields, ',') + "*" + c) == Dispatch(fields)
  {
    var data := Join(fields, ',');
    JoinAvoids(fields, ',', '*');
    assert data[0] == '$';
    FrameOfChecksummed(data, c);
    SplitJoin(fields, ',');
  }

  /**
   * A coordinate that cannot be converted costs only that coordinate: with
   * any text in one of the four coordinate fields 2..5, the record is kept or
   * discarded exactly as before and differs at most in the coordinate read
   * from that field.
   */
  lemma GgaCoordinateFailureIsLocal(fields: seq<string>, i: nat, x: string)
    requires 2 <= i <= 5 && i < |fields|
    ensures ParseGga(fields[i := x]).Some? <==> ParseGga(fields).Some?
    ensures ParseGga(fields).Some? ==>
      var g, h := ParseGga(fields).value, ParseGga(fields[i := x]).value;
      && h.(latitude := g.latitude, longitude := g.longitude) == g
      && (i <= 3 ==> h.longitude == g.longitude)
      && (i >= 4 ==> h.latitude == g.latitude)
  {
  }

  /** The same for the four coordinate fields 3..6 of an RMC sentence. */
  lemma RmcCoordinateFailureIsLocal(fields: seq<string>, i: nat, x: string)
    requires 3 <= i <= 6 && i < |fields|
    ensures ParseRmc(fields[i := x]).Some? <==> ParseRmc(fields).Some?
    ensures ParseRmc(fields).Some? ==>
      var m, n := ParseRmc(fields).value, ParseRmc(fields[i := x]).value;
      && n.(latitude := m.latitude, longitude := m.longitude) == m
      && (i <= 4 ==> n.longitude == m.longitude)
      && (i >= 5 ==> n.latitude == m.latitude)
  {
  }
}
