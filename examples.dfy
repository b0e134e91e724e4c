/**
 * Worked sentences: the GGA example of the NMEA 0183 standard and an RMC
 * sentence with an empty speed field, parsed end to end.
 */
module SentenceExamples {
  import opened Wrappers
  import opened Text
  import opened Numbers
  import opened Coordinates
  import opened Sentences

  /** The fields of `$GPGGA,123519,4807.038,N,01131.000,E,1,08,0.9,545.4,M,46.9,M,,`. */
  predicate IsGgaExample(f: seq<string>)
  {
    && |f| == 15 && f[0] == "$GPGGA" && f[1] == "123519" && f[2] == "4807.038" && f[3] == "N"
    && f[4] == "01131.000" && f[5] == "E" && f[6] == "1" && f[7] == "08" && f[8] == "0.9"
    && f[9] == "545.4" && f[10] == "M" && f[11] == "46.9" && f[12] == "M" && f[13] == "" && f[14] == ""
  }

  lemma DigitsOf545()
    ensures DigitsValue("545") == 545
  {
    assert "545"[..2] == "54" && "54"[..1] == "5";
  }

  // As for the coordinate examples, a literal concatenation and the value read
  // from its parts are proved in separate lemmas to keep each proof small.
  lemma AltitudeText()
    ensures "545.4" == "545" + "." + "4"
  {
  }

  lemma AltitudeParts()
    ensures ParseDecimal("545" + "." + "4") == Some(545.4)
  {
    DigitsOf545();
    FractionOf4();
    DecimalParts("545", "4");
  }

  lemma ExampleAltitude()
    ensures ParseDecimal("545.4") == Some(545.4)
  {
    AltitudeText();
    AltitudeParts();
  }

  lemma ExampleFixQuality()
    ensures ParseInt("1") == Some(1)
  {
    assert AllDigits("1");
  }

  lemma ExampleSatellites()
    ensures ParseInt("08") == Some(8)
  {
    assert "08"[..1] == "0";
  }

  lemma FractionOf4()
    ensures FractionValue("4") == 0.4
  {
    assert DigitsValue("4") == 4;
    assert Pow10(1) == 10;
  }

  lemma DigitsOf084()
    ensures DigitsValue("084") == 84
  {
    assert "084"[..2] == "08" && "08"[..1] == "0";
  }

  lemma CourseText()
    ensures "084.4" == "084" + "." + "4"
  {
  }

  lemma CourseParts()
    ensures ParseDecimal("084" + "." + "4") == Some(84.4)
  {
    DigitsOf084();
    FractionOf4();
    DecimalParts("084", "4");
  }

  lemma ExampleCourse()
    ensures ParseDecimal("084.4") == Some(84.4)
  {
    CourseText();
    CourseParts();
  }

  lemma GgaExampleCoordinates(fields: seq<string>)
    requires IsGgaExample(fields)
    ensures Convert(fields[2], fields[3]) == Some(48.1173)
    ensures Convert(fields[4], fields[5]) == Some(11.0 + 31.0 / 60.0)
  {
    ExampleLatitude();
    ExampleLongitude();
  }

  lemma GgaExampleNumbers(fields: seq<string>)
    requires IsGgaExample(fields)
    ensures ParseInt(fields[6]) == Some(1)
    ensures ParseInt(fields[7]) == Some(8)
    ensures ParseDecimal(fields[9]) == Some(545.4)
  {
    ExampleFixQuality();
    ExampleSatellites();
    ExampleAltitude();
  }

  lemma GgaExampleRecord(fields: seq<string>)
    requires IsGgaExample(fields)
    ensures ParseGga(fields)
      == Some(GgaFix(Some("123519"), Some(48.1173), Some(11.0 + 31.0 / 60.0), 1, 8, Some(545.4), Some("M")))
  {
    GgaExampleCoordinates(fields);
    GgaExampleNumbers(fields);
  }

  lemma GgaExampleDispatch(fields: seq<string>)
    requires IsGgaExample(fields)
    ensures Dispatch(fields)
      == Some(Gga(GgaFix(Some("123519"), Some(48.1173), Some(11.0 + 31.0 / 60.0), 1, 8, Some(545.4), Some("M"))))
  {
    assert IsGgaId(fields[0]);
    GgaExampleRecord(fields);
  }

  /**
   * The GGA example sentence with checksum 47: time "123519", 48.1173 north,
   * 11 degrees 31 minutes east, GPS fix, 8 satellites, 545.4 metres.
   */
  lemma ExampleGga(fields: seq<string>)
    requires IsGgaExample(fields)
    ensures ParseSentence(Join(fields, ',') + "*" + "47")
      == Some(Gga(GgaFix(Some("123519"), Some(48.1173), Some(11.0 + 31.0 / 60.0), 1, 8, Some(545.4), Some("M"))))
  {
    assert NoneContains(fields, ',') && NoneContains(fields, '*');
    FramedFields(fields, "47");
    GgaExampleDispatch(fields);
  }

  /** The fields of `$GNRMC,123519,A,4807.038,N,01131.000,W,,084.4,230394,003.1,W`. */
  predicate IsRmcExample(f: seq<string>)
  {
    && |f| == 12 && f[0] == "$GNRMC" && f[1] == "123519" && f[2] == "A" && f[3] == "4807.038"
    && f[4] == "N" && f[5] == "01131.000" && f[6] == "W" && f[7] == "" && f[8] == "084.4"
    && f[9] == "230394" && f[10] == "003.1" && f[11] == "W"
  }

  lemma RmcExampleValues(fields: seq<string>)
    requires IsRmcExample(fields)
    ensures Convert(fields[3], fields[4]) == Some(48.1173)
    ensures Convert(fields[5], fields[6]) == Some(-(11.0 + 31.0 / 60.0))
    ensures ParseDecimal(fields[8]) == Some(84.4)
  {
    ExampleLatitude();
    ExampleLongitude();
    HemisphereSign("01131.000");
    ExampleCourse();
  }

  lemma RmcExampleRecord(fields: seq<string>)
    requires IsRmcExample(fields)
    ensures ParseRmc(fields)
      == Some(RmcFix(Some("123519"), Some("A"), Some(48.1173), Some(-(11.0 + 31.0 / 60.0)),
                     None, Some(84.4), Some("230394")))
  {
    RmcExampleValues(fields);
  }

  lemma RmcExampleDispatch(fields: seq<string>)
    requires IsRmcExample(fields)
    ensures Dispatch(fields)
      == Some(Rmc(RmcFix(Some("123519"), Some("A"), Some(48.1173), Some(-(11.0 + 31.0 / 60.0)),
                         None, Some(84.4), Some("230394"))))
  {
    assert IsRmcId(fields[0]) && !IsGgaId(fields[0]);
    RmcExampleRecord(fields);
  }

  /**
   * An RMC sentence (multi-constellation talker) whose speed field is empty:
   * the speed is `None`, the course and every other field are kept, the west
   * longitude is negative, and the record is tagged "GPRMC".
   */
  lemma ExampleRmcWithoutSpeed(fields: seq<string>)
    requires IsRmcExample(fields)
    ensures ParseSentence(Join(fields, ',') + "*" + "6A")
      == Some(Rmc(RmcFix(Some("123519"), Some("A"), Some(48.1173), Some(-(11.0 + 31.0 / 60.0)),
                         None, Some(84.4), Some("230394"))))
    ensures TypeTag(ParseSentence(Join(fields, ',') + "*" + "6A").value) == "GPRMC"
  {
    assert NoneContains(fields, ',') && NoneContains(fields, '*');
    FramedFields(fields, "6A");
    RmcExampleDispatch(fields);
  }
}
