/**
 * `parse_gps_coordinates`: an NMEA coordinate `DDMM.MMMM` (latitude) or
 * `DDDMM.MMMM` (longitude) and its hemisphere letter become signed decimal
 * degrees, or `None`.
 */
module Coordinates {
  import opened Wrappers
  import opened Numbers

  /** Two degree digits for "N" and "S"; three for any other hemisphere text. */
  function DegreeWidth(hemisphere: string): nat
  {
    if hemisphere == "N" || hemisphere == "S" then 2 else 3
  }

  /** South and west are negative. */
  predicate IsNegative(hemisphere: string)
  {
    hemisphere == "S" || hemisphere == "W"
  }

  /** `coord[:w]`, Python slicing clamps at the end of the string. */
  function DegreesText(coord: string, hemisphere: string): string
  {
    if |coord| <= DegreeWidth(hemisphere) then coord else coord[..DegreeWidth(hemisphere)]
  }

  /** `coord[w:]`, empty when the string is no longer than the degree width. */
  function MinutesText(coord: string, hemisphere: string): string
  {
    if |coord| <= DegreeWidth(hemisphere) then [] else coord[DegreeWidth(hemisphere)..]
  }

  function Convert(coord: string, hemisphere: string): (r: Option<real>)
    ensures coord == [] || hemisphere == [] ==> r.None?
    ensures |coord| <= DegreeWidth(hemisphere) ==> r.None?
    ensures r.Some? <==>
      coord != [] && hemisphere != []
      && ParseDecimal(DegreesText(coord, hemisphere)).Some?
      && ParseDecimal(MinutesText(coord, hemisphere)).Some?
  {
    if coord == [] || hemisphere == [] then None
    else
      match (ParseDecimal(DegreesText(coord, hemisphere)), ParseDecimal(MinutesText(coord, hemisphere)))
      case (Some(degrees), Some(minutes)) =>
        var magnitude := degrees + minutes / 60.0;
        Some(if IsNegative(hemisphere) then -magnitude else magnitude)
      case _ => None
  }

  /**
   * The converter inverts writing a coordinate as a fixed-width degree field
   * followed by a minutes numeral: it returns degrees plus minutes over sixty,
   * negated for "S" and "W". Every successful conversion has this shape, since
   * success needs text beyond the degree width.
   */
  lemma {:induction false} ConvertComposed(degrees: string, minutes: string, hemisphere: string)
    requires |degrees| == DegreeWidth(hemisphere) && ParseDecimal(degrees).Some?
    requires ParseDecimal(minutes).Some? && hemisphere != []
    ensures var v := ParseDecimal(degrees).value + ParseDecimal(minutes).value / 60.0;
      Convert(degrees + minutes, hemisphere) == Some(if IsNegative(hemisphere) then -v else v)
  {
    var coord := degrees + minutes;
    assert minutes != [];
    assert DegreesText(coord, hemisphere) == degrees;
    assert MinutesText(coord, hemisphere) == minutes;
  }

  /** "S" gives exactly the negation of "N", "W" exactly the negation of "E". */
  lemma HemisphereSign(coord: string)
    ensures Convert(coord, "S").Some? <==> Convert(coord, "N").Some?
    ensures Convert(coord, "S").Some? ==> Convert(coord, "S").value == -Convert(coord, "N").value
    ensures Convert(coord, "W").Some? <==> Convert(coord, "E").Some?
    ensures Convert(coord, "W").Some? ==> Convert(coord, "W").value == -Convert(coord, "E").value
  {
    assert DegreeWidth("S") == DegreeWidth("N") == 2 && DegreeWidth("W") == DegreeWidth("E") == 3;
    assert DegreesText(coord, "S") == DegreesText(coord, "N");
    assert MinutesText(coord, "S") == MinutesText(coord, "N");
    assert DegreesText(coord, "W") == DegreesText(coord, "E");
    assert MinutesText(coord, "W") == MinutesText(coord, "E");
  }

  /** Any non-empty hemisphere text other than "N", "S" and "W" is read as "E". */
  lemma OtherHemisphereIsEast(coord: string, hemisphere: string)
    requires hemisphere != [] && hemisphere != "N" && hemisphere != "S" && hemisphere != "W"
    ensures Convert(coord, hemisphere) == Convert(coord, "E")
  {
    assert DegreeWidth(hemisphere) == DegreeWidth("E") == 3;
    assert !IsNegative(hemisphere) && !IsNegative("E");
    assert DegreesText(coord, hemisphere) == DegreesText(coord, "E");
    assert MinutesText(coord, hemisphere) == MinutesText(coord, "E");
  }

  lemma DigitsOf48()
    ensures DigitsValue("48") == 48
  {
    assert "48"[..1] == "4";
  }

  lemma FractionOf038()
    ensures FractionValue("038") == 0.038
  {
    assert "038"[..2] == "03" && "03"[..1] == "0";
    assert DigitsValue("038") == 38;
    assert Pow10(3) == 1000;
  }

  // Each literal concatenation below is a lemma of its own, and each "Parts"
  // lemma proves the value on the concatenated form: kept apart, the string
  // equality and the numeric facts each give the solver a small proof.
  lemma LatitudeMinutesText()
    ensures "07.038" == "07" + "." + "038"
  {
  }

  lemma LatitudeMinutesParts()
    ensures ParseDecimal("07" + "." + "038") == Some(7.038)
  {
    assert DigitsValue("07") == 7 by {
      assert "07"[..1] == "0";
    }
    FractionOf038();
    DecimalParts("07", "038");
  }

  lemma LatitudeMinutes()
    ensures ParseDecimal("07.038") == Some(7.038)
  {
    LatitudeMinutesText();
    LatitudeMinutesParts();
  }

  lemma LatitudeText()
    ensures "4807.038" == "48" + "07.038"
  {
  }

  lemma LatitudeParts()
    ensures Convert("48" + "07.038", "N") == Some(48.1173)
  {
    assert AllDigits("48");
    assert DegreeWidth("N") == 2;
    DigitsOf48();
    LatitudeMinutes();
    ConvertComposed("48", "07.038", "N");
  }

  /** "4807.038" north is 48 degrees 7.038 minutes, 48.1173 degrees. */
  lemma ExampleLatitude()
    ensures Convert("4807.038", "N") == Some(48.1173)
  {
    LatitudeText();
    LatitudeParts();
  }

  lemma DigitsOf011()
    ensures DigitsValue("011") == 11
  {
    assert "011"[..2] == "01" && "01"[..1] == "0";
  }

  lemma FractionOf000()
    ensures FractionValue("000") == 0.0
  {
    assert "000"[..2] == "00" && "00"[..1] == "0";
    assert DigitsValue("000") == 0;
  }

  lemma LongitudeMinutesText()
    ensures "31.000" == "31" + "." + "000"
  {
  }

  lemma LongitudeMinutesParts()
    ensures ParseDecimal("31" + "." + "000") == Some(31.0)
  {
    assert DigitsValue("31") == 31 by {
      assert "31"[..1] == "3";
    }
    FractionOf000();
    DecimalParts("31", "000");
  }

  lemma LongitudeMinutes()
    ensures ParseDecimal("31.000") == Some(31.0)
  {
    LongitudeMinutesText();
    LongitudeMinutesParts();
  }

  lemma LongitudeText()
    ensures "01131.000" == "011" + "31.000"
  {
  }

  lemma LongitudeParts()
    ensures Convert("011" + "31.000", "E") == Some(11.0 + 31.0 / 60.0)
  {
    assert AllDigits("011");
    assert DegreeWidth("E") == 3;
    DigitsOf011();
    LongitudeMinutes();
    ConvertComposed("011", "31.000", "E");
  }

  /** "01131.000" east is 11 degrees 31 minutes. */
  lemma ExampleLongitude()
    ensures Convert("01131.000", "E") == Some(11.0 + 31.0 / 60.0)
  {
    LongitudeText();
    LongitudeParts();
  }

  lemma NoClampingText()
    ensures "9960" == "99" + "60"
  {
  }

  lemma NoClampingParts()
    ensures Convert("99" + "60", "N") == Some(100.0)
  {
    assert AllDigits("99");
    assert DegreeWidth("N") == 2;
    assert DigitsValue("99") == 99 by {
      assert "99"[..1] == "9";
    }
    assert ParseDecimal("60") == Some(60.0) by {
      assert "60"[..1] == "6";
    }
    ConvertComposed("99", "60", "N");
  }

  /** No range check: 99 degrees 60 minutes north is returned as 100 degrees. */
  lemma ExampleNoClamping()
    ensures Convert("9960", "N") == Some(100.0)
  {
    NoClampingText();
    NoClampingParts();
  }

  lemma SignedMinutesText()
    ensures "807.038" == "807" + "." + "038"
  {
  }

  lemma SignedMinutesParts()
    ensures ParseDecimal("807" + "." + "038") == Some(807.038)
  {
    assert DigitsValue("807") == 807 by {
      assert "807"[..2] == "80" && "80"[..1] == "8";
    }
    FractionOf038();
    DecimalParts("807", "038");
  }

  lemma SignedMinutes()
    ensures ParseDecimal("807.038") == Some(807.038)
  {
    SignedMinutesText();
    SignedMinutesParts();
  }

  lemma SignedDegreesText()
    ensures "-4807.038" == "-4" + "807.038"
  {
  }

  lemma SignedDegreesParts()
    ensures Convert("-4" + "807.038", "N") == Some(-4.0 + 807.038 / 60.0)
  {
    assert ParseDecimal("-4") == Some(-4.0) by {
      assert "-4"[1..] == "4";
    }
    SignedMinutes();
    assert DegreeWidth("N") == 2;
    ConvertComposed("-4", "807.038", "N");
  }

  /**
   * The degree field is read by `float()` too, so a sign in it is accepted:
   * "-4807.038" north is -4 degrees plus 807.038 minutes.
   */
  lemma ExampleSignedDegrees()
    ensures Convert("-4807.038", "N") == Some(-4.0 + 807.038 / 60.0)
  {
    SignedDegreesText();
    SignedDegreesParts();
  }

  /** Empty text and a degree field with no minutes after it both give `None`. */
  lemma ExampleFailures()
    ensures Convert("", "N").None?
    ensures Convert("48", "N").None?
    ensures Convert("4807.038", "").None?
    ensures Convert("48xx.5", "N").None?
  {
    assert "48xx.5"[..2] == "48";
    assert "48xx.5"[2..] == "xx.5";
    assert !IsDigit('x');
  }
}
