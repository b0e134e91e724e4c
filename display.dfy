/**
 * The two pure helpers of the display: `format_gps_time` and the fix-quality
 * label table.
 */
module Display {
  import opened Wrappers

  /**
   * `format_gps_time`: "HHMMSS..." becomes "HH:MM:SS UTC" from the first six
   * characters as they are (no digit or range check); a missing, empty or
   * shorter string becomes "N/A".
   */
  function FormatTime(time: Option<string>): (r: string)
    ensures r == "N/A" <==> time.None? || |time.value| < 6
    ensures r != "N/A" ==> |r| == 12 && r[2] == ':' && r[5] == ':' && r[8..] == " UTC"
  {
    if time.None? || time.value == [] || |time.value| < 6 then "N/A"
    else
      var t := time.value;
      t[0..2] + ":" + t[2..4] + ":" + t[4..6] + " UTC"
  }

  /** The six characters a formatted time was made from (hours, minutes, seconds). */
  function ClockDigits(r: string): string
    requires |r| == 12
  {
    r[0..2] + r[3..5] + r[6..8]
  }

  /** Formatting keeps exactly the first six characters: they can be read back. */
  lemma FormatTimeKeepsDigits(t: string)
    requires |t| >= 6
    ensures |FormatTime(Some(t))| == 12
    ensures ClockDigits(FormatTime(Some(t))) == t[..6]
  {
    var r := FormatTime(Some(t));
    assert r[0..2] == t[0..2] && r[3..5] == t[2..4] && r[6..8] == t[4..6];
    assert t[..6] == t[0..2] + t[2..4] + t[4..6];
  }

  /** Two times format alike exactly when their first six characters agree. */
  lemma FormatTimeDeterminedByPrefix(t1: string, t2: string)
    requires |t1| >= 6 && |t2| >= 6
    ensures FormatTime(Some(t1)) == FormatTime(Some(t2)) <==> t1[..6] == t2[..6]
  {
    FormatTimeKeepsDigits(t1);
    FormatTimeKeepsDigits(t2);
    if t1[..6] == t2[..6] {
      assert t1[0..2] == t2[0..2] && t1[2..4] == t2[2..4] && t1[4..6] == t2[4..6];
    }
  }

  lemma ExampleTimes()
    ensures FormatTime(Some("123519")) == "12:35:19 UTC"
    ensures FormatTime(Some("123519.00")) == "12:35:19 UTC"
    ensures FormatTime(Some("12")) == "N/A"
    ensures FormatTime(Some("")) == "N/A"
    ensures FormatTime(None) == "N/A"
  {
    var t := "123519";
    assert t[0..2] == "12" && t[2..4] == "35" && t[4..6] == "19";
    assert "123519.00"[..6] == t[..6];
    FormatTimeDeterminedByPrefix("123519.00", t);
  }

  /** The fix-quality table of the display, with "Unknown" for other codes. */
  function FixQualityLabel(quality: int): (name: string)
    ensures name == "Unknown" <==> quality < 0 || quality > 6
  {
    match quality
    case 0 => "No Fix"
    case 1 => "GPS Fix"
    case 2 => "DGPS Fix"
    case 3 => "PPS Fix"
    case 4 => "RTK Fix"
    case 5 => "Float RTK"
    case 6 => "Estimated"
    case _ => "Unknown"
  }

  /** The code a label stands for: the table read backwards. */
  function QualityOfLabel(name: string): (q: Option<int>)
    ensures q.Some? ==> 0 <= q.value <= 6 && FixQualityLabel(q.value) == name
  {
    if name == "No Fix" then Some(0)
    else if name == "GPS Fix" then Some(1)
    else if name == "DGPS Fix" then Some(2)
    else if name == "PPS Fix" then Some(3)
    else if name == "RTK Fix" then Some(4)
    else if name == "Float RTK" then Some(5)
    else if name == "Estimated" then Some(6)
    else None
  }

  /** Every known code has its own label: the table is one-to-one. */
  lemma FixQualityLabelRoundTrip(quality: int)
    requires 0 <= quality <= 6
    ensures QualityOfLabel(FixQualityLabel(quality)) == Some(quality)
  {
  }
}
