/**
 * The reading loop of `main`: every line read is parsed, a GGA record replaces
 * `latest_gga`, an RMC record replaces `latest_rmc`, and anything else changes
 * nothing.
 */
module Store {
  import opened Wrappers
  import opened Sentences

  /** The pair of latest records the display is given. */
  datatype Snapshot = Snapshot(gga: Option<GgaFix>, rmc: Option<RmcFix>)

  /** Both slots start empty. */
  const Empty := Snapshot(None, None)

  /** One parse result applied to the pair: a record replaces its own family's slot wholesale. */
  function Apply(s: Snapshot, parsed: Option<Sentence>): (r: Snapshot)
    ensures parsed.None? ==> r == s
    ensures parsed.Some? && parsed.value.Gga? ==> r.gga == Some(parsed.value.gga) && r.rmc == s.rmc
    ensures parsed.Some? && parsed.value.Rmc? ==> r.rmc == Some(parsed.value.rmc) && r.gga == s.gga
  {
    match parsed
    case None => s
    case Some(Gga(g)) => s.(gga := Some(g))
    case Some(Rmc(m)) => s.(rmc := Some(m))
  }

  /** What one read contributes: nothing for an empty read, otherwise its parse. */
  function Parse(line: string): Option<Sentence>
  {
    if line == [] then None else ParseSentence(line)
  }

  predicate IsGga(parsed: Option<Sentence>)
  {
    parsed.Some? && parsed.value.Gga?
  }

  predicate IsRmc(parsed: Option<Sentence>)
  {
    parsed.Some? && parsed.value.Rmc?
  }

  /** The parse of every line, in order. */
  function Parses(lines: seq<string>): (ps: seq<Option<Sentence>>)
    ensures |ps| == |lines|
    ensures forall i :: 0 <= i < |lines| ==> ps[i] == Parse(lines[i])
  {
    if lines == [] then [] else [Parse(lines[0])] + Parses(lines[1..])
  }

  /** One line read: an empty read is skipped, anything else is parsed and applied. */
  function Step(s: Snapshot, line: string): (r: Snapshot)
    ensures line == [] ==> r == s
    ensures r.gga == if IsGga(Parse(line)) then Some(Parse(line).value.gga) else s.gga
    ensures r.rmc == if IsRmc(Parse(line)) then Some(Parse(line).value.rmc) else s.rmc
  {
    Apply(s, Parse(line))
  }

  /** The pair after reading `lines` in order, starting from `s`: a filled slot is never emptied. */
  function Fold(s: Snapshot, lines: seq<string>): (r: Snapshot)
    ensures s.gga.Some? ==> r.gga.Some?
    ensures s.rmc.Some? ==> r.rmc.Some?
    decreases |lines|
  {
    if lines == [] then s else Fold(Step(s, lines[0]), lines[1..])
  }

  /** `r` is the record of the last GGA result in `ps`, and `None` exactly when there is none. */
  predicate IsLatestGga(ps: seq<Option<Sentence>>, r: Option<GgaFix>)
  {
    && (r.None? <==> forall i :: 0 <= i < |ps| ==> !IsGga(ps[i]))
    && (r.Some? ==> exists i :: 0 <= i < |ps| && IsGga(ps[i]) && r.value == ps[i].value.gga
                               && forall j :: i < j < |ps| ==> !IsGga(ps[j]))
  }

  lemma LatestGgaAtEnd(ps: seq<Option<Sentence>>)
    requires ps != [] && IsGga(ps[|ps| - 1])
    ensures IsLatestGga(ps, Some(ps[|ps| - 1].value.gga))
  {
    var n := |ps| - 1;
    assert IsGga(ps[n]);
  }

  lemma LatestGgaSkip(ps: seq<Option<Sentence>>, r: Option<GgaFix>)
    requires ps != [] && !IsGga(ps[|ps| - 1]) && IsLatestGga(ps[..|ps| - 1], r)
    ensures IsLatestGga(ps, r)
  {
    var n := |ps| - 1;
    var init := ps[..n];
    assert forall i :: 0 <= i < n ==> init[i] == ps[i];
    if r.Some? {
      var i :| 0 <= i < |init| && IsGga(init[i]) && r.value == init[i].value.gga
               && forall j :: i < j < |init| ==> !IsGga(init[j]);
      assert forall j :: i < j < |ps| ==> !IsGga(ps[j]);
    }
  }

  /** The GGA record of the last parse result that is one, if any. */
  function LatestGga(ps: seq<Option<Sentence>>): (r: Option<GgaFix>)
    ensures IsLatestGga(ps, r)
  {
    if ps == [] then None
    else if IsGga(ps[|ps| - 1]) then
      LatestGgaAtEnd(ps);
      Some(ps[|ps| - 1].value.gga)
    else
      var r := LatestGga(ps[..|ps| - 1]);
      LatestGgaSkip(ps, r);
      r
  }

  /** `r` is the record of the last RMC result in `ps`, and `None` exactly when there is none. */
  predicate IsLatestRmc(ps: seq<Option<Sentence>>, r: Option<RmcFix>)
  {
    && (r.None? <==> forall i :: 0 <= i < |ps| ==> !IsRmc(ps[i]))
    && (r.Some? ==> exists i :: 0 <= i < |ps| && IsRmc(ps[i]) && r.value == ps[i].value.rmc
                               && forall j :: i < j < |ps| ==> !IsRmc(ps[j]))
  }

  lemma LatestRmcAtEnd(ps: seq<Option<Sentence>>)
    requires ps != [] && IsRmc(ps[|ps| - 1])
    ensures IsLatestRmc(ps, Some(ps[|ps| - 1].value.rmc))
  {
    var n := |ps| - 1;
    assert IsRmc(ps[n]);
  }

  lemma LatestRmcSkip(ps: seq<Option<Sentence>>, r: Option<RmcFix>)
    requires ps != [] && !IsRmc(ps[|ps| - 1]) && IsLatestRmc(ps[..|ps| - 1], r)
    ensures IsLatestRmc(ps, r)
  {
    var n := |ps| - 1;
    var init := ps[..n];
    assert forall i :: 0 <= i < n ==> init[i] == ps[i];
    if r.Some? {
      var i :| 0 <= i < |init| && IsRmc(init[i]) && r.value == init[i].value.rmc
               && forall j :: i < j < |init| ==> !IsRmc(init[j]);
      assert forall j :: i < j < |ps| ==> !IsRmc(ps[j]);
    }
  }

  /** The RMC record of the last parse result that is one, if any. */
  function LatestRmc(ps: seq<Option<Sentence>>): (r: Option<RmcFix>)
    ensures IsLatestRmc(ps, r)
  {
    if ps == [] then None
    else if IsRmc(ps[|ps| - 1]) then
      LatestRmcAtEnd(ps);
      Some(ps[|ps| - 1].value.rmc)
    else
      var r := LatestRmc(ps[..|ps| - 1]);
      LatestRmcSkip(ps, r);
      r
  }

  lemma ParsesSnoc(lines: seq<string>, line: string)
    ensures Parses(lines + [line]) == Parses(lines) + [Parse(line)]
  {
    var ps := Parses(lines + [line]);
    assert forall i :: 0 <= i < |lines| ==> (lines + [line])[i] == lines[i];
    assert ps[|lines|] == Parse(line);
  }

  /** A further result of one family moves that family's latest record to it. */
  lemma LatestSnoc(ps: seq<Option<Sentence>>, p: Option<Sentence>)
    ensures LatestGga(ps + [p]) == if IsGga(p) then Some(p.value.gga) else LatestGga(ps)
    ensures LatestRmc(ps + [p]) == if IsRmc(p) then Some(p.value.rmc) else LatestRmc(ps)
  {
    assert (ps + [p])[..|ps|] == ps;
  }

  /** Reading one more line is one more step. */
  lemma {:induction false} FoldSnoc(s: Snapshot, lines: seq<string>, line: string)
    ensures Fold(s, lines + [line]) == Step(Fold(s, lines), line)
    decreases |lines|
  {
    if lines != [] {
      assert (lines + [line])[1..] == lines[1..] + [line];
      FoldSnoc(Step(s, lines[0]), lines[1..], line);
    }
  }

  /**
   * Each slot holds the record of the most recent line of its family; a slot
   * whose family never appears keeps its starting value.
   */
  lemma {:induction false} FoldKeepsLatest(s: Snapshot, lines: seq<string>)
    ensures var g := LatestGga(Parses(lines)); Fold(s, lines).gga == if g.Some? then g else s.gga
    ensures var m := LatestRmc(Parses(lines)); Fold(s, lines).rmc == if m.Some? then m else s.rmc
    decreases |lines|
  {
    if lines != [] {
      var init, last := lines[..|lines| - 1], lines[|lines| - 1];
      assert lines == init + [last];
      ParsesSnoc(init, last);
      LatestSnoc(Parses(init), Parse(last));
      FoldSnoc(s, init, last);
      FoldKeepsLatest(s, init);
    }
  }

  /** Lines of the other family, or no record at all, never touch a slot. */
  lemma FoldWithoutGga(s: Snapshot, lines: seq<string>)
    requires LatestGga(Parses(lines)).None?
    ensures Fold(s, lines).gga == s.gga
  {
    FoldKeepsLatest(s, lines);
  }

  /** `latest_gga` and `latest_rmc` together. */
  class FixStore {
    var latestGga: Option<GgaFix>
    var latestRmc: Option<RmcFix>

    function Current(): Snapshot
      reads this
    {
      Snapshot(latestGga, latestRmc)
    }

    constructor ()
      ensures Current() == Empty
    {
      latestGga := None;
      latestRmc := None;
    }

    /** The `if parsed:` branch of the loop. */
    method Update(parsed: Option<Sentence>)
      modifies this
      ensures Current() == Apply(old(Current()), parsed)
    {
      if parsed.Some? {
        if TypeTag(parsed.value) == "GPGGA" {
          latestGga := Some(parsed.value.gga);
        } else if TypeTag(parsed.value) == "GPRMC" {
          latestRmc := Some(parsed.value.rmc);
        }
      }
    }

    /** One iteration of the loop: skip an empty read, otherwise parse and update. */
    method ReadLine(line: string)
      modifies this
      ensures Current() == Step(old(Current()), line)
    {
      if line != [] {
        var parsed := ParseSentence(line);
        Update(parsed);
      }
    }
  }

  /**
   * The reading loop over the lines the port delivers, from empty slots: the
   * result is the fold of the lines, so each slot holds the latest record of
   * its family.
   */
  method Track(lines: seq<string>) returns (snapshot: Snapshot)
    ensures snapshot == Fold(Empty, lines)
    ensures snapshot.gga == LatestGga(Parses(lines)) && snapshot.rmc == LatestRmc(Parses(lines))
  {
    var store := new FixStore();
    var i := 0;
    while i < |lines|
      invariant 0 <= i <= |lines|
      invariant store.Current() == Fold(Empty, lines[..i])
    {
      FoldSnoc(Empty, lines[..i], lines[i]);
      assert lines[..i + 1] == lines[..i] + [lines[i]];
      store.ReadLine(lines[i]);
      i := i + 1;
    }
    assert lines[..i] == lines;
    FoldKeepsLatest(Empty, lines);
    snapshot := store.Current();
  }
}
