/** The bridge from a netCDF group back to a burst: the group's attributes
    are the parsed header of the burst it was written from, its one
    variable the payload. The netCDF library itself is not modelled; a group
    is its attribute map and its data. */
module Containers {
  import opened Base
  import opened Text
  import opened OrderedDict
  import opened Dialect
  import opened HeaderStore
  import opened Payload
  import opened BurstSpec
  import opened BurstFacts
  import opened Bursts

  /** A netCDF dataset or group: its attributes in order, and the array of
      its data variable. */
  datatype Group = Group(attrs: Dict, data: NdArray)

  /** The global attribute that records the command line; it was never
      part of a burst header. */
  const History: string := "history"

  /** burst_to_nc_object as far as nc_object_to_burst reads it back: one
      attribute per header item, in header order, and the payload as the
      variable. */
  function BurstToGroup(s: State): Group
    requires s.data.Some?
  {
    Group(s.header, s.data.value)
  }

  /** nc_object_to_burst: history dropped, the dialect detected from the
      attribute names, header lines reconstructed with that dialect's
      delimiter, then configure_from_header. The burst counts as read (data
      offset 0) and holds the variable's array as it is. */
  function FromGroup(t: Settings, g: Group): (r: (Settings, State, Status))
    requires GoodSettings(t) && Wf(g.attrs)
    ensures GoodSettings(r.0)
    ensures r.1.headerStart == 0 && r.1.dataStart == 0 && r.1.data == Some(g.data)
  {
    var attrs := Remove(g.attrs, History);
    DetectWellFormed(attrs.keys, t.dialect);
    var t1 := Detected(t, attrs.keys);
    var s1 := Initial(0).(dataStart := 0, data := Some(g.data), header := attrs, headerLines := Reconstruct(attrs, t1.dialect.delim));
    ConfigureKeeps(t1, s1);
    ConfigureStep(t1, s1)
  }

  // ---- detection on reconstructed lines ----

  /** A formatted line begins with a dimension key exactly when its key
      does, as long as the delimiter does not occur in that dimension key. */
  lemma FormattedMatches(k: string, delim: char, v: string, c: Dialect)
    requires |c.dimKeys| > 0 && delim !in c.dimKeys[0]
    ensures Matches(FormatLine(k, delim, v), c) <==> Matches(k, c)
  {
    var p := c.dimKeys[0];
    var line := FormatLine(k, delim, v);
    if |p| <= |k| {
      assert line[..|p|] == k[..|p|];
    }
  }

  lemma {:induction false} MatchInAgrees(a: string, b: string, cands: seq<Dialect>)
    requires forall j :: 0 <= j < |cands| ==> (Matches(a, cands[j]) <==> Matches(b, cands[j]))
    ensures MatchIn(a, cands) == MatchIn(b, cands)
    decreases |cands|
  {
    if cands != [] {
      assert forall j :: 0 <= j < |cands[1..]| ==> cands[1..][j] == cands[j + 1];
      MatchInAgrees(a, b, cands[1..]);
    }
  }

  lemma {:induction false} FirstMatchAgrees(a: seq<string>, b: seq<string>, cands: seq<Dialect>)
    requires |a| == |b| && forall i :: 0 <= i < |a| ==> MatchIn(a[i], cands) == MatchIn(b[i], cands)
    ensures FirstMatch(a, cands) == FirstMatch(b, cands)
    decreases |a|
  {
    if a != [] {
      assert forall i :: 0 <= i < |a[1..]| ==> a[1..][i] == a[i + 1] && b[1..][i] == b[i + 1];
      FirstMatchAgrees(a[1..], b[1..], cands);
    }
  }

  /** A line no candidate matches, appended at the end, changes no hit. */
  lemma {:induction false} FirstMatchSnoc(a: seq<string>, y: string, cands: seq<Dialect>)
    requires MatchIn(y, cands).None?
    ensures FirstMatch(a + [y], cands) == FirstMatch(a, cands)
    decreases |a|
  {
    if a == [] {
      assert ([] + [y])[1..] == [];
    } else {
      assert (a + [y])[1..] == a[1..] + [y];
      FirstMatchSnoc(a[1..], y, cands);
    }
  }

  /** No dialect delimiter occurs in a first dimension key of the known
      dialects. */
  predicate SafeDelim(delim: char) {
    forall j :: 0 <= j < |Alternatives| ==> delim !in Alternatives[j].dimKeys[0]
  }

  /** Detection over the reconstructed header lines finds what detection
      over the header keys finds: the markers match no dialect, and each
      item line matches exactly the dialects its key matches. */
  lemma DetectReconstructed(d: Dict, delim: char, cur: Dialect)
    requires Wf(d) && SafeDelim(delim)
    ensures Detect(Reconstruct(d, delim), cur) == Detect(d.keys, cur)
  {
    var body := ItemLines(d, delim);
    forall i | 0 <= i < |body|
      ensures MatchIn(body[i], Alternatives) == MatchIn(d.keys[i], Alternatives)
    {
      var k := d.keys[i];
      assert k in d.values;
      forall j | 0 <= j < |Alternatives|
        ensures Matches(body[i], Alternatives[j]) <==> Matches(k, Alternatives[j])
      {
        FormattedMatches(k, delim, d.values[k], Alternatives[j]);
      }
      MatchInAgrees(body[i], k, Alternatives);
    }
    FirstMatchAgrees(body, d.keys, Alternatives);
    MarkerMatchesNone(StartMarker);
    MarkerMatchesNone(EndMarker);
    var lines := Reconstruct(d, delim);
    assert lines == [StartMarker] + body + [EndMarker];
    FirstMatchSnoc([StartMarker] + body, EndMarker, Alternatives);
    assert ([StartMarker] + body)[1..] == body;
  }

  /** The markers begin with a line break, which no dimension key does. */
  lemma MarkerMatchesNone(m: string)
    requires m == StartMarker || m == EndMarker
    ensures MatchIn(m, Alternatives).None?
  {
    forall j | 0 <= j < |Alternatives|
      ensures !Matches(m, Alternatives[j])
    {
      var p := Alternatives[j].dimKeys[0];
      assert m[0] == '\r' && p[0] != '\r';
    }
  }

  /** configure_from_header sets the dialect (detected when enabled) and
      the header parsed from the lines with its delimiter; of the burst it
      changes nothing else but dimension keys, shape and type. */
  lemma ConfigureParts(t: Settings, s: State)
    requires GoodSettings(t)
    ensures var c := ConfigureStep(t, s);
            var t1 := if t.autodetect then Detected(t, s.headerLines) else t;
            && c.0 == t1
            && c.1 == s.(header := Parse(s.headerLines, t1.dialect.delim, true), dimKeys := c.1.dimKeys, shape := c.1.shape, dtype := c.1.dtype)
  {
  }

  /** The delimiters of the known dialects are safe ones. */
  lemma KnownDelimSafe(c: Dialect)
    requires c in Alternatives
    ensures SafeDelim(c.delim) && c.delim !in StartMarker && c.delim !in EndMarker
  {
  }

  // ---- what nc_object_to_burst gives back ----

  /** After nc_object_to_burst the dialect is the one the attribute names
      select, the history attribute is gone and, for attributes that
      survive a trimmed re-parse, the header is exactly the attributes
      without history, in their order. */
  lemma FromGroupHeader(t: Settings, g: Group)
    requires GoodSettings(t) && t.dialect in Alternatives && Wf(g.attrs)
    requires Storable(Remove(g.attrs, History), Detect(Remove(g.attrs, History).keys, t.dialect).delim)
    ensures var r := FromGroup(t, g);
            && r.0.dialect == Detect(Remove(g.attrs, History).keys, t.dialect)
            && r.1.header == Remove(g.attrs, History)
            && History !in r.1.header.values
            && r.1.headerLines == Reconstruct(r.1.header, r.0.dialect.delim)
  {
    var attrs := Remove(g.attrs, History);
    var c := Detect(attrs.keys, t.dialect);
    DetectKnown(attrs.keys, t.dialect);
    DetectWellFormed(attrs.keys, t.dialect);
    KnownDelimSafe(c);
    var t1 := Detected(t, attrs.keys);
    var lines := Reconstruct(attrs, c.delim);
    var s1 := Initial(0).(dataStart := 0, data := Some(g.data), header := attrs, headerLines := lines);
    assert FromGroup(t, g) == ConfigureStep(t1, s1);
    DetectReconstructed(attrs, c.delim, c);
    DetectIdempotent(attrs.keys, t.dialect);
    assert Detected(t1, lines) == t1;
    ConfigureParts(t1, s1);
    ParseReconstruct(attrs, c.delim);
  }

  /** A burst written to a group and read back is the same burst, now
      counted as read from offset 0 and with reconstructed header lines:
      same header, dimension keys, shape, element type and payload, and the
      same settings, provided its header survives a trimmed re-parse, holds
      no history item, selects the dialect in force, and shape and type
      were configured from it. */
  lemma GroupRoundTrip(t: Settings, s: State)
    requires GoodSettings(t) && t.dialect in Alternatives && s.data.Some?
    requires Storable(s.header, t.dialect.delim) && History !in s.header.values
    requires Detect(s.header.keys, t.dialect) == t.dialect
    requires Shaped(t, s, "unity") == (s, Ok) && Typed(s) == (s, Ok)
    ensures FromGroup(t, BurstToGroup(s)) ==
              (t, s.(headerStart := 0, dataStart := 0, headerLines := Reconstruct(s.header, t.dialect.delim)), Ok)
  {
    var g := BurstToGroup(s);
    RemoveAbsent(s.header, History);
    FromGroupHeader(t, g);
    var lines := Reconstruct(s.header, t.dialect.delim);
    var s1 := Initial(0).(dataStart := 0, data := s.data, header := s.header, headerLines := lines);
    var s2 := s1.(header := Parse(lines, t.dialect.delim, true));
    assert s2 == s1;
    assert FromGroup(t, g) == ConfigureStep(t, s1);
    assert Shaped(t, s2, "unity") == (s2.(dimKeys := s.dimKeys, shape := s.shape), Ok);
    assert Typed(s2.(dimKeys := s.dimKeys, shape := s.shape)) == (s2.(dimKeys := s.dimKeys, shape := s.shape, dtype := s.dtype), Ok);
  }

  /** nc_object_to_burst: a new burst without a stream, on the shared
      settings, filled from the group and configured. */
  method NcObjectToBurst(d: Defaults, g: Group) returns (b: Burst, st: Status)
    requires d.Valid() && Wf(g.attrs)
    modifies d`dialect
    ensures fresh(b) && b.defaults == d && b.stream == null && d.Valid()
    ensures (d.Value(), b.State(), st) == FromGroup(old(d.Value()), g)
  {
    ghost var t0 := d.Value();
    b := new Burst(d, null);
    b.dataStart := 0;
    var attrs := Remove(g.attrs, History);
    b.data := Some(g.data);
    b.header := attrs;
    b.headerLines := attrs.keys;
    ghost var s0 := Initial(0).(dataStart := 0, data := Some(g.data), header := attrs, headerLines := attrs.keys);
    assert b.State() == s0;
    b.DetermineFileFormatVersion();
    DetectWellFormed(attrs.keys, t0.dialect);
    assert d.Value() == Detected(t0, attrs.keys);
    b.ReconstructHeaderLines();
    assert b.State() == s0.(headerLines := Reconstruct(attrs, d.dialect.delim));
    st := b.ConfigureFromHeader();
  }
}
