/** Header dialects (format generations) and their automatic detection.
    A dialect is the pair of parsing tokens the detector copies: the header
    line delimiter and the two dimension keys. */
module Dialect {
  import opened Base
  import opened Text

  datatype Dialect = Dialect(delim: char, dimKeys: seq<string>)

  /** The generation-2 ('=') dialect, the initial default. */
  const V2: Dialect := Dialect('=', ["NSubBursts", "N_ADC_SAMPLES"])

  /** The generation-1 (':') dialect. */
  const V1: Dialect := Dialect(':', ["SubBursts in burst", "Samples"])

  /** The candidate list of the current package, tried in this order. */
  const Alternatives: seq<Dialect> := [V2, V1]

  /** The candidate list of the older single-burst reader (after its default). */
  const LegacyAlternatives: seq<Dialect> := [V1]

  /** Every dialect the codec knows has exactly two dimension keys. */
  predicate WellFormed(d: Dialect) {
    |d.dimKeys| == 2
  }

  /** The line begins with the candidate's first dimension key. */
  predicate Matches(line: string, c: Dialect) {
    |c.dimKeys| > 0 && StartsWith(line, c.dimKeys[0])
  }

  /** The first candidate, in list order, whose first dimension key begins
      the line. */
  function MatchIn(line: string, cands: seq<Dialect>): (r: Option<nat>)
    ensures r.Some? ==> r.value < |cands| && Matches(line, cands[r.value])
    ensures r.Some? ==> forall j :: 0 <= j < r.value ==> !Matches(line, cands[j])
    ensures r.None? ==> forall j :: 0 <= j < |cands| ==> !Matches(line, cands[j])
  {
    if cands == [] then None
    else if Matches(line, cands[0]) then Some(0)
    else match MatchIn(line, cands[1..])
      case None => None
      case Some(i) => Some(i + 1)
  }

  /** Scanning lines in order and, within a line, candidates in order: the
      line and the candidate of the first hit. */
  function FirstMatch(lines: seq<string>, cands: seq<Dialect>): (r: Option<(nat, nat)>)
    ensures r.Some? ==> r.value.0 < |lines| && MatchIn(lines[r.value.0], cands) == Some(r.value.1)
    ensures r.Some? ==> forall l :: 0 <= l < r.value.0 ==> MatchIn(lines[l], cands).None?
    ensures r.None? ==> forall l :: 0 <= l < |lines| ==> MatchIn(lines[l], cands).None?
  {
    if lines == [] then None
    else match MatchIn(lines[0], cands)
      case Some(i) => Some((0, i))
      case None =>
        match FirstMatch(lines[1..], cands)
        case None => None
        case Some(p) => Some((p.0 + 1, p.1))
  }

  /** determine_file_format_version of the current package: the first hit
      copies that candidate's delimiter and dimension keys; with no hit the
      dialect in force stays. */
  function Detect(lines: seq<string>, cur: Dialect): Dialect {
    match FirstMatch(lines, Alternatives)
    case None => cur
    case Some(p) => Alternatives[p.1]
  }

  /** determine_file_format_version of the older reader: the candidates are
      the dialect in force, then its alternatives; a hit on the one in force
      changes nothing. */
  function LegacyDetect(lines: seq<string>, cur: Dialect): Dialect
    requires |cur.dimKeys| > 0
  {
    match FirstMatch(lines, [cur] + LegacyAlternatives)
    case None => cur
    case Some(p) => if p.1 == 0 then cur else LegacyAlternatives[p.1 - 1]
  }

  lemma DetectKnown(lines: seq<string>, cur: Dialect)
    ensures Detect(lines, cur) == cur || Detect(lines, cur) in Alternatives
  {
  }

  /** Detection never leaves the two-key dialects. */
  lemma DetectWellFormed(lines: seq<string>, cur: Dialect)
    requires WellFormed(cur)
    ensures WellFormed(Detect(lines, cur))
  {
  }

  /** Detecting again on the same lines changes nothing. */
  lemma DetectIdempotent(lines: seq<string>, cur: Dialect)
    ensures Detect(lines, Detect(lines, cur)) == Detect(lines, cur)
  {
  }

  /** The candidate scan stops at the first candidate that matches. */
  lemma {:induction false} MatchInAt(line: string, cands: seq<Dialect>, i: nat)
    requires i < |cands| && Matches(line, cands[i])
    requires forall j :: 0 <= j < i ==> !Matches(line, cands[j])
    ensures MatchIn(line, cands) == Some(i)
  {
    if i > 0 {
      MatchInAt(line, cands[1..], i - 1);
    }
  }

  /** The line scan stops at the first line with a matching candidate. */
  lemma FirstMatchAt(lines: seq<string>, cands: seq<Dialect>, l: nat, i: nat)
    requires l < |lines| && MatchIn(lines[l], cands) == Some(i)
    requires forall e :: 0 <= e < l ==> MatchIn(lines[e], cands).None?
    ensures FirstMatch(lines, cands) == Some((l, i))
  {
    var r := FirstMatch(lines, cands);
    assert r.Some?;
    assert !(r.value.0 < l) && !(l < r.value.0);
  }

  /** The detected dialect is the one named by the earliest matching line;
      with no matching line the dialect in force is kept. */
  lemma DetectIsFirstHit(lines: seq<string>, cur: Dialect)
    ensures (forall l :: 0 <= l < |lines| ==> MatchIn(lines[l], Alternatives).None?)
            ==> Detect(lines, cur) == cur
    ensures forall l :: (0 <= l < |lines| && MatchIn(lines[l], Alternatives).Some?
                         && (forall e :: 0 <= e < l ==> MatchIn(lines[e], Alternatives).None?))
                        ==> Detect(lines, cur) == Alternatives[MatchIn(lines[l], Alternatives).value]
  {
    var r := FirstMatch(lines, Alternatives);
    if r.Some? {
      var (l, i) := r.value;
      forall l' | 0 <= l' < |lines| && MatchIn(lines[l'], Alternatives).Some?
        && (forall e :: 0 <= e < l' ==> MatchIn(lines[e], Alternatives).None?)
        ensures Detect(lines, cur) == Alternatives[MatchIn(lines[l'], Alternatives).value]
      {
        assert !(l < l') && !(l' < l);
      }
    }
  }

  /** The older reader can leave the default for an alternative but never
      come back: once the generation-1 dialect is in force it stays. */
  lemma LegacyDetectSticky(lines: seq<string>)
    ensures LegacyDetect(lines, V1) == V1
  {
  }

  lemma LegacyDetectKnown(lines: seq<string>, cur: Dialect)
    requires |cur.dimKeys| > 0
    ensures LegacyDetect(lines, cur) == cur || LegacyDetect(lines, cur) in LegacyAlternatives
  {
  }

  lemma DetectExamples()
    ensures Detect(["NSubBursts=100", "N_ADC_SAMPLES=40001"], V1) == V2
    ensures Detect(["SubBursts in burst: 100", "Samples: 40001"], V2) == V1
    ensures Detect(["Samples: 40001"], V2) == V2
  {
    assert StartsWith("NSubBursts=100", "NSubBursts");
    var g1 := "SubBursts in burst: 100";
    assert g1[..10][0] != "NSubBursts"[0];
    assert !StartsWith(g1, "NSubBursts");
    assert StartsWith(g1, "SubBursts in burst");
    assert Alternatives[1..] == [V1];
    assert MatchIn(g1, [V1]) == Some(0);
    assert MatchIn(g1, Alternatives) == Some(1);
    assert FirstMatch([g1, "Samples: 40001"], Alternatives) == Some((0, 1));
  }
}
