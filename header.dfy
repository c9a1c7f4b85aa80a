/** The text header of a burst: turning raw lines into an ordered key/value
    map (store_header), turning key/value pairs back into lines
    (format_header_line, reconstruct_header_lines), and the facts that tie
    the two directions together. */
module HeaderStore {
  import opened Base
  import opened Text
  import opened OrderedDict

  /** The line opening a reconstructed header. */
  const StartMarker: string := "\r\n*** Burst Header ***"

  /** The line closing a reconstructed header. */
  const EndMarker: string := "\r\n*** End Header ***"

  /** The pair one header line contributes, if any: the line must hold the
      delimiter and must not start with it (the text before the first
      delimiter is tested BEFORE trimming, so a key of blanks still counts).
      The current package trims key and value; the older reader keeps them
      verbatim. */
  function ParseLine(line: string, delim: char, trim: bool): (r: Option<(string, string)>)
    ensures r.None? <==> delim !in line || line[0] == delim
    ensures r.Some? && !trim ==> line == r.value.0 + [delim] + r.value.1 && r.value.0 != [] && delim !in r.value.0
    ensures r.Some? && trim ==> IsStripped(r.value.0) && IsStripped(r.value.1) && delim !in r.value.0
  {
    match SplitOnce(line, delim)
    case None => None
    case Some((k, v)) =>
      assert k == [] <==> line[0] == delim;
      if k == [] then None
      else if trim then
        StripYieldsStripped(k);
        StripYieldsStripped(v);
        StripKeepsOut(k, delim);
        Some((Strip(k), Strip(v)))
      else Some((k, v))
  }

  /** The pairs one line contributes: none or one. */
  function Contribution(line: string, delim: char, trim: bool): seq<(string, string)> {
    match ParseLine(line, delim, trim)
    case None => []
    case Some(p) => [p]
  }

  /** The pairs the lines contribute, in line order. */
  function Parsed(lines: seq<string>, delim: char, trim: bool): (r: seq<(string, string)>)
    ensures |r| <= |lines|
  {
    if lines == [] then []
    else Contribution(lines[0], delim, trim) + Parsed(lines[1..], delim, trim)
  }

  lemma {:induction false} ParsedConcat(a: seq<string>, b: seq<string>, delim: char, trim: bool)
    ensures Parsed(a + b, delim, trim) == Parsed(a, delim, trim) + Parsed(b, delim, trim)
  {
    if a != [] {
      var hd := Contribution(a[0], delim, trim);
      assert (a + b)[0] == a[0];
      assert (a + b)[1..] == a[1..] + b;
      ParsedConcat(a[1..], b, delim, trim);
      calc {
        Parsed(a + b, delim, trim);
        hd + Parsed(a[1..] + b, delim, trim);
        hd + (Parsed(a[1..], delim, trim) + Parsed(b, delim, trim));
        (hd + Parsed(a[1..], delim, trim)) + Parsed(b, delim, trim);
      }
    } else {
      assert a + b == b;
    }
  }

  /** store_header: the header map obtained by assigning each line's pair in
      turn, so a later duplicate overwrites the value and keeps the key's
      first position. */
  function Parse(lines: seq<string>, delim: char, trim: bool): (r: Dict)
    ensures Wf(r)
  {
    FromItemsWf(Parsed(lines, delim, trim));
    FromItems(Parsed(lines, delim, trim))
  }

  /** Independent reading of the same map: the value of key k is the value
      on the LAST line whose pair has key k. */
  function LastValue(lines: seq<string>, delim: char, trim: bool, k: string): Option<string> {
    if lines == [] then None
    else match ParseLine(lines[|lines| - 1], delim, trim)
      case Some(p) =>
        if p.0 == k then Some(p.1) else LastValue(lines[..|lines| - 1], delim, trim, k)
      case None => LastValue(lines[..|lines| - 1], delim, trim, k)
  }

  lemma ParsedSnoc(lines: seq<string>, delim: char, trim: bool)
    requires lines != []
    ensures var n := |lines| - 1;
            Parsed(lines, delim, trim) ==
            Parsed(lines[..n], delim, trim) + Contribution(lines[n], delim, trim)
  {
    var n := |lines| - 1;
    assert lines == lines[..n] + [lines[n]];
    ParsedConcat(lines[..n], [lines[n]], delim, trim);
    assert Parsed([lines[n]], delim, trim) == Contribution(lines[n], delim, trim) + Parsed([], delim, trim);
  }

  /** One more line of the loop of store_header: its pair, if it has one,
      is assigned in the map the earlier lines built. */
  lemma ParseNext(lines: seq<string>, i: nat, delim: char, trim: bool)
    requires i < |lines|
    ensures Parse(lines[..i + 1], delim, trim) ==
            match ParseLine(lines[i], delim, trim)
            case None => Parse(lines[..i], delim, trim)
            case Some(p) => Put(Parse(lines[..i], delim, trim), p.0, p.1)
  {
    ParseSnoc(lines[..i + 1], delim, trim);
    TakeTake(lines, i);
  }

  lemma ParseSnoc(lines: seq<string>, delim: char, trim: bool)
    requires lines != []
    ensures var n := |lines| - 1;
            Parse(lines, delim, trim) ==
            match ParseLine(lines[n], delim, trim)
            case None => Parse(lines[..n], delim, trim)
            case Some(p) => Put(Parse(lines[..n], delim, trim), p.0, p.1)
  {
    var n := |lines| - 1;
    ParsedSnoc(lines, delim, trim);
    var ps := Parsed(lines[..n], delim, trim);
    match ParseLine(lines[n], delim, trim)
    case None =>
      assert Parsed(lines, delim, trim) == ps;
    case Some(p) =>
      var s := ps + [p];
      assert Parsed(lines, delim, trim) == s;
      assert s[..|s| - 1] == ps;
  }

  /** Looking a key up in the stored header finds the value of the last line
      that carries it, and finds nothing when no line carries it. */
  lemma {:induction false} ParseLookup(lines: seq<string>, delim: char, trim: bool, k: string)
    ensures Get(Parse(lines, delim, trim), k) == LastValue(lines, delim, trim, k)
  {
    if lines != [] {
      var n := |lines| - 1;
      ParsedSnoc(lines, delim, trim);
      ParseLookup(lines[..n], delim, trim, k);
      var ps := Parsed(lines[..n], delim, trim);
      match ParseLine(lines[n], delim, trim)
      case None =>
        assert Parsed(lines, delim, trim) == ps;
      case Some(p) =>
        var s := ps + [p];
        assert Parsed(lines, delim, trim) == s;
        assert s[..|s| - 1] == ps;
    }
  }

  /** Reading more lines never reorders or drops the keys already stored. */
  lemma ParseKeysGrow(a: seq<string>, b: seq<string>, delim: char, trim: bool)
    ensures Parse(a, delim, trim).keys <= Parse(a + b, delim, trim).keys
  {
    ParsedConcat(a, b, delim, trim);
    FromItemsKeysGrow(Parsed(a, delim, trim), Parsed(b, delim, trim));
  }

  /** format_header_line: key, delimiter, value. */
  function FormatLine(key: string, delim: char, value: string): (r: string)
    ensures |r| == |key| + 1 + |value| && r[|key|] == delim
  {
    key + [delim] + value
  }

  /** A key/value pair survives formatting and re-parsing (trimmed or not)
      when the key is non-empty, without the delimiter and, for the trimmed
      reading, key and value carry no surrounding whitespace. */
  lemma ParseFormatLine(k: string, delim: char, v: string, trim: bool)
    requires k != [] && delim !in k
    requires trim ==> IsStripped(k) && IsStripped(v)
    ensures ParseLine(FormatLine(k, delim, v), delim, trim) == Some((k, v))
  {
    SplitJoined(k, delim, v);
    if trim {
      StrippedIsFixpoint(k);
      StrippedIsFixpoint(v);
    }
  }

  /** The header lines of the items, one line per key in iteration order. */
  function ItemLines(d: Dict, delim: char): (r: seq<string>)
    requires Wf(d)
    ensures |r| == |d.keys|
    ensures forall i :: 0 <= i < |r| ==> r[i] == FormatLine(d.keys[i], delim, d.values[d.keys[i]])
  {
    seq(|d.keys|, i requires 0 <= i < |d.keys| => FormatLine(d.keys[i], delim, d.values[d.keys[i]]))
  }

  /** reconstruct_header_lines: the start marker, one line per header item,
      the end marker. */
  function Reconstruct(d: Dict, delim: char): (r: seq<string>)
    requires Wf(d)
    ensures |r| == |d.keys| + 2 && r[0] == StartMarker && r[|r| - 1] == EndMarker
  {
    [StartMarker] + ItemLines(d, delim) + [EndMarker]
  }

  /** A header that store_header can produce from some lines and whose pairs
      survive a trimmed re-parse. */
  predicate Storable(d: Dict, delim: char) {
    && Wf(d)
    && forall k :: k in d.values ==> k != [] && delim !in k && IsStripped(k) && IsStripped(d.values[k])
  }

  lemma {:induction false} ParsedOfParsable(lines: seq<string>, items: seq<(string, string)>, delim: char, trim: bool)
    requires |lines| == |items|
    requires forall i :: 0 <= i < |lines| ==> ParseLine(lines[i], delim, trim) == Some(items[i])
    ensures Parsed(lines, delim, trim) == items
  {
    if lines != [] {
      ParsedOfParsable(lines[1..], items[1..], delim, trim);
      assert items == [items[0]] + items[1..];
    }
  }

  /** Storing reconstructed lines gives the header back: reconstruct_header_lines
      and store_header are inverse for every storable header. */
  lemma ParseReconstruct(d: Dict, delim: char)
    requires Storable(d, delim)
    requires delim !in StartMarker && delim !in EndMarker
    ensures Parse(Reconstruct(d, delim), delim, true) == d
  {
    var body := ItemLines(d, delim);
    ParsedItemLines(d, delim);
    ParsedConcat([StartMarker] + body, [EndMarker], delim, true);
    ParsedConcat([StartMarker], body, delim, true);
    assert Parsed([StartMarker], delim, true) == [] by {
      assert ParseLine(StartMarker, delim, true).None?;
    }
    assert Parsed([EndMarker], delim, true) == [] by {
      assert ParseLine(EndMarker, delim, true).None?;
    }
    assert Parsed(Reconstruct(d, delim), delim, true) == Items(d);
    FromItemsOfItems(d);
  }

  lemma ParsedItemLines(d: Dict, delim: char)
    requires Storable(d, delim)
    ensures Parsed(ItemLines(d, delim), delim, true) == Items(d)
  {
    var body := ItemLines(d, delim);
    var its := Items(d);
    forall i | 0 <= i < |body|
      ensures ParseLine(body[i], delim, true) == Some(its[i])
    {
      var k := d.keys[i];
      assert k in d.values;
      ParseFormatLine(k, delim, d.values[k], true);
    }
    ParsedOfParsable(body, its, delim, true);
  }

  /** A line with nothing before the delimiter is skipped. */
  lemma ExampleNoKey()
    ensures Parse(["=12"], '=', true) == Empty
  {
    assert Parsed(["=12"], '=', true) == [];
  }

  /** A key of blanks passes the emptiness test and is stored trimmed, as the
      empty key. */
  lemma ExampleBlankKey()
    ensures Get(Parse(["  =12"], '=', true), "") == Some("12")
  {
    var line := "  =12";
    assert line == "  " + ['='] + "12";
    SplitJoined("  ", '=', "12");
    assert LStrip("  ") == [] by {
      assert LStrip("  ") == LStrip(" ");
      assert LStrip(" ") == LStrip("");
    }
    assert IsStripped("12");
    StrippedIsFixpoint("12");
    assert ParseLine(line, '=', true) == Some(("", "12"));
    assert Parsed([line], '=', true) == [("", "12")] + Parsed([], '=', true);
  }

  /** The older store keeps key and value verbatim. */
  lemma ExampleVerbatim()
    ensures Get(Parse([" Temp1 = 10 "], '=', false), " Temp1 ") == Some(" 10 ")
  {
    var line := " Temp1 = 10 ";
    SplitJoined(" Temp1 ", '=', " 10 ");
    assert line == " Temp1 " + ['='] + " 10 ";
    assert Parsed([line], '=', false) == [(" Temp1 ", " 10 ")];
  }
}
