/** The older single-burst reader and writer (apres/apres.py): the same
    pipeline as the current burst with its own rules. The tokens detected
    are the generation-1 ones only, the header is stored verbatim, the
    shape is one length per dimension key, the elements are always
    little-endian u16, the payload is every whole element up to the end of
    the input, and the reshape forgives nothing. The header is written to a
    text output and the payload to a binary one. */
module Legacy {
  import opened Base
  import opened Text
  import opened OrderedDict
  import opened Dialect
  import opened HeaderStore
  import opened ShapeResolver
  import opened Payload
  import opened ByteStream
  import BurstSpec
  import Bursts
  import RoundTrip

  /** The entries of the older DEFAULTS that change what is read or
      written: the dialect, whether it is detected, the line ending. */
  datatype Config = Config(dialect: Dialect, autodetect: bool, eol: string)

  /** The older DEFAULTS as the module defines them. */
  const InitialConfig: Config := Config(V2, true, "\r\n")

  predicate GoodConfig(t: Config) {
    WellFormed(t.dialect)
  }

  /** The fields of an ApRESFile. There is no data type field: the elements
      are always of type '<u2'. */
  datatype FileState = FileState(
    headerStart: nat,
    dataStart: int,
    headerLines: seq<string>,
    header: Dict,
    shape: seq<int>,
    data: Option<NdArray>)

  /** A file as constructed: nothing read, the header at offset 0. */
  const Unread: FileState := FileState(0, -1, [], Empty, [], None)

  /** What every operation keeps. */
  predicate Good(f: FileState) {
    Wf(f.header) && (f.data.Some? ==> BurstSpec.Fits(f.data.value))
  }

  /** The outcome of a step: the settings and fields after it, the stream
      position, and whether it raised. */
  datatype Step = Step(config: Config, file: FileState, pos: nat, status: Status)

  // ---- reading ----

  /** read_header_lines: the sentinel and the line list are reset, then the
      header is scanned from its start; without a stream nothing is read. */
  function LinesStep(input: Option<seq<byte>>, t: Config, f: FileState, pos: nat): (r: Step)
    ensures r.config == t && r.file == f.(dataStart := r.file.dataStart, headerLines := r.file.headerLines)
    ensures r.status.Raised? <==> input.None?
    ensures input.None? ==> r.file.dataStart == -1 && r.file.headerLines == [] && r.pos == pos
  {
    var f0 := f.(dataStart := -1, headerLines := []);
    match input
    case None => Step(t, f0, pos, Raised(NoStream))
    case Some(bs) =>
      var r := ScanHeader(bs, f.headerStart);
      Step(t, f0.(dataStart := r.dataStart, headerLines := r.lines), r.next, Ok)
  }

  /** determine_file_format_version applied to the settings. */
  function Detected(t: Config, lines: seq<string>): (r: Config)
    requires GoodConfig(t)
    ensures GoodConfig(r) && r == t.(dialect := r.dialect)
  {
    t.(dialect := LegacyDetect(lines, t.dialect))
  }

  /** store_header: keys and values verbatim. */
  function Stored(t: Config, f: FileState): FileState {
    f.(header := Parse(f.headerLines, t.dialect.delim, false))
  }

  /** define_data_shape: the shape grows one length per dimension key. */
  function Shaped(t: Config, f: FileState): (FileState, Status) {
    var (dims, st) := LegacyDims(HeaderReader(f.header), t.dialect.dimKeys);
    (f.(shape := dims), st)
  }

  /** read_header: the lines, the detection when enabled, the stored header
      and the shape. */
  function HeaderStep(input: Option<seq<byte>>, t: Config, f: FileState, pos: nat): (r: Step)
    requires GoodConfig(t)
    ensures GoodConfig(r.config)
    ensures Good(f) ==> Good(r.file)
  {
    var l := LinesStep(input, t, f, pos);
    if l.status.Raised? then l
    else
      var t1 := if t.autodetect then Detected(t, l.file.headerLines) else t;
      var (f2, st) := Shaped(t1, Stored(t1, l.file));
      Step(t1, f2, l.pos, st)
  }

  /** The number of whole u16 elements np.fromfile finds from offset p to
      the end of the input; a trailing odd byte is not read. */
  function WholeCount(bs: seq<byte>, p: nat): (n: nat)
    ensures p + n * ItemSize(U2) <= |bs| || n == 0
  {
    if p >= |bs| then 0 else (|bs| - p) / ItemSize(U2)
  }

  /** The payload part of read_data: a seek to the data offset, every whole
      element from there to the end, then the strict reshape. The flat
      array stays when the reshape raises. */
  function PayloadStep(input: Option<seq<byte>>, h: Step): (r: Step)
    ensures r.config == h.config
    ensures Good(h.file) ==> Good(r.file)
  {
    var f := h.file;
    match input
    case None => h.(status := Raised(NoStream))
    case Some(bs) =>
      if f.dataStart < 0 then h.(status := Raised(NegativeSeek(f.dataStart)))
      else
        var count := WholeCount(bs, f.dataStart);
        var buf := Available(bs, f.dataStart, count * ItemSize(U2));
        var flat := BurstSpec.Flat(U2, buf, count);
        var next := f.dataStart + |buf|;
        match Reshape(flat, f.shape, false)
        case Success(a) =>
          ReshapeSpec(flat, f.shape, false);
          Step(h.config, f.(data := Some(a)), next, Ok)
        case Failure(e) => Step(h.config, f.(data := Some(flat)), next, Raised(e))
  }

  /** read_data: the header first when the file is unread, then the
      payload. */
  function DataStep(input: Option<seq<byte>>, t: Config, f: FileState, pos: nat): (r: Step)
    requires GoodConfig(t)
    ensures GoodConfig(r.config)
    ensures Good(f) ==> Good(r.file)
  {
    var h := if f.dataStart == -1 then HeaderStep(input, t, f, pos) else Step(t, f, pos, Ok);
    if h.status.Raised? then h else PayloadStep(input, h)
  }

  // ---- writing ----

  /** The settings of the current package that write a line the way the
      older writer does (its line rule is the same). */
  function AsSettings(t: Config): BurstSpec.Settings {
    BurstSpec.Settings(t.dialect, t.autodetect, false, t.eol)
  }

  /** The text write_header emits for the lines: each line with the
      requested lengths substituted, then the line ending. */
  function HeaderText(lines: seq<string>, t: Config, sub: Option<Range>, samp: Option<Range>): string
    requires GoodConfig(t)
  {
    if lines == [] then []
    else
      var n := |lines| - 1;
      HeaderText(lines[..n], t, sub, samp) + BurstSpec.LineOut(lines[n], AsSettings(t), sub, samp)
  }

  /** write_header: the header first when the file is unread, then its
      lines. Returns the reading step and the text written. */
  function WriteHeaderStep(input: Option<seq<byte>>, t: Config, f: FileState, pos: nat, sub: Option<Range>, samp: Option<Range>): (r: (Step, string))
    requires GoodConfig(t)
    ensures GoodConfig(r.0.config)
  {
    var h := if f.dataStart == -1 then HeaderStep(input, t, f, pos) else Step(t, f, pos, Ok);
    if h.status.Raised? then (h, [])
    else (h, HeaderText(h.file.headerLines, h.config, sub, samp))
  }

  /** The bytes write_data emits for a payload: data[records, samples] in C
      order. A payload of fewer than two axes cannot be indexed so. */
  function DataOut(a: NdArray, sub: Option<Range>, samp: Option<Range>): Result<seq<byte>>
    requires BurstSpec.Fits(a)
  {
    if |a.dims| > 2 then Failure(TooManyDimensions(|a.dims|))
    else BurstSpec.DataOut(a, sub, samp)
  }

  /** write_data: the payload first when the file is unread, then the
      selection; a file whose data was never read has nothing to write. */
  function WriteDataStep(input: Option<seq<byte>>, t: Config, f: FileState, pos: nat, sub: Option<Range>, samp: Option<Range>): (r: (Step, seq<byte>))
    requires GoodConfig(t) && Good(f)
  {
    var h := if f.dataStart == -1 then DataStep(input, t, f, pos) else Step(t, f, pos, Ok);
    if h.status.Raised? then (h, [])
    else if h.file.data.None? then (h.(status := Raised(NoData)), [])
    else
      match DataOut(h.file.data.value, sub, samp)
      case Success(b) => (h, b)
      case Failure(e) => (h.(status := Raised(e)), [])
  }

  // ---- the objects ----

  /** The older class-wide DEFAULTS, shared by every ApRESFile. */
  class Defaults {
    var dialect: Dialect
    var autodetect: bool
    var eol: string

    constructor ()
      ensures Value() == InitialConfig
    {
      dialect := V2;
      autodetect := true;
      eol := "\r\n";
    }

    function Value(): Config
      reads this
    {
      Config(dialect, autodetect, eol)
    }

    predicate Valid()
      reads this
    {
      GoodConfig(Value())
    }
  }

  /** A text output: the characters written so far. */
  class TextSink {
    var text: string

    constructor ()
      ensures text == []
    {
      text := [];
    }

    /** write(s) */
    method Write(s: string)
      modifies this
      ensures text == old(text) + s
    {
      text := text + s;
    }
  }

  /** The older ApRESFile: one burst, read lazily from its input. */
  class ApresFile {
    const defaults: Defaults
    const fp: Stream?
    var headerStart: nat
    var dataStart: int
    var headerLines: seq<string>
    var header: Dict
    var shape: seq<int>
    var data: Option<NdArray>

    /** The fields as a value. */
    function State(): FileState
      reads this
    {
      FileState(headerStart, dataStart, headerLines, header, shape, data)
    }

    /** The bytes of the input, if it is open. */
    function Input(): Option<seq<byte>> {
      if fp == null then None else Some(fp.bytes)
    }

    /** The read position of the input (0 when it is not open). */
    function Pos(): nat
      reads fp
    {
      if fp == null then 0 else fp.pos
    }

    /** A file with nothing read yet; its header starts at offset 0. */
    constructor (d: Defaults, input: Stream?)
      ensures defaults == d && fp == input && State() == Unread
    {
      defaults := d;
      fp := input;
      headerStart := 0;
      dataStart := -1;
      headerLines := [];
      header := Empty;
      shape := [];
      data := None;
    }

    /** read_header_lines */
    method ReadHeaderLines() returns (st: Status)
      modifies this`dataStart, this`headerLines, fp
      ensures Step(defaults.Value(), State(), Pos(), st) == LinesStep(Input(), defaults.Value(), old(State()), old(Pos()))
    {
      dataStart := -1;
      headerLines := [];
      if fp == null {
        return Raised(NoStream);
      }
      ghost var bs := fp.bytes;
      var sought := fp.Seek(headerStart);
      ghost var q: nat := headerStart;
      var line := fp.ReadLine();
      var text := Latin1Decode(line);
      var lines := [RStrip(text)];
      while line != [] && !StartsWith(text, EndOfHeader)
        invariant line == LineAt(bs, q) && text == Latin1Decode(line)
        invariant fp.pos == q + |line|
        invariant lines != [] && lines[|lines| - 1] == RStrip(text)
        invariant Bursts.Resumed(lines, ScanHeader(bs, q)) == ScanHeader(bs, headerStart)
        invariant dataStart == -1
        decreases if line == [] then 0 else |bs| - q + 1
      {
        ghost var lines0, q0, line0 := lines, q, line;
        q := fp.pos;
        line := fp.ReadLine();
        text := Latin1Decode(line);
        lines := lines + [RStrip(text)];
        Bursts.ScanResumes(bs, headerStart, q0, line0, lines0, q, lines, RStrip(text));
      }
      headerLines := lines;
      if line != [] {
        dataStart := fp.Tell();
      }
      Bursts.ScanFinished(bs, headerStart, q, line, lines, dataStart, fp.pos);
      assert State() == old(State()).(dataStart := dataStart, headerLines := lines);
      return Ok;
    }

    /** determine_file_format_version: the candidates are the first
        dimension key in force, then that of the alternative; lines are
        searched in order and, within a line, candidates in order. A hit on
        the alternative copies its tokens; a hit on the key in force, or no
        hit, leaves the settings as they are. */
    method DetermineFileFormatVersion()
      requires defaults.Valid()
      modifies defaults`dialect
      ensures defaults.Valid()
      ensures defaults.Value() == Detected(old(defaults.Value()), headerLines)
    {
      var cands := [defaults.dialect] + LegacyAlternatives;
      var firstKeys := seq(|cands|, i requires 0 <= i < |cands| => cands[i].dimKeys[0]);
      var l := 0;
      while l < |headerLines|
        invariant 0 <= l <= |headerLines|
        invariant forall e :: 0 <= e < l ==> MatchIn(headerLines[e], cands).None?
        invariant defaults.dialect == old(defaults.dialect)
      {
        var line := headerLines[l];
        var i := 0;
        while i < |firstKeys|
          invariant 0 <= i <= |firstKeys|
          invariant forall j :: 0 <= j < i ==> !Matches(line, cands[j])
        {
          if StartsWith(line, firstKeys[i]) {
            MatchInAt(line, cands, i);
            FirstMatchAt(headerLines, cands, l, i);
            if i > 0 {
              defaults.dialect := LegacyAlternatives[i - 1];
            }
            return;
          }
          i := i + 1;
        }
        l := l + 1;
      }
    }

    /** store_header */
    method StoreHeader()
      modifies this`header
      ensures State() == Stored(defaults.Value(), old(State()))
    {
      var delim := defaults.dialect.delim;
      header := Empty;
      var i := 0;
      while i < |headerLines|
        invariant 0 <= i <= |headerLines|
        invariant header == Parse(headerLines[..i], delim, false)
      {
        var line := headerLines[i];
        match SplitOnce(line, delim) {
          case Some((k, v)) =>
            if k != [] {
              header := Put(header, k, v);
            }
          case None =>
        }
        ParseNext(headerLines, i, delim, false);
        i := i + 1;
      }
      TakeAll(headerLines);
    }

    /** define_data_shape */
    method DefineDataShape() returns (st: Status)
      modifies this`shape
      ensures (State(), st) == Shaped(defaults.Value(), old(State()))
    {
      ghost var read := HeaderReader(header);
      var keys := defaults.dialect.dimKeys;
      shape := [];
      var i := 0;
      while i < |keys|
        invariant 0 <= i <= |keys|
        invariant LegacyDims(read, keys[..i]) == (shape, Ok)
      {
        var v := HeaderInt(header, keys[i]);
        assert read(keys[i]) == v;
        assert keys[..i + 1][..i] == keys[..i];
        if v.Failure? {
          LegacyDimsStops(read, keys, i + 1);
          return Raised(v.error);
        }
        shape := shape + [v.value];
        i := i + 1;
      }
      assert keys[..i] == keys;
      return Ok;
    }

    /** read_header */
    method ReadHeader() returns (st: Status)
      requires defaults.Valid()
      modifies this`dataStart, this`headerLines, this`header, this`shape, fp, defaults`dialect
      ensures defaults.Valid()
      ensures Step(defaults.Value(), State(), Pos(), st) == HeaderStep(Input(), old(defaults.Value()), old(State()), old(Pos()))
    {
      st := ReadHeaderLines();
      if st.Raised? {
        return;
      }
      if defaults.autodetect {
        DetermineFileFormatVersion();
      }
      StoreHeader();
      st := DefineDataShape();
    }

    /** read_data */
    method ReadData() returns (st: Status)
      requires defaults.Valid()
      modifies this, fp, defaults`dialect
      ensures defaults.Valid()
      ensures Step(defaults.Value(), State(), Pos(), st) == DataStep(Input(), old(defaults.Value()), old(State()), old(Pos()))
    {
      if dataStart == -1 {
        st := ReadHeader();
        if st.Raised? {
          return;
        }
      }
      st := ReadPayload();
    }

    /** The part of read_data after the header: the seek, np.fromfile of
        every whole element left, and the strict reshape. */
    method ReadPayload() returns (st: Status)
      modifies this`data, fp
      ensures Step(defaults.Value(), State(), Pos(), st) == PayloadStep(Input(), Step(defaults.Value(), old(State()), old(Pos()), Ok))
    {
      if fp == null {
        return Raised(NoStream);
      }
      st := fp.Seek(dataStart);
      if st.Raised? {
        return;
      }
      var size := ItemSize(U2);
      var count := if fp.pos >= |fp.bytes| then 0 else (|fp.bytes| - fp.pos) / size;
      var buf := fp.Read(count * size);
      data := Some(BurstSpec.Flat(U2, buf, count));
      var r := Reshape(data.value, shape, false);
      if r.Failure? {
        return Raised(r.error);
      }
      data := Some(r.value);
      return Ok;
    }

    /** format_header_line: key, the delimiter in force, value. */
    function FormatHeaderLine(key: string, value: string): (r: string)
      reads defaults
      ensures |r| == |key| + 1 + |value| && r[|key|] == defaults.dialect.delim
      ensures r[..|key|] == key && r[|key| + 1..] == value
      ensures key != [] && defaults.dialect.delim !in key ==>
                ParseLine(r, defaults.dialect.delim, false) == Some((key, value))
    {
      var delim := defaults.dialect.delim;
      if key != [] && delim !in key then
        ParseFormatLine(key, delim, value, false);
        FormatLine(key, delim, value)
      else FormatLine(key, delim, value)
    }

    /** The loop of write_header over the lines. */
    method WriteLines(out: TextSink, sub: Option<Range>, samp: Option<Range>)
      requires defaults.Valid()
      modifies out
      ensures out.text == old(out.text) + HeaderText(headerLines, defaults.Value(), sub, samp)
    {
      ghost var written := out.text;
      var keys := defaults.dialect.dimKeys;
      var eol := defaults.eol;
      var i := 0;
      while i < |headerLines|
        invariant 0 <= i <= |headerLines|
        invariant out.text == written + HeaderText(headerLines[..i], defaults.Value(), sub, samp)
      {
        var line := headerLines[i];
        if BurstSpec.Given(sub) && StartsWith(line, keys[0]) {
          line := FormatHeaderLine(keys[0], NatToString(RangeLen(sub.value)));
        }
        if BurstSpec.Given(samp) && StartsWith(line, keys[1]) {
          line := FormatHeaderLine(keys[1], NatToString(RangeLen(samp.value)));
        }
        assert headerLines[..i + 1][..i] == headerLines[..i];
        AppendAssoc(written, HeaderText(headerLines[..i], defaults.Value(), sub, samp), line + eol);
        out.Write(line + eol);
        i := i + 1;
      }
      assert headerLines[..i] == headerLines;
    }

    /** write_header */
    method WriteHeader(out: TextSink, sub: Option<Range>, samp: Option<Range>) returns (st: Status)
      requires defaults.Valid()
      modifies this`dataStart, this`headerLines, this`header, this`shape, fp, defaults`dialect, out
      ensures defaults.Valid()
      ensures var r := WriteHeaderStep(Input(), old(defaults.Value()), old(State()), old(Pos()), sub, samp);
              Step(defaults.Value(), State(), Pos(), st) == r.0 && out.text == old(out.text) + r.1
    {
      if dataStart == -1 {
        st := ReadHeader();
        if st.Raised? {
          return;
        }
      }
      WriteLines(out, sub, samp);
      st := Ok;
    }

    /** write_data */
    method WriteData(out: Sink, sub: Option<Range>, samp: Option<Range>) returns (st: Status)
      requires defaults.Valid() && Good(State())
      modifies this, fp, defaults`dialect, out
      ensures defaults.Valid()
      ensures var r := WriteDataStep(Input(), old(defaults.Value()), old(State()), old(Pos()), sub, samp);
              Step(defaults.Value(), State(), Pos(), st) == r.0 && out.bytes == old(out.bytes) + r.1
    {
      if dataStart == -1 {
        st := ReadData();
        if st.Raised? {
          return;
        }
      }
      if data.None? {
        return Raised(NoData);
      }
      match DataOut(data.value, sub, samp) {
        case Failure(e) =>
          return Raised(e);
        case Success(b) =>
          out.Write(b);
          return Ok;
      }
    }
  }

  // ---- properties ----

  /** Once a key fails, the older shape loop stops: the later keys change
      nothing. */
  lemma {:induction false} LegacyDimsStops(read: Reader, ks: seq<string>, j: nat)
    requires j <= |ks| && LegacyDims(read, ks[..j]).1.Raised?
    ensures LegacyDims(read, ks) == LegacyDims(read, ks[..j])
  {
    if j < |ks| {
      var n := |ks| - 1;
      assert ks[..n][..j] == ks[..j];
      LegacyDimsStops(read, ks[..n], j);
    } else {
      assert ks[..j] == ks;
    }
  }

  /** Whether a line begins with either candidate key of the older
      detection. */
  predicate Hit(line: string, cur: Dialect) {
    Matches(line, cur) || Matches(line, V1)
  }

  /** The candidate scan of the older detection on one line. */
  lemma MatchInPair(line: string, cur: Dialect)
    ensures MatchIn(line, [cur] + LegacyAlternatives) ==
            if Matches(line, cur) then Some(0) else if Matches(line, V1) then Some(1) else None
  {
    var cands := [cur] + LegacyAlternatives;
    assert cands[1..] == [V1];
    assert [V1][1..] == [];
  }

  /** determine_file_format_version of the older reader, told by the first
      line that begins with either candidate key: when that line begins
      with the key in force the settings stay, otherwise the alternative is
      copied in; with no such line the settings stay. */
  lemma DetectSpec(lines: seq<string>, cur: Dialect)
    requires WellFormed(cur)
    ensures (forall l :: 0 <= l < |lines| ==> !Hit(lines[l], cur)) ==> LegacyDetect(lines, cur) == cur
    ensures forall l :: 0 <= l < |lines| && Hit(lines[l], cur) && (forall e :: 0 <= e < l ==> !Hit(lines[e], cur)) ==>
              LegacyDetect(lines, cur) == if Matches(lines[l], cur) then cur else V1
  {
    var cands := [cur] + LegacyAlternatives;
    forall l | 0 <= l < |lines| && Hit(lines[l], cur) && (forall e :: 0 <= e < l ==> !Hit(lines[e], cur))
      ensures LegacyDetect(lines, cur) == if Matches(lines[l], cur) then cur else V1
    {
      MatchInPair(lines[l], cur);
      forall e | 0 <= e < l
        ensures MatchIn(lines[e], cands).None?
      {
        MatchInPair(lines[e], cur);
      }
      FirstMatchAt(lines, cands, l, if Matches(lines[l], cur) then 0 else 1);
    }
    if forall l :: 0 <= l < |lines| ==> !Hit(lines[l], cur) {
      var r := FirstMatch(lines, cands);
      if r.Some? {
        MatchInPair(lines[r.value.0], cur);
      }
    }
  }

  /** The value looked up for a key comes from the last line carrying it. */
  lemma {:induction false} LastValueAt(lines: seq<string>, delim: char, i: nat, k: string, v: string)
    requires i < |lines| && ParseLine(lines[i], delim, false) == Some((k, v))
    requires forall j :: i < j < |lines| ==> ParseLine(lines[j], delim, false).None? || ParseLine(lines[j], delim, false).value.0 != k
    ensures LastValue(lines, delim, false, k) == Some(v)
  {
    var n := |lines| - 1;
    if i < n {
      var pre := lines[..n];
      assert pre[i] == lines[i];
      assert forall j :: i < j < n ==> pre[j] == lines[j];
      LastValueAt(pre, delim, i, k, v);
    }
  }

  /** store_header keeps keys and values verbatim: a line made of a key
      (not empty, without the delimiter), the delimiter and a value stores
      exactly that value under exactly that key, unless a later line
      carries the same key. */
  lemma StoreVerbatim(lines: seq<string>, delim: char, i: nat, k: string, v: string)
    requires i < |lines| && lines[i] == k + [delim] + v && k != [] && delim !in k
    requires forall j :: i < j < |lines| ==> ParseLine(lines[j], delim, false).None? || ParseLine(lines[j], delim, false).value.0 != k
    ensures Get(Parse(lines, delim, false), k) == Some(v)
  {
    ParseFormatLine(k, delim, v, false);
    LastValueAt(lines, delim, i, k, v);
    ParseLookup(lines, delim, false, k);
  }

  /** store_header drops a line without the delimiter or with nothing
      before it. */
  lemma StoreDrops(lines: seq<string>, line: string, delim: char)
    requires delim !in line || line[0] == delim
    ensures Parse(lines + [line], delim, false) == Parse(lines, delim, false)
  {
    var all := lines + [line];
    ParseSnoc(all, delim, false);
    assert all[..|lines|] == lines;
  }

  /** define_data_shape: the shape holds int(header[key]) for the dimension
      keys, in key order. It is complete exactly when every key is present
      with an integer value; otherwise it stops at the first key that is
      missing (KeyError) or not an integer (ValueError). Only the shape
      changes. */
  lemma ShapedSpec(t: Config, f: FileState)
    ensures var (g, st) := Shaped(t, f);
            var ks := t.dialect.dimKeys;
            && g == f.(shape := g.shape)
            && (st == Ok <==> forall i :: 0 <= i < |ks| ==> HeaderInt(f.header, ks[i]).Success?)
            && (st == Ok ==> |g.shape| == |ks|)
            && (forall i :: 0 <= i < |g.shape| ==> HeaderInt(f.header, ks[i]) == Success(g.shape[i]))
            && (st.Raised? ==> |g.shape| < |ks| && HeaderInt(f.header, ks[|g.shape|]) == Failure(st.error))
  {
    LegacyDimsMeaning(HeaderReader(f.header), t.dialect.dimKeys);
  }

  /** The payload of read_data from an offset inside the input: every whole
      element from there to the end is read and the stream stops after the
      last of them. The reshape to the header's shape succeeds exactly when
      their number is the product of the shape, with no forgiveness for
      more; otherwise the one-axis array of all of them stays. Nothing else
      changes. */
  lemma PayloadStrict(bs: seq<byte>, h: Step)
    requires 0 <= h.file.dataStart <= |bs|
    ensures var f := h.file;
            var r := PayloadStep(Some(bs), h);
            var p := f.dataStart;
            var count := (|bs| - p) / 2;
            && r.config == h.config && r.pos == p + 2 * count <= |bs| && r.file == f.(data := r.file.data)
            && (r.status == Ok <==> NonNegative(f.shape) && Product(f.shape) == count)
            && (r.status == Ok ==> r.file.data == Some(NdArray(U2, f.shape, Decode(bs[p..r.pos], 2))))
            && (r.status.Raised? ==> r.file.data == Some(NdArray(U2, [count], Decode(bs[p..r.pos], 2))))
            && (!NonNegative(f.shape) ==> r.status == Raised(NegativeDimension))
            && (NonNegative(f.shape) && count < Product(f.shape) ==> r.status == Raised(ShorterThanShape(count, Product(f.shape))))
            && (NonNegative(f.shape) && count > Product(f.shape) ==> r.status == Raised(LongerThanShape(count, Product(f.shape))))
  {
    var f := h.file;
    var p := f.dataStart;
    var count := WholeCount(bs, p);
    assert count == (|bs| - p) / 2;
    var buf := Available(bs, p, count * 2);
    assert buf == bs[p..p + 2 * count];
    var flat := BurstSpec.Flat(U2, buf, count);
    assert Product([count]) == count;
    assert flat == NdArray(U2, [count], Decode(buf, 2)) && |flat.items| == count;
    ReshapeSpec(flat, f.shape, false);
    var r := PayloadStep(Some(bs), h);
    match Reshape(flat, f.shape, false)
    case Success(a) =>
      assert r == Step(h.config, f.(data := Some(a)), p + 2 * count, Ok);
    case Failure(e) =>
      assert r == Step(h.config, f.(data := Some(flat)), p + 2 * count, Raised(e));
  }

  /** A successful read_data of a file nothing was read from, as to its
      header: the lines are the scan from offset 0 and end with the
      end-of-header line; the settings are those detected from them; the
      header holds their verbatim pairs and the shape the lengths of the
      dimension keys in force. */
  lemma ReadFileHeader(bs: seq<byte>, t: Config)
    requires GoodConfig(t) && DataStep(Some(bs), t, Unread, 0).status == Ok
    ensures var r := DataStep(Some(bs), t, Unread, 0);
            var f := r.file;
            var sc := ScanHeader(bs, 0);
            && r.config == (if t.autodetect then Detected(t, sc.lines) else t)
            && f.headerStart == 0 && f.headerLines == sc.lines && 0 < f.dataStart == sc.dataStart
            && ClosedHeader(f.headerLines)
            && f.header == Parse(sc.lines, r.config.dialect.delim, false)
            && (f.shape, Ok) == LegacyDims(HeaderReader(f.header), r.config.dialect.dimKeys)
  {
    var h := HeaderStep(Some(bs), t, Unread, 0);
    DataOfUnread(bs, t, h);
    HeaderOfUnread(bs, t);
    ScanClosed(bs, 0);
    PayloadStrict(bs, h);
  }

  /** A successful read_data of a file nothing was read from, as to its
      payload: every whole element after the header, exactly as many as
      the shape holds, decoded in that shape; the stream stops after the
      last of them. */
  lemma ReadFilePayload(bs: seq<byte>, t: Config)
    requires GoodConfig(t) && DataStep(Some(bs), t, Unread, 0).status == Ok
    ensures var r := DataStep(Some(bs), t, Unread, 0);
            var f := r.file;
            && 0 <= f.dataStart && NonNegative(f.shape) && (|bs| - f.dataStart) / 2 == Product(f.shape)
            && r.pos == f.dataStart + 2 * Product(f.shape) <= |bs|
            && f.data == Some(NdArray(U2, f.shape, Decode(bs[f.dataStart..r.pos], 2)))
  {
    var h := HeaderStep(Some(bs), t, Unread, 0);
    DataOfUnread(bs, t, h);
    HeaderOfUnread(bs, t);
    PayloadStrict(bs, h);
  }

  /** read_data of a file nothing was read from: the header, then the
      payload when the header was read. */
  lemma DataOfUnread(bs: seq<byte>, t: Config, h: Step)
    requires GoodConfig(t) && h == HeaderStep(Some(bs), t, Unread, 0)
    ensures DataStep(Some(bs), t, Unread, 0) == if h.status.Raised? then h else PayloadStep(Some(bs), h)
  {
  }

  /** read_header of a file nothing was read from, field by field. */
  lemma HeaderOfUnread(bs: seq<byte>, t: Config)
    requires GoodConfig(t)
    ensures var sc := ScanHeader(bs, 0);
            var t1 := if t.autodetect then Detected(t, sc.lines) else t;
            var header := Parse(sc.lines, t1.dialect.delim, false);
            var dims := LegacyDims(HeaderReader(header), t1.dialect.dimKeys);
            HeaderStep(Some(bs), t, Unread, 0) == Step(t1, FileState(0, sc.dataStart, sc.lines, header, dims.0, None), sc.next, dims.1)
  {
  }

  /** The dialects the older reader can be in. */
  predicate Known(d: Dialect) {
    d == V2 || d == V1
  }

  /** A line that begins with one key cannot begin with a key that differs
      from it in the second character. */
  lemma NotBoth(s: string, a: string, b: string)
    requires 2 <= |a| && 2 <= |b| && a[1] != b[1] && StartsWith(s, a)
    ensures !StartsWith(s, b)
  {
    assert s[1] == s[..|a|][1] == a[1];
  }

  /** write_header's rule per line in the two dialects: a line that begins
      with the first dimension key becomes key, delimiter and the number of
      records when records are given; otherwise a line that begins with the
      second key becomes key, delimiter and the number of samples when
      samples are given; any other line is kept as it is. Each line is
      followed by the line ending. */
  lemma LineOutKnown(line: string, t: Config, sub: Option<Range>, samp: Option<Range>)
    requires Known(t.dialect)
    ensures var k := t.dialect.dimKeys;
            var delim := t.dialect.delim;
            BurstSpec.LineOut(line, AsSettings(t), sub, samp) ==
              (if BurstSpec.Given(sub) && StartsWith(line, k[0]) then FormatLine(k[0], delim, NatToString(RangeLen(sub.value)))
               else if BurstSpec.Given(samp) && StartsWith(line, k[1]) then FormatLine(k[1], delim, NatToString(RangeLen(samp.value)))
               else line) + t.eol
  {
    var k := t.dialect.dimKeys;
    var delim := t.dialect.delim;
    assert k[0][1] != k[1][1];
    if BurstSpec.Given(sub) && StartsWith(line, k[0]) {
      var l1 := FormatLine(k[0], delim, NatToString(RangeLen(sub.value)));
      assert l1[..|k[0]|] == k[0];
      NotBoth(l1, k[0], k[1]);
    } else if StartsWith(line, k[0]) {
      NotBoth(line, k[0], k[1]);
    }
  }

  /** The older reader stays in the two dialects it knows. */
  lemma DetectKnown(lines: seq<string>, t: Config)
    requires Known(t.dialect)
    ensures Known(Detected(t, lines).dialect)
  {
    LegacyDetectKnown(lines, t.dialect);
  }

  /** Latin-1 encodes a concatenation piece by piece. */
  lemma {:induction false} Latin1EncodeAppend(a: string, b: string)
    ensures Latin1Encode(a + b) ==
            if Latin1Encode(a).Some? && Latin1Encode(b).Some? then Some(Latin1Encode(a).value + Latin1Encode(b).value) else None
  {
    if a == [] {
      assert a + b == b;
      if Latin1Encode(b).Some? {
        assert [] + Latin1Encode(b).value == Latin1Encode(b).value;
      }
    } else {
      assert (a + b)[0] == a[0];
      assert (a + b)[1..] == a[1..] + b;
      Latin1EncodeAppend(a[1..], b);
      if a[0] as int < 256 && Latin1Encode(a[1..]).Some? && Latin1Encode(b).Some? {
        AppendAssoc([a[0] as int as byte], Latin1Encode(a[1..]).value, Latin1Encode(b).value);
      }
    }
  }

  /** The older writer's header text, encoded as Latin-1, is what the
      current package's write_header emits for the same lines, and the text
      fails to encode exactly when the current writer raises. */
  lemma {:induction false} HeaderTextEncodes(lines: seq<string>, t: Config, sub: Option<Range>, samp: Option<Range>)
    requires GoodConfig(t)
    ensures var o := BurstSpec.HeaderOut(lines, AsSettings(t), sub, samp);
            && (o.1 == Ok <==> Latin1Encode(HeaderText(lines, t, sub, samp)).Some?)
            && (o.1 == Ok ==> Latin1Encode(HeaderText(lines, t, sub, samp)) == Some(o.0))
  {
    if lines != [] {
      var n := |lines| - 1;
      HeaderTextEncodes(lines[..n], t, sub, samp);
      Latin1EncodeAppend(HeaderText(lines[..n], t, sub, samp), BurstSpec.LineOut(lines[n], AsSettings(t), sub, samp));
    }
  }

  /** write_data without records or samples writes the whole two-axis
      payload, element by element in C order. */
  lemma DataOutWhole(a: NdArray)
    requires BurstSpec.Fits(a) && |a.dims| == 2
    ensures DataOut(a, None, None) == Success(Encode(a.items, ItemSize(a.etype)))
  {
    RoundTrip.DataOutWhole(a);
  }

  /** write_data without records or samples on a file nothing was read
      from reads it and writes back exactly the payload bytes it read. */
  lemma WriteDataOfRead(bs: seq<byte>, t: Config)
    requires GoodConfig(t) && DataStep(Some(bs), t, Unread, 0).status == Ok
    ensures var r := DataStep(Some(bs), t, Unread, 0);
            WriteDataStep(Some(bs), t, Unread, 0, None, None) == (r, bs[r.file.dataStart..r.pos])
  {
    ReadFileHeader(bs, t);
    ReadFilePayload(bs, t);
    var r := DataStep(Some(bs), t, Unread, 0);
    var f := r.file;
    LegacyDimsMeaning(HeaderReader(f.header), r.config.dialect.dimKeys);
    var a := f.data.value;
    DataOutWhole(a);
    EncodeDecode(bs[f.dataStart..r.pos], 2, Product(f.shape));
  }
}
