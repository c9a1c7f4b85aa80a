/** The burst class of the current package: one burst of a .dat file, read
    lazily from a shared binary stream (header lines, parsed header, data
    shape and type, payload) and written back to a binary sink, with the
    class-wide parsing settings as a shared object that detection rewrites.
    Every method is proved to move the objects exactly as the matching
    function of BurstSpec says. */
module Bursts {
  import opened Base
  import opened Text
  import opened OrderedDict
  import opened Dialect
  import opened HeaderStore
  import opened ShapeResolver
  import opened Payload
  import opened ByteStream
  import opened BurstSpec

  /** The class-wide DEFAULTS every burst consults: a single mutable object,
      so a dialect detected in one burst is in force for the next. */
  class Defaults {
    var dialect: Dialect
    var autodetect: bool
    var forgive: bool
    var eol: string

    constructor ()
      ensures Value() == InitialSettings
    {
      dialect := V2;
      autodetect := true;
      forgive := true;
      eol := "\r\n";
    }

    function Value(): Settings
      reads this
    {
      Settings(dialect, autodetect, forgive, eol)
    }

    predicate Valid()
      reads this
    {
      GoodSettings(Value())
    }

    /** reset_init_defaults: the parsing tokens of the first alternative are
        copied back; the other settings stay. */
    method ResetInitDefaults()
      modifies this`dialect
      ensures dialect == Alternatives[0] && Valid()
    {
      dialect := Alternatives[0];
    }
  }

  /** Where the verbatim lines read so far (all but the last, which the scan
      from q reads again) and the scan from q put together give the scan of
      the whole header. */
  function Resumed(read: seq<string>, rest: Scan): Scan
    requires read != []
  {
    Scan(read[..|read| - 1] + rest.lines, rest.dataStart, rest.next)
  }

  /** Reading one more line after the scan from q has read x. */
  lemma ResumedNext(read: seq<string>, x: string, y: string, r: Scan, r2: Scan)
    requires read != [] && read[|read| - 1] == x
    requires r == Scan([x] + r2.lines, r2.dataStart, r2.next)
    ensures read + [y] != [] && Resumed(read + [y], r2) == Resumed(read, r)
  {
    assert (read + [y])[..|read|] == read;
    assert read == read[..|read| - 1] + [x];
  }

  /** The scan from q stopped at its first line x. */
  lemma ResumedLast(read: seq<string>, x: string, r: Scan)
    requires read != [] && read[|read| - 1] == x
    requires r.lines == [x]
    ensures Resumed(read, r) == Scan(read, r.dataStart, r.next)
  {
    assert read == read[..|read| - 1] + [x];
  }

  /** One turn of the read_header_lines loop keeps the scan resumable. */
  lemma ScanResumes(bs: seq<byte>, start: nat, q0: nat, line0: seq<byte>, lines0: seq<string>, q: nat, lines: seq<string>, y: string)
    requires line0 == LineAt(bs, q0) && line0 != [] && !StartsWith(Latin1Decode(line0), EndOfHeader)
    requires lines0 != [] && lines0[|lines0| - 1] == RStrip(Latin1Decode(line0))
    requires Resumed(lines0, ScanHeader(bs, q0)) == ScanHeader(bs, start)
    requires q == q0 + |line0| && lines == lines0 + [y]
    ensures lines != [] && Resumed(lines, ScanHeader(bs, q)) == ScanHeader(bs, start)
  {
    ScanHeaderStep(bs, q0, line0);
    ResumedNext(lines0, RStrip(Latin1Decode(line0)), y, ScanHeader(bs, q0), ScanHeader(bs, q));
  }

  /** When the loop stops, the lines read are the scanned header, and the
      data offset is the position after the last line if it ended the
      header. */
  lemma ScanFinished(bs: seq<byte>, start: nat, q: nat, line: seq<byte>, lines: seq<string>, dataStart: int, next: nat)
    requires line == LineAt(bs, q)
    requires line == [] || StartsWith(Latin1Decode(line), EndOfHeader)
    requires lines != [] && lines[|lines| - 1] == RStrip(Latin1Decode(line))
    requires Resumed(lines, ScanHeader(bs, q)) == ScanHeader(bs, start)
    requires next == q + |line| && dataStart == if line == [] then -1 else next
    ensures ScanHeader(bs, start) == Scan(lines, dataStart, next)
  {
    ScanHeaderStep(bs, q, line);
    if line == [] {
      assert Latin1Decode(line) == [];
    }
    ResumedLast(lines, RStrip(Latin1Decode(line)), ScanHeader(bs, q));
  }

  /** One more line written by the loop of write_header. */
  lemma HeaderOutGrows(lines: seq<string>, t: Settings, sub: Option<Range>, samp: Option<Range>, i: nat, l: string, written: seq<byte>)
    requires GoodSettings(t)
    requires i < |lines| && HeaderOut(lines[..i], t, sub, samp).1 == Ok
    requires l == LineOut(lines[i], t, sub, samp) && Latin1Encode(l).Some?
    ensures HeaderOut(lines[..i + 1], t, sub, samp).1 == Ok
    ensures written + HeaderOut(lines[..i + 1], t, sub, samp).0 == written + HeaderOut(lines[..i], t, sub, samp).0 + Latin1Encode(l).value
  {
    HeaderOutNext(lines, t, sub, samp, i, l);
    AppendAssoc(written, HeaderOut(lines[..i], t, sub, samp).0, Latin1Encode(l).value);
  }

  /** A line the loop of write_header cannot encode ends the header. */
  lemma HeaderOutFails(lines: seq<string>, t: Settings, sub: Option<Range>, samp: Option<Range>, i: nat, l: string)
    requires GoodSettings(t)
    requires i < |lines| && HeaderOut(lines[..i], t, sub, samp).1 == Ok
    requires l == LineOut(lines[i], t, sub, samp) && Latin1Encode(l).None?
    ensures HeaderOut(lines, t, sub, samp) == (HeaderOut(lines[..i], t, sub, samp).0, Raised(NotLatin1(l)))
  {
    HeaderOutNext(lines, t, sub, samp, i, l);
    HeaderOutStops(lines, t, sub, samp, i + 1);
  }

  /** The loop of write_header: each line with the requested lengths
      substituted, the line ending appended, encoded as Latin-1 and
      written; a line that does not encode stops the loop. */
  method WriteLines(out: Sink, t: Settings, lines: seq<string>, sub: Option<Range>, samp: Option<Range>) returns (st: Status)
    requires GoodSettings(t)
    modifies out
    ensures (out.bytes, st) == (old(out.bytes) + HeaderOut(lines, t, sub, samp).0, HeaderOut(lines, t, sub, samp).1)
  {
    ghost var written := out.bytes;
    var i := 0;
    while i < |lines|
      invariant 0 <= i <= |lines|
      invariant HeaderOut(lines[..i], t, sub, samp).1 == Ok
      invariant out.bytes == written + HeaderOut(lines[..i], t, sub, samp).0
    {
      var line := LineOut(lines[i], t, sub, samp);
      var enc := Latin1Encode(line);
      if enc.None? {
        HeaderOutFails(lines, t, sub, samp, i, line);
        return Raised(NotLatin1(line));
      }
      HeaderOutGrows(lines, t, sub, samp, i, line, written);
      out.Write(enc.value);
      i := i + 1;
    }
    assert lines[..i] == lines;
    return Ok;
  }

  class Burst {
    const defaults: Defaults
    const stream: Stream?
    var headerStart: nat
    var dataStart: int
    var headerLines: seq<string>
    var header: Dict
    var dimKeys: seq<string>
    var shape: seq<int>
    var dtype: ElementType
    var data: Option<NdArray>

    /** The fields as a value. */
    function State(): State
      reads this
    {
      BurstSpec.State(headerStart, dataStart, headerLines, header, dimKeys, shape, dtype, data)
    }

    /** The bytes of the input, if there is one. */
    function Input(): Option<seq<byte>> {
      if stream == null then None else Some(stream.bytes)
    }

    /** The read position of the input (0 without one). */
    function Pos(): nat
      reads stream
    {
      if stream == null then 0 else stream.pos
    }

    /** A burst starting at the stream's current position, nothing read
        yet; without a stream it starts at 0. */
    constructor (d: Defaults, fp: Stream?)
      ensures defaults == d && stream == fp
      ensures State() == Initial(if fp == null then 0 else fp.pos)
    {
      defaults := d;
      stream := fp;
      headerStart := if fp == null then 0 else fp.pos;
      dataStart := -1;
      headerLines := [];
      header := Empty;
      dimKeys := [];
      shape := [];
      dtype := U2;
      data := None;
    }

    /** read_header_lines */
    method ReadHeaderLines() returns (st: Status)
      modifies this`dataStart, this`headerLines, stream
      ensures Step(defaults.Value(), State(), Pos(), st) == LinesStep(Input(), defaults.Value(), old(State()), old(Pos()))
    {
      dataStart := -1;
      headerLines := [];
      if stream == null {
        return Raised(NoStream);
      }
      ghost var bs := stream.bytes;
      var sought := stream.Seek(headerStart);
      ghost var q: nat := headerStart;
      var line := stream.ReadLine();
      var text := Latin1Decode(line);
      var lines := [RStrip(text)];
      while line != [] && !StartsWith(text, EndOfHeader)
        invariant line == LineAt(bs, q) && text == Latin1Decode(line)
        invariant stream.pos == q + |line|
        invariant lines != [] && lines[|lines| - 1] == RStrip(text)
        invariant Resumed(lines, ScanHeader(bs, q)) == ScanHeader(bs, headerStart)
        invariant dataStart == -1
        decreases if line == [] then 0 else |bs| - q + 1
      {
        ghost var lines0, q0, line0 := lines, q, line;
        q := stream.pos;
        line := stream.ReadLine();
        text := Latin1Decode(line);
        lines := lines + [RStrip(text)];
        ScanResumes(bs, headerStart, q0, line0, lines0, q, lines, RStrip(text));
      }
      headerLines := lines;
      if line != [] {
        dataStart := stream.Tell();
      }
      ScanFinished(bs, headerStart, q, line, lines, dataStart, stream.pos);
      assert State() == old(State()).(dataStart := dataStart, headerLines := lines);
      return Ok;
    }

    /** determine_file_format_version: the lines are searched in order, and
        within a line the alternatives' first dimension keys in order; the
        first hit copies that alternative's tokens into the shared
        settings. */
    method DetermineFileFormatVersion()
      modifies defaults`dialect
      ensures defaults.Value() == Detected(old(defaults.Value()), headerLines)
    {
      var firstKeys := seq(|Alternatives|, i requires 0 <= i < |Alternatives| => Alternatives[i].dimKeys[0]);
      var l := 0;
      while l < |headerLines|
        invariant 0 <= l <= |headerLines|
        invariant forall e :: 0 <= e < l ==> MatchIn(headerLines[e], Alternatives).None?
        invariant defaults.dialect == old(defaults.dialect)
      {
        var line := headerLines[l];
        var i := 0;
        while i < |firstKeys|
          invariant 0 <= i <= |firstKeys|
          invariant forall j :: 0 <= j < i ==> !Matches(line, Alternatives[j])
        {
          if StartsWith(line, firstKeys[i]) {
            MatchInAt(line, Alternatives, i);
            FirstMatchAt(headerLines, Alternatives, l, i);
            defaults.dialect := Alternatives[i];
            return;
          }
          i := i + 1;
        }
        l := l + 1;
      }
    }

    /** store_header */
    method StoreHeader()
      modifies this`header
      ensures State() == Stored(defaults.Value(), old(State()))
    {
      var delim := defaults.dialect.delim;
      header := Empty;
      var i := 0;
      while i < |headerLines|
        invariant 0 <= i <= |headerLines|
        invariant header == Parse(headerLines[..i], delim, true)
      {
        var line := headerLines[i];
        match SplitOnce(line, delim) {
          case Some((k, v)) =>
            if k != [] {
              header := Put(header, Strip(k), Strip(v));
            }
          case None =>
        }
        ParseNext(headerLines, i, delim, true);
        i := i + 1;
      }
      TakeAll(headerLines);
    }

    /** define_data_shape */
    method DefineDataShape(flatten: string) returns (st: Status)
      requires defaults.Valid()
      modifies this`dimKeys, this`shape
      ensures (State(), st) == Shaped(defaults.Value(), old(State()), flatten)
    {
      ghost var s0, t := State(), defaults.Value();
      dimKeys := [];
      shape := [];
      var policy := ParseFlatten(flatten);
      if policy.None? {
        return Raised(InvalidFlatten(flatten));
      }
      ghost var read := HeaderReader(header);
      var keys := defaults.dialect.dimKeys;
      var req := ReadRequiredDims(keys);
      if req.Failure? {
        DefineShapeRequiredFails(read, keys, flatten, dimKeys, req.error);
        return Raised(req.error);
      }
      var avg := HeaderInt(header, DataTypeKey);
      assert read(DataTypeKey) == avg;
      if avg.Failure? {
        DefineShapeAverageFails(read, keys, flatten, req.value, avg.error);
        return Raised(avg.error);
      }
      var dims := req.value;
      if avg.value > 0 {
        dims := dims[0 := 1];
      }
      dims := ApplyOptionalDims(policy.value, dims);
      DefineShapeDone(read, keys, flatten, policy.value, req.value, avg.value, dimKeys, dims);
      shape := dims;
      return Ok;
    }

    /** The loop of define_data_shape over the required dimension keys:
        each key is recorded, then its length read; the first failure stops
        it. */
    method ReadRequiredDims(keys: seq<string>) returns (r: Result<seq<int>>)
      requires dimKeys == []
      modifies this`dimKeys
      ensures RequiredDims(HeaderReader(header), keys) == (dimKeys, r)
    {
      ghost var read := HeaderReader(header);
      var dims: seq<int> := [];
      var i := 0;
      while i < |keys|
        invariant 0 <= i <= |keys|
        invariant RequiredDims(read, keys[..i]) == (dimKeys, Success(dims))
      {
        dimKeys := dimKeys + [keys[i]];
        var v := HeaderInt(header, keys[i]);
        assert read(keys[i]) == v;
        assert keys[..i + 1][..i] == keys[..i];
        if v.Failure? {
          RequiredDimsStops(read, keys, i + 1);
          return Failure(v.error);
        }
        dims := dims + [v.value];
        i := i + 1;
      }
      assert keys[..i] == keys;
      return Success(dims);
    }

    /** The loop of define_data_shape over the optional keys. */
    method ApplyOptionalDims(policy: Flatten, dims0: seq<int>) returns (dims: seq<int>)
      requires |dimKeys| == |dims0| >= 2
      modifies this`dimKeys
      ensures (dimKeys, dims) == ApplyOptional(HeaderReader(header), old(dimKeys), dims0, OptionalKeys, policy)
    {
      ghost var read := HeaderReader(header);
      ghost var keys0 := dimKeys;
      dims := dims0;
      var j := 0;
      while j < |OptionalKeys|
        invariant 0 <= j <= |OptionalKeys|
        invariant (dimKeys, dims) == ApplyOptional(read, keys0, dims0, OptionalKeys[..j], policy)
      {
        var key := OptionalKeys[j];
        var m := HeaderInt(header, key);
        assert read(key) == m;
        assert OptionalKeys[..j + 1][..j] == OptionalKeys[..j];
        if m.Success? {
          match policy {
            case Always =>
              dims := dims[1 := dims[1] * m.value];
            case Unity =>
              if m.value > 1 {
                dimKeys := InsertAt1(dimKeys, key);
                dims := InsertAt1(dims, m.value);
              }
            case Never =>
              dimKeys := InsertAt1(dimKeys, key);
              dims := InsertAt1(dims, m.value);
          }
        }
        j := j + 1;
      }
      assert OptionalKeys[..j] == OptionalKeys;
    }

    /** define_data_type */
    method DefineDataType() returns (st: Status)
      modifies this`dtype
      ensures (State(), st) == Typed(old(State()))
    {
      var a := HeaderInt(header, DataTypeKey);
      if a.Failure? {
        return Raised(a.error);
      }
      var idx := ListIndex(a.value, |DataTypes|);
      if idx.None? {
        return Raised(UnsupportedMode(a.value));
      }
      dtype := DataTypes[idx.value];
      return Ok;
    }

    /** configure_from_header */
    method ConfigureFromHeader() returns (st: Status)
      requires defaults.Valid()
      modifies defaults`dialect, this`header, this`dimKeys, this`shape, this`dtype
      ensures defaults.Valid()
      ensures (defaults.Value(), State(), st) == ConfigureStep(old(defaults.Value()), old(State()))
    {
      if defaults.autodetect {
        DetermineFileFormatVersion();
        DetectWellFormed(headerLines, old(defaults.dialect));
      }
      StoreHeader();
      st := DefineDataShape("unity");
      if st.Raised? {
        return;
      }
      st := DefineDataType();
    }

    /** read_header */
    method ReadHeader() returns (st: Status)
      requires defaults.Valid()
      modifies this`dataStart, this`headerLines, this`header, this`dimKeys, this`shape, this`dtype
      modifies stream, defaults`dialect
      ensures defaults.Valid()
      ensures Step(defaults.Value(), State(), Pos(), st) == HeaderStep(Input(), old(defaults.Value()), old(State()), old(Pos()))
    {
      st := ReadHeaderLines();
      if st.Raised? {
        return;
      }
      st := ConfigureFromHeader();
    }

    /** reshape_data */
    method ReshapeData() returns (st: Status)
      modifies this`data
      ensures (State(), st) == ReshapeStep(defaults.Value(), old(State()))
    {
      if data.None? {
        return Raised(NoData);
      }
      var r := Reshape(data.value, shape, defaults.forgive);
      if r.Failure? {
        return Raised(r.error);
      }
      data := Some(r.value);
      return Ok;
    }

    /** read_data: the header first when the burst is unread, then the
        payload. */
    method ReadData() returns (st: Status)
      requires defaults.Valid()
      modifies this, stream, defaults`dialect
      ensures defaults.Valid()
      ensures Step(defaults.Value(), State(), Pos(), st) == DataStep(Input(), old(defaults.Value()), old(State()), old(Pos()))
    {
      ghost var t0, s0, p0 := defaults.Value(), State(), Pos();
      if dataStart == -1 {
        st := ReadHeader();
        if st.Raised? {
          DataStepOf(Input(), t0, s0, p0, Step(defaults.Value(), State(), Pos(), st));
          return;
        }
      }
      DataStepOf(Input(), t0, s0, p0, Step(defaults.Value(), State(), Pos(), Ok));
      st := ReadPayload();
    }

    /** The rest of read_data once the header is known: count elements of
        the data type read from the data offset, decoded and reshaped. */
    method ReadPayload() returns (st: Status)
      modifies this`data, stream
      ensures Step(defaults.Value(), State(), Pos(), st) == PayloadStep(Input(), Step(defaults.Value(), old(State()), old(Pos()), Ok))
    {
      if !NonNegative(shape) {
        return Raised(NegativeDimension);
      }
      ProductNonNegative(shape);
      var count: nat := Product(shape);
      if stream == null {
        return Raised(NoStream);
      }
      st := stream.Seek(dataStart);
      if st.Raised? {
        return;
      }
      var size := ItemSize(dtype);
      var buf := stream.Read(count * size);
      if |buf| < count * size {
        return Raised(BufferTooSmall(|buf|, count * size));
      }
      data := Some(Flat(dtype, buf, count));
      st := ReshapeData();
    }

    /** reconstruct_header_lines: the start marker, one formatted line per
        header item in insertion order, the end marker. */
    method ReconstructHeaderLines()
      requires Wf(header)
      modifies this`headerLines
      ensures State() == old(State()).(headerLines := Reconstruct(header, defaults.dialect.delim))
    {
      var delim := defaults.dialect.delim;
      var lines: seq<string> := [];
      var i := 0;
      while i < |header.keys|
        invariant 0 <= i <= |header.keys|
        invariant lines == ItemLines(header, delim)[..i]
      {
        var k := header.keys[i];
        assert k in header.values;
        lines := lines + [FormatLine(k, delim, header.values[k])];
        i := i + 1;
      }
      headerLines := [StartMarker] + lines + [EndMarker];
    }

    /** write_header */
    method WriteHeader(out: Sink, sub: Option<Range>, samp: Option<Range>) returns (st: Status)
      requires defaults.Valid()
      modifies this, stream, defaults`dialect, out
      ensures defaults.Valid()
      ensures var r := WriteHeaderStep(Input(), old(defaults.Value()), old(State()), old(Pos()), sub, samp);
              Step(defaults.Value(), State(), Pos(), st) == r.0 && out.bytes == old(out.bytes) + r.1
    {
      ghost var t0, s0, p0 := defaults.Value(), State(), Pos();
      if dataStart == -1 {
        st := ReadHeader();
        if st.Raised? {
          WriteHeaderStepOf(Input(), t0, s0, p0, sub, samp, Step(defaults.Value(), State(), Pos(), st));
          return;
        }
      }
      WriteHeaderStepOf(Input(), t0, s0, p0, sub, samp, Step(defaults.Value(), State(), Pos(), Ok));
      st := WriteLines(out, defaults.Value(), headerLines, sub, samp);
    }

    /** write_data: the payload first when the burst is unread, then the
        chosen sub-bursts and samples in C order. */
    method WriteData(out: Sink, sub: Option<Range>, samp: Option<Range>) returns (st: Status)
      requires defaults.Valid() && Good(State())
      modifies this, stream, defaults`dialect, out
      ensures defaults.Valid()
      ensures var r := WriteDataStep(Input(), old(defaults.Value()), old(State()), old(Pos()), sub, samp);
              Step(defaults.Value(), State(), Pos(), st) == r.0 && out.bytes == old(out.bytes) + r.1
    {
      ghost var t0, s0, p0 := defaults.Value(), State(), Pos();
      if dataStart == -1 {
        st := ReadData();
        if st.Raised? {
          WriteDataStepOf(Input(), t0, s0, p0, sub, samp, Step(defaults.Value(), State(), Pos(), st));
          return;
        }
      }
      WriteDataStepOf(Input(), t0, s0, p0, sub, samp, Step(defaults.Value(), State(), Pos(), Ok));
      if data.None? {
        return Raised(NoData);
      }
      match DataOut(data.value, sub, samp) {
        case Failure(e) =>
          return Raised(e);
        case Success(b) =>
          out.Write(b);
          return Ok;
      }
    }
  }
}
