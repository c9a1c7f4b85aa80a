/** The state of one burst and of the shared parsing settings as values, and
    each operation of the burst reader and writer as a function from the old
    values to the new ones. The methods of the burst class are proved to
    move their objects exactly as these functions say. */
module BurstSpec {
  import opened Base
  import opened Text
  import opened OrderedDict
  import opened Dialect
  import opened HeaderStore
  import opened ShapeResolver
  import opened Payload
  import opened ByteStream

  /** The class-wide settings the reader consults and detection rewrites:
      the dialect, whether to detect it, forgive mode, the line ending. */
  datatype Settings = Settings(dialect: Dialect, autodetect: bool, forgive: bool, eol: string)

  /** The settings as the package defines them. */
  const InitialSettings: Settings := Settings(V2, true, true, "\r\n")

  /** The fields of a burst. */
  datatype State = State(
    headerStart: nat,
    dataStart: int,
    headerLines: seq<string>,
    header: Dict,
    dimKeys: seq<string>,
    shape: seq<int>,
    dtype: ElementType,
    data: Option<NdArray>)

  /** A burst as constructed at offset headerStart, nothing read yet. */
  function Initial(headerStart: nat): State {
    State(headerStart, -1, [], Empty, [], [], U2, None)
  }

  /** A burst as constructed keeps what every operation keeps. */
  lemma InitialGood(headerStart: nat)
    ensures Good(Initial(headerStart))
  {
  }

  /** An array whose elements fill its shape exactly. */
  predicate Fits(a: NdArray) {
    NonNegative(a.dims) && |a.items| == Product(a.dims)
  }

  /** What every operation keeps: a well formed header map and, when there
      is a payload, a payload that fills its shape. */
  predicate Good(s: State) {
    Wf(s.header) && (s.data.Some? ==> Fits(s.data.value))
  }

  /** Settings whose dialect has its two dimension keys. */
  predicate GoodSettings(t: Settings) {
    WellFormed(t.dialect)
  }

  /** The outcome of a reading step: the new settings and burst, the stream
      position, and how it ended. */
  datatype Step = Step(settings: Settings, state: State, pos: nat, status: Status)

  // ---- reading ----

  /** read_header_lines: the header lines and data offset scanned from the
      burst's own start; without a stream nothing can be read. */
  function LinesStep(input: Option<seq<byte>>, t: Settings, s: State, pos: nat): (r: Step)
    ensures r.settings == t && r.state == s.(dataStart := r.state.dataStart, headerLines := r.state.headerLines)
    ensures r.status.Raised? <==> input.None?
    ensures input.None? ==> r.state.dataStart == -1 && r.state.headerLines == [] && r.pos == pos
  {
    var s0 := s.(dataStart := -1, headerLines := []);
    match input
    case None => Step(t, s0, pos, Raised(NoStream))
    case Some(bs) =>
      var r := ScanHeader(bs, s.headerStart);
      Step(t, s0.(dataStart := r.dataStart, headerLines := r.lines), r.next, Ok)
  }

  /** determine_file_format_version applied to the settings. */
  function Detected(t: Settings, lines: seq<string>): (r: Settings)
    ensures r == t.(dialect := r.dialect)
    ensures r.dialect == t.dialect || r.dialect in Alternatives
  {
    t.(dialect := Detect(lines, t.dialect))
  }

  /** store_header. */
  function Stored(t: Settings, s: State): State {
    s.(header := Parse(s.headerLines, t.dialect.delim, true))
  }

  /** define_data_shape with a flatten policy. */
  function Shaped(t: Settings, s: State, flatten: string): (r: (State, Status))
    requires GoodSettings(t)
    ensures r.0 == s.(dimKeys := r.0.dimKeys, shape := r.0.shape)
  {
    var o := DefineShape(HeaderReader(s.header), t.dialect.dimKeys, flatten);
    (s.(dimKeys := o.keys, shape := o.dims), o.status)
  }

  /** define_data_type: on failure the element type stays. */
  function Typed(s: State): (r: (State, Status))
    ensures r.0 == s.(dtype := r.0.dtype)
    ensures r.1.Raised? ==> r.0 == s
  {
    match DataTypeOf(HeaderReader(s.header))
    case Success(e) => (s.(dtype := e), Ok)
    case Failure(err) => (s, Raised(err))
  }

  /** configure_from_header: detection when enabled, then store_header,
      define_data_shape with the default policy, define_data_type; the first
      failure stops it. */
  function ConfigureStep(t: Settings, s: State): (r: (Settings, State, Status))
    requires GoodSettings(t)
    ensures GoodSettings(r.0)
    ensures Good(s) ==> Good(r.1)
  {
    DetectWellFormed(s.headerLines, t.dialect);
    var t1 := if t.autodetect then Detected(t, s.headerLines) else t;
    var s1 := Stored(t1, s);
    var (s2, st) := Shaped(t1, s1, "unity");
    if st.Raised? then (t1, s2, st)
    else
      var (s3, st3) := Typed(s2);
      (t1, s3, st3)
  }

  /** read_header: the header lines, then the configuration. */
  function HeaderStep(input: Option<seq<byte>>, t: Settings, s: State, pos: nat): (r: Step)
    requires GoodSettings(t)
    ensures GoodSettings(r.settings)
    ensures Good(s) ==> Good(r.state)
  {
    var l := LinesStep(input, t, s, pos);
    if l.status.Raised? then l
    else
      var (t2, s2, st) := ConfigureStep(l.settings, l.state);
      Step(t2, s2, l.pos, st)
  }

  /** reshape_data: the payload cut to the shape, or the error; without a
      payload there is nothing to reshape. */
  function ReshapeStep(t: Settings, s: State): (r: (State, Status))
    ensures Good(s) ==> Good(r.0)
  {
    match s.data
    case None => (s, Raised(NoData))
    case Some(a) =>
      match Reshape(a, s.shape, t.forgive)
      case Success(b) =>
        ReshapeFits(a, s.shape, t.forgive);
        (s.(data := Some(b)), Ok)
      case Failure(e) => (s, Raised(e))
  }

  /** The payload part of read_data once the header is known: count =
      product of the shape elements are read from the data offset, decoded,
      and reshaped. A payload cut short by the end of the input is an error;
      the flat array stays when only the reshape fails. */
  function PayloadStep(input: Option<seq<byte>>, h: Step): (r: Step)
    ensures r.settings == h.settings
    ensures Good(h.state) ==> Good(r.state)
  {
    var s1 := h.state;
    if !NonNegative(s1.shape) then h.(status := Raised(NegativeDimension))
    else
      match input
      case None => h.(status := Raised(NoStream))
      case Some(bs) =>
        if s1.dataStart < 0 then h.(status := Raised(NegativeSeek(s1.dataStart)))
        else
          ProductNonNegative(s1.shape);
          var count := Product(s1.shape);
          var size := ItemSize(s1.dtype);
          var want := count * size;
          var buf := Available(bs, s1.dataStart, want);
          var next := s1.dataStart + |buf|;
          if |buf| < want then Step(h.settings, s1, next, Raised(BufferTooSmall(|buf|, want)))
          else
            var (s2, st) := ReshapeStep(h.settings, s1.(data := Some(Flat(s1.dtype, buf, count))));
            Step(h.settings, s2, next, st)
  }

  /** np.frombuffer of count elements: a one-axis array. */
  function Flat(t: ElementType, buf: seq<byte>, count: nat): (a: NdArray)
    requires |buf| == count * ItemSize(t)
    ensures Fits(a) && a.dims == [count]
  {
    DecodeLength(buf, ItemSize(t), count);
    assert Product([count]) == count;
    NdArray(t, [count], Decode(buf, ItemSize(t)))
  }

  /** read_data: the header first when the burst is unread, then the
      payload. */
  function DataStep(input: Option<seq<byte>>, t: Settings, s: State, pos: nat): (r: Step)
    requires GoodSettings(t)
    ensures GoodSettings(r.settings)
    ensures Good(s) ==> Good(r.state)
  {
    var h := if s.dataStart == -1 then HeaderStep(input, t, s, pos) else Step(t, s, pos, Ok);
    if h.status.Raised? then h else PayloadStep(input, h)
  }

  /** read_data told from the step that precedes the payload. */
  lemma DataStepOf(input: Option<seq<byte>>, t: Settings, s: State, pos: nat, h: Step)
    requires GoodSettings(t)
    requires h == if s.dataStart == -1 then HeaderStep(input, t, s, pos) else Step(t, s, pos, Ok)
    ensures GoodSettings(h.settings) && (Good(s) ==> Good(h.state))
    ensures DataStep(input, t, s, pos) == if h.status.Raised? then h else PayloadStep(input, h)
  {
  }

  // ---- writing ----

  /** A range argument counts only when it is given and not empty. */
  predicate Given(r: Option<Range>) {
    r.Some? && ValidRange(r.value) && RangeLen(r.value) > 0
  }

  /** One header line as write_header emits it: a line beginning with the
      first (second) dimension key becomes key, delimiter and the length of
      the sub-burst (sample) range when that range is given; the second test
      sees the line the first produced. Then the line ending. */
  function LineOut(line: string, t: Settings, sub: Option<Range>, samp: Option<Range>): string
    requires GoodSettings(t)
  {
    var k := t.dialect.dimKeys;
    var l1 := if Given(sub) && StartsWith(line, k[0])
              then FormatLine(k[0], t.dialect.delim, NatToString(RangeLen(sub.value))) else line;
    var l2 := if Given(samp) && StartsWith(l1, k[1])
              then FormatLine(k[1], t.dialect.delim, NatToString(RangeLen(samp.value))) else l1;
    l2 + t.eol
  }

  /** The bytes write_header emits for the lines, encoded as Latin-1, and
      how it ended: a line that does not encode raises, after the lines
      before it were written. */
  function HeaderOut(lines: seq<string>, t: Settings, sub: Option<Range>, samp: Option<Range>): (seq<byte>, Status)
    requires GoodSettings(t)
  {
    if lines == [] then ([], Ok)
    else
      var n := |lines| - 1;
      var (pre, st) := HeaderOut(lines[..n], t, sub, samp);
      if st.Raised? then (pre, st)
      else
        var l := LineOut(lines[n], t, sub, samp);
        match Latin1Encode(l)
        case None => (pre, Raised(NotLatin1(l)))
        case Some(b) => (pre + b, Ok)
  }

  /** The next line either adds its encoding or stops the header. */
  lemma HeaderOutNext(lines: seq<string>, t: Settings, sub: Option<Range>, samp: Option<Range>, i: nat, l: string)
    requires GoodSettings(t)
    requires i < |lines| && HeaderOut(lines[..i], t, sub, samp).1 == Ok
    requires l == LineOut(lines[i], t, sub, samp)
    ensures Latin1Encode(l).Some? ==>
              HeaderOut(lines[..i + 1], t, sub, samp) == (HeaderOut(lines[..i], t, sub, samp).0 + Latin1Encode(l).value, Ok)
    ensures Latin1Encode(l).None? ==>
              HeaderOut(lines[..i + 1], t, sub, samp) == (HeaderOut(lines[..i], t, sub, samp).0, Raised(NotLatin1(l)))
  {
    assert lines[..i + 1][..i] == lines[..i];
  }

  /** Once a line fails to encode, nothing more is written. */
  lemma {:induction false} HeaderOutStops(lines: seq<string>, t: Settings, sub: Option<Range>, samp: Option<Range>, j: nat)
    requires GoodSettings(t)
    requires j <= |lines| && HeaderOut(lines[..j], t, sub, samp).1.Raised?
    ensures HeaderOut(lines, t, sub, samp) == HeaderOut(lines[..j], t, sub, samp)
  {
    if j < |lines| {
      var n := |lines| - 1;
      assert lines[..n][..j] == lines[..j];
      HeaderOutStops(lines[..n], t, sub, samp, j);
    } else {
      assert lines[..j] == lines;
    }
  }

  /** The positions written on an axis of length n: the slice of the range
      given, or the whole axis. */
  function Chosen(r: Option<Range>, n: nat): (idx: seq<int>)
    ensures Within(idx, n)
  {
    var rg := if Given(r) then r.value else Range(0, n, 1);
    SliceInBounds(rg, n);
    SliceIndices(rg, n)
  }

  /** The bytes write_data emits for a payload: data[sub, samp] for two
      axes, data[sub, :, samp] for three, in C order, each element in its
      own width. Fewer than two axes cannot be indexed that way. */
  function DataOut(a: NdArray, sub: Option<Range>, samp: Option<Range>): Result<seq<byte>>
    requires Fits(a)
  {
    var d := a.dims;
    var size := ItemSize(a.etype);
    if |d| < 2 then Failure(TooFewDimensions(|d|))
    else if |d| > 3 then Failure(TooManyDimensions(|d|))
    else if |d| == 2 then
      ProductOfTwo(d);
      Success(Encode(Select2(a.items, d[0], d[1], Chosen(sub, d[0]), Chosen(samp, d[1])), size))
    else
      ProductOfThree(d);
      Success(Encode(Select3(a.items, d[0], d[1], d[2], Chosen(sub, d[0]), Chosen(samp, d[2])), size))
  }

  /** write_header: the header first when the burst is unread, then its
      lines. Returns the reading step and the bytes written. */
  function WriteHeaderStep(input: Option<seq<byte>>, t: Settings, s: State, pos: nat, sub: Option<Range>, samp: Option<Range>): (r: (Step, seq<byte>))
    requires GoodSettings(t)
    ensures GoodSettings(r.0.settings)
  {
    var h := if s.dataStart == -1 then HeaderStep(input, t, s, pos) else Step(t, s, pos, Ok);
    if h.status.Raised? then (h, [])
    else
      var (out, st) := HeaderOut(h.state.headerLines, h.settings, sub, samp);
      (h.(status := st), out)
  }

  /** write_header told from the step that precedes the lines. */
  lemma WriteHeaderStepOf(input: Option<seq<byte>>, t: Settings, s: State, pos: nat, sub: Option<Range>, samp: Option<Range>, h: Step)
    requires GoodSettings(t)
    requires h == if s.dataStart == -1 then HeaderStep(input, t, s, pos) else Step(t, s, pos, Ok)
    ensures GoodSettings(h.settings)
    ensures h.status.Raised? ==> WriteHeaderStep(input, t, s, pos, sub, samp) == (h, [])
    ensures h.status.Ok? ==>
              var (out, st) := HeaderOut(h.state.headerLines, h.settings, sub, samp);
              WriteHeaderStep(input, t, s, pos, sub, samp) == (h.(status := st), out)
  {
  }

  /** write_data: the payload first when the burst is unread, then the
      selection; a burst without a payload has nothing to write. */
  function WriteDataStep(input: Option<seq<byte>>, t: Settings, s: State, pos: nat, sub: Option<Range>, samp: Option<Range>): (r: (Step, seq<byte>))
    requires GoodSettings(t) && Good(s)
  {
    var h := if s.dataStart == -1 then DataStep(input, t, s, pos) else Step(t, s, pos, Ok);
    if h.status.Raised? then (h, [])
    else if h.state.data.None? then (h.(status := Raised(NoData)), [])
    else
      match DataOut(h.state.data.value, sub, samp)
      case Success(b) => (h, b)
      case Failure(e) => (h.(status := Raised(e)), [])
  }

  /** write_data told from the step that precedes the selection. */
  lemma WriteDataStepOf(input: Option<seq<byte>>, t: Settings, s: State, pos: nat, sub: Option<Range>, samp: Option<Range>, h: Step)
    requires GoodSettings(t) && Good(s)
    requires h == if s.dataStart == -1 then DataStep(input, t, s, pos) else Step(t, s, pos, Ok)
    ensures GoodSettings(h.settings) && Good(h.state)
    ensures h.status.Raised? ==> WriteDataStep(input, t, s, pos, sub, samp) == (h, [])
    ensures h.status.Ok? && h.state.data.None? ==> WriteDataStep(input, t, s, pos, sub, samp) == (h.(status := Raised(NoData)), [])
    ensures h.status.Ok? && h.state.data.Some? ==>
              WriteDataStep(input, t, s, pos, sub, samp) ==
                match DataOut(h.state.data.value, sub, samp)
                case Success(b) => (h, b)
                case Failure(e) => (h.(status := Raised(e)), [])
  {
  }
}
