/** What a successful read of a burst guarantees, and the laziness of the
    reader: a burst whose header was read is never scanned again. */
module BurstFacts {
  import opened Base
  import opened Text
  import opened Dialect
  import opened HeaderStore
  import opened ShapeResolver
  import opened Payload
  import opened ByteStream
  import opened BurstSpec

  /** The offset just past a burst's payload: the data offset plus count
      elements of the data type. The next burst of a file starts there. */
  function DataEnd(s: State): int {
    s.dataStart + Product(s.shape) * ItemSize(s.dtype)
  }

  /** configure_from_header touches only the dialect of the settings and
      the header map, dimension keys, shape and type of the burst. */
  lemma ConfigureKeeps(t: Settings, s: State)
    requires GoodSettings(t)
    ensures var c := ConfigureStep(t, s);
            && c.0 == t.(dialect := c.0.dialect)
            && c.1 == s.(header := c.1.header, dimKeys := c.1.dimKeys, shape := c.1.shape, dtype := c.1.dtype)
  {
  }

  /** read_data on an unread burst: the scan from the burst's start, the
      configuration of what was scanned, then the payload. */
  lemma ReadFresh(bs: seq<byte>, t: Settings, p: nat)
    requires GoodSettings(t)
    ensures var sc := ScanHeader(bs, p);
            var c := ConfigureStep(t, Initial(p).(dataStart := sc.dataStart, headerLines := sc.lines));
            DataStep(Some(bs), t, Initial(p), p) ==
              if c.2.Raised? then Step(c.0, c.1, sc.next, c.2) else PayloadStep(Some(bs), Step(c.0, c.1, sc.next, Ok))
  {
  }

  /** A payload read from an offset inside the input that succeeds: the
      data offset is valid, a whole payload of count elements follows it
      inside the input, the array is those bytes decoded in the shape of the
      header, and the stream stops right after them. Nothing but the
      payload changes. */
  lemma PayloadOk(bs: seq<byte>, h: Step)
    requires h.state.dataStart <= |bs|
    requires PayloadStep(Some(bs), h).status == Ok
    ensures var s := h.state;
            var r := PayloadStep(Some(bs), h);
            && NonNegative(s.shape) && 0 <= s.dataStart <= r.pos == DataEnd(s) <= |bs|
            && r.settings == h.settings
            && r.state == s.(data := Some(NdArray(s.dtype, s.shape, Decode(bs[s.dataStart..r.pos], ItemSize(s.dtype)))))
  {
    var s := h.state;
    assert NonNegative(s.shape) && s.dataStart >= 0;
    ProductNonNegative(s.shape);
    var count := Product(s.shape);
    var size := ItemSize(s.dtype);
    var buf := Available(bs, s.dataStart, count * size);
    assert |buf| == count * size;
    assert s.dataStart + count * size <= |bs|;
    assert buf == bs[s.dataStart..s.dataStart + count * size];
    FlatExact(s.dtype, buf, count, s.shape, h.settings.forgive);
    var a := NdArray(s.dtype, s.shape, Decode(buf, size));
    assert ReshapeStep(h.settings, s.(data := Some(Flat(s.dtype, buf, count)))) == (s.(data := Some(a)), Ok);
  }

  /** The elements read for a shape fill it exactly, so the reshape keeps
      them all. */
  lemma FlatExact(t: ElementType, buf: seq<byte>, count: nat, shape: seq<int>, forgive: bool)
    requires |buf| == count * ItemSize(t) && NonNegative(shape) && Product(shape) == count
    ensures Reshape(Flat(t, buf, count), shape, forgive) == Success(NdArray(t, shape, Decode(buf, ItemSize(t))))
  {
    var flat := Flat(t, buf, count);
    assert Product([count]) == count;
    assert |flat.items| == count;
    assert flat.items[..count] == flat.items;
  }

  /** A successful read of the burst at offset p. Its header is the scan
      from p and was closed by an end-of-header line; the settings and the
      header fields are what configure_from_header makes of those lines;
      the payload starts right after the header, fills the shape and is the
      decoding of the bytes there; the stream stops just past the payload,
      inside the input and beyond p. */
  lemma ReadBurstOk(bs: seq<byte>, t: Settings, p: nat)
    requires GoodSettings(t)
    requires DataStep(Some(bs), t, Initial(p), p).status == Ok
    ensures var r := DataStep(Some(bs), t, Initial(p), p);
            var s := r.state;
            var sc := ScanHeader(bs, p);
            && s.headerStart == p
            && s.headerLines == sc.lines && s.dataStart == sc.dataStart
            && p < s.dataStart && ClosedHeader(s.headerLines)
            && (r.settings, s.(data := None), Ok) == ConfigureStep(t, Initial(p).(dataStart := sc.dataStart, headerLines := sc.lines))
            && r.settings == t.(dialect := r.settings.dialect)
            && NonNegative(s.shape) && p < s.dataStart <= r.pos == DataEnd(s) <= |bs|
            && s.data == Some(NdArray(s.dtype, s.shape, Decode(bs[s.dataStart..r.pos], ItemSize(s.dtype))))
  {
    var sc := ScanHeader(bs, p);
    var s1 := Initial(p).(dataStart := sc.dataStart, headerLines := sc.lines);
    var c := ConfigureStep(t, s1);
    ReadFresh(bs, t, p);
    ConfigureKeeps(t, s1);
    var h := Step(c.0, c.1, sc.next, Ok);
    assert c.2 == Ok;
    PayloadOk(bs, h);
    ScanClosed(bs, p);
    ProductNonNegative(c.1.shape);
  }

  /** read_data on a burst whose header was read does not read the header
      again: only the payload is read, from the recorded data offset. */
  lemma DataStepLazy(input: Option<seq<byte>>, t: Settings, s: State, pos: nat)
    requires GoodSettings(t) && s.dataStart != -1
    ensures var r := DataStep(input, t, s, pos);
            && r == PayloadStep(input, Step(t, s, pos, Ok))
            && r.settings == t && r.state == s.(data := r.state.data)
  {
  }

  /** A second payload read of a burst gives what the first gave when the
      first succeeded: the payload read before is simply replaced. */
  lemma PayloadRepeat(bs: seq<byte>, h1: Step, h2: Step)
    requires h2.settings == h1.settings && h2.state == h1.state.(data := h2.state.data)
    requires h1.state.dataStart <= |bs|
    requires PayloadStep(Some(bs), h1).status == Ok
    ensures PayloadStep(Some(bs), h2) == PayloadStep(Some(bs), h1)
  {
    PayloadOk(bs, h1);
    var s := h2.state;
    ProductNonNegative(s.shape);
    var count := Product(s.shape);
    var size := ItemSize(s.dtype);
    var buf := Available(bs, s.dataStart, count * size);
    FlatExact(s.dtype, buf, count, s.shape, h2.settings.forgive);
  }

  /** read_data called again on a burst it read gives the same burst, the
      same settings and the same stream position. */
  lemma ReadDataAgain(bs: seq<byte>, t: Settings, p: nat)
    requires GoodSettings(t)
    requires DataStep(Some(bs), t, Initial(p), p).status == Ok
    ensures var r := DataStep(Some(bs), t, Initial(p), p);
            GoodSettings(r.settings) && DataStep(Some(bs), r.settings, r.state, r.pos) == r
  {
    var r := DataStep(Some(bs), t, Initial(p), p);
    var sc := ScanHeader(bs, p);
    var s1 := Initial(p).(dataStart := sc.dataStart, headerLines := sc.lines);
    var c := ConfigureStep(t, s1);
    ReadFresh(bs, t, p);
    ReadBurstOk(bs, t, p);
    var h1 := Step(c.0, c.1, sc.next, Ok);
    assert r == PayloadStep(Some(bs), h1);
    DataStepLazy(Some(bs), r.settings, r.state, r.pos);
    PayloadRepeat(bs, h1, Step(r.settings, r.state, r.pos, Ok));
  }

  /** write_header on a burst whose header was read writes its lines and
      changes nothing else. */
  lemma WriteHeaderLazy(input: Option<seq<byte>>, t: Settings, s: State, pos: nat, sub: Option<Range>, samp: Option<Range>)
    requires GoodSettings(t) && s.dataStart != -1
    ensures var w := WriteHeaderStep(input, t, s, pos, sub, samp);
            var out := HeaderOut(s.headerLines, t, sub, samp);
            w == (Step(t, s, pos, out.1), out.0)
  {
  }

  /** write_data on a burst whose payload was read writes the selection of
      that payload and changes nothing else. */
  lemma WriteDataLazy(input: Option<seq<byte>>, t: Settings, s: State, pos: nat, sub: Option<Range>, samp: Option<Range>)
    requires GoodSettings(t) && Good(s) && s.dataStart != -1 && s.data.Some?
    ensures var w := WriteDataStep(input, t, s, pos, sub, samp);
            && w.0.settings == t && w.0.state == s && w.0.pos == pos
            && match DataOut(s.data.value, sub, samp)
               case Success(b) => w.0.status == Ok && w.1 == b
               case Failure(e) => w.0.status == Raised(e) && w.1 == []
  {
  }

  /** write_header records len(samples) on the line of the second dimension
      key, while write_data writes data[..., samples], which clips the range
      to the last axis: the sample count in the header and the samples
      written per row agree exactly when the range's last value lies on
      that axis, and otherwise fewer samples are written than announced. */
  lemma SampleCountWritten(a: NdArray, line: string, t: Settings, samp: Option<Range>)
    requires Fits(a) && 2 <= |a.dims| <= 3 && GoodSettings(t)
    requires Given(samp) && samp.value.step > 0 && 0 <= samp.value.start
    requires StartsWith(line, t.dialect.dimKeys[1])
    ensures LineOut(line, t, None, samp)
            == FormatLine(t.dialect.dimKeys[1], t.dialect.delim, NatToString(RangeLen(samp.value))) + t.eol
    ensures DataOut(a, None, samp).Success?
    ensures var k := |Chosen(samp, a.dims[|a.dims| - 1])|;
            var size := ItemSize(a.etype);
            && (|a.dims| == 2 ==> |DataOut(a, None, samp).value| == a.dims[0] * k * size)
            && (|a.dims| == 3 ==> |DataOut(a, None, samp).value| == a.dims[0] * (a.dims[1] * k) * size)
    ensures var r := samp.value;
            var k := |Chosen(samp, a.dims[|a.dims| - 1])|;
            && k <= RangeLen(r)
            && (k == RangeLen(r) <==> r.start + (RangeLen(r) - 1) * r.step < a.dims[|a.dims| - 1])
  {
    var d := a.dims;
    SliceKeepsRange(samp.value, d[|d| - 1]);
    var rows := Chosen(None, d[0]);
    assert |rows| == d[0];
    var size := ItemSize(a.etype);
    if |d| == 2 {
      ProductOfTwo(d);
      EncodeLength(Select2(a.items, d[0], d[1], rows, Chosen(samp, d[1])), size);
    } else {
      ProductOfThree(d);
      EncodeLength(Select3(a.items, d[0], d[1], d[2], rows, Chosen(samp, d[2])), size);
    }
  }

  /** The same for the first axis: write_header records len(subbursts) on
      the line of the first dimension key, while write_data writes only the
      sub-bursts of the range that lie on the first axis. */
  lemma SubBurstCountWritten(a: NdArray, line: string, t: Settings, sub: Option<Range>)
    requires Fits(a) && 2 <= |a.dims| <= 3 && GoodSettings(t)
    requires Given(sub) && sub.value.step > 0 && 0 <= sub.value.start
    requires StartsWith(line, t.dialect.dimKeys[0])
    ensures LineOut(line, t, sub, None)
            == FormatLine(t.dialect.dimKeys[0], t.dialect.delim, NatToString(RangeLen(sub.value))) + t.eol
    ensures DataOut(a, sub, None).Success?
    ensures var k := |Chosen(sub, a.dims[0])|;
            var size := ItemSize(a.etype);
            && (|a.dims| == 2 ==> |DataOut(a, sub, None).value| == k * a.dims[1] * size)
            && (|a.dims| == 3 ==> |DataOut(a, sub, None).value| == k * (a.dims[1] * a.dims[2]) * size)
    ensures var r := sub.value;
            var k := |Chosen(sub, a.dims[0])|;
            && k <= RangeLen(r)
            && (k == RangeLen(r) <==> r.start + (RangeLen(r) - 1) * r.step < a.dims[0])
  {
    var d := a.dims;
    SliceKeepsRange(sub.value, d[0]);
    var size := ItemSize(a.etype);
    if |d| == 2 {
      ProductOfTwo(d);
      var cols := Chosen(None, d[1]);
      assert |cols| == d[1];
      EncodeLength(Select2(a.items, d[0], d[1], Chosen(sub, d[0]), cols), size);
    } else {
      ProductOfThree(d);
      var cols := Chosen(None, d[2]);
      assert |cols| == d[2];
      EncodeLength(Select3(a.items, d[0], d[1], d[2], Chosen(sub, d[0]), cols), size);
    }
  }
}
