/** Writing and reading back: the header write_header emits is scanned by
    read_header_lines as the same lines, write_data without ranges emits
    the payload bytes that were read, and a burst read from a file and
    written out whole reads back as the same burst. */
module RoundTrip {
  import opened Base
  import opened Text
  import opened Dialect
  import opened ShapeResolver
  import opened Payload
  import opened ByteStream
  import opened BurstSpec
  import opened BurstFacts

  /** With CR LF as the line ending, a written line closes the header
      exactly when the line itself begins with the end-of-header text. */
  lemma EndTestWithEol(l: string, eol: string)
    requires eol == "\r\n"
    ensures StartsWith(l + eol, EndOfHeader) <==> StartsWith(l, EndOfHeader)
  {
    var n := |EndOfHeader|;
    if |l| >= n {
      assert (l + eol)[..n] == l[..n];
    } else if |l| + 2 >= n {
      assert (l + eol)[|l|] == '\r';
      assert forall i :: 0 <= i < n ==> EndOfHeader[i] != '\r';
      assert EndOfHeader[|l|] != (l + eol)[|l|];
    }
  }

  /** write_header without ranges, told one line in front of the rest. */
  lemma {:induction false} HeaderOutCons(x: string, rest: seq<string>, t: Settings)
    requires GoodSettings(t)
    requires Latin1Encode(x + t.eol).Some? && HeaderOut(rest, t, None, None).1 == Ok
    ensures HeaderOut([x] + rest, t, None, None) == (Latin1Encode(x + t.eol).value + HeaderOut(rest, t, None, None).0, Ok)
    decreases |rest|
  {
    if rest == [] {
      var e := Latin1Encode(x + t.eol).value;
      EmptySides(e);
      assert ([x] + rest)[..0] == [];
    } else {
      var n := |rest| - 1;
      assert HeaderOut(rest[..n], t, None, None).1 == Ok;
      HeaderOutCons(x, rest[..n], t);
      HeaderOutConsStep(x, rest, t);
    }
  }

  /** The step of HeaderOutCons: from the lines but the last to all of them. */
  lemma HeaderOutConsStep(x: string, rest: seq<string>, t: Settings)
    requires GoodSettings(t) && rest != []
    requires Latin1Encode(x + t.eol).Some? && HeaderOut(rest, t, None, None).1 == Ok
    requires HeaderOut([x] + rest[..|rest| - 1], t, None, None)
             == (Latin1Encode(x + t.eol).value + HeaderOut(rest[..|rest| - 1], t, None, None).0, Ok)
    ensures HeaderOut([x] + rest, t, None, None) == (Latin1Encode(x + t.eol).value + HeaderOut(rest, t, None, None).0, Ok)
  {
    var n := |rest| - 1;
    var lines := [x] + rest;
    var e := Latin1Encode(x + t.eol).value;
    var front := HeaderOut(rest[..n], t, None, None).0;
    var b := Latin1Encode(LineOut(rest[n], t, None, None));
    assert b.Some? && HeaderOut(rest, t, None, None).0 == front + b.value;
    ConsFront(x, rest);
    assert LineOut(lines[|rest|], t, None, None) == LineOut(rest[n], t, None, None);
    assert HeaderOut(lines[..|rest|], t, None, None) == (e + front, Ok);
    assert HeaderOut(lines, t, None, None) == ((e + front) + b.value, Ok);
    AppendAssoc(e, front, b.value);
  }

  /** One clean line written with CR LF, followed by anything, is read by
      readline() as exactly those bytes, and the scan keeps the line. */
  lemma WrittenLineScans(x: string, eol: string, pre: seq<byte>, post: seq<byte>)
    requires eol == "\r\n" && CleanLine(x)
    ensures Latin1Encode(x + eol).Some?
    ensures var enc := Latin1Encode(x + eol).value;
            && LineAt(pre + enc + post, |pre|) == enc
            && RStrip(Latin1Decode(enc)) == x
            && (StartsWith(Latin1Decode(enc), EndOfHeader) <==> StartsWith(x, EndOfHeader))
  {
    var l := x + eol;
    Latin1EncodeSpec(l);
    assert forall i :: 0 <= i < |l| ==> l[i] as int < 256;
    var enc := Latin1Encode(l).value;
    var bs := pre + enc + post;
    var p := |pre|;
    var e := p + |x| + 1;
    assert bs[e] == enc[|x| + 1] == Newline;
    forall i | p <= i < e
      ensures bs[i] != Newline
    {
      assert bs[i] == enc[i - p];
    }
    LineEndAt(bs, p, e);
    assert bs[p..e + 1] == enc;
    Latin1DecodeEncode(l);
    RStripBlankTail(x, eol);
    EndTestWithEol(x, eol);
  }

  lemma ClosedTail(lines: seq<string>)
    requires ClosedHeader(lines) && |lines| >= 2
    ensures ClosedHeader(lines[1..])
  {
    var rest := lines[1..];
    assert forall i :: 0 <= i < |rest| ==> rest[i] == lines[i + 1];
  }

  /** The header write_header emits (no ranges, CR LF) for the lines of a
      closed header, with any bytes before and after it, is scanned back
      from its first byte as the same lines, and the data offset is the
      byte just after it. */
  lemma {:induction false} WrittenHeaderScans(lines: seq<string>, t: Settings, pre: seq<byte>, post: seq<byte>)
    requires GoodSettings(t) && t.eol == "\r\n" && ClosedHeader(lines)
    ensures HeaderOut(lines, t, None, None).1 == Ok
    ensures var out := HeaderOut(lines, t, None, None).0;
            ScanHeader(pre + out + post, |pre|) == Scan(lines, |pre| + |out|, |pre| + |out|)
    decreases |lines|
  {
    var x := lines[0];
    var rest := lines[1..];
    assert lines == [x] + rest;
    var p := |pre|;
    if rest == [] {
      WrittenHeaderLast(x, t, pre, post);
    } else {
      ClosedTail(lines);
      WrittenLineScans(x, t.eol, [], []);
      var enc := Latin1Encode(x + t.eol).value;
      WrittenHeaderScans(rest, t, pre + enc, post);
      WrittenHeaderStep(x, rest, t, pre, post, enc, HeaderOut(rest, t, None, None).0);
    }
  }

  /** The base of WrittenHeaderScans: the end-of-header line alone. */
  lemma WrittenHeaderLast(x: string, t: Settings, pre: seq<byte>, post: seq<byte>)
    requires GoodSettings(t) && t.eol == "\r\n" && CleanLine(x) && StartsWith(x, EndOfHeader)
    ensures HeaderOut([x], t, None, None).1 == Ok
    ensures var out := HeaderOut([x], t, None, None).0;
            ScanHeader(pre + out + post, |pre|) == Scan([x], |pre| + |out|, |pre| + |out|)
  {
    WrittenLineScans(x, t.eol, [], []);
    HeaderOutSingle(x, t);
    EndLineScans(x, t.eol, pre, post);
  }

  /** write_header without ranges of a single line. */
  lemma HeaderOutSingle(x: string, t: Settings)
    requires GoodSettings(t) && Latin1Encode(x + t.eol).Some?
    ensures HeaderOut([x], t, None, None) == (Latin1Encode(x + t.eol).value, Ok)
  {
    HeaderOutCons(x, [], t);
    AppendEmpty(Latin1Encode(x + t.eol).value);
    assert [x] + [] == [x];
  }

  /** The end-of-header line written with CR LF is scanned as the whole
      header, and the data starts right after it. */
  lemma EndLineScans(x: string, eol: string, pre: seq<byte>, post: seq<byte>)
    requires eol == "\r\n" && CleanLine(x) && StartsWith(x, EndOfHeader)
    ensures Latin1Encode(x + eol).Some?
    ensures var enc := Latin1Encode(x + eol).value;
            ScanHeader(pre + enc + post, |pre|) == Scan([x], |pre| + |enc|, |pre| + |enc|)
  {
    WrittenLineScans(x, eol, pre, post);
    var enc := Latin1Encode(x + eol).value;
    ScanHeaderStep(pre + enc + post, |pre|, enc);
  }

  /** The step of WrittenHeaderScans: one more line in front. */
  lemma WrittenHeaderStep(x: string, rest: seq<string>, t: Settings, pre: seq<byte>, post: seq<byte>, enc: seq<byte>, outR: seq<byte>)
    requires GoodSettings(t) && t.eol == "\r\n" && CleanLine(x) && !StartsWith(x, EndOfHeader)
    requires Latin1Encode(x + t.eol) == Some(enc) && HeaderOut(rest, t, None, None) == (outR, Ok)
    requires ScanHeader(pre + enc + outR + post, |pre + enc|) == Scan(rest, |pre + enc| + |outR|, |pre + enc| + |outR|)
    ensures HeaderOut([x] + rest, t, None, None) == (enc + outR, Ok)
    ensures ScanHeader(pre + (enc + outR) + post, |pre|) == Scan([x] + rest, |pre| + |enc + outR|, |pre| + |enc + outR|)
  {
    HeaderOutCons(x, rest, t);
    ScanLineThen(x, t.eol, pre, outR, post, rest, enc);
  }

  /** A line that does not end the header, written with CR LF in front of
      bytes scanned as the rest of a header, is scanned as one more line of
      it. */
  lemma ScanLineThen(x: string, eol: string, pre: seq<byte>, mid: seq<byte>, post: seq<byte>, rest: seq<string>, enc: seq<byte>)
    requires eol == "\r\n" && CleanLine(x) && !StartsWith(x, EndOfHeader) && Latin1Encode(x + eol) == Some(enc)
    requires ScanHeader(pre + enc + mid + post, |pre + enc|) == Scan(rest, |pre + enc| + |mid|, |pre + enc| + |mid|)
    ensures ScanHeader(pre + (enc + mid) + post, |pre|) == Scan([x] + rest, |pre| + |enc + mid|, |pre| + |enc + mid|)
  {
    WrittenLineScans(x, eol, pre, mid + post);
    Regroup(pre, enc, mid, post);
    ScanHeaderStep(pre + (enc + mid) + post, |pre|, enc);
  }

  /** write_data without ranges writes every element, in C order. */
  lemma DataOutWhole(a: NdArray)
    requires Fits(a) && 2 <= |a.dims| <= 3
    ensures DataOut(a, None, None) == Success(Encode(a.items, ItemSize(a.etype)))
  {
    if |a.dims| == 2 {
      DataOutWhole2(a);
    } else {
      DataOutWhole3(a);
    }
  }

  lemma DataOutWhole2(a: NdArray)
    requires Fits(a) && |a.dims| == 2
    ensures DataOut(a, None, None) == Success(Encode(a.items, ItemSize(a.etype)))
  {
    var d := a.dims;
    assert d[0] >= 0 && d[1] >= 0;
    SliceFullAxis(d[0]);
    SliceFullAxis(d[1]);
    ProductOfTwo(d);
    Select2Whole(a.items, d[0], d[1], d[0]);
    TakeAll(a.items);
  }

  lemma DataOutWhole3(a: NdArray)
    requires Fits(a) && |a.dims| == 3
    ensures DataOut(a, None, None) == Success(Encode(a.items, ItemSize(a.etype)))
  {
    var d := a.dims;
    assert d[0] >= 0 && d[1] >= 0 && d[2] >= 0;
    SliceFullAxis(d[0]);
    SliceFullAxis(d[2]);
    ProductOfThree(d);
    Select3Whole(a.items, d[0], d[1], d[2], d[0]);
    TakeAll(a.items);
  }

  /** Configuring the same lines again, with the settings the first
      configuration produced, changes nothing: the detection is idempotent
      and everything else depends on the lines and the dialect only. */
  lemma ConfigureAgain(t: Settings, s: State, a: nat, b: int)
    requires GoodSettings(t)
    ensures var c := ConfigureStep(t, s);
            GoodSettings(c.0) && ConfigureStep(c.0, s.(headerStart := a, dataStart := b)) == (c.0, c.1.(headerStart := a, dataStart := b), c.2)
  {
    DetectIdempotent(s.headerLines, t.dialect);
  }

  /** write_data without ranges on a burst whose payload is the decoding
      of a buffer that fills its shape writes that buffer back and changes
      nothing. */
  lemma WriteDataWhole(input: Option<seq<byte>>, t: Settings, s: State, pos: nat, buf: seq<byte>)
    requires GoodSettings(t) && Good(s) && s.dataStart != -1 && 2 <= |s.shape| <= 3
    requires NonNegative(s.shape) && |buf| == Product(s.shape) * ItemSize(s.dtype)
    requires s.data == Some(NdArray(s.dtype, s.shape, Decode(buf, ItemSize(s.dtype))))
    ensures WriteDataStep(input, t, s, pos, None, None) == (Step(t, s, pos, Ok), buf)
  {
    WriteDataLazy(input, t, s, pos, None, None);
    DataOutWhole(s.data.value);
    ProductNonNegative(s.shape);
    EncodeDecode(buf, ItemSize(s.dtype), Product(s.shape));
  }

  /** What a burst holds after a successful read of the bytes bs, told
      without the read itself: lines that close a header, a payload of two
      or three axes decoded from the bytes between the data offset and the
      stream position. */
  predicate ReadFrom(bs: seq<byte>, t: Settings, s: State, pos: nat) {
    && GoodSettings(t) && Good(s) && ClosedHeader(s.headerLines)
    && 2 <= |s.shape| <= 3 && NonNegative(s.shape)
    && 0 <= s.dataStart <= pos == DataEnd(s) <= |bs|
    && s.data == Some(NdArray(s.dtype, s.shape, Decode(bs[s.dataStart..pos], ItemSize(s.dtype))))
  }

  /** Writing such a burst whole with CR LF line ends: write_header emits
      its lines without error, write_data the payload bytes it was decoded
      from, and neither changes the burst, the settings or the stream. */
  lemma WritesOfRead(bs: seq<byte>, t: Settings, s: State, pos: nat)
    requires ReadFrom(bs, t, s, pos) && t.eol == "\r\n"
    ensures HeaderOut(s.headerLines, t, None, None).1 == Ok
    ensures WriteHeaderStep(Some(bs), t, s, pos, None, None) == (Step(t, s, pos, Ok), HeaderOut(s.headerLines, t, None, None).0)
    ensures WriteDataStep(Some(bs), t, s, pos, None, None) == (Step(t, s, pos, Ok), bs[s.dataStart..pos])
  {
    WrittenHeaderScans(s.headerLines, t, [], []);
    WriteHeaderLazy(Some(bs), t, s, pos, None, None);
    WriteDataWhole(Some(bs), t, s, pos, bs[s.dataStart..pos]);
  }

  /** A successful read of the burst at offset p leaves it in that form. */
  lemma ReadBurstFrom(bs: seq<byte>, t: Settings, p: nat)
    requires GoodSettings(t)
    requires DataStep(Some(bs), t, Initial(p), p).status == Ok
    requires 2 <= |DataStep(Some(bs), t, Initial(p), p).state.shape| <= 3
    ensures var r := DataStep(Some(bs), t, Initial(p), p);
            ReadFrom(bs, r.settings, r.state, r.pos) && r.settings.eol == t.eol
  {
    ReadBurstOk(bs, t, p);
    InitialGood(p);
  }

  /** The bytes a successfully read burst writes: write_header emits its
      lines without error, write_data emits exactly the payload bytes it
      read, and neither changes the burst, the settings or the stream. */
  lemma BurstWrites(bs: seq<byte>, t: Settings, p: nat)
    requires GoodSettings(t) && t.eol == "\r\n"
    requires DataStep(Some(bs), t, Initial(p), p).status == Ok
    requires 2 <= |DataStep(Some(bs), t, Initial(p), p).state.shape| <= 3
    ensures var r := DataStep(Some(bs), t, Initial(p), p);
            && 0 <= r.state.dataStart <= r.pos <= |bs| && Good(r.state)
            && WriteHeaderStep(Some(bs), r.settings, r.state, r.pos, None, None) == (r, HeaderOut(r.state.headerLines, r.settings, None, None).0)
            && WriteDataStep(Some(bs), r.settings, r.state, r.pos, None, None) == (r, bs[r.state.dataStart..r.pos])
  {
    var r := DataStep(Some(bs), t, Initial(p), p);
    ReadBurstFrom(bs, t, p);
    WritesOfRead(bs, r.settings, r.state, r.pos);
  }

  /** A payload of the right length read from just after a header of
      length |pre|: exactly those bytes, decoded in the shape of the header. */
  lemma PayloadAfter(pre: seq<byte>, body: seq<byte>, t: Settings, s: State)
    requires s.dataStart == |pre| && NonNegative(s.shape)
    requires |body| == Product(s.shape) * ItemSize(s.dtype)
    ensures PayloadStep(Some(pre + body), Step(t, s, |pre|, Ok))
              == Step(t, s.(data := Some(NdArray(s.dtype, s.shape, Decode(body, ItemSize(s.dtype))))), |pre| + |body|, Ok)
  {
    ProductNonNegative(s.shape);
    var count := Product(s.shape);
    AvailableAfter(pre, body);
    FlatExact(s.dtype, body, count, s.shape, t.forgive);
    var a := NdArray(s.dtype, s.shape, Decode(body, ItemSize(s.dtype)));
    assert ReshapeStep(t, s.(data := Some(Flat(s.dtype, body, count)))) == (s.(data := Some(a)), Ok);
  }

  /** Reading back a header written from configured lines followed by a
      payload of the right length: the same configuration, the header at
      offset 0, the payload right after it and decoded from those bytes. */
  lemma ReadWritten(t: Settings, s: State, body: seq<byte>)
    requires GoodSettings(t) && t.eol == "\r\n" && ClosedHeader(s.headerLines)
    requires ConfigureStep(t, s).2 == Ok && ConfigureStep(t, s).0 == t
    requires var c := ConfigureStep(t, s).1;
             NonNegative(c.shape) && |body| == Product(c.shape) * ItemSize(c.dtype)
    requires s == Initial(s.headerStart).(dataStart := s.dataStart, headerLines := s.headerLines)
    ensures var c := ConfigureStep(t, s).1;
            var hdr := HeaderOut(s.headerLines, t, None, None).0;
            DataStep(Some(hdr + body), t, Initial(0), 0)
              == Step(t, c.(headerStart := 0, dataStart := |hdr|, data := Some(NdArray(c.dtype, c.shape, Decode(body, ItemSize(c.dtype))))), |hdr| + |body|, Ok)
  {
    var lines := s.headerLines;
    var hdr := HeaderOut(lines, t, None, None).0;
    WrittenHeaderScans(lines, t, [], body);
    EmptyFront(hdr, body);
    ReadFresh(hdr + body, t, 0);
    ConfigureAgain(t, s, 0, |hdr|);
    assert Initial(0).(dataStart := |hdr|, headerLines := lines) == s.(headerStart := 0, dataStart := |hdr|);
    var c := ConfigureStep(t, s).1;
    PayloadAfter(hdr, body, t, c.(headerStart := 0, dataStart := |hdr|));
  }

  /** A burst read from a file and written out whole (write_header then
      write_data, no ranges, CR LF line ends) reads back as the same burst:
      the same settings, header lines, header map, dimension keys, shape,
      type and payload, with its header now at offset 0 and its payload
      right after the header. */
  lemma BurstRoundTrip(bs: seq<byte>, t: Settings, p: nat)
    requires GoodSettings(t) && t.eol == "\r\n"
    requires DataStep(Some(bs), t, Initial(p), p).status == Ok
    requires 2 <= |DataStep(Some(bs), t, Initial(p), p).state.shape| <= 3
    ensures var r := DataStep(Some(bs), t, Initial(p), p);
            0 <= r.state.dataStart <= r.pos <= |bs|
    ensures var r := DataStep(Some(bs), t, Initial(p), p);
            var h := HeaderOut(r.state.headerLines, r.settings, None, None).0;
            var d := bs[r.state.dataStart..r.pos];
            DataStep(Some(h + d), r.settings, Initial(0), 0)
                 == Step(r.settings, r.state.(headerStart := 0, dataStart := |h|), |h| + |d|, Ok)
  {
    var r := DataStep(Some(bs), t, Initial(p), p);
    ReadBurstOk(bs, t, p);
    var sc := ScanHeader(bs, p);
    var s0 := Initial(p).(dataStart := sc.dataStart, headerLines := sc.lines);
    ConfigureAgain(t, s0, p, sc.dataStart);
    assert s0.(headerStart := p, dataStart := sc.dataStart) == s0;
    var d := bs[r.state.dataStart..r.pos];
    ReadWritten(r.settings, s0, d);
  }
}
