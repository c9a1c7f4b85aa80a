/** The file class of the current package: the bursts of a .dat file read
    back to back from one stream until its end, and written out again with
    an optional choice of bursts, sub-bursts and samples. */
module Files {
  import opened Base
  import opened ShapeResolver
  import opened Payload
  import opened ByteStream
  import opened BurstSpec
  import opened BurstFacts
  import opened Bursts

  /** The outcome of reading bursts to the end of the input: the settings
      left in force, the bursts read, how it ended and where the stream
      stopped. */
  datatype Reading = Reading(settings: Settings, bursts: seq<State>, status: Status, pos: nat)

  /** Bursts read before the ones a reading found. */
  function Prepend(acc: seq<State>, r: Reading): Reading {
    r.(bursts := acc + r.bursts)
  }

  /** read: while the position is before the end of the input, a burst is
      read there; otherwise the reading is over. */
  function ReadAll(bs: seq<byte>, t: Settings, pos: nat): (r: Reading)
    requires GoodSettings(t)
    decreases if pos >= |bs| then 0 else |bs| - pos, 2
  {
    if pos >= |bs| then Reading(t, [], Ok, pos) else ReadBurstAt(bs, t, pos)
  }

  /** read_burst: a burst constructed at the position, then read. */
  function ReadBurstAt(bs: seq<byte>, t: Settings, pos: nat): (r: Reading)
    requires GoodSettings(t) && pos < |bs|
    decreases |bs| - pos, 1
  {
    ReadFrom(bs, t, Initial(pos), pos)
  }

  /** read_data on the new burst; the first burst that raises ends the
      reading with that error and is not kept, otherwise the reading goes
      on after it. Each read moves the position forward, so the reading
      ends. */
  function ReadFrom(bs: seq<byte>, t: Settings, s: State, pos: nat): (r: Reading)
    requires GoodSettings(t) && pos < |bs| && s == Initial(pos)
    decreases |bs| - pos, 0
  {
    var b := DataStep(Some(bs), t, s, pos);
    if b.status.Raised? then Reading(b.settings, [], b.status, b.pos)
    else
      ReadBurstOk(bs, t, pos);
      Prepend([b.state], ReadAll(bs, b.settings, b.pos))
  }

  /** A burst read_data read without error is loaded, past its start and
      inside the input. */
  lemma ReadBurstLoaded(bs: seq<byte>, t: Settings, p: nat)
    requires GoodSettings(t)
    requires DataStep(Some(bs), t, Initial(p), p).status == Ok
    ensures var b := DataStep(Some(bs), t, Initial(p), p);
            GoodSettings(b.settings) && Loaded(b.state) && p < b.pos <= |bs|
  {
    ReadBurstOk(bs, t, p);
    InitialGood(p);
  }

  /** One turn of the loop of read. */
  lemma ReadAllNext(bs: seq<byte>, t: Settings, p: nat, b: Step)
    requires GoodSettings(t) && p < |bs|
    requires b == DataStep(Some(bs), t, Initial(p), p)
    ensures GoodSettings(b.settings)
    ensures b.status.Raised? ==> ReadAll(bs, t, p) == Reading(b.settings, [], b.status, b.pos)
    ensures b.status == Ok ==> p < b.pos <= |bs| && Loaded(b.state)
    ensures b.status == Ok ==> ReadAll(bs, t, p) == Prepend([b.state], ReadAll(bs, b.settings, b.pos))
  {
    assert ReadAll(bs, t, p) == ReadBurstAt(bs, t, p) == ReadFrom(bs, t, Initial(p), p);
    if b.status == Ok {
      ReadBurstLoaded(bs, t, p);
    }
  }

  /** Prepending twice is prepending the two runs of bursts. */
  lemma PrependNothing(r: Reading)
    ensures Prepend([], r) == r
  {
    assert [] + r.bursts == r.bursts;
  }

  lemma PrependTwice(acc: seq<State>, x: State, r: Reading)
    ensures Prepend(acc, Prepend([x], r)) == Prepend(acc + [x], r)
  {
    AppendAssoc(acc, [x], r.bursts);
  }

  /** What a successful read_data guarantees about the burst it read from
      bs: the header scanned from its start and closed by an end-of-header
      line, the payload right after it and inside the input, its elements
      the decoding of the bytes there. */
  predicate BurstIn(bs: seq<byte>, s: State) {
    var sc := ScanHeader(bs, s.headerStart);
    && s.headerLines == sc.lines && s.dataStart == sc.dataStart && ClosedHeader(s.headerLines)
    && NonNegative(s.shape) && s.headerStart < s.dataStart <= DataEnd(s) <= |bs|
    && s.data == Some(NdArray(s.dtype, s.shape, Decode(bs[s.dataStart..DataEnd(s)], ItemSize(s.dtype))))
  }

  /** The bursts lie back to back from offset p on: each is a burst of the
      input starting where the payload of the one before ended. */
  predicate Chained(bs: seq<byte>, ss: seq<State>, p: nat)
    decreases |ss|
  {
    ss != [] ==> BurstIn(bs, ss[0]) && ss[0].headerStart == p && Chained(bs, ss[1..], DataEnd(ss[0]) as nat)
  }

  /** The offset past the last burst of a chain starting at p. */
  function ChainEnd(ss: seq<State>, p: nat): int {
    if ss == [] then p else DataEnd(ss[|ss| - 1])
  }

  /** read finds bursts lying back to back from the start position; when
      it ends without error the stream has reached the end of the input,
      right after the last burst (or where it started, when it started at
      the end). */
  lemma {:induction false} ReadAllChains(bs: seq<byte>, t: Settings, p: nat)
    requires GoodSettings(t)
    ensures var r := ReadAll(bs, t, p);
            && Chained(bs, r.bursts, p)
            && (r.status == Ok ==> r.pos >= |bs| && r.pos == ChainEnd(r.bursts, p))
    decreases |bs| - p
  {
    if p < |bs| {
      var b := DataStep(Some(bs), t, Initial(p), p);
      ReadAllNext(bs, t, p, b);
      if b.status == Ok {
        ReadAllChains(bs, b.settings, b.pos);
        ReadBurstOk(bs, t, p);
        assert BurstIn(bs, b.state);
        ChainsStep(bs, b.state, p, b.pos, ReadAll(bs, b.settings, b.pos));
      }
    }
  }

  /** A burst of the input at p, ending at q, heads the chain the rest of
      the reading found from q. */
  lemma ChainsStep(bs: seq<byte>, x: State, p: nat, q: nat, rest: Reading)
    requires BurstIn(bs, x) && x.headerStart == p && DataEnd(x) == q
    requires Chained(bs, rest.bursts, q)
    requires rest.status == Ok ==> rest.pos >= |bs| && rest.pos == ChainEnd(rest.bursts, q)
    ensures var r := Prepend([x], rest);
            && Chained(bs, r.bursts, p)
            && (r.status == Ok ==> r.pos >= |bs| && r.pos == ChainEnd(r.bursts, p))
  {
    var ss := [x] + rest.bursts;
    assert ss[1..] == rest.bursts;
    if rest.bursts != [] {
      assert ss[|ss| - 1] == rest.bursts[|rest.bursts| - 1];
    }
  }

  // ---- writing ----

  /** A burst whose header and payload were read: what write_header and
      write_data write without reading anything. */
  predicate Loaded(s: State) {
    Good(s) && s.dataStart != -1 && s.data.Some?
  }

  /** A burst holding a payload that fills its dimensions, which is all the
      writers need of it. */
  predicate HasPayload(s: State) {
    s.data.Some? && Fits(s.data.value)
  }

  /** Every state of a list has a payload the writers can use. */
  predicate Payloads(ss: seq<State>)
    decreases |ss|
  {
    ss != [] ==> Payloads(ss[..|ss| - 1]) && HasPayload(ss[|ss| - 1])
  }

  lemma {:induction false} PayloadsOf(ss: seq<State>)
    requires forall i :: 0 <= i < |ss| ==> HasPayload(ss[i])
    ensures Payloads(ss)
    decreases |ss|
  {
    if ss != [] {
      var init := ss[..|ss| - 1];
      assert forall i :: 0 <= i < |init| ==> init[i] == ss[i];
      PayloadsOf(init);
    }
  }

  lemma {:induction false} PayloadsTake(ss: seq<State>, k: nat)
    requires Payloads(ss) && k <= |ss|
    ensures Payloads(ss[..k])
    decreases |ss|
  {
    if k < |ss| {
      var init := ss[..|ss| - 1];
      PayloadsTake(init, k);
      assert init[..k] == ss[..k];
    } else {
      TakeAll(ss);
    }
  }

  /** The elements at the given positions, in that order. */
  function Choose<T>(xs: seq<T>, idx: seq<int>): (r: seq<T>)
    requires Within(idx, |xs|)
    ensures |r| == |idx| && forall k :: 0 <= k < |idx| ==> r[k] == xs[idx[k]]
  {
    seq(|idx|, k requires 0 <= k < |idx| => xs[idx[k]])
  }

  /** The bytes write_header then write_data emit for a loaded burst, and
      how it ended: the header lines, then unless they raised, the chosen
      part of the payload. */
  function BurstOut(s: State, t: Settings, sub: Option<Range>, samp: Option<Range>): (seq<byte>, Status)
    requires GoodSettings(t) && HasPayload(s)
  {
    var (h, st) := HeaderOut(s.headerLines, t, sub, samp);
    if st.Raised? then (h, st)
    else
      match DataOut(s.data.value, sub, samp)
      case Success(d) => (h + d, Ok)
      case Failure(e) => (h, Raised(e))
  }

  /** The bytes to_apres_dat emits for loaded bursts, one after the other;
      the first burst that raises ends the output after what it wrote. */
  function FileOut(ss: seq<State>, t: Settings, sub: Option<Range>, samp: Option<Range>): (r: (seq<byte>, Status))
    requires GoodSettings(t) && Payloads(ss)
  {
    if ss == [] then ([], Ok)
    else
      var n := |ss| - 1;
      var (pre, st) := FileOut(ss[..n], t, sub, samp);
      if st.Raised? then (pre, st)
      else
        var (b, st2) := BurstOut(ss[n], t, sub, samp);
        (pre + b, st2)
  }

  /** The bursts to_apres_dat writes: those the range selects, or all. */
  function Selected(ss: seq<State>, sel: Option<Range>): (r: seq<State>)
    ensures AllLoaded(ss) ==> Payloads(r)
  {
    var idx := Chosen(sel, |ss|);
    ChoosePayloads(ss, idx);
    Choose(ss, idx)
  }

  /** The next burst either adds its output or ends the file output. */
  lemma FileOutNext(ss: seq<State>, t: Settings, sub: Option<Range>, samp: Option<Range>, k: nat)
    requires GoodSettings(t) && k < |ss| && Payloads(ss[..k]) && Payloads(ss[..k + 1]) && HasPayload(ss[k])
    requires FileOut(ss[..k], t, sub, samp).1 == Ok
    ensures FileOut(ss[..k + 1], t, sub, samp) ==
              (FileOut(ss[..k], t, sub, samp).0 + BurstOut(ss[k], t, sub, samp).0, BurstOut(ss[k], t, sub, samp).1)
  {
    TakeTake(ss, k);
  }

  /** After a burst that raised, the next one writes nothing. */
  lemma FileOutHalts(ss: seq<State>, t: Settings, sub: Option<Range>, samp: Option<Range>)
    requires GoodSettings(t) && ss != [] && Payloads(ss)
    requires FileOut(ss[..|ss| - 1], t, sub, samp).1.Raised?
    ensures FileOut(ss, t, sub, samp) == FileOut(ss[..|ss| - 1], t, sub, samp)
  {
  }

  /** The output so far holds the file output of the first k states. */
  predicate Wrote(ss: seq<State>, k: nat, t: Settings, sub: Option<Range>, samp: Option<Range>, w0: seq<byte>, w: seq<byte>, st: Status) {
    && GoodSettings(t) && k <= |ss| && Payloads(ss[..k])
    && w == w0 + FileOut(ss[..k], t, sub, samp).0 && st == FileOut(ss[..k], t, sub, samp).1
  }

  /** Nothing is written before the loop starts. */
  lemma WroteNothing(ss: seq<State>, t: Settings, sub: Option<Range>, samp: Option<Range>, w0: seq<byte>)
    requires GoodSettings(t) && Payloads(ss)
    ensures Wrote(ss, 0, t, sub, samp, w0, w0, Ok)
  {
    PayloadsTake(ss, 0);
    assert ss[..0] == [];
  }

  /** When the loop stops, because every state was written or one raised,
      the output so far is the file output of all the states. */
  lemma WroteAll(ss: seq<State>, k: nat, t: Settings, sub: Option<Range>, samp: Option<Range>, w0: seq<byte>, w: seq<byte>, st: Status)
    requires Payloads(ss) && Wrote(ss, k, t, sub, samp, w0, w, st) && (k == |ss| || st.Raised?)
    ensures w == w0 + FileOut(ss, t, sub, samp).0 && st == FileOut(ss, t, sub, samp).1
  {
    if st.Raised? {
      FileOutStops(ss, t, sub, samp, k);
    } else {
      TakeAll(ss);
    }
  }

  /** Once a burst raises, nothing more is written. */
  lemma {:induction false} FileOutStops(ss: seq<State>, t: Settings, sub: Option<Range>, samp: Option<Range>, j: nat)
    requires GoodSettings(t) && Payloads(ss) && j <= |ss| && Payloads(ss[..j])
    requires FileOut(ss[..j], t, sub, samp).1.Raised?
    ensures FileOut(ss, t, sub, samp) == FileOut(ss[..j], t, sub, samp)
    decreases |ss|
  {
    if j < |ss| {
      var init := ss[..|ss| - 1];
      assert init[..j] == ss[..j];
      FileOutStops(init, t, sub, samp, j);
      FileOutHalts(ss, t, sub, samp);
    } else {
      TakeAll(ss);
    }
  }

  /** The states of a list of bursts. */
  function StatesOf(bursts: seq<Burst>): (r: seq<State>)
    reads bursts
    ensures |r| == |bursts| && forall i :: 0 <= i < |bursts| ==> r[i] == bursts[i].State()
  {
    seq(|bursts|, i requires 0 <= i < |bursts| reads bursts => bursts[i].State())
  }

  lemma StatesOfSnoc(bursts: seq<Burst>, b: Burst)
    ensures StatesOf(bursts + [b]) == StatesOf(bursts) + [b.State()]
  {
    assert StatesOf(bursts + [b])[..|bursts|] == StatesOf(bursts);
  }

  lemma AddedAfter<T>(before: seq<T>, added: seq<T>)
    ensures (before + added)[..|before|] == before && (before + added)[|before|..] == added
  {
  }

  /** Every state of the list holds a header and a payload read whole. */
  predicate AllLoaded(ss: seq<State>)
    decreases |ss|
  {
    ss != [] ==> AllLoaded(ss[..|ss| - 1]) && Loaded(ss[|ss| - 1])
  }

  lemma LoadedSnoc(ss: seq<State>, x: State)
    requires AllLoaded(ss) && Loaded(x)
    ensures AllLoaded(ss + [x])
  {
    assert (ss + [x])[..|ss|] == ss;
  }

  lemma {:induction false} LoadedAt(ss: seq<State>, i: nat)
    requires AllLoaded(ss) && i < |ss|
    ensures Loaded(ss[i])
    decreases |ss|
  {
    if i < |ss| - 1 {
      var init := ss[..|ss| - 1];
      LoadedAt(init, i);
      assert init[i] == ss[i];
    }
  }

  /** Any choice among loaded states has payloads. */
  lemma ChoosePayloads(ss: seq<State>, idx: seq<int>)
    requires Within(idx, |ss|)
    ensures AllLoaded(ss) ==> Payloads(Choose(ss, idx))
  {
    LoadedPayloads(ss);
    if AllLoaded(ss) {
      PayloadsOf(Choose(ss, idx));
    }
  }

  /** Loaded states carry payloads the writers can select from. */
  lemma LoadedPayloads(ss: seq<State>)
    ensures AllLoaded(ss) ==> forall i :: 0 <= i < |ss| ==> HasPayload(ss[i])
  {
    if AllLoaded(ss) {
      forall i | 0 <= i < |ss|
        ensures HasPayload(ss[i])
      {
        LoadedAt(ss, i);
      }
    }
  }

  /** ApRESFile: the bursts read so far from an opened input. */
  class ApresFile {
    const defaults: Defaults
    const stream: Stream
    var bursts: seq<Burst>

    /** A file whose input is open at fp, no burst read yet. */
    constructor (d: Defaults, fp: Stream)
      ensures defaults == d && stream == fp && bursts == []
    {
      defaults := d;
      stream := fp;
      bursts := [];
    }

    /** eof: the position has reached the size of the input. */
    predicate Eof()
      reads stream
    {
      stream.pos >= |stream.bytes|
    }

    /** Every burst of the list reads this file's stream with the shared
        settings and is loaded. */
    predicate Valid()
      reads this, bursts
    {
      Shared() && AllLoaded(StatesOf(bursts))
    }

    /** Every burst shares the settings and the stream of the file. */
    predicate Shared()
      reads this
    {
      forall i :: 0 <= i < |bursts| ==> bursts[i].defaults == defaults && bursts[i].stream == stream
    }

    /** read_burst: a new burst at the stream's position, read_data on it. */
    method ReadBurst() returns (b: Burst, st: Status)
      requires defaults.Valid()
      modifies stream, defaults`dialect
      ensures fresh(b) && b.defaults == defaults && b.stream == stream && defaults.Valid()
      ensures Step(defaults.Value(), b.State(), stream.pos, st) ==
                DataStep(Some(stream.bytes), old(defaults.Value()), Initial(old(stream.pos)), old(stream.pos))
    {
      b := new Burst(defaults, stream);
      st := b.ReadData();
    }

    /** read_burst stated on the whole-file reading: a burst that raises is
        where the reading ends; one that succeeds is loaded and heads what
        the rest of the input reads as. */
    method ReadStep() returns (b: Burst, st: Status)
      requires defaults.Valid() && stream.pos < |stream.bytes|
      modifies stream, defaults`dialect
      ensures fresh(b) && b.defaults == defaults && b.stream == stream && defaults.Valid()
      ensures var r := ReadAll(stream.bytes, old(defaults.Value()), old(stream.pos));
              && (st.Raised? ==> r == Reading(defaults.Value(), [], st, stream.pos))
              && (!st.Raised? ==>
                    && old(stream.pos) < stream.pos && Loaded(b.State())
                    && r == Prepend([b.State()], ReadAll(stream.bytes, defaults.Value(), stream.pos)))
    {
      ghost var t, p := defaults.Value(), stream.pos;
      b, st := ReadBurst();
      ReadAllNext(stream.bytes, t, p, Step(defaults.Value(), b.State(), stream.pos, st));
    }

    /** bursts.append(b) */
    method Append(b: Burst)
      requires Valid() && b.defaults == defaults && b.stream == stream && Loaded(b.State())
      modifies this`bursts
      ensures Valid() && bursts == old(bursts) + [b]
    {
      StatesOfSnoc(bursts, b);
      LoadedSnoc(StatesOf(bursts), b.State());
      bursts := bursts + [b];
    }

    /** One round of read's loop: a burst that raises is not appended; one
        that succeeds is, and is new. Bursts read before keep their state. */
    method ReadNext(ghost before: seq<Burst>) returns (b: Burst, st: Status)
      requires defaults.Valid() && Valid() && stream.pos < |stream.bytes|
      modifies this`bursts, stream, defaults`dialect
      ensures defaults.Valid() && Valid() && StatesOf(before) == old(StatesOf(before))
      ensures var r := ReadAll(stream.bytes, old(defaults.Value()), old(stream.pos));
              && (st.Raised? ==> bursts == old(bursts) && r == Reading(defaults.Value(), [], st, stream.pos))
              && (!st.Raised? ==>
                    && bursts == old(bursts) + [b] && fresh(b) && old(stream.pos) < stream.pos
                    && r == Prepend([b.State()], ReadAll(stream.bytes, defaults.Value(), stream.pos)))
    {
      b, st := ReadStep();
      if !st.Raised? {
        Append(b);
      }
    }

    /** read: bursts are read and appended until the end of the input; a
        burst that raises ends it and is not appended. */
    method Read() returns (st: Status)
      requires defaults.Valid() && Valid()
      modifies this`bursts, stream, defaults`dialect
      ensures defaults.Valid() && Valid()
      ensures var r := ReadAll(stream.bytes, old(defaults.Value()), old(stream.pos));
              && defaults.Value() == r.settings && stream.pos == r.pos && st == r.status
              && |old(bursts)| <= |bursts| && bursts[..|old(bursts)|] == old(bursts)
              && StatesOf(bursts[|old(bursts)|..]) == r.bursts
      ensures forall b :: b in bursts && b !in old(bursts) ==> fresh(b)
    {
      ghost var bs, t0, p0 := stream.bytes, defaults.Value(), stream.pos;
      ghost var acc: seq<State> := [];
      ghost var added: seq<Burst> := [];
      ghost var whole := ReadAll(bs, t0, p0);
      ghost var rest := whole;
      PrependNothing(whole);
      AppendEmpty(bursts);
      st := Ok;
      while !st.Raised? && !Eof()
        invariant defaults.Valid() && Valid()
        invariant Prepend(acc, rest) == whole
        invariant !st.Raised? ==> rest == ReadAll(bs, defaults.Value(), stream.pos)
        invariant st.Raised? ==> rest == Reading(defaults.Value(), [], st, stream.pos)
        invariant bursts == old(bursts) + added
        invariant StatesOf(added) == acc
        invariant forall b :: b in bursts && b !in old(bursts) ==> fresh(b)
        decreases if st.Raised? then 0 else 1, |bs| - stream.pos
      {
        var b;
        b, st := ReadNext(added);
        if !st.Raised? {
          rest := ReadAll(bs, defaults.Value(), stream.pos);
          PrependTwice(acc, b.State(), rest);
          StatesOfSnoc(added, b);
          AppendAssoc(old(bursts), added, [b]);
          acc := acc + [b.State()];
          added := added + [b];
        }
      }
      AppendEmpty(acc);
      AddedAfter(old(bursts), added);
    }

    /** write_header on a loaded burst: its lines are written, nothing is
        read. */
    method WriteHeaderOf(b: Burst, out: Sink, sub: Option<Range>, samp: Option<Range>) returns (st: Status)
      requires defaults.Valid() && b.defaults == defaults && b.stream == stream && Loaded(b.State())
      modifies b, stream, defaults`dialect, out
      ensures defaults.Valid() && defaults.Value() == old(defaults.Value()) && stream.pos == old(stream.pos)
      ensures b.State() == old(b.State())
      ensures var w := HeaderOut(old(b.State()).headerLines, old(defaults.Value()), sub, samp);
              out.bytes == old(out.bytes) + w.0 && st == w.1
    {
      WriteHeaderLazy(b.Input(), defaults.Value(), b.State(), b.Pos(), sub, samp);
      st := b.WriteHeader(out, sub, samp);
    }

    /** write_data on a loaded burst: the chosen part of its payload is
        written, nothing is read. */
    method WriteDataOf(b: Burst, out: Sink, sub: Option<Range>, samp: Option<Range>) returns (st: Status)
      requires defaults.Valid() && b.defaults == defaults && b.stream == stream && Loaded(b.State())
      modifies b, stream, defaults`dialect, out
      ensures defaults.Valid() && defaults.Value() == old(defaults.Value()) && stream.pos == old(stream.pos)
      ensures b.State() == old(b.State())
      ensures match DataOut(old(b.State()).data.value, sub, samp)
              case Success(d) => out.bytes == old(out.bytes) + d && st == Ok
              case Failure(e) => out.bytes == old(out.bytes) && st == Raised(e)
    {
      WriteDataLazy(b.Input(), defaults.Value(), b.State(), b.Pos(), sub, samp);
      st := b.WriteData(out, sub, samp);
    }

    /** One round of to_apres_dat's loop: write_header then, unless it
        raised, write_data on a loaded burst. Nothing is read, so the burst
        does not change; the output grows by what the burst emits. */
    method WriteBurst(b: Burst, out: Sink, sub: Option<Range>, samp: Option<Range>) returns (st: Status)
      requires defaults.Valid() && b.defaults == defaults && b.stream == stream && Loaded(b.State())
      modifies b, stream, defaults`dialect, out
      ensures defaults.Valid() && defaults.Value() == old(defaults.Value()) && stream.pos == old(stream.pos)
      ensures b.State() == old(b.State())
      ensures var w := BurstOut(old(b.State()), old(defaults.Value()), sub, samp);
              out.bytes == old(out.bytes) + w.0 && st == w.1
    {
      ghost var w0 := out.bytes;
      st := WriteHeaderOf(b, out, sub, samp);
      if !st.Raised? {
        ghost var w1 := out.bytes;
        st := WriteDataOf(b, out, sub, samp);
        if !st.Raised? {
          AppendAssoc(w0, w1[|w0|..], out.bytes[|w1|..]);
        }
      }
    }

    /** WriteBurst on one burst of a list leaves the states of the whole list
        as they were. */
    method WriteListed(b: Burst, ghost all: seq<Burst>, out: Sink, sub: Option<Range>, samp: Option<Range>) returns (st: Status)
      requires defaults.Valid() && b.defaults == defaults && b.stream == stream && Loaded(b.State())
      modifies b, stream, defaults`dialect, out
      ensures defaults.Valid() && defaults.Value() == old(defaults.Value()) && stream.pos == old(stream.pos)
      ensures StatesOf(all) == old(StatesOf(all))
      ensures var w := BurstOut(old(b.State()), old(defaults.Value()), sub, samp);
              out.bytes == old(out.bytes) + w.0 && st == w.1
    {
      st := WriteBurst(b, out, sub, samp);
    }

    /** The k-th round of to_apres_dat's loop, on the burst at position i:
        the output so far, the file output of the first k chosen states,
        grows to that of the first k + 1. */
    method WriteChosen(i: int, ghost s0: seq<State>, ghost ss: seq<State>, k: nat, ghost w0: seq<byte>, out: Sink, sub: Option<Range>, samp: Option<Range>)
      returns (st: Status)
      requires defaults.Valid() && Shared() && StatesOf(bursts) == s0 && AllLoaded(s0) && 0 <= i < |s0|
      requires k < |ss| && ss[k] == s0[i]
      requires Payloads(ss) && Wrote(ss, k, defaults.Value(), sub, samp, w0, out.bytes, Ok)
      modifies bursts, stream, defaults`dialect, out
      ensures defaults.Valid() && defaults.Value() == old(defaults.Value()) && stream.pos == old(stream.pos)
      ensures StatesOf(bursts) == s0
      ensures Wrote(ss, k + 1, defaults.Value(), sub, samp, w0, out.bytes, st)
    {
      ghost var t := defaults.Value();
      var b := bursts[i];
      LoadedAt(s0, i);
      PayloadsTake(ss, k + 1);
      FileOutNext(ss, t, sub, samp, k);
      AppendAssoc(w0, FileOut(ss[..k], t, sub, samp).0, BurstOut(ss[k], t, sub, samp).0);
      st := WriteListed(b, bursts, out, sub, samp);
    }

    /** The loop of to_apres_dat over the chosen positions of the list:
        the output grows by the file output of their states, and no burst,
        no setting and no stream position changes. */
    method WriteLoop(idx: seq<int>, ghost s0: seq<State>, ghost ss: seq<State>, out: Sink, sub: Option<Range>, samp: Option<Range>)
      returns (st: Status)
      requires defaults.Valid() && Shared() && StatesOf(bursts) == s0 && AllLoaded(s0) && Within(idx, |s0|)
      requires |ss| == |idx| && Payloads(ss) && forall k :: 0 <= k < |idx| ==> ss[k] == s0[idx[k]]
      modifies bursts, stream, defaults`dialect, out
      ensures defaults.Valid() && StatesOf(bursts) == s0
      ensures defaults.Value() == old(defaults.Value()) && stream.pos == old(stream.pos)
      ensures var w := FileOut(ss, old(defaults.Value()), sub, samp);
              out.bytes == old(out.bytes) + w.0 && st == w.1
    {
      ghost var t0, w0 := defaults.Value(), out.bytes;
      var k := 0;
      st := Ok;
      WroteNothing(ss, t0, sub, samp, w0);
      while k < |idx| && !st.Raised?
        invariant 0 <= k <= |idx|
        invariant defaults.Valid() && Shared() && defaults.Value() == t0 && stream.pos == old(stream.pos)
        invariant StatesOf(bursts) == s0
        invariant Wrote(ss, k, t0, sub, samp, w0, out.bytes, st)
        decreases |idx| - k
      {
        st := WriteChosen(idx[k], s0, ss, k, w0, out, sub, samp);
        k := k + 1;
      }
      WroteAll(ss, k, t0, sub, samp, w0, out.bytes, st);
    }

    /** to_apres_dat's loop over the bursts the range selects, or all. */
    method WriteBursts(out: Sink, sel: Option<Range>, sub: Option<Range>, samp: Option<Range>) returns (st: Status)
      requires defaults.Valid() && Valid()
      modifies bursts, stream, defaults`dialect, out
      ensures defaults.Valid() && Valid() && StatesOf(bursts) == old(StatesOf(bursts))
      ensures defaults.Value() == old(defaults.Value()) && stream.pos == old(stream.pos)
      ensures var w := FileOut(Selected(old(StatesOf(bursts)), sel), old(defaults.Value()), sub, samp);
              out.bytes == old(out.bytes) + w.0 && st == w.1
    {
      ghost var s0 := StatesOf(bursts);
      var idx := Chosen(sel, |bursts|);
      ghost var ss := Selected(s0, sel);
      st := WriteLoop(idx, s0, ss, out, sub, samp);
    }

    /** to_apres_dat: when no burst was read yet, the whole input is read
        first, and an error there ends it before any output exists;
        otherwise (or then) a new output receives header and payload of
        each selected burst in turn, up to the first that raises. */
    method ToApresDat(sel: Option<Range>, sub: Option<Range>, samp: Option<Range>) returns (st: Status, out: Sink)
      requires defaults.Valid() && Valid()
      modifies this`bursts, bursts, stream, defaults`dialect
      ensures fresh(out) && defaults.Valid() && Valid()
      ensures old(bursts) != [] ==>
                && bursts == old(bursts) && StatesOf(bursts) == old(StatesOf(bursts))
                && defaults.Value() == old(defaults.Value()) && stream.pos == old(stream.pos)
                && var w := FileOut(Selected(StatesOf(bursts), sel), defaults.Value(), sub, samp);
                   out.bytes == w.0 && st == w.1
      ensures old(bursts) == [] ==>
                var r := ReadAll(stream.bytes, old(defaults.Value()), old(stream.pos));
                && StatesOf(bursts) == r.bursts && defaults.Value() == r.settings && stream.pos == r.pos
                && (r.status.Raised? ==> st == r.status && out.bytes == [])
                && (!r.status.Raised? ==>
                      var w := FileOut(Selected(r.bursts, sel), r.settings, sub, samp);
                      out.bytes == w.0 && st == w.1)
    {
      if bursts == [] {
        st, out := ReadWriteAll(sel, sub, samp);
      } else {
        st, out := WriteAll(sel, sub, samp);
      }
    }

    /** to_apres_dat on a file with no burst read yet: the whole input is
        read, then written unless reading raised. */
    method ReadWriteAll(sel: Option<Range>, sub: Option<Range>, samp: Option<Range>) returns (st: Status, out: Sink)
      requires defaults.Valid() && Valid() && bursts == []
      modifies this`bursts, stream, defaults`dialect
      ensures fresh(out) && defaults.Valid() && Valid()
      ensures var r := ReadAll(stream.bytes, old(defaults.Value()), old(stream.pos));
              && StatesOf(bursts) == r.bursts && defaults.Value() == r.settings && stream.pos == r.pos
              && (r.status.Raised? ==> st == r.status && out.bytes == [])
              && (!r.status.Raised? ==>
                    var w := FileOut(Selected(r.bursts, sel), r.settings, sub, samp);
                    out.bytes == w.0 && st == w.1)
    {
      st := Read();
      if st.Raised? {
        out := new Sink();
      } else {
        st, out := WriteAll(sel, sub, samp);
      }
    }

    /** The writing half of to_apres_dat: a new output receives the file
        output of the selected bursts; nothing the file holds changes. */
    method WriteAll(sel: Option<Range>, sub: Option<Range>, samp: Option<Range>) returns (st: Status, out: Sink)
      requires defaults.Valid() && Valid()
      modifies (set b | b in bursts), stream, defaults`dialect
      ensures fresh(out) && defaults.Valid() && Valid()
      ensures StatesOf(bursts) == old(StatesOf(bursts))
      ensures defaults.Value() == old(defaults.Value()) && stream.pos == old(stream.pos)
      ensures var w := FileOut(Selected(StatesOf(bursts), sel), defaults.Value(), sub, samp);
              out.bytes == w.0 && st == w.1
    {
      out := new Sink();
      st := WriteBursts(out, sel, sub, samp);
    }
  }
}
