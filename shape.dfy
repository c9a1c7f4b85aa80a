/** From the stored header to the payload's layout: the dimension keys and
    lengths (define_data_shape, both generations of the reader) and the
    element type (define_data_type). */
module ShapeResolver {
  import opened Base
  import opened Text
  import opened OrderedDict

  /** The header item whose value selects the element type and flags
      averaged sub-bursts. */
  const DataTypeKey: string := "Average"

  /** Header items that, when present, may add a dimension. */
  const OptionalKeys: seq<string> := ["nAttenuators"]

  /** The element types of the payload: little-endian unsigned 16-bit,
      32-bit float, little-endian unsigned 32-bit. */
  datatype ElementType = U2 | F4 | U4

  /** numpy's itemsize of each element type, in bytes. */
  function ItemSize(t: ElementType): nat {
    match t
    case U2 => 2
    case F4 => 4
    case U4 => 4
  }

  /** The element type table, indexed by the Average header item. */
  const DataTypes: seq<ElementType> := [U2, F4, U4]

  /** How optional dimensions are folded into the shape. */
  datatype Flatten = Always | Unity | Never

  /** flatten.lower() looked up among 'always', 'unity', 'never'. */
  function ParseFlatten(s: string): Option<Flatten> {
    var l := AsciiLower(s);
    if l == "always" then Some(Always)
    else if l == "unity" then Some(Unity)
    else if l == "never" then Some(Never)
    else None
  }

  /** int(header[key]): KeyError when absent, ValueError when not an integer. */
  function HeaderInt(h: Dict, key: string): Result<int> {
    if key !in h.values then Failure(MissingKey(key))
    else match ParseInt(h.values[key])
      case None => Failure(NotAnInteger(key, h.values[key]))
      case Some(n) => Success(n)
  }

  /** The integer reader define_data_shape applies to header items. */
  type Reader = string -> Result<int>

  /** int(header[key]) as a reader. */
  function HeaderReader(h: Dict): Reader {
    key => HeaderInt(h, key)
  }

  /** The keys recorded and the lengths read by the loop over the required
      dimension keys: each key is recorded before its value is read, and the
      first failure stops the loop. */
  function RequiredDims(read: Reader, ks: seq<string>): (r: (seq<string>, Result<seq<int>>))
    ensures r.1.Success? ==> r.0 == ks && |r.1.value| == |ks|
    ensures r.1.Failure? ==> 0 < |r.0| <= |ks| && r.0 == ks[..|r.0|]
  {
    if ks == [] then ([], Success([]))
    else
      var n := |ks| - 1;
      var (keys, prev) := RequiredDims(read, ks[..n]);
      if prev.Failure? then
        assert ks[..n][..|keys|] == ks[..|keys|];
        (keys, prev)
      else
        match read(ks[n])
        case Failure(e) => (keys + [ks[n]], Failure(e))
        case Success(v) => (keys + [ks[n]], Success(prev.value + [v]))
  }

  /** Once a required key fails, the later keys are never read. */
  lemma {:induction false} RequiredDimsStops(read: Reader, ks: seq<string>, j: nat)
    requires j <= |ks| && RequiredDims(read, ks[..j]).1.Failure?
    ensures RequiredDims(read, ks) == RequiredDims(read, ks[..j])
  {
    if j < |ks| {
      var n := |ks| - 1;
      assert ks[..n][..j] == ks[..j];
      RequiredDimsStops(read, ks[..n], j);
    } else {
      assert ks[..j] == ks;
    }
  }

  /** The lengths read are the integers read for the keys when every
      required key reads; otherwise the error is that of the first key that
      does not, and the keys recorded end with it. */
  lemma {:induction false} RequiredDimsMeaning(read: Reader, ks: seq<string>)
    ensures var r := RequiredDims(read, ks);
            (r.1.Success? <==> forall i :: 0 <= i < |ks| ==> read(ks[i]).Success?)
            && (r.1.Success? ==> forall i :: 0 <= i < |ks| ==> read(ks[i]) == Success(r.1.value[i]))
            && (r.1.Failure? ==> read(ks[|r.0| - 1]) == Failure(r.1.error)
                                 && forall i :: 0 <= i < |r.0| - 1 ==> read(ks[i]).Success?)
  {
    if ks != [] {
      var n := |ks| - 1;
      RequiredDimsMeaning(read, ks[..n]);
      var (keys, prev) := RequiredDims(read, ks[..n]);
      assert forall i :: 0 <= i < n ==> ks[..n][i] == ks[i];
      if prev.Failure? {
        assert RequiredDims(read, ks) == (keys, prev);
      } else {
        match read(ks[n])
        case Failure(e) =>
          assert RequiredDims(read, ks) == (keys + [ks[n]], Failure(e));
        case Success(v) =>
          assert RequiredDims(read, ks) == (keys + [ks[n]], Success(prev.value + [v]));
      }
    }
  }

  /** Insert x at index 1 (list.insert(1, x)). */
  function InsertAt1<T>(s: seq<T>, x: T): (r: seq<T>)
    requires |s| >= 1
    ensures |r| == |s| + 1 && r[0] == s[0] && r[1] == x && r[2..] == s[1..]
  {
    s[..1] + [x] + s[1..]
  }

  /** One optional key: absent or not an integer, nothing changes; otherwise
      the policy folds its length into the second dimension or inserts it as
      a new dimension at index 1. */
  function OptionalStep(read: Reader, keys: seq<string>, dims: seq<int>, key: string, policy: Flatten): (r: (seq<string>, seq<int>))
    requires |keys| == |dims| >= 2
    ensures |r.0| == |r.1| >= |keys|
  {
    match read(key)
    case Failure(_) => (keys, dims)
    case Success(m) =>
      match policy
      case Always => (keys, dims[1 := dims[1] * m])
      case Unity => if m > 1 then (InsertAt1(keys, key), InsertAt1(dims, m)) else (keys, dims)
      case Never => (InsertAt1(keys, key), InsertAt1(dims, m))
  }

  /** The loop over the optional keys, in order. */
  function ApplyOptional(read: Reader, keys: seq<string>, dims: seq<int>, opts: seq<string>, policy: Flatten): (r: (seq<string>, seq<int>))
    requires |keys| == |dims| >= 2
    ensures |r.0| == |r.1| >= |keys|
  {
    if opts == [] then (keys, dims)
    else
      var n := |opts| - 1;
      var (k, d) := ApplyOptional(read, keys, dims, opts[..n], policy);
      OptionalStep(read, k, d, opts[n], policy)
  }

  /** The dimension keys, the shape and how define_data_shape ended. */
  datatype ShapeOutcome = ShapeOutcome(keys: seq<string>, dims: seq<int>, status: Status)

  /** define_data_shape of the current package. The flatten policy is
      checked before any header item is read; on any failure the shape is
      left empty while the keys recorded so far stay. */
  function DefineShape(read: Reader, dimKeys: seq<string>, flatten: string): (r: ShapeOutcome)
    requires |dimKeys| >= 2
    ensures ParseFlatten(flatten).None? ==> r == ShapeOutcome([], [], Raised(InvalidFlatten(flatten)))
    ensures r.status.Raised? ==> r.dims == [] && r.keys <= dimKeys
    ensures r.status == Ok ==> |r.keys| == |r.dims| >= |dimKeys|
  {
    match ParseFlatten(flatten)
    case None => ShapeOutcome([], [], Raised(InvalidFlatten(flatten)))
    case Some(policy) =>
      var (keys, req) := RequiredDims(read, dimKeys);
      if req.Failure? then ShapeOutcome(keys, [], Raised(req.error))
      else
        match read(DataTypeKey)
        case Failure(e) => ShapeOutcome(keys, [], Raised(e))
        case Success(avg) =>
          var dims := if avg > 0 then req.value[0 := 1] else req.value;
          var (k, d) := ApplyOptional(read, keys, dims, OptionalKeys, policy);
          ShapeOutcome(k, d, Ok)
  }

  /** define_data_shape ends on the first required key that does not read. */
  lemma DefineShapeRequiredFails(read: Reader, dimKeys: seq<string>, flatten: string, keys: seq<string>, e: Error)
    requires |dimKeys| >= 2 && ParseFlatten(flatten).Some?
    requires RequiredDims(read, dimKeys) == (keys, Failure(e))
    ensures DefineShape(read, dimKeys, flatten) == ShapeOutcome(keys, [], Raised(e))
  {
  }

  /** ... or on the Average item when it does not read. */
  lemma DefineShapeAverageFails(read: Reader, dimKeys: seq<string>, flatten: string, dims: seq<int>, e: Error)
    requires |dimKeys| >= 2 && ParseFlatten(flatten).Some?
    requires RequiredDims(read, dimKeys) == (dimKeys, Success(dims))
    requires read(DataTypeKey) == Failure(e)
    ensures DefineShape(read, dimKeys, flatten) == ShapeOutcome(dimKeys, [], Raised(e))
  {
  }

  /** ... and otherwise with the optional keys applied. */
  lemma DefineShapeDone(read: Reader, dimKeys: seq<string>, flatten: string, policy: Flatten, dims: seq<int>, avg: int, k: seq<string>, d: seq<int>)
    requires |dimKeys| >= 2 && ParseFlatten(flatten) == Some(policy)
    requires RequiredDims(read, dimKeys) == (dimKeys, Success(dims))
    requires read(DataTypeKey) == Success(avg)
    requires (k, d) == ApplyOptional(read, dimKeys, if avg > 0 then dims[0 := 1] else dims, OptionalKeys, policy)
    ensures DefineShape(read, dimKeys, flatten) == ShapeOutcome(k, d, Ok)
  {
  }

  /** define_data_shape succeeds exactly when the policy is known and every
      required dimension and the Average item read as integers. */
  lemma DefineShapeSucceeds(read: Reader, dimKeys: seq<string>, flatten: string)
    requires |dimKeys| >= 2
    ensures DefineShape(read, dimKeys, flatten).status == Ok <==>
            && ParseFlatten(flatten).Some?
            && (forall i :: 0 <= i < |dimKeys| ==> read(dimKeys[i]).Success?)
            && read(DataTypeKey).Success?
  {
    RequiredDimsMeaning(read, dimKeys);
  }

  /** A missing or malformed required dimension is the error raised, and the
      keys recorded stop at that dimension. */
  lemma DefineShapeFirstFailure(read: Reader, dimKeys: seq<string>, flatten: string, j: nat)
    requires |dimKeys| >= 2 && j < |dimKeys|
    requires ParseFlatten(flatten).Some?
    requires forall i :: 0 <= i < j ==> read(dimKeys[i]).Success?
    requires read(dimKeys[j]).Failure?
    ensures DefineShape(read, dimKeys, flatten)
            == ShapeOutcome(dimKeys[..j + 1], [], Raised(read(dimKeys[j]).error))
  {
    RequiredDimsMeaning(read, dimKeys);
    var (keys, req) := RequiredDims(read, dimKeys);
    assert req.Failure?;
    var m := |keys| - 1;
    assert !(m < j) && !(j < m);
  }

  /** The shape for a two-key dialect and the one optional key, policy by
      policy: a positive Average turns the first length into 1; the optional
      length multiplies the second length (always), becomes a middle
      dimension only when above one (unity), or always becomes one (never). */
  lemma DefineShapePolicies(read: Reader, dimKeys: seq<string>, flatten: string)
    requires |dimKeys| == 2
    requires ParseFlatten(flatten).Some?
    requires read(dimKeys[0]).Success? && read(dimKeys[1]).Success?
    requires read(DataTypeKey).Success?
    ensures var r := DefineShape(read, dimKeys, flatten);
            var n0 := read(dimKeys[0]).value;
            var n1 := read(dimKeys[1]).value;
            var d0 := if read(DataTypeKey).value > 0 then 1 else n0;
            var opt := OptionalKeys[0];
            r.status == Ok &&
            match read(opt)
            case Failure(_) => r.keys == dimKeys && r.dims == [d0, n1]
            case Success(m) =>
              match ParseFlatten(flatten).value
              case Always => r.keys == dimKeys && r.dims == [d0, n1 * m]
              case Unity =>
                if m > 1 then r.keys == [dimKeys[0], opt, dimKeys[1]] && r.dims == [d0, m, n1]
                else r.keys == dimKeys && r.dims == [d0, n1]
              case Never => r.keys == [dimKeys[0], opt, dimKeys[1]] && r.dims == [d0, m, n1]
  {
    RequiredDimsMeaning(read, dimKeys);
    var (keys, req) := RequiredDims(read, dimKeys);
    assert req.value == [read(dimKeys[0]).value, read(dimKeys[1]).value];
    var dims := if read(DataTypeKey).value > 0 then req.value[0 := 1] else req.value;
    ApplySingleOptional(read, dimKeys, dims, ParseFlatten(flatten).value);
  }

  /** The optional-key loop over the one optional key is one step. */
  lemma ApplySingleOptional(read: Reader, keys: seq<string>, dims: seq<int>, policy: Flatten)
    requires |keys| == |dims| >= 2
    ensures ApplyOptional(read, keys, dims, OptionalKeys, policy) == OptionalStep(read, keys, dims, OptionalKeys[0], policy)
  {
    assert OptionalKeys[..0] == [];
  }

  /** Python's index into a three-entry list: 0..2 from the front, -3..-1
      from the back; anything else is an IndexError. */
  function ListIndex(i: int, len: nat): (r: Option<nat>)
    ensures r.Some? <==> -(len as int) <= i < len
    ensures r.Some? ==> r.value < len && (r.value == i || r.value == i + len)
  {
    if 0 <= i < len then Some(i)
    else if -(len as int) <= i < 0 then Some(i + len)
    else None
  }

  /** define_data_type: the element type the Average item selects, with
      Python's negative list indexing; any other value is unsupported. */
  function DataTypeOf(read: Reader): (r: Result<ElementType>)
    ensures read(DataTypeKey).Failure? ==> r == Failure(read(DataTypeKey).error)
    ensures read(DataTypeKey).Success? ==>
              var a := read(DataTypeKey).value;
              if -3 <= a < 3 then r == Success(DataTypes[if a >= 0 then a else a + 3])
              else r == Failure(UnsupportedMode(a))
  {
    match read(DataTypeKey)
    case Failure(e) => Failure(e)
    case Success(a) =>
      match ListIndex(a, |DataTypes|)
      case None => Failure(UnsupportedMode(a))
      case Some(i) => Success(DataTypes[i])
  }

  /** define_data_shape of the older reader: one length per dimension key,
      no Average rule and no optional keys. The shape grows one length at a
      time, so on failure it holds the lengths read before the failing key. */
  function LegacyDims(read: Reader, ks: seq<string>): (r: (seq<int>, Status))
    ensures r.1 == Ok ==> |r.0| == |ks|
    ensures r.1.Raised? ==> |r.0| < |ks|
  {
    if ks == [] then ([], Ok)
    else
      var n := |ks| - 1;
      var (dims, st) := LegacyDims(read, ks[..n]);
      if st.Raised? then (dims, st)
      else
        match read(ks[n])
        case Failure(e) => (dims, Raised(e))
        case Success(v) => (dims + [v], Ok)
  }

  /** Each length in the older shape is the integer read for its key; on
      failure the error is that of the key after the lengths kept. */
  lemma {:induction false} LegacyDimsMeaning(read: Reader, ks: seq<string>)
    ensures var r := LegacyDims(read, ks);
            (r.1 == Ok <==> forall i :: 0 <= i < |ks| ==> read(ks[i]).Success?)
            && (forall i :: 0 <= i < |r.0| ==> read(ks[i]) == Success(r.0[i]))
            && (r.1.Raised? ==> read(ks[|r.0|]) == Failure(r.1.error))
  {
    if ks != [] {
      var n := |ks| - 1;
      LegacyDimsMeaning(read, ks[..n]);
      var (dims, st) := LegacyDims(read, ks[..n]);
      assert forall i :: 0 <= i < n ==> ks[..n][i] == ks[i];
      if st.Raised? {
        assert LegacyDims(read, ks) == (dims, st);
      } else {
        match read(ks[n])
        case Failure(e) =>
          assert LegacyDims(read, ks) == (dims, Raised(e));
        case Success(v) =>
          assert LegacyDims(read, ks) == (dims + [v], Ok);
      }
    }
  }

  /** The required-dimension loops of the two generations read the same
      lengths and fail on the same keys. */
  lemma {:induction false} RequiredMatchesLegacy(read: Reader, ks: seq<string>)
    ensures RequiredDims(read, ks).1.Success? <==> LegacyDims(read, ks).1 == Ok
    ensures RequiredDims(read, ks).1.Success? ==> RequiredDims(read, ks).1.value == LegacyDims(read, ks).0
  {
    if ks != [] {
      RequiredMatchesLegacy(read, ks[..|ks| - 1]);
    }
  }

  /** Where the two generations agree: with no averaging and no optional
      dimension in the header, the current shape is the older reader's. */
  lemma DefineShapeExtendsLegacy(read: Reader, dimKeys: seq<string>, flatten: string)
    requires |dimKeys| >= 2
    requires ParseFlatten(flatten).Some?
    requires read(DataTypeKey).Success? && read(DataTypeKey).value <= 0
    requires read(OptionalKeys[0]).Failure?
    requires LegacyDims(read, dimKeys).1 == Ok
    ensures DefineShape(read, dimKeys, flatten) == ShapeOutcome(dimKeys, LegacyDims(read, dimKeys).0, Ok)
  {
    RequiredMatchesLegacy(read, dimKeys);
    var leg := LegacyDims(read, dimKeys).0;
    ApplySingleOptional(read, dimKeys, leg, ParseFlatten(flatten).value);
  }
}
