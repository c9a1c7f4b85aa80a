# ApRES burst codec in Dafny

This project models the decoder and encoder of the ApRES `.dat` format and
proves properties of the model. ApRES is a phase-sensitive radar; a `.dat`
file is one or more *bursts*. Each burst is a text header followed by a raw
binary array of samples. The header is a run of `key=value` lines, or
`key: value` lines in the older generation of the format, ending with a line
that begins `*** End Header`. The header names the dimensions of the array,
the number of sub-bursts and of samples, and an `Average` mode that selects
the element type.

There are two generations of the engine.

- **The current package** (`apres/__init__.py`, version 0.4.2).
  - Class `ApRESBurst` reads one burst from a shared stream, step by step:
    - `read_header_lines` collects the header lines and records the data
      offset;
    - `determine_file_format_version` detects the dialect;
    - `store_header`, `define_data_shape` and `define_data_type` configure
      the burst;
    - `read_data` reads the payload and `reshape_data` checks it against
      the shape.
  - The same class writes a burst back with `write_header` and `write_data`.
    Either can substitute chosen ranges of sub-bursts and samples.
  - Class `ApRESFile` reads bursts back to back until the end of the input,
    and writes them out again with `to_apres_dat`.
  - `nc_object_to_burst` rebuilds a burst from a netCDF group.
- **The older single-burst class** (`apres/apres.py`). It runs the same
  pipeline with its own rules:
  - detection can only move from the default dialect to the alternative;
  - the header is stored verbatim, with no trimming;
  - the shape is just the two dimension keys;
  - the payload is every whole element to the end of the input, always
    little-endian u16, and the reshape forgives nothing.

The model follows the source's own structure.

- The class-wide `DEFAULTS` dictionary, shared and mutated by every burst, is
  a `Defaults` object that every burst holds by reference.
  `determine_file_format_version` writes its dialect. A dialect is a
  delimiter plus two dimension keys.
- A burst, and the older file, are classes whose fields are those of the
  Python object. Each method states its new fields, the stream position and
  its status as a specification function of the old ones:
  - `BurstSpec` for the current burst;
  - `Legacy` for the older file;
  - `Files` for the multi-burst file.
- Lemmas then prove what the source promises of those functions.
- The stream is a byte sequence with a cursor (`ByteStream.Stream`).
- A payload is a flat row-major `seq<int>` with its dimensions
  (`Payload.NdArray`).
- A header map is an insertion-ordered dictionary (`OrderedDict`).
- Exceptions are `Raised` statuses: KeyError, ValueError, IndexError, the
  reshape errors, and a negative seek.

The main results are these.

- **Header parsing.** Looking a key up in the stored header gives the value
  of the last line that carries it (`HeaderStore.ParseLookup`). Storing
  reconstructed header lines gives the header back
  (`HeaderStore.ParseReconstruct`).
- **Dialect detection.** It is a first-hit scan, proved in both generations
  (`Dialect.DetectIsFirstHit`, `Legacy.DetectSpec`).
- **Shapes.** `define_data_shape` is proved exactly under each flatten policy
  (`ShapeResolver.DefineShapePolicies`), and its error cases are proved too.
- **Reshape.** The reshape is specified exactly (`Payload.ReshapeSpec`).
- **Chaining.** A file's bursts lie back to back, each starting where the
  previous payload ended (`Files.ReadAllChains`).
- **Burst round trip.** Writing a burst that was read, without ranges, and
  reading the written bytes gives the same burst (`RoundTrip.BurstRoundTrip`).
- **Ranges.** `write_header` records len(range) for a given sub-burst or
  sample range, while `write_data` writes only the part of the range that
  lies on the axis. The model keeps this: the two counts agree exactly when
  the range's last value lies on the axis (`BurstFacts.SampleCountWritten`,
  `BurstFacts.SubBurstCountWritten`). An over-long range gives a header that
  announces more samples than the payload holds.
- **netCDF round trip.** Converting a configured burst to a netCDF group and
  back gives the burst with its header lines reconstructed
  (`Containers.GroupRoundTrip`).
- **Older file.** Reading is specified field by field
  (`Legacy.ReadFileHeader`, `Legacy.ReadFilePayload`). `write_data` without
  ranges writes back exactly the payload bytes read
  (`Legacy.WriteDataOfRead`). Encoded as latin-1, the older header text
  is exactly the current writer's bytes (`Legacy.HeaderTextEncodes`).

Where the older package's tests and its code disagree, the model follows
the code:
- the tests expect `store_header` to trim keys and values, but the code
  keeps them verbatim.

Where the current package's tests and its code disagree, the model also
follows the code:
- the tests name version 0.2.0, but the code is 0.4.2;
- for an extra axis the tests expect a shape of
  (sub-bursts, samples, attenuators), but the code inserts the new axis at
  position 1.

Where the current package's documentation and its code disagree, the model
follows the code:
- the `define_data_type` docstring (apres/__init__.py:236-238) says that
  Average = 1 holds 16-bit integers, but the table of data types
  (apres/__init__.py:40) gives `<f4` for it.

## Model

| member | source | states |
|---|---|---|
| `Text.LStrip` | apres/__init__.py:162 | the leading half of str.strip(): its meaning, a suffix starting with a non-blank after only blanks, is proved in `Text.LStripSpec` |
| `Text.RStrip` | apres/__init__.py:113 | str.rstrip() of a header line: its meaning, a prefix ending with a non-blank before only blanks, is proved in `Text.RStripSpec` |
| `Text.Strip` | apres/__init__.py:162 | str.strip() of a key or value: it yields a stripped string (`Text.StripYieldsStripped`) and is idempotent (`Text.StripIdempotent`) |
| `Text.RStripSpec` | apres/__init__.py:113 | right-stripping keeps a prefix of the line that ends in a non-blank; everything it drops is whitespace |
| `Text.StripIdempotent` | apres/__init__.py:162 | the trimming of keys and values is idempotent |
| `Text.SplitOnce` | apres/__init__.py:159 | a one-split yields nothing exactly when the delimiter is absent; otherwise the line is key + delimiter + rest, and the key holds no delimiter, so the split is at the first delimiter |
| `Text.SplitJoined` | apres/__init__.py:159 | splitting key + delimiter + value gives back key and value whenever the key holds no delimiter, even if the value does |
| `Text.StartsWith` | apres/__init__.py:397 | re.match of a metacharacter-free dimension key: the key is a prefix of the line; the two keys of a dialect never both begin a line (`Legacy.NotBoth`), and the end-of-header test ignores the line ending (`RoundTrip.EndTestWithEol`) |
| `Text.ParseInt` | apres/__init__.py:204 | int() of a header value: optional blanks and sign around ASCII digits, None where int() raises; it reads back every count written (`Text.ParseNatToString`) |
| `Text.NatToString` | apres/__init__.py:358 | str() of a count is non-empty and begins and ends with a digit; int() of it gives the count back (`Text.ParseNatToString`) |
| `Text.ParseNatToString` | apres/__init__.py:397 | int() of the decimal text of a count gives the count back, so a substituted length reads back |
| `Text.Latin1Encode` | apres/__init__.py:402 | str.encode('latin-1'): its meaning, success exactly below U+0100 with one byte per character, is proved in `Text.Latin1EncodeSpec` |
| `Text.Latin1Decode` | apres/__init__.py:111 | bytes.decode('latin-1') gives one character per byte; encoding the result gives the bytes back (`Text.Latin1RoundTrip`) |
| `Text.Latin1EncodeSpec` | apres/__init__.py:402 | latin-1 encoding succeeds exactly when every character is below 256, with each byte the code of its character |
| `Text.Latin1RoundTrip` | apres/__init__.py:111 | latin-1 decoding loses nothing: encoding the decoded text gives the bytes back |
| `Dialect.MatchIn` | apres/__init__.py:142-143 | the candidate found is the first, in list order, whose first dimension key begins the line; with none found, no candidate matches |
| `Dialect.FirstMatch` | apres/__init__.py:141-146 | the hit found is on the first line that any candidate matches; the lines before it match none |
| `Dialect.Detect` | apres/__init__.py:138-146 | determine_file_format_version of the current package; its meaning is proved in `Dialect.DetectIsFirstHit`, `DetectKnown` and `DetectIdempotent` |
| `Dialect.DetectIsFirstHit` | apres/__init__.py:138-146 | with no matching line the dialect stays; otherwise the dialect becomes the candidate matched on the earliest matching line |
| `Dialect.DetectKnown` | apres/__init__.py:144-145 | the detected dialect is the one in force or one of the alternatives |
| `Dialect.DetectWellFormed` | apres/__init__.py:46-53 | detection keeps a dialect with exactly two dimension keys |
| `Dialect.DetectIdempotent` | apres/__init__.py:141-146 | detecting again on the same lines changes nothing |
| `Dialect.DetectExamples` | apres/__init__.py:138-146 | `NSubBursts=` lines select the `=` dialect; `SubBursts in burst:` lines select the `:` dialect; a line only matching a second key changes nothing |
| `Dialect.LegacyDetect` | apres/apres.py:150-161 | the older determine_file_format_version, trying the dialect in force first; its meaning is proved in `Legacy.DetectSpec` |
| `Dialect.LegacyDetectSticky` | apres/apres.py:150-161 | once the older reader is in the `:` dialect it stays there whatever the lines |
| `Dialect.LegacyDetectKnown` | apres/apres.py:155-160 | the older detection yields the dialect in force or its one alternative |
| `OrderedDict.Put` | apres/__init__.py:162 | assignment updates the value map and appends the key only when it is new, so insertion order is kept and a duplicate overwrites |
| `OrderedDict.Remove` | apres/__init__.py:686-689 | deleting a key leaves a well-formed map without it and every other lookup unchanged |
| `OrderedDict.RemoveAbsent` | apres/__init__.py:686-689 | deleting an absent key (the caught KeyError) leaves the map as it was |
| `OrderedDict.Items` | apres/__init__.py:368 | items() yields one pair per key in insertion order, with that key's value |
| `HeaderStore.ParseLine` | apres/__init__.py:159-162 | a line yields no pair exactly when it has no delimiter or starts with it; a verbatim pair rebuilds the line, a trimmed pair is stripped |
| `HeaderStore.Contribution` | apres/__init__.py:159-162 | the pair one line adds to the header, none when the line has no delimiter or an empty key; it follows the earlier lines' pairs (`HeaderStore.ParsedSnoc`) |
| `HeaderStore.Parsed` | apres/__init__.py:156-162 | the pairs the lines contribute, in line order, at most one per line; it distributes over concatenation (`HeaderStore.ParsedConcat`) |
| `HeaderStore.Parse` | apres/__init__.py:156-164 | the stored header is a well-formed ordered map |
| `HeaderStore.ParseNext` | apres/__init__.py:158-162 | each line of the loop either leaves the map as it is or assigns its own pair into the map built so far |
| `HeaderStore.ParseLookup` | apres/__init__.py:156-162 | looking up a key gives the value on the last line carrying it, and nothing when no line does |
| `HeaderStore.ParseKeysGrow` | apres/__init__.py:158-162 | reading more lines never drops or reorders the keys already stored |
| `HeaderStore.FormatLine` | apres/__init__.py:358 | a formatted line is the key, the delimiter at position len(key), then the value, with nothing added |
| `HeaderStore.ParseFormatLine` | apres/__init__.py:346-358 | a formatted line parses back to its key and value when the key is non-empty and delimiter-free and, for the trimmed store, both are stripped |
| `HeaderStore.ItemLines` | apres/__init__.py:368 | one formatted line per header item, in insertion order |
| `HeaderStore.Reconstruct` | apres/__init__.py:368-370 | the start marker, one line per item, then the end marker |
| `HeaderStore.ParseReconstruct` | apres/__init__.py:360-372 | storing the reconstructed lines gives back every header with non-empty, delimiter-free, stripped keys and stripped values |
| `HeaderStore.ExampleNoKey` | apres/__init__.py:161 | the line `=12` adds no entry |
| `HeaderStore.ExampleBlankKey` | apres/__init__.py:161-162 | a key of blanks passes the emptiness test before trimming and is stored as the empty key |
| `HeaderStore.ExampleVerbatim` | apres/apres.py:176-177 | the older store keeps the blanks around key and value |
| `ShapeResolver.ItemSize` | apres/__init__.py:340 | numpy's itemsize of each element type in the table of data types: 2 bytes for `<u2`, 4 for `<f4` and `<u4`; the payload read spans count times this many bytes (`BurstFacts.PayloadOk`) |
| `ShapeResolver.ParseFlatten` | apres/__init__.py:197-200 | flatten.lower() among 'always', 'unity', 'never'; anything else raises, proved in `ShapeResolver.DefineShapeSucceeds` |
| `ShapeResolver.HeaderInt` | apres/__init__.py:204 | int(header[key]): KeyError when the key is absent, ValueError when the value is not an integer; the older shape is proved from it in `Legacy.ShapedSpec` |
| `ShapeResolver.RequiredDims` | apres/__init__.py:202-204 | on success every required key is recorded with a length each; on failure the keys recorded are a non-empty prefix of the required ones |
| `ShapeResolver.RequiredDimsStops` | apres/__init__.py:202-204 | once a required key fails, later keys are never read |
| `ShapeResolver.RequiredDimsMeaning` | apres/__init__.py:202-204 | success exactly when every key reads as an integer, each length the value read; on failure the last key recorded is the one that raised, with its error |
| `ShapeResolver.InsertAt1` | apres/__init__.py:217-218 | list.insert(1, x): the first element, then x, then the rest |
| `ShapeResolver.OptionalStep` | apres/__init__.py:209-225 | one optional key keeps dimension keys and lengths the same length and never shrinks them |
| `ShapeResolver.ApplyOptional` | apres/__init__.py:209-225 | the optional-key loop keeps keys and lengths the same length and never shrinks them |
| `ShapeResolver.DefineShape` | apres/__init__.py:194-229 | an unknown flatten policy raises before any header item is read; any raise leaves an empty shape and a prefix of the keys; success gives as many keys as lengths |
| `ShapeResolver.DefineShapeRequiredFails` | apres/__init__.py:202-204 | a required key that does not read raises its error, with the keys recorded up to it |
| `ShapeResolver.DefineShapeAverageFails` | apres/__init__.py:206 | an `Average` item that does not read raises its error after the required keys |
| `ShapeResolver.DefineShapeDone` | apres/__init__.py:202-227 | otherwise the shape is the required lengths, the first forced to 1 when `Average` > 0, with the optional keys applied |
| `ShapeResolver.DefineShapeSucceeds` | apres/__init__.py:199-206 | success exactly when the policy is known and every required key and `Average` read as integers |
| `ShapeResolver.DefineShapeFirstFailure` | apres/__init__.py:202-204 | the first required key that fails is the error raised, and the keys recorded stop at it |
| `ShapeResolver.DefineShapePolicies` | apres/__init__.py:206-227 | `Average` > 0 forces the first length to 1; `nAttenuators` = m multiplies the samples (always), inserts the axis at 1 only for m > 1 (unity) or always (never), and is ignored when absent or malformed |
| `ShapeResolver.ListIndex` | apres/__init__.py:244 | Python list indexing: a position exactly for -len <= i < len, counted from the back when negative |
| `ShapeResolver.DataTypeOf` | apres/__init__.py:243-246 | modes 0, 1, 2 select u2, f4, u4; -3..-1 select from the back; any other value is an unsupported mode; a missing or malformed `Average` raises its own error |
| `ShapeResolver.LegacyDims` | apres/apres.py:189-194 | the older shape has one length per key on success and fewer on failure |
| `ShapeResolver.LegacyDimsMeaning` | apres/apres.py:189-194 | the older shape is exactly int(header[k]) for the keys in order, success exactly when all read; on failure the error is that of the first key that did not read |
| `ShapeResolver.RequiredMatchesLegacy` | apres/__init__.py:202-204 | the required-key loops of both generations succeed together, with the same lengths |
| `ShapeResolver.DefineShapeExtendsLegacy` | apres/__init__.py:194-229 | without averaging and without an optional dimension, the current shape is the older reader's |
| `Payload.Product` | apres/__init__.py:338 | np.prod of a shape, 1 for the empty shape, never negative for non-negative lengths (`Payload.ProductNonNegative`) |
| `Payload.Reshape` | apres/__init__.py:305-320 | reshape_data on a flat array; its meaning is proved in `Payload.ReshapeSpec` |
| `Payload.ReshapeSpec` | apres/__init__.py:305-320 | a negative length raises; an exact payload is kept; a shorter one always raises; a longer one raises unless forgiven, and then keeps exactly the first product(shape) elements |
| `Payload.ReshapeFits` | apres/__init__.py:306 | a reshaped array holds exactly as many elements as its shape |
| `Payload.ReshapeAgain` | apres/__init__.py:318 | reshaping a reshaped array strictly to the same shape changes nothing |
| `Payload.Decode` | apres/__init__.py:341 | np.frombuffer: count groups of bytes decode to count in-range elements (`Payload.DecodeLength`), the inverse of Encode (`Payload.EncodeDecode`) |
| `Payload.Encode` | apres/__init__.py:437 | the raw buffer of an array, size bytes per element (`Payload.EncodeLength`), the inverse of Decode (`Payload.DecodeEncode`) |
| `Payload.DecodeLength` | apres/__init__.py:341 | count whole elements of bytes decode to count values, each within the range of its width |
| `Payload.EncodeLength` | apres/__init__.py:437 | writing n elements of width w emits n * w bytes |
| `Payload.DecodeEncode` | apres/__init__.py:437 | decoding the bytes written for in-range elements gives the elements back |
| `Payload.EncodeDecode` | apres/__init__.py:341 | writing the elements decoded from whole elements of bytes gives the bytes back |
| `Payload.RangeLen` | apres/__init__.py:397 | len(range) of a Python range; `Payload.RangeLenExact` proves it counts exactly the values before the stop |
| `Payload.RangeLenExact` | apres/__init__.py:397 | len(range) counts exactly the values before the stop, for either sign of step |
| `Payload.ClampIndex` | apres/__init__.py:430-435 | one bound of slice.indices(n): negative bounds count from the end, and the result lies in the clamping interval and equals the bound when that already lies there |
| `Payload.SliceIndices` | apres/__init__.py:430-435 | the positions start:stop:step selects on an axis of length n; they lie on the axis (`Payload.SliceInBounds`) |
| `Payload.SliceInBounds` | apres/__init__.py:430-435 | slicing an axis never selects a position outside it |
| `Payload.SliceOfInnerRange` | apres/__init__.py:430-435 | a range lying inside the axis selects exactly its own values |
| `Payload.SliceFullAxis` | apres/__init__.py:424 | range(n) as a slice selects the whole axis in order |
| `Payload.SliceKeepsRange` | apres/__init__.py:430-435 | for a forward range from a non-negative start, the slice keeps at most len(range) positions, and keeps every value of the range, in order, exactly when its last value lies on the axis |
| `Payload.Pick` | apres/__init__.py:435 | the chosen columns of a row, in the order chosen |
| `Payload.Select2` | apres/__init__.py:435 | data[rows, cols] holds one element per chosen row and column |
| `Payload.Select2At` | apres/__init__.py:435 | element (a, b) of data[rows, cols] is the row-major element at rows[a], cols[b] |
| `Payload.Select3` | apres/__init__.py:430 | data[rows, :, cols] holds one element per chosen row, middle index and column |
| `Payload.Select3At` | apres/__init__.py:430 | element (a, k, b) of data[rows, :, cols] is the row-major element at rows[a], k, cols[b] |
| `Payload.Select2Whole` | apres/__init__.py:432-435 | choosing every row and column gives the array back |
| `Payload.Select3Whole` | apres/__init__.py:427-430 | choosing every index of every axis gives the array back |
| `ByteStream.LineEnd` | apres/__init__.py:110 | the offset just past the line readline() returns: past its newline, or the end of the input; never before the line's start |
| `ByteStream.LineAt` | apres/__init__.py:110 | readline() is empty exactly at the end of the bytes, and otherwise runs up to and including the next newline |
| `ByteStream.LineEndShape` | apres/__init__.py:110 | a line holds a newline only as its last byte, and has one unless it runs to the end |
| `ByteStream.ScanHeader` | apres/__init__.py:103-126 | the scan keeps at least one line, and the data offset is -1 or the position just past the end-of-header line |
| `ByteStream.ScanHeaderStep` | apres/__init__.py:109-124 | an empty read ends the scan with one empty line and no data offset; an end-of-header line ends it right after that line; any other line is kept right-stripped and the scan goes on |
| `ByteStream.ScanHeaderEnds` | apres/__init__.py:115-124 | without an end-of-header line the scan reads to the end of the input |
| `ByteStream.ScanHeaderLast` | apres/__init__.py:121-124 | and then it keeps the empty line read at the end |
| `ByteStream.ScanClosed` | apres/__init__.py:115-119 | a header that was closed consists of clean lines of which only the last begins with the end-of-header text |
| `ByteStream.KeptLineClean` | apres/__init__.py:113 | a kept line has no trailing blank, no newline, and only latin-1 characters |
| `ByteStream.RStripEndTest` | apres/__init__.py:117 | right-stripping a line does not change whether it ends the header |
| `ByteStream.Stream.Seek` | apres/__init__.py:109 | seek(offset, 0) moves to the offset; a negative one raises and the position stays |
| `ByteStream.Stream.ReadLine` | apres/__init__.py:110 | readline() returns the line at the position and moves past it |
| `ByteStream.Stream.Read` | apres/__init__.py:340 | read(n) returns the bytes available there and moves past them |
| `ByteStream.Available` | apres/__init__.py:340 | read(n) returns n bytes when they are there, fewer at the end, none past it |
| `ByteStream.AvailableAfter` | apres/__init__.py:340 | the bytes that follow a prefix are read in full when asked for |
| `ByteStream.Sink.Write` | apres/__init__.py:404 | write(b) appends b to the output |
| `BurstSpec.InitialGood` | apres/__init__.py:69-81 | a burst as constructed holds a well-formed header and no payload |
| `BurstSpec.LinesStep` | apres/__init__.py:91-126 | read_header_lines resets the data offset and lines, then scans from the burst's own start; it raises exactly without a stream and changes no other field |
| `BurstSpec.Detected` | apres/__init__.py:128-146 | determine_file_format_version changes only the dialect of the settings, to the one in force or an alternative |
| `BurstSpec.Stored` | apres/__init__.py:148-164 | store_header sets the header map to the parse of the header lines, trimmed; its lookup is proved in `HeaderStore.ParseLookup` |
| `BurstSpec.Shaped` | apres/__init__.py:166-229 | define_data_shape changes only the dimension keys and the shape; its result is proved in `ShapeResolver.DefineShapePolicies` |
| `BurstSpec.Typed` | apres/__init__.py:231-248 | define_data_type changes only the element type, and nothing when it raises |
| `BurstSpec.ConfigureStep` | apres/__init__.py:250-265 | configuring keeps a two-key dialect and a well-formed burst whose payload fills its shape |
| `BurstSpec.HeaderStep` | apres/__init__.py:267-285 | reading the header keeps the same invariant |
| `BurstSpec.ReshapeStep` | apres/__init__.py:287-322 | a reshaped payload fills its shape |
| `BurstSpec.PayloadStep` | apres/__init__.py:338-342 | the payload read leaves the settings alone and fills its shape |
| `BurstSpec.Flat` | apres/__init__.py:341 | np.frombuffer of count elements is a one-axis array of count elements |
| `BurstSpec.DataStep` | apres/__init__.py:324-344 | read_data keeps a two-key dialect and the burst invariant |
| `BurstSpec.DataStepOf` | apres/__init__.py:335-336 | read_data reads the header only when the data offset is -1; the payload is read unless that raised |
| `BurstSpec.Given` | apres/__init__.py:396 | the truthiness of a range argument: given and not empty; an empty range counts as absent, as `if subbursts` does |
| `BurstSpec.LineOut` | apres/__init__.py:394-401 | one written header line: the dimension lines carry len(range) when a range is given (`BurstFacts.SampleCountWritten`, `Legacy.LineOutKnown`) |
| `BurstSpec.HeaderOut` | apres/__init__.py:394-404 | the bytes write_header emits and how it ended; line by line in `BurstSpec.HeaderOutNext`, nothing after a raise in `BurstSpec.HeaderOutStops` |
| `BurstSpec.HeaderOutNext` | apres/__init__.py:394-404 | each line adds its encoding to the output, or ends the header with an encoding error |
| `BurstSpec.HeaderOutStops` | apres/__init__.py:394-404 | once a line fails to encode nothing more is written |
| `BurstSpec.Chosen` | apres/__init__.py:423-435 | the positions written on an axis all lie on it |
| `BurstSpec.DataOut` | apres/__init__.py:421-437 | the bytes of data[sub, samp] or data[sub, :, samp]; without ranges exactly the payload's bytes (`RoundTrip.DataOutWhole`), with ranges as many as `BurstFacts.SampleCountWritten` counts |
| `BurstSpec.WriteHeaderStep` | apres/__init__.py:374-404 | write_header keeps a two-key dialect |
| `BurstSpec.WriteHeaderStepOf` | apres/__init__.py:386-387 | write_header reads the header only when the burst is unread, writes nothing if that raised, and otherwise writes the lines |
| `BurstSpec.WriteDataStepOf` | apres/__init__.py:418-437 | write_data reads the payload only when unread, writes nothing on a raise or without a payload, and otherwise writes the selection or raises its indexing error |
| `BurstSpec.WriteDataStep` | apres/__init__.py:406-437 | write_data reads the payload when the burst is unread, then writes the selection; its outcome is proved in `BurstSpec.WriteDataStepOf` and `BurstFacts.WriteDataLazy` |
| `Bursts.Defaults.constructor` | apres/__init__.py:29-44 | the class-wide defaults start in the `=` dialect with detection on, forgive on and CR LF |
| `Bursts.Defaults.ResetInitDefaults` | apres/__init__.py:83-89 | the tokens of the first alternative are copied back into the defaults |
| `Bursts.ScanResumes` | apres/__init__.py:115-124 | one turn of the read_header_lines loop keeps the lines read so far a prefix of the whole scan |
| `Bursts.ScanFinished` | apres/__init__.py:115-119 | when the loop stops, the lines and offsets are those of the whole scan |
| `Bursts.WriteLines` | apres/__init__.py:394-404 | the loop of write_header appends the header's bytes and reports the first encoding error |
| `Bursts.Burst.constructor` | apres/__init__.py:55-81 | a new burst starts at the stream's position (0 without one), nothing read and the data offset -1 |
| `Bursts.Burst.ReadHeaderLines` | apres/__init__.py:91-126 | the header lines and data offset are the scan from the burst's own start, and the stream ends up after the last line read |
| `Bursts.Burst.DetermineFileFormatVersion` | apres/__init__.py:128-146 | the shared defaults take the dialect detected from the header lines |
| `Bursts.Burst.StoreHeader` | apres/__init__.py:148-164 | the header becomes the trimmed parse of the lines; nothing else changes |
| `Bursts.Burst.DefineDataShape` | apres/__init__.py:166-229 | the dimension keys, shape and status are those DefineShape gives |
| `Bursts.Burst.ReadRequiredDims` | apres/__init__.py:202-204 | the loop over the required keys records the keys and lengths of RequiredDims |
| `Bursts.Burst.ApplyOptionalDims` | apres/__init__.py:209-225 | the loop over the optional keys gives the keys and lengths of ApplyOptional |
| `Bursts.Burst.DefineDataType` | apres/__init__.py:231-248 | the element type is the one the `Average` mode selects; on a raise it stays |
| `Bursts.Burst.ConfigureFromHeader` | apres/__init__.py:250-265 | detection when enabled, then store, shape and type, stopping at the first raise |
| `Bursts.Burst.ReadHeader` | apres/__init__.py:267-285 | the header lines then the configuration |
| `Bursts.Burst.ReshapeData` | apres/__init__.py:287-322 | the payload is cut to the shape when forgiven, or the reshape error is raised |
| `Bursts.Burst.ReadData` | apres/__init__.py:324-344 | the header when unread, then count elements from the data offset, reshaped |
| `Bursts.Burst.ReadPayload` | apres/__init__.py:338-342 | count = product(shape) elements of the data type are read from the data offset and reshaped |
| `Bursts.Burst.ReconstructHeaderLines` | apres/__init__.py:360-372 | the header lines become the reconstruction of the header in the dialect in force; nothing else changes |
| `Bursts.Burst.WriteHeader` | apres/__init__.py:374-404 | the output grows by the header's bytes, with the state of read_header when the burst was unread |
| `Bursts.Burst.WriteData` | apres/__init__.py:406-437 | the output grows by the selected elements, with the state of read_data when the burst was unread |
| `BurstFacts.ConfigureKeeps` | apres/__init__.py:250-265 | configuration changes only the dialect, the header map, the dimension keys, the shape and the type |
| `BurstFacts.ReadFresh` | apres/__init__.py:324-344 | reading an unread burst is the scan from its start, the configuration of the lines scanned, then the payload |
| `BurstFacts.PayloadOk` | apres/__init__.py:338-342 | a payload read without error is exactly the bytes from the data offset to its end, decoded in the shape, and only the payload changes |
| `BurstFacts.FlatExact` | apres/__init__.py:305-306 | a flat payload of exactly product(shape) elements reshapes to those elements |
| `BurstFacts.ReadBurstOk` | apres/__init__.py:324-344 | a burst read without error has a closed header scanned from its start, is configured from it, and holds the payload decoded from the bytes right after it |
| `BurstFacts.DataStepLazy` | apres/__init__.py:335-336 | a burst whose header was read reads only its payload again |
| `BurstFacts.PayloadRepeat` | apres/__init__.py:338-342 | a second payload read gives what the first gave |
| `BurstFacts.ReadDataAgain` | apres/__init__.py:335-342 | read_data on a burst it read gives the same burst, settings and position |
| `BurstFacts.WriteHeaderLazy` | apres/__init__.py:386-387 | write_header on a read burst writes its lines and changes nothing |
| `BurstFacts.WriteDataLazy` | apres/__init__.py:418-419 | write_data on a read burst writes the selection of its payload and changes nothing |
| `BurstFacts.SampleCountWritten` | apres/__init__.py:396-437 | with a samples range, the header's sample count is len(range) while every row of the payload holds the samples of the range that lie on the last axis; the two agree exactly when the range's last value lies on that axis |
| `BurstFacts.SubBurstCountWritten` | apres/__init__.py:394-437 | with a sub-bursts range, the header's sub-burst count is len(range) while the payload holds the sub-bursts of the range that lie on the first axis; the two agree exactly when its last value lies on that axis |
| `Files.ReadAll` | apres/__init__.py:593-607 | read: bursts are read while the position is before the end; the bursts lie back to back (`Files.ReadAllChains`) |
| `Files.ReadBurstAt` | apres/__init__.py:580-591 | read_burst: a fresh burst at the position, then read_data; a burst read without error is loaded inside the input (`Files.ReadBurstLoaded`) |
| `Files.ReadFrom` | apres/__init__.py:588-591 | read_data on the new burst: the first burst that raises ends the reading and is not kept; one loop turn is proved in `Files.ReadAllNext` |
| `Files.ReadBurstLoaded` | apres/__init__.py:580-591 | a burst read without error is loaded, and the position moves forward within the input |
| `Files.ReadAllNext` | apres/__init__.py:603-605 | one turn of read: a burst that raises ends the reading; one that succeeds heads the bursts read from where it ended |
| `Files.ReadAllChains` | apres/__init__.py:593-607 | the bursts read lie back to back, each starting where the previous payload of count * itemsize bytes ended; a reading that does not raise ends at the end of the input |
| `Files.BurstOut` | apres/__init__.py:636-637 | write_header then write_data for one burst: the header bytes, then unless they raised the chosen payload bytes |
| `Files.FileOut` | apres/__init__.py:633-637 | the bytes to_apres_dat emits, burst after burst; one burst at a time in `Files.FileOutNext`, nothing after a raise in `Files.FileOutStops` |
| `Files.FileOutNext` | apres/__init__.py:635-637 | each burst written appends its header and data |
| `Files.FileOutHalts` | apres/__init__.py:635-637 | after a burst that raised, the next writes nothing |
| `Files.FileOutStops` | apres/__init__.py:635-637 | once a burst raises nothing more is written |
| `Files.Choose` | apres/__init__.py:635 | self.bursts[start:stop:step] at the chosen positions: as many elements as positions, each the element at its position |
| `Files.Selected` | apres/__init__.py:631-635 | the bursts selected from loaded bursts all have payloads |
| `Files.ApresFile.constructor` | apres/__init__.py:457-474 | a file open at a stream with no burst read |
| `Files.ApresFile.ReadBurst` | apres/__init__.py:580-591 | a new burst at the stream's position, on the shared settings, after read_data |
| `Files.ApresFile.Eof` | apres/__init__.py:570-578 | eof(): the position has reached the input's size; `Files.ApresFile.Read` loops until it holds or a burst raises |
| `Files.ApresFile.ReadStep` | apres/__init__.py:603-605 | one burst of the loop: a raise ends the reading; otherwise it is loaded and heads the rest |
| `Files.ApresFile.Append` | apres/__init__.py:605 | the burst is appended to the list |
| `Files.ApresFile.ReadNext` | apres/__init__.py:603-605 | one round of the loop appends the burst unless it raised; earlier bursts keep their state |
| `Files.ApresFile.Read` | apres/__init__.py:593-607 | the bursts appended, the settings, the position and the status are those of reading the rest of the input |
| `Files.ApresFile.WriteHeaderOf` | apres/__init__.py:636 | a loaded burst's header lines are written; nothing changes |
| `Files.ApresFile.WriteDataOf` | apres/__init__.py:637 | a loaded burst's selection is written or its error raised; nothing changes |
| `Files.ApresFile.WriteBurst` | apres/__init__.py:636-637 | one burst's header then data |
| `Files.ApresFile.WriteListed` | apres/__init__.py:635-637 | writing one burst of the list leaves every other burst as it was |
| `Files.ApresFile.WriteChosen` | apres/__init__.py:635-637 | one round of the write loop extends the file output by the next chosen burst |
| `Files.ApresFile.WriteLoop` | apres/__init__.py:635-637 | the loop writes the file output of the chosen bursts and changes no burst |
| `Files.ApresFile.WriteBursts` | apres/__init__.py:631-637 | the bursts the range selects, or all, are written in order up to the first raise |
| `Files.ApresFile.ToApresDat` | apres/__init__.py:609-637 | reads the whole input first when no burst was read, then writes the selected bursts; a failed read writes nothing |
| `Files.ApresFile.ReadWriteAll` | apres/__init__.py:628-637 | to_apres_dat on a file with nothing read: read, then write unless it raised |
| `Files.ApresFile.WriteAll` | apres/__init__.py:631-637 | to_apres_dat on a file already read: the selected bursts are written and nothing changes |
| `RoundTrip.EndTestWithEol` | apres/__init__.py:401 | with CR LF, a written line ends the header exactly when the line does |
| `RoundTrip.WrittenLineScans` | apres/__init__.py:401-404 | a clean line written with CR LF reads back as exactly its bytes and right-strips to itself |
| `RoundTrip.WrittenHeaderScans` | apres/__init__.py:394-404 | a closed header written without ranges scans back to the same lines, with the data right after it |
| `RoundTrip.DataOutWhole` | apres/__init__.py:421-437 | write_data without ranges writes every element in C order |
| `RoundTrip.WriteDataWhole` | apres/__init__.py:418-437 | write_data without ranges on a read burst writes back its payload bytes |
| `RoundTrip.ConfigureAgain` | apres/__init__.py:250-265 | configuring again from the same lines with the detected dialect gives the same burst |
| `RoundTrip.WritesOfRead` | apres/__init__.py:374-437 | a burst as read writes its header and exactly the payload bytes it was read from, without changes |
| `RoundTrip.ReadBurstFrom` | apres/__init__.py:324-344 | a burst read without error is in that form |
| `RoundTrip.BurstWrites` | apres/__init__.py:374-437 | writing a burst that was read gives its header and the bytes of its payload |
| `RoundTrip.PayloadAfter` | apres/__init__.py:338-342 | a payload of the right length right after a header reads as exactly those bytes |
| `RoundTrip.ReadWritten` | apres/__init__.py:324-344 | reading back a written header followed by a payload gives the configured burst at offset 0 with that payload |
| `RoundTrip.BurstRoundTrip` | apres/__init__.py:324-437 | reading the bytes written for a burst that was read gives the same burst, moved to offset 0 |
| `Containers.FromGroup` | apres/__init__.py:666-704 | the burst from a group has no stream offset, data offset 0, and the group's array as payload |
| `Containers.FormattedMatches` | apres/__init__.py:358 | a formatted line begins with a dimension key exactly when its key does |
| `Containers.DetectReconstructed` | apres/__init__.py:699-701 | detecting on the reconstructed lines gives what detecting on the keys gives |
| `Containers.MarkerMatchesNone` | apres/__init__.py:369-370 | no dimension key matches the header markers |
| `Containers.ConfigureParts` | apres/__init__.py:258-262 | configuration detects when enabled, then stores the lines in the detected dialect |
| `Containers.KnownDelimSafe` | apres/__init__.py:46-53 | the delimiters of both dialects occur in no first dimension key and no marker |
| `Containers.FromGroupHeader` | apres/__init__.py:686-701 | the dialect is detected from the attribute keys; the header is the attributes without history, in their order; the lines are its reconstruction |
| `Containers.GroupRoundTrip` | apres/__init__.py:666-704 | a configured burst converted to a group and back is the same burst at offset 0 with reconstructed header lines |
| `Containers.NcObjectToBurst` | apres/__init__.py:666-704 | a new burst without a stream on the shared settings, whose state is FromGroup |
| `Legacy.LinesStep` | apres/apres.py:114-138 | the older read_header_lines resets the data offset and lines, then scans from the header start; it raises exactly without a stream and changes no other field |
| `Legacy.Detected` | apres/apres.py:140-161 | older detection changes only the dialect |
| `Legacy.Stored` | apres/apres.py:163-179 | the older store_header sets the header map to the verbatim parse of the lines; a key on a line of its own is found with its value verbatim (`Legacy.StoreVerbatim`) |
| `Legacy.Shaped` | apres/apres.py:181-194 | the older define_data_shape; `Legacy.ShapedSpec` proves it changes only the shape, one length per key read, stopping at the first key that raises |
| `Legacy.HeaderStep` | apres/apres.py:196-218 | read_header keeps a two-key dialect and a well-formed header |
| `Legacy.WholeCount` | apres/apres.py:235 | np.fromfile finds only whole u16 elements, all within the input |
| `Legacy.PayloadStep` | apres/apres.py:234-236 | the payload read leaves the settings and keeps the file invariant |
| `Legacy.DataStep` | apres/apres.py:220-238 | read_data keeps a two-key dialect and the file invariant |
| `Legacy.WriteHeaderStep` | apres/apres.py:254-278 | write_header keeps a two-key dialect |
| `Legacy.HeaderText` | apres/apres.py:271-278 | the text the older write_header emits; encoded as latin-1 it is the current writer's bytes (`Legacy.HeaderTextEncodes`) |
| `Legacy.DataOut` | apres/apres.py:295-300 | data[records, samples] of the older payload; without ranges exactly its bytes (`Legacy.DataOutWhole`) |
| `Legacy.WriteDataStep` | apres/apres.py:280-300 | the older write_data: the payload first when unread, then the selection; written back unchanged without ranges (`Legacy.WriteDataOfRead`) |
| `Legacy.Defaults.constructor` | apres/apres.py:20-35 | the older defaults start in the `=` dialect with detection on and CR LF |
| `Legacy.TextSink.Write` | apres/apres.py:278 | writing to the text output appends the text |
| `Legacy.ApresFile.constructor` | apres/apres.py:43-58 | a file with nothing read, its header at offset 0 and the data offset -1 |
| `Legacy.ApresFile.ReadHeaderLines` | apres/apres.py:114-138 | the lines and data offset are the scan from the header start; the stream moves past the last line read |
| `Legacy.ApresFile.DetermineFileFormatVersion` | apres/apres.py:140-161 | the shared defaults take the dialect the older detection gives |
| `Legacy.ApresFile.StoreHeader` | apres/apres.py:163-179 | the header is the verbatim parse of the lines; nothing else changes |
| `Legacy.ApresFile.DefineDataShape` | apres/apres.py:181-194 | the shape and status are LegacyDims of the header and the dimension keys |
| `Legacy.ApresFile.ReadHeader` | apres/apres.py:196-218 | the lines, detection when enabled, the stored header and the shape |
| `Legacy.ApresFile.ReadData` | apres/apres.py:220-238 | the header when unread, then the payload |
| `Legacy.ApresFile.ReadPayload` | apres/apres.py:234-236 | a seek to the data offset, every whole element to the end, the strict reshape |
| `Legacy.ApresFile.FormatHeaderLine` | apres/apres.py:240-252 | the line is exactly key + delimiter + value, and it parses back to key and value when the key is non-empty and delimiter-free |
| `Legacy.ApresFile.WriteLines` | apres/apres.py:271-278 | the loop writes each line, substituted, with the line ending |
| `Legacy.ApresFile.WriteHeader` | apres/apres.py:254-278 | the text output grows by the header text, with the state of read_header when unread |
| `Legacy.ApresFile.WriteData` | apres/apres.py:280-300 | the binary output grows by the selection, with the state of read_data when unread |
| `Legacy.LegacyDimsStops` | apres/apres.py:191-192 | once a key fails the later keys change nothing |
| `Legacy.MatchInPair` | apres/apres.py:155-157 | the default key is tried before the alternative key on each line |
| `Legacy.DetectSpec` | apres/apres.py:150-161 | with no line beginning with either key the dialect stays; otherwise the first such line keeps the dialect if it begins with its key, and switches to the alternative if not |
| `Legacy.LastValueAt` | apres/apres.py:173-177 | the value of a key comes from the last line carrying it |
| `Legacy.StoreVerbatim` | apres/apres.py:171-177 | a line key + delimiter + value with no later line for that key stores the value verbatim, even if it holds the delimiter |
| `Legacy.StoreDrops` | apres/apres.py:176 | a line without the delimiter or with an empty key adds nothing |
| `Legacy.ShapedSpec` | apres/apres.py:189-194 | the shape is int(header[k]) for the keys in order; success exactly when all read; a raise carries the error of the first key that did not; only the shape changes |
| `Legacy.PayloadStrict` | apres/apres.py:234-236 | every whole element to the end is read; success exactly when their count is the product of the shape; a shortfall or excess raises, and the flat array stays |
| `Legacy.ReadFileHeader` | apres/apres.py:209-216 | a file read without error has a closed header scanned from offset 0, detected, stored verbatim, and its shape read from the dimension keys in force |
| `Legacy.ReadFilePayload` | apres/apres.py:231-236 | and its payload is every element after the header, exactly product(shape) of them, decoded in that shape |
| `Legacy.DataOfUnread` | apres/apres.py:231-232 | read_data of an unread file reads the header, then the payload if that did not raise |
| `Legacy.HeaderOfUnread` | apres/apres.py:209-216 | read_header of an unread file, field by field |
| `Legacy.LineOutKnown` | apres/apres.py:271-278 | with a range given, a line beginning with a dimension key becomes key + delimiter + len(range); any other line is unchanged; each gets the line ending |
| `Legacy.DetectKnown` | apres/apres.py:37-41 | the older reader stays in its two dialects |
| `Legacy.HeaderTextEncodes` | apres/apres.py:271-278 | the older header text encodes to latin-1 exactly when the current writer succeeds, and then to the same bytes |
| `Legacy.DataOutWhole` | apres/apres.py:295-300 | write_data without ranges writes the whole two-axis payload in C order |
| `Legacy.WriteDataOfRead` | apres/apres.py:292-300 | write_data without ranges on an unread file reads it and writes back exactly the payload bytes read |

## Left out

- Files, paths, fsspec remote storage, `open`, `close`, the context managers and `os.fstat` sizing are left out. The input is an in-memory byte sequence whose size is its length. `to_apres_dat` returns a new output (a `Sink`) instead of writing to a path.
- `ApRESFile.eof` is the predicate `Files.ApresFile.Eof` used as the loop condition of `Read`, not a separate method.
- All netCDF library calls are left out: `Dataset`, groups, dimensions, variables, the `history` attribute set from the command line, `to_netcdf` and `burst_to_nc_object`. A group is an ordered attribute map plus an array (`Containers.BurstToGroup` is the inverse used to state the round trip).
- Text mode with universal newlines in the older reader is not modelled. Both readers split lines at `\n` only, and the older file is read as latin-1 bytes. The tell() cookie of a text file is taken as a byte offset.
- The locale encoding of the older writer's text output is not modelled. Its header is modelled as text (`Legacy.TextSink`), and written as latin-1 where it is compared with the current writer.
- numpy's element reinterpretation is not modelled bit for bit. Elements are unsigned little-endian integers of 2 or 4 bytes, so `<f4` values are their raw bit patterns.
- numpy's `-1` shape inference is not modelled. A negative length is the error `NegativeDimension`.
- Arrays of more than three axes are not modelled: the current `write_data` indexes two or three.
- Warnings are left out. A malformed optional dimension is skipped, as the code does after warning.
- Text.ParseInt: accepts ASCII decimal digits only, where Python's int() also accepts other Unicode decimal digits. A header line decoded as latin-1 cannot hold those, since every decimal digit below U+0100 is ASCII; only a netCDF attribute value handed to `nc_object_to_burst` could.
- Exceptions are `Raised` statuses carrying one error value each, not Python exception objects or messages.
- The burst round trip (`RoundTrip.BurstRoundTrip`) is stated for the CR LF line ending and for writing without ranges. The older writer's output is related to the current writer's line by line instead (`Legacy.HeaderTextEncodes`).
- The older `to_apres_dat` and `to_netcdf` are left out: they only chain `read_data`, `write_header` and `write_data` over files.
- Legacy.WriteData: its default ranges come from the payload's own axes, not from `data_shape`. The two differ only for a payload whose strict reshape raised. The code then fails indexing a one-axis array, and the model raises an indexing error too, but of another kind.
- Legacy.DataOut: refuses a payload of three or more axes. That case cannot arise, since an older shape always has the two dimension keys.
- The following methods have no Python method of their own; each is one part of the Python method named:
  - `Bursts.Burst.ReadRequiredDims` and `Bursts.Burst.ApplyOptionalDims` are the two loops of `define_data_shape`;
  - `Bursts.Burst.ReadPayload` and `Legacy.ApresFile.ReadPayload` are the second half of `read_data`;
  - `Legacy.ApresFile.WriteLines` is the loop of the older `write_header`;
  - `Files.ApresFile.ReadStep`, `Append` and `ReadNext` are the body of `read`'s loop;
  - `WriteHeaderOf`, `WriteDataOf`, `WriteBurst`, `WriteListed`, `WriteChosen`, `WriteLoop`, `WriteBursts`, `ReadWriteAll` and `WriteAll` are parts of `to_apres_dat`.
