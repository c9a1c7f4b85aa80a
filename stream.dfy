/** The input of a reader: the bytes of a file with a read position, as a
    binary file object offers them (readline, read, seek, tell), and the
    scan of a burst's text header from a starting offset. */
module ByteStream {
  import opened Base
  import opened Text

  /** The newline byte that ends a line. */
  const Newline: byte := 10

  /** The text a line has to begin with to close a header. */
  const EndOfHeader: string := "*** End Header"

  /** The offset just past the line starting at p: past its newline, or the
      end of the bytes when no newline follows. */
  function LineEnd(bs: seq<byte>, p: nat): (e: nat)
    ensures p <= |bs| ==> p <= e <= |bs|
    ensures p >= |bs| ==> e == p
    decreases |bs| - p
  {
    if p >= |bs| then p
    else if bs[p] == Newline then p + 1
    else LineEnd(bs, p + 1)
  }

  /** readline() at offset p: empty exactly at the end of the bytes. */
  function LineAt(bs: seq<byte>, p: nat): (line: seq<byte>)
    ensures p < |bs| <==> line != []
    ensures p < |bs| ==> line == bs[p..LineEnd(bs, p)]
  {
    if p >= |bs| then [] else bs[p..LineEnd(bs, p)]
  }

  /** A line holds a newline only as its last byte, and it has one there
      unless it runs to the end of the bytes. */
  lemma {:induction false} LineEndShape(bs: seq<byte>, p: nat)
    requires p < |bs|
    ensures p < LineEnd(bs, p)
    ensures forall i :: p <= i < LineEnd(bs, p) - 1 ==> bs[i] != Newline
    ensures LineEnd(bs, p) < |bs| ==> bs[LineEnd(bs, p) - 1] == Newline
    decreases |bs| - p
  {
    if bs[p] != Newline && p + 1 < |bs| {
      LineEndShape(bs, p + 1);
    }
  }

  /** The lines read for a header and where reading stopped: the data
      offset (-1 when the input ended first) and the read position. */
  datatype Scan = Scan(lines: seq<string>, dataStart: int, next: nat)

  /** read_header_lines from offset p: every line read is kept right-trimmed;
      a line beginning with the end-of-header text stops the scan and the
      data starts right after it; at the end of the input the empty line
      read there is kept as well (its right-trimmed form is empty) and there
      is no data offset. */
  function ScanHeader(bs: seq<byte>, p: nat): (r: Scan)
    ensures r.lines != []
    ensures r.dataStart == -1 || p < r.dataStart == r.next <= |bs|
    decreases |bs| - p
  {
    if p >= |bs| then Scan([""], -1, p)
    else
      var e := LineEnd(bs, p);
      var text := Latin1Decode(bs[p..e]);
      if StartsWith(text, EndOfHeader) then Scan([RStrip(text)], e, e)
      else
        var rest := ScanHeader(bs, e);
        Scan([RStrip(text)] + rest.lines, rest.dataStart, rest.next)
  }

  /** One step of the scan, told in terms of the line readline() returns
      at p. */
  lemma ScanHeaderStep(bs: seq<byte>, p: nat, line: seq<byte>)
    requires line == LineAt(bs, p)
    ensures line == [] ==> ScanHeader(bs, p) == Scan([""], -1, p)
    ensures line != [] && StartsWith(Latin1Decode(line), EndOfHeader) ==>
              ScanHeader(bs, p) == Scan([RStrip(Latin1Decode(line))], p + |line|, p + |line|)
    ensures line != [] && !StartsWith(Latin1Decode(line), EndOfHeader) ==>
              var rest := ScanHeader(bs, p + |line|);
              ScanHeader(bs, p) == Scan([RStrip(Latin1Decode(line))] + rest.lines, rest.dataStart, rest.next)
  {
    if p < |bs| {
      assert p + |line| == LineEnd(bs, p);
    }
  }

  /** Without an end-of-header line the scan reads to the end of the input. */
  lemma {:induction false} ScanHeaderEnds(bs: seq<byte>, p: nat)
    requires p <= |bs|
    ensures var r := ScanHeader(bs, p);
            r.dataStart == -1 ==> r.next == |bs|
    decreases |bs| - p
  {
    if p < |bs| {
      var e := LineEnd(bs, p);
      if !StartsWith(Latin1Decode(bs[p..e]), EndOfHeader) {
        ScanHeaderEnds(bs, e);
      }
    }
  }

  /** ... and then keeps the empty line read at the end as its last line. */
  lemma {:induction false} ScanHeaderLast(bs: seq<byte>, p: nat)
    requires p <= |bs|
    ensures var r := ScanHeader(bs, p);
            r.dataStart == -1 ==> r.lines[|r.lines| - 1] == ""
    decreases |bs| - p
  {
    if p < |bs| {
      var e := LineEnd(bs, p);
      var text := Latin1Decode(bs[p..e]);
      if !StartsWith(text, EndOfHeader) {
        ScanHeaderLast(bs, e);
        var rest := ScanHeader(bs, e);
        assert ScanHeader(bs, p).lines == [RStrip(text)] + rest.lines;
      }
    }
  }

  /** A line runs up to the first newline byte after its start. */
  lemma {:induction false} LineEndAt(bs: seq<byte>, p: nat, e: nat)
    requires p <= e < |bs| && bs[e] == Newline
    requires forall i :: p <= i < e ==> bs[i] != Newline
    ensures LineEnd(bs, p) == e + 1
    decreases e - p
  {
    if p < e {
      LineEndAt(bs, p + 1, e);
    }
  }

  /** A header line as the scan keeps it: nothing left for rstrip(), no
      newline inside, every character Latin-1. */
  predicate CleanLine(l: string) {
    RStrip(l) == l && forall i :: 0 <= i < |l| ==> l[i] != '\n' && l[i] as int < 256
  }

  /** The lines of a header that was closed: all clean, and only the last
      begins with the end-of-header text. */
  predicate ClosedHeader(lines: seq<string>) {
    && lines != []
    && (forall i :: 0 <= i < |lines| ==> CleanLine(lines[i]))
    && (forall i :: 0 <= i < |lines| - 1 ==> !StartsWith(lines[i], EndOfHeader))
    && StartsWith(lines[|lines| - 1], EndOfHeader)
  }

  /** Right-trimming a line does not change whether it closes the header:
      the end-of-header text ends in a non-blank. */
  lemma RStripEndTest(text: string)
    ensures StartsWith(RStrip(text), EndOfHeader) <==> StartsWith(text, EndOfHeader)
  {
    RStripSpec(text);
    var r := RStrip(text);
    var n := |EndOfHeader|;
    if StartsWith(text, EndOfHeader) {
      assert text[n - 1] == 'r' && !IsSpace('r');
      assert |r| >= n;
      assert r[..n] == text[..n];
    } else if |r| >= n {
      assert r[..n] == text[..n];
    }
  }

  /** What the scan keeps of a line is clean. */
  lemma KeptLineClean(bs: seq<byte>, p: nat)
    requires p < |bs|
    ensures CleanLine(RStrip(Latin1Decode(bs[p..LineEnd(bs, p)])))
  {
    var e := LineEnd(bs, p);
    var text := Latin1Decode(bs[p..e]);
    LineEndShape(bs, p);
    RStripSpec(text);
    RStripIdempotent(text);
    var r := RStrip(text);
    forall i | 0 <= i < |r|
      ensures r[i] != '\n' && r[i] as int < 256
    {
      assert r[i] == text[i] == bs[p + i] as char;
      if i < |text| - 1 {
        assert bs[p + i] != Newline;
      }
    }
  }

  /** A clean line that does not close the header, put before a closed
      header. */
  lemma ClosedCons(x: string, rest: seq<string>)
    requires CleanLine(x) && !StartsWith(x, EndOfHeader) && ClosedHeader(rest)
    ensures ClosedHeader([x] + rest)
  {
    var lines := [x] + rest;
    assert forall i :: 1 <= i < |lines| ==> lines[i] == rest[i - 1];
  }

  /** A scan that found the end of the header returns clean lines of which
      only the last closes the header. */
  lemma {:induction false} ScanClosed(bs: seq<byte>, p: nat)
    ensures ScanHeader(bs, p).dataStart != -1 ==> ClosedHeader(ScanHeader(bs, p).lines)
    decreases |bs| - p
  {
    if p < |bs| {
      var e := LineEnd(bs, p);
      var text := Latin1Decode(bs[p..e]);
      KeptLineClean(bs, p);
      RStripEndTest(text);
      if !StartsWith(text, EndOfHeader) {
        ScanClosed(bs, e);
        var rest := ScanHeader(bs, e);
        if rest.dataStart != -1 {
          ClosedCons(RStrip(text), rest.lines);
        }
      }
    }
  }

  /** A readable, seekable binary input. The bytes never change; the
      position is shared by every burst read from it. */
  class Stream {
    const bytes: seq<byte>
    var pos: nat

    constructor (bs: seq<byte>)
      ensures bytes == bs && pos == 0
    {
      bytes := bs;
      pos := 0;
    }

    /** tell() */
    function Tell(): nat
      reads this
    {
      pos
    }

    /** seek(offset, 0): a negative offset is refused and the position
        stays. */
    method Seek(offset: int) returns (st: Status)
      modifies this`pos
      ensures offset < 0 ==> st == Raised(NegativeSeek(offset)) && pos == old(pos)
      ensures offset >= 0 ==> st == Ok && pos == offset
    {
      if offset < 0 {
        return Raised(NegativeSeek(offset));
      }
      pos := offset;
      return Ok;
    }

    /** readline(): the bytes up to and including the next newline, or up to
        the end; the position moves past them. */
    method ReadLine() returns (line: seq<byte>)
      modifies this`pos
      ensures line == LineAt(bytes, old(pos))
      ensures pos == old(pos) + |line|
    {
      if pos >= |bytes| {
        return [];
      }
      var e := pos;
      while e < |bytes| && bytes[e] != Newline
        invariant pos <= e <= |bytes|
        invariant LineEnd(bytes, e) == LineEnd(bytes, pos)
        decreases |bytes| - e
      {
        e := e + 1;
      }
      if e < |bytes| {
        e := e + 1;
      }
      line := bytes[pos..e];
      pos := e;
    }

    /** read(n): at most n bytes from the position on; fewer at the end. */
    method Read(n: nat) returns (r: seq<byte>)
      modifies this`pos
      ensures r == Available(bytes, old(pos), n)
      ensures pos == old(pos) + |r|
    {
      if pos >= |bytes| {
        return [];
      }
      var e := if pos + n <= |bytes| then pos + n else |bytes|;
      r := bytes[pos..e];
      pos := e;
    }
  }

  /** The bytes read(n) returns at offset p. */
  function Available(bs: seq<byte>, p: nat, n: nat): (r: seq<byte>)
    ensures |r| <= n
    ensures p + n <= |bs| ==> r == bs[p..p + n]
    ensures p + n > |bs| ==> r == if p <= |bs| then bs[p..] else []
  {
    if p >= |bs| then []
    else if p + n <= |bs| then bs[p..p + n]
    else bs[p..]
  }
  /** The bytes that follow a prefix, asked for in full, are all there. */
  lemma AvailableAfter(pre: seq<byte>, body: seq<byte>)
    ensures Available(pre + body, |pre|, |body|) == body
  {
    assert (pre + body)[|pre|..|pre| + |body|] == body;
  }


  /** A binary output: the bytes written so far. */
  class Sink {
    var bytes: seq<byte>

    constructor ()
      ensures bytes == []
    {
      bytes := [];
    }

    /** write(b) */
    method Write(b: seq<byte>)
      modifies this
      ensures bytes == old(bytes) + b
    {
      bytes := bytes + b;
    }
  }
}
