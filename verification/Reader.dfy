/**
 * Reading records from a stream through a buffer.  However the stream arrives, the records
 * returned are those found in the whole stream.
 */
module Reader {
  import opened Wrappers
  import opened Bytes
  import opened PackData
  import opened Record3
  import opened Unpack3
  import opened Detect

  /** The flags of a call, and which records a caller selects (None: all). */
  datatype Options = Options(unpackData: bool, validateCrc: bool, skipNotData: bool, select: Option<Unpacked -> bool>)

  /** What msr3_parse makes of a buffer: a record, an error, or how many bytes more it needs. */
  datatype Parsing = Parsed(u: Unpacked, reclen: nat) | Failed(error: Error) | More(n: nat)

  /** The flags that parsing gets: with selections the data is not unpacked yet. */
  function ParseData(o: Options): bool {
    o.unpackData && o.select.None?
  }

  /** The length of the record that begins here, not cut to 32 bits. */
  function Sum3(bs: seq<Byte>): nat
    requires |bs| >= MINRECLEN
  {
    HEADER_LENGTH + bs[33] as int + Bytes.Number(bs, 34, 2) + Bytes.Number(bs, 36, 4)
  }

  /** The buffer begins with no version 2 record; a version 3 record gives a length that fits 32 bits. */
  predicate Version3(bs: seq<Byte>)
    requires |bs| >= MINRECLEN
  {
    if ValidHeader3(bs) then Sum3(bs) < 0x1_0000_0000 else !ValidHeader2(bs)
  }

  /** msr3_parse on such a buffer */
  function Parse(bs: seq<Byte>, o: Options): (p: Parsing)
    requires |bs| >= MINRECLEN && Version3(bs)
    ensures p.Parsed? ==> MINRECLEN <= p.reclen <= |bs| && Framed(bs[..p.reclen]) && p.u.datalength <= p.reclen
  {
    hide Detected, Framed, Sum3, Length3, ValidHeader2, ValidHeader3, Version3;
    Detects3(bs);
    var (reclen, version) := Detected(bs, |bs|);
    if reclen < 0 then Failed(NotSeed)
    else if reclen == 0 then More(MINRECLEN)
    else if reclen < MINRECLEN || reclen > MAXRECLEN then Failed(OutOfRange)
    else if reclen > |bs| then More(reclen - |bs|)
    else
      FramedPrefix(bs);
      ParseRecord(bs[..reclen], o)
  }

  function ParseRecord(record: seq<Byte>, o: Options): (p: Parsing)
    requires Framed(record)
    ensures p.Parsed? ==> p.reclen == |record| && p.u.datalength <= p.reclen
    ensures !p.More?
  {
    hide Framed, Unpack;
    match Unpack(record, ParseData(o), o.validateCrc)
    case Ok(u) => Parsed(u, |record|)
    case Err(e) => Failed(e)
  }

  /** Detection on such a buffer does not look behind it. */
  lemma Detects3(bs: seq<Byte>)
    requires |bs| >= MINRECLEN && Version3(bs)
    ensures Enough(bs, |bs|) && Detected(bs, |bs|) == if ValidHeader3(bs) then (Length3(bs), 3) else (-1, 0)
  {
    hide Length3, Sum3, ValidHeader2, ValidHeader3;
  }

  /** The fixed header decides on the length. */
  lemma SameHeader(bs: seq<Byte>, cs: seq<Byte>)
    requires |bs| >= MINRECLEN && |cs| >= MINRECLEN && Same(bs, cs, 0, MINRECLEN)
    ensures Sum3(bs) == Sum3(cs) && Length3(bs) == Length3(cs) && ValidHeader3(bs) == ValidHeader3(cs)
    ensures ValidHeader2(bs) == ValidHeader2(cs)
  {
    hide Bytes.Number, SequenceByte;
    NumberSame(bs, cs, 34, 2);
    NumberSame(bs, cs, 36, 4);
  }

  lemma Length3Is(bs: seq<Byte>)
    requires |bs| >= MINRECLEN && Sum3(bs) < 0x1_0000_0000
    ensures Length3(bs) == if Sum3(bs) < 0x8000_0000 then Sum3(bs) else Sum3(bs) - 0x1_0000_0000
    ensures Sum3(bs) >= MINRECLEN && (Framed(bs) <==> |bs| == Sum3(bs))
  {
    hide Bytes.Number;
  }

  lemma FramedPrefix(bs: seq<Byte>)
    requires |bs| >= MINRECLEN && Version3(bs) && ValidHeader3(bs) && MINRECLEN <= Length3(bs) <= |bs|
    ensures Framed(bs[..Length3(bs)])
  {
    hide ValidHeader3, ValidHeader2, Length3, Framed, Sum3;
    Length3Is(bs);
    SameHeader(bs, bs[..Length3(bs)]);
    Length3Is(bs[..Length3(bs)]);
  }

  /** Records of 40 to 131172 bytes are parsed. */
  lemma LengthsParsed(bs: seq<Byte>, o: Options)
    requires |bs| >= MINRECLEN && Version3(bs)
    ensures ValidHeader3(bs) && (0 < Length3(bs) < 40 || Length3(bs) > 131172) ==> Parse(bs, o) == Failed(OutOfRange)
    ensures ValidHeader3(bs) && |bs| < Length3(bs) <= 131172 && 40 <= Length3(bs) ==> Parse(bs, o) == More(Length3(bs) - |bs|)
    ensures !ValidHeader3(bs) ==> Parse(bs, o) == Failed(NotSeed)
  {
    hide ValidHeader3, Length3, Version3, Framed, Detected;
    Detects3(bs);
  }

  /** What parsing finds does not depend on how much of the stream is in the buffer, once the record is. */
  lemma ParsePrefix(bs: seq<Byte>, more: seq<Byte>, o: Options)
    requires MINRECLEN <= |bs| <= |more| && more[..|bs|] == bs && Version3(more)
    ensures Version3(bs)
    ensures Parse(bs, o).More? || Parse(bs, o) == Parse(more, o)
    ensures Parse(bs, o).More? ==> |bs| < |bs| + Parse(bs, o).n == Length3(more) <= MAXRECLEN
  {
    hide ValidHeader3, ValidHeader2, Length3, Framed, Sum3, Unpack, ParseData, Detected;
    assert forall k | 0 <= k < |bs| :: more[..|bs|][k] == more[k];
    SameHeader(bs, more);
    Detects3(bs);
    Detects3(more);
    if ValidHeader3(bs) {
      Length3Is(bs);
      if MINRECLEN <= Length3(bs) <= |bs| {
        SliceOfSlice(more, 0, |bs|, 0, Length3(bs));
      }
    }
  }

  // -------------------------------------------------------------------- the whole stream

  /** What a call returns: a record, where it is and where the next one is looked for; the end; or an error. */
  datatype Outcome = Record(u: Unpacked, fpos: nat, next: nat) | EndOfFile | Stopped(error: Error)

  predicate Selected(o: Options, u: Unpacked) {
    o.select.Some? ==> o.select.value(u)
  }

  /** A selected record, its data unpacked if that was put off. */
  function Taken(record: seq<Byte>, u: Unpacked, p: nat, o: Options): (x: Outcome)
    requires Framed(record) && u.datalength <= |record|
    ensures x.Record? ==> x.next == p + |record|
  {
    if o.unpackData && !ParseData(o) && u.samplecnt > 0 then
      match UnpackData(record, u)
      case Err(_) => Stopped(GenError)
      case Ok(data) => if Size(data) != u.samplecnt then Stopped(GenError) else Record(u.(data := Some(data)), p, p + |record|)
    else Record(u, p, p + |record|)
  }

  /** What to do about what is parsed at p: return it, skip some bytes, or wait for more. */
  datatype Look = Found(outcome: Outcome) | Skip(n: nat) | Wait(n: nat)

  function LookAt(bs: seq<Byte>, p: nat, o: Options): (l: Look)
    requires |bs| >= MINRECLEN && Version3(bs)
    ensures l.Skip? ==> 0 < l.n <= |bs|
    ensures l.Found? && l.outcome.Record? ==> p < l.outcome.next <= p + |bs|
  {
    hide Framed, Version3, Taken, Parse;
    match Parse(bs, o)
    case Parsed(u, reclen) => if Selected(o, u) then Found(Taken(bs[..reclen], u, p, o)) else Skip(reclen)
    case Failed(e) => if o.skipNotData then Skip(1) else Found(Stopped(e))
    case More(n) => Wait(n)
  }

  /** From p on no version 2 record is met on the way through the stream. */
  predicate Clean(stream: seq<Byte>, p: nat, o: Options)
    requires p <= |stream|
    decreases |stream| - p
  {
    hide LookAt, Version3;
    |stream| - p < MINRECLEN ||
    (Version3(stream[p..]) &&
     match LookAt(stream[p..], p, o)
     case Found(outcome) => outcome.Record? ==> Clean(stream, outcome.next, o)
     case Skip(n) => Clean(stream, p + n, o)
     case Wait(_) => true)
  }

  lemma CleanSkips(stream: seq<Byte>, p: nat, o: Options)
    requires p <= |stream| && Clean(stream, p, o) && MINRECLEN <= |stream| - p
    ensures Version3(stream[p..])
    ensures var look := LookAt(stream[p..], p, o);
            && (look.Skip? ==> look.n <= |stream| - p && Clean(stream, p + look.n, o))
            && (look.Found? && look.outcome.Record? ==> look.outcome.next <= |stream| && Clean(stream, look.outcome.next, o))
  {
    hide LookAt, Version3;
  }

  /**
   * What a call finds in the whole stream from p on; `count` records have been returned before.
   * (A stream that is not clean is of no interest here.)
   */
  function Next(stream: seq<Byte>, p: nat, count: nat, o: Options): Outcome
    requires p <= |stream|
    decreases |stream| - p
  {
    if |stream| - p < MINRECLEN then (if count == 0 then Stopped(NotSeed) else EndOfFile)
    else if !Version3(stream[p..]) then EndOfFile
    else
      match LookAt(stream[p..], p, o)
      case Found(outcome) => outcome
      case Skip(n) => Next(stream, p + n, count, o)
      case Wait(_) => EndOfFile
  }

  lemma {:induction false} NextIsClean(stream: seq<Byte>, p: nat, count: nat, o: Options)
    requires p <= |stream| && Clean(stream, p, o)
    ensures var x := Next(stream, p, count, o); x.Record? ==> p < x.next <= |stream| && Clean(stream, x.next, o)
    decreases |stream| - p
  {
    hide LookAt, Version3;
    if |stream| - p >= MINRECLEN && LookAt(stream[p..], p, o).Skip? {
      NextIsClean(stream, p + LookAt(stream[p..], p, o).n, count, o);
    }
  }

  lemma NextStep(stream: seq<Byte>, p: nat, count: nat, o: Options)
    requires p <= |stream| && Clean(stream, p, o)
    ensures Next(stream, p, count, o) ==
            if |stream| - p < MINRECLEN then (if count == 0 then Stopped(NotSeed) else EndOfFile)
            else match LookAt(stream[p..], p, o)
              case Found(outcome) => outcome
              case Skip(n) => Next(stream, p + n, count, o)
              case Wait(_) => EndOfFile
  {
    hide LookAt, Version3;
  }

  /** With fewer than 40 bytes left a call reports the end, or, before any record, that there is no data. */
  lemma NothingLeft(stream: seq<Byte>, p: nat, count: nat, o: Options)
    requires p <= |stream| < p + 40
    ensures Next(stream, p, count, o) == if count == 0 then Stopped(NotSeed) else EndOfFile
  {}

  /** A record that is not selected is passed over, whatever its payload. */
  lemma SelectionSkips(stream: seq<Byte>, p: nat, count: nat, o: Options, reclen: nat, u: Unpacked)
    requires p + 40 <= |stream| && Version3(stream[p..]) && ValidHeader3(stream[p..])
    requires Length3(stream[p..]) == reclen && 40 <= reclen <= 131172 && p + reclen <= |stream| && Framed(stream[p..][..reclen])
    requires Unpack(stream[p..][..reclen], false, o.validateCrc) == Ok(u) && o.select.Some? && !o.select.value(u)
    ensures Next(stream, p, count, o) == Next(stream, p + reclen, count, o)
  {
    hide Parse, Version3, Unpack, Framed, Length3, ValidHeader3;
    ParsesRecord(stream[p..], o, reclen, u);
  }

  lemma ParsesRecord(bs: seq<Byte>, o: Options, reclen: nat, u: Unpacked)
    requires |bs| >= MINRECLEN && Version3(bs) && ValidHeader3(bs)
    requires Length3(bs) == reclen && MINRECLEN <= reclen <= MAXRECLEN && reclen <= |bs| && Framed(bs[..reclen])
    requires o.select.Some? && Unpack(bs[..reclen], false, o.validateCrc) == Ok(u)
    ensures Parse(bs, o) == Parsed(u, reclen)
  {
    hide Version3, Unpack, Framed, Length3, ValidHeader3, Detected;
    Detects3(bs);
  }

  /** A record that is returned has its data exactly if that was asked for and it has samples. */
  lemma {:induction false} DataAsAsked(stream: seq<Byte>, p: nat, count: nat, o: Options)
    requires p <= |stream|
    ensures var x := Next(stream, p, count, o); x.Record? ==> (x.u.data.Some? <==> o.unpackData && x.u.samplecnt > 0)
    decreases |stream| - p
  {
    hide LookAt, Version3;
    if |stream| - p >= MINRECLEN && Version3(stream[p..]) {
      LookHasData(stream[p..], p, o);
      if LookAt(stream[p..], p, o).Skip? {
        DataAsAsked(stream, p + LookAt(stream[p..], p, o).n, count, o);
      }
    }
  }

  lemma LookHasData(bs: seq<Byte>, p: nat, o: Options)
    requires |bs| >= MINRECLEN && Version3(bs)
    ensures var look := LookAt(bs, p, o);
            look.Found? && look.outcome.Record? ==> (look.outcome.u.data.Some? <==> o.unpackData && look.outcome.u.samplecnt > 0)
  {
    hide Framed, Version3, Detected, UnpackData, Unpack;
    ParsedHasData(bs, o);
    hide Parse;
  }

  lemma ParsedHasData(bs: seq<Byte>, o: Options)
    requires |bs| >= MINRECLEN && Version3(bs)
    ensures var x := Parse(bs, o); x.Parsed? ==> (x.u.data.Some? <==> ParseData(o) && x.u.samplecnt > 0)
  {
    hide Framed, Version3, Detected, UnpackData, ValidHeader3, Length3, Sum3;
    Detects3(bs);
    var (reclen, version) := Detected(bs, |bs|);
    if 40 <= reclen <= |bs| {
      FramedPrefix(bs);
      UnpackedHasData(bs[..reclen], ParseData(o), o.validateCrc);
      hide Unpack;
    }
  }

  lemma UnpackedHasData(bs: seq<Byte>, unpackData: bool, validateCrc: bool)
    requires Framed(bs)
    ensures var r := Unpack(bs, unpackData, validateCrc); r.Ok? ==> (r.value.data.Some? <==> unpackData && r.value.samplecnt > 0)
  {
    hide Framed, UnpackData, ValidHeader3, Bytes.Number, WithoutCrc;
  }

  /** Nothing that could be parsed begins at any place from p up to q. */
  predicate Noise(stream: seq<Byte>, p: nat, q: nat, o: Options)
    requires p <= q <= |stream|
  {
    forall i: nat | p <= i < q :: NoiseAt(stream, i, o)
  }

  predicate NoiseAt(stream: seq<Byte>, i: nat, o: Options) {
    i + MINRECLEN <= |stream| && Version3(stream[i..]) && Parse(stream[i..], o).Failed?
  }

  /** When asked to skip what is no data, a call finds what is behind any noise, whatever its length. */
  lemma {:induction false} NoiseIsSkipped(stream: seq<Byte>, p: nat, q: nat, count: nat, o: Options)
    requires p <= q <= |stream| && o.skipNotData && Noise(stream, p, q, o)
    ensures Next(stream, p, count, o) == Next(stream, q, count, o)
    decreases q - p
  {
    hide Parse, Version3;
    if p < q {
      assert NoiseAt(stream, p, o);
      NoiseIsSkipped(stream, p + 1, q, count, o);
    }
  }

  /** Otherwise it stops there with its error. */
  lemma NoiseStops(stream: seq<Byte>, p: nat, q: nat, count: nat, o: Options)
    requires p < q <= |stream| && !o.skipNotData && Noise(stream, p, q, o)
    ensures NoiseAt(stream, p, o) && Next(stream, p, count, o) == Stopped(Parse(stream[p..], o).error)
  {
    hide Parse, Version3;
    assert NoiseAt(stream, p, o);
  }

  /** What is looked at does not depend on how much of the stream is in the buffer. */
  lemma LookPrefix(bs: seq<Byte>, more: seq<Byte>, p: nat, o: Options)
    requires MINRECLEN <= |bs| <= |more| && more[..|bs|] == bs && Version3(more)
    ensures Version3(bs)
    ensures LookAt(bs, p, o).Wait? || LookAt(bs, p, o) == LookAt(more, p, o)
    ensures LookAt(bs, p, o).Wait? ==> |bs| < |bs| + LookAt(bs, p, o).n == Length3(more) <= MAXRECLEN
  {
    hide Framed, UnpackData, Length3, Unpack, ValidHeader3, ValidHeader2, Version3, Parse, Taken;
    ParsePrefix(bs, more, o);
    if Parse(bs, o).Parsed? {
      var n := Parse(bs, o).reclen;
      assert more[..n] == more[..|bs|][..n];
    }
  }

  // -------------------------------------------------------------------------- the buffer

  /** A stream that arrives in pieces of any size. */
  class Input {
    const stream: seq<Byte>
    var at: nat
    var eof: bool

    ghost predicate Valid()
      reads this
    {
      at <= |stream| && (eof ==> at == |stream|)
    }

    constructor (stream: seq<Byte>)
      ensures Valid() && this.stream == stream && at == 0 && !eof
    {
      this.stream, at, eof := stream, 0, false;
    }

    /** msio_fread: at least one byte unless the stream is at its end, which may be noticed late. */
    method Read(size: nat) returns (bytes: seq<Byte>)
      requires Valid() && size > 0
      modifies this`at, this`eof
      ensures Valid() && at == old(at) + |bytes| && bytes == stream[old(at)..at] && |bytes| <= size
      ensures old(at) < at || eof
    {
      var rest := |stream| - at;
      var count: nat :| count <= rest && count <= size && (count == 0 ==> rest == 0);
      bytes := stream[at..at + count];
      at := at + count;
      var noticed: bool :| true;
      eof := at == |stream| && (noticed || count == 0);
    }
  }

  lemma SlicesJoin(s: seq<Byte>, a: nat, b: nat, c: nat)
    requires a <= b <= c <= |s|
    ensures s[a..b] + s[b..c] == s[a..c]
  {}

  class MS3FileParam {
    const readbuffer: array<Byte>
    var readlength: nat
    var readoffset: nat
    var streampos: nat
    var recordcount: nat
    const input: Input

    /** The buffer holds the part of the stream that was read last; reading goes on at streampos. */
    ghost predicate Valid()
      reads this, readbuffer, input
    {
      && input.Valid() && readbuffer.Length == MAXRECLEN
      && readoffset <= readlength <= MAXRECLEN && readlength <= input.at
      && streampos + (readlength - readoffset) == input.at
      && readbuffer[..readlength] == input.stream[input.at - readlength..input.at]
    }

    constructor (input: Input)
      requires input.Valid() && input.at == 0
      ensures Valid() && fresh(readbuffer) && this.input == input && streampos == 0 && recordcount == 0
    {
      this.input := input;
      readbuffer := new Byte[MAXRECLEN];
      readlength, readoffset, streampos, recordcount := 0, 0, 0, 0;
    }

    /** ms3_shift_msfp */
    method Shift(shift: nat)
      requires Valid() && 0 < shift <= readoffset
      modifies this`readlength, this`readoffset, this`streampos, readbuffer
      ensures Valid() && readlength == old(readlength) - shift && readoffset == old(readoffset) - shift && streampos == old(streampos)
    {
      ghost var was := readbuffer[..readlength];
      forall k | 0 <= k < readlength - shift {
        readbuffer[k] := readbuffer[k + shift];
      }
      readlength := readlength - shift;
      assert readbuffer[..readlength] == was[shift..];
      if shift < readoffset {
        readoffset := readoffset - shift;
      } else {
        streampos := streampos + (shift - readoffset);
        readoffset := 0;
      }
    }

    /** Make room at the end of the buffer: forget it when all of it is processed, shift it otherwise. */
    method MakeRoom()
      requires Valid()
      modifies this`readlength, this`readoffset, this`streampos, readbuffer
      ensures Valid() && streampos == old(streampos) && readoffset == 0 && readlength == old(readlength - readoffset)
    {
      if readlength - readoffset <= 0 {
        readlength, readoffset := 0, 0;
      } else if readoffset > 0 {
        Shift(readoffset);
      }
    }

    /** Read more data into the buffer. */
    method Fill()
      requires Valid() && readlength - readoffset < MAXRECLEN && !input.eof
      modifies this`readlength, this`readoffset, this`streampos, readbuffer, input`at, input`eof
      ensures Valid() && streampos == old(streampos) && (old(input.at) < input.at || input.eof)
    {
      MakeRoom();
      var readsize := MAXRECLEN - readlength;
      var readcount := ReadInto(readsize);
      readlength := readlength + readcount;
    }

    /** msio_fread behind the data in the buffer. */
    method ReadInto(readsize: nat) returns (readcount: nat)
      requires Valid() && 0 < readsize == MAXRECLEN - readlength
      modifies readbuffer, input`at, input`eof
      ensures input.Valid() && readcount <= readsize && input.at == old(input.at) + readcount && (readcount > 0 || input.eof)
      ensures readbuffer[..readlength + readcount] == input.stream[input.at - readlength - readcount..input.at]
    {
      ghost var was, at := readbuffer[..readlength], input.at;
      var bytes := input.Read(readsize);
      readcount := |bytes|;
      forall k | 0 <= k < readcount {
        readbuffer[readlength + k] := bytes[k];
      }
      assert readbuffer[..readlength + readcount] == was + bytes;
      SlicesJoin(input.stream, at - readlength, at, input.at);
    }

    /** The unread part of the buffer is the beginning of what is left of the stream. */
    lemma BufferIsStream()
      requires Valid()
      ensures streampos <= |input.stream| && readlength - readoffset <= |input.stream| - streampos
      ensures input.stream[streampos..][..readlength - readoffset] == readbuffer[readoffset..readlength]
    {
      assert readbuffer[readoffset..readlength] == readbuffer[..readlength][readoffset..];
    }

    /** msr3_parse on n bytes of the buffer from `at` on, which begin with no version 2 record. */
    method MsrParse(at: nat, n: nat, o: Options, address: nat) returns (p: Parsing)
      requires at + n <= readbuffer.Length && n >= MINRECLEN && Version3(readbuffer[at..at + n])
      modifies readbuffer
      ensures readbuffer[..] == old(readbuffer[..]) && p == Parse(readbuffer[at..at + n], o)
    {
      hide Unpack, ValidHeader3, ValidHeader2, Framed, Detected, Enough, Length3, Version3, ParseData;
      var bs := readbuffer[at..at + n];
      Detects3(bs);
      var reclen, version := MsDetect(bs, n);
      if reclen < 0 {
        return Failed(NotSeed);
      }
      if reclen == 0 {
        return More(MINRECLEN);
      }
      if reclen < MINRECLEN || reclen > MAXRECLEN {
        return Failed(OutOfRange);
      }
      if reclen > n {
        return More(reclen - n);
      }
      FramedPrefix(bs);
      SliceOfSlice(readbuffer[..], at, n, 0, reclen);
      ghost var was := readbuffer[..];
      var r := UnpackMseed3(readbuffer, at, reclen, ParseData(o), o.validateCrc, address);
      assert readbuffer[..] == was;
      assert readbuffer[at..at + n] == was[at..at + n] == bs;
      match r
      case Ok(u) => return Parsed(u, reclen);
      case Err(e) => return Failed(e);
    }

    /** Step over some bytes of the buffer. */
    method Advance(n: nat)
      requires Valid() && readoffset + n <= readlength
      modifies this`readoffset, this`streampos
      ensures Valid() && streampos == old(streampos) + n && readoffset == old(readoffset) + n
    {
      readoffset := readoffset + n;
      streampos := streampos + n;
    }

    /** What to do about the record or error at the reading position. */
    method LookAtBuffer(o: Options, address: nat) returns (look: Look)
      requires Valid() && readlength - readoffset >= MINRECLEN && Version3(readbuffer[readoffset..readlength])
      modifies readbuffer
      ensures readbuffer[..] == old(readbuffer[..]) && Valid()
      ensures look == LookAt(readbuffer[readoffset..readlength], streampos, o)
    {
      hide Parse, Framed, UnpackData, Version3, Taken, ParseData;
      ghost var bs := readbuffer[readoffset..readlength];
      ghost var was := readbuffer[..readlength];
      var parsing := MsrParse(readoffset, readlength - readoffset, o, address);
      assert readbuffer[..readlength] == was;
      assert readbuffer[readoffset..readlength] == bs;
      match parsing
      case Failed(e) => look := if o.skipNotData then Skip(1) else Found(Stopped(e));
      case More(n) => look := Wait(n);
      case Parsed(u, reclen) =>
        if !Selected(o, u) {
          look := Skip(reclen);
        } else {
          SliceOfSlice(readbuffer[..], readoffset, readlength - readoffset, 0, reclen);
          var outcome := TakeRecord(readbuffer[readoffset..readoffset + reclen], u, o);
          look := Found(outcome);
        }
    }

    /** Unpack the data of a record that is returned, if that was put off. */
    method TakeRecord(record: seq<Byte>, u: Unpacked, o: Options) returns (outcome: Outcome)
      requires Framed(record) && u.datalength <= |record|
      ensures outcome == Taken(record, u, streampos, o)
    {
      hide Framed, UnpackData;
      if o.unpackData && !ParseData(o) && u.samplecnt > 0 {
        var r := UnpackSamples(record, u);
        if r.Err? || Size(r.value) != u.samplecnt {
          outcome := Stopped(GenError);
        } else {
          outcome := Record(u.(data := Some(r.value)), streampos, streampos + |record|);
        }
      } else {
        outcome := Record(u, streampos, streampos + |record|);
      }
    }

    /** What there is to do in terms of the stream, or how much of the record is missing in the buffer. */
    method LookAtStream(o: Options, address: nat) returns (look: Look)
      requires Valid() && readlength - readoffset >= MINRECLEN && streampos + MINRECLEN <= |input.stream|
      requires Version3(input.stream[streampos..])
      modifies readbuffer
      ensures Valid()
      ensures look.Wait? ==> 0 < look.n <= MAXRECLEN - (readlength - readoffset)
      ensures !look.Wait? || input.eof ==> look == LookAt(input.stream[streampos..], streampos, o)
      ensures look.Skip? ==> readoffset + look.n <= readlength
      ensures look.Found? && look.outcome.Record? ==> streampos < look.outcome.next <= streampos + (readlength - readoffset)
    {
      hide LookAt, Version3, Length3;
      ghost var bs := readbuffer[readoffset..readlength];
      BufferIsStream();
      LookPrefix(bs, input.stream[streampos..], streampos, o);
      assert input.eof ==> bs == input.stream[streampos..];
      look := LookAtBuffer(o, address);
    }

    /** More data is known to be needed for the record at the reading position, and can be had. */
    ghost predicate Wanting(parseval: int)
      reads this, input
    {
      parseval > 0 ==> !input.eof && MINRECLEN <= readlength - readoffset < MAXRECLEN
    }

    /** One round of the reading loop: read more if needed, and look at what there is. */
    method Turn(o: Options, address: nat, parseval0: int) returns (done: bool, x: Outcome, parseval: int)
      requires Valid() && streampos <= |input.stream| && Clean(input.stream, streampos, o) && Wanting(parseval0)
      modifies this`readlength, this`readoffset, this`streampos, this`recordcount, readbuffer, input`at, input`eof
      ensures Valid() && streampos <= |input.stream|
      ensures done ==> x == Next(input.stream, old(streampos), old(recordcount), o)
      ensures done && x.Record? ==> streampos == x.next
      ensures done ==> recordcount == old(recordcount) + if x.Record? then 1 else 0
      ensures !done ==> recordcount == old(recordcount) && Clean(input.stream, streampos, o) && Wanting(parseval)
      ensures !done ==> Next(input.stream, streampos, recordcount, o) == Next(input.stream, old(streampos), old(recordcount), o)
      ensures !done ==> old(streampos) < streampos ||
                        (old(streampos) == streampos && (old(input.at) < input.at || (old(input.at) == input.at &&
                        ((input.eof && !old(input.eof)) || (input.eof == old(input.eof) && parseval > 0 >= parseval0)))))
    {
      hide LookAt, Version3, Clean, Next;
      if !input.eof && (readlength - readoffset < MINRECLEN || parseval0 > 0) {
        Fill();
      }
      done, x, parseval := Act(o, address, parseval0);
    }

    /** What follows the reading in a round of the loop. */
    method Act(o: Options, address: nat, parseval0: int) returns (done: bool, x: Outcome, parseval: int)
      requires Valid() && streampos <= |input.stream| && Clean(input.stream, streampos, o)
      requires readlength - readoffset < MINRECLEN ==> parseval0 <= 0
      modifies this`readoffset, this`streampos, this`recordcount, readbuffer
      ensures Valid() && streampos <= |input.stream|
      ensures done ==> x == Next(input.stream, old(streampos), old(recordcount), o)
      ensures done && x.Record? ==> streampos == x.next
      ensures done ==> recordcount == old(recordcount) + if x.Record? then 1 else 0
      ensures !done ==> recordcount == old(recordcount) && Clean(input.stream, streampos, o) && Wanting(parseval)
      ensures !done ==> Next(input.stream, streampos, recordcount, o) == Next(input.stream, old(streampos), old(recordcount), o)
      ensures !done ==> old(streampos) < streampos ||
                        (old(streampos) == streampos && if old(readlength - readoffset) < MINRECLEN then !input.eof && parseval <= 0 else parseval > 0)
    {
      hide LookAt, Version3, Clean, Next;
      done, x, parseval := false, EndOfFile, parseval0;
      NextStep(input.stream, streampos, recordcount, o);
      BufferIsStream();
      if readlength - readoffset >= MINRECLEN {
        done, x, parseval := ActOnLook(o, address);
      }
      if !done && input.eof && readlength - readoffset < MINRECLEN {
        NextStep(input.stream, streampos, recordcount, o);
        BufferIsStream();
        done, x := true, if recordcount == 0 then Stopped(NotSeed) else EndOfFile;
      }
    }

    /** What follows looking at the bytes at hand. */
    method ActOnLook(o: Options, address: nat) returns (done: bool, x: Outcome, parseval: int)
      requires Valid() && streampos + MINRECLEN <= |input.stream| && Clean(input.stream, streampos, o) && readlength - readoffset >= MINRECLEN
      modifies this`readoffset, this`streampos, this`recordcount, readbuffer
      ensures Valid() && streampos <= |input.stream|
      ensures done ==> x == Next(input.stream, old(streampos), old(recordcount), o)
      ensures done && x.Record? ==> streampos == x.next
      ensures done ==> recordcount == old(recordcount) + if x.Record? then 1 else 0
      ensures !done ==> recordcount == old(recordcount) && Clean(input.stream, streampos, o) && Wanting(parseval)
      ensures !done ==> Next(input.stream, streampos, recordcount, o) == Next(input.stream, old(streampos), old(recordcount), o)
      ensures !done ==> old(streampos) < streampos || (old(streampos) == streampos && parseval > 0)
    {
      hide LookAt, Version3, Clean, Next;
      done, x, parseval := false, EndOfFile, 0;
      NextStep(input.stream, streampos, recordcount, o);
      BufferIsStream();
      CleanSkips(input.stream, streampos, o);
      var look := LookAtStream(o, address);
      match look
      case Found(outcome) =>
        if outcome.Record? {
          Advance(outcome.next - streampos);
          recordcount := recordcount + 1;
        }
        done, x := true, outcome;
      case Skip(n) =>
        Advance(n);
      case Wait(n) =>
        parseval, done := n, input.eof;
    }

    /** ms3_readmsr_selection on an open stream: the next record, in whatever pieces the stream arrives. */
    method ReadRecord(o: Options, address: nat) returns (x: Outcome)
      requires Valid() && streampos <= |input.stream| && Clean(input.stream, streampos, o)
      modifies this`readlength, this`readoffset, this`streampos, this`recordcount, readbuffer, input`at, input`eof
      ensures Valid() && streampos <= |input.stream| && x == Next(input.stream, old(streampos), old(recordcount), o)
      ensures x.Record? ==> streampos == x.next && Clean(input.stream, streampos, o)
      ensures recordcount == old(recordcount) + if x.Record? then 1 else 0
    {
      hide Clean, Next;
      var parseval, done := 0, false;
      x := EndOfFile;
      ghost var p0, count := streampos, recordcount;
      NextIsClean(input.stream, p0, count, o);
      while !done
        invariant Valid() && streampos <= |input.stream|
        invariant !done ==> Clean(input.stream, streampos, o) && Wanting(parseval)
        invariant !done ==> recordcount == count && Next(input.stream, streampos, recordcount, o) == Next(input.stream, p0, count, o)
        invariant done ==> x == Next(input.stream, p0, count, o) && (x.Record? ==> streampos == x.next) && recordcount == count + if x.Record? then 1 else 0
        decreases !done, |input.stream| - streampos, |input.stream| - input.at, if input.eof then 0 else 1, if parseval > 0 then 0 else 1
      {
        done, x, parseval := Turn(o, address, parseval);
      }
    }
  }
}
