/** The older, blocking GPS front end of src/gps.rs: a sentence buffer that a `$` both
    completes and starts, and a classifier that labels each completed line. */
module Gps {
  import opened Common
  import opened Nmea

  /** Capacity of `sentence_buffer` and of the message, `heapless::String<128>`. */
  const BufferCap: nat := 128

  const OkLabel: Bytes := Ascii("[OK] ")
  const NoFixLabel: Bytes := Ascii("[NOFIX] ")
  const ErrLabel: Bytes := Ascii("[ERR] ")
  const BadLabel: Bytes := Ascii("[BAD] ")

  /** A position as the parser reports it. */
  datatype LatLonAlt = LatLonAlt(lat: Option<real>, lon: Option<real>, alt: Option<real>)

  /** What `read_and_parse` returns for one line. */
  datatype ParseOut = ParseOut(fix: Option<FixType>, line: Bytes, latLonAltitude: Option<LatLonAlt>)

  /** `get_pos`: latitude, longitude and altitude, unchanged. */
  function GetPos(st: NmeaState): (r: LatLonAlt)
    ensures r.lat == st.latitude && r.lon == st.longitude && r.alt == st.altitude
  {
    LatLonAlt(st.latitude, st.longitude, st.altitude)
  }

  /** A line worth giving to the parser: it starts with `$` and has a `*` somewhere. */
  predicate LooksLikeSentence(line: Bytes) {
    line != [] && line[0] == Dollar && Star in line
  }

  /** `parse_line`, with `nmea` the parser's report on `line`. It always has an answer. */
  function ParseLine(line: Bytes, nmea: NmeaReport): (r: Option<ParseOut>)
    ensures r.Some? && |r.value.line| <= BufferCap
    ensures !LooksLikeSentence(line) ==>
      r.value == ParseOut(None, Labelled(BadLabel, line, BufferCap), None)
    ensures LooksLikeSentence(line) && nmea.ParseOk? && nmea.state.fixType.Some? ==>
      r.value == ParseOut(nmea.state.fixType, Labelled(OkLabel, line, BufferCap), Some(GetPos(nmea.state)))
    ensures LooksLikeSentence(line) && nmea.ParseOk? && nmea.state.fixType.None? ==>
      r.value == ParseOut(None, Labelled(NoFixLabel, line, BufferCap), None)
    ensures LooksLikeSentence(line) && nmea.ParseErr? ==>
      r.value == ParseOut(None, Labelled(ErrLabel, line, BufferCap), None)
    ensures r.value.fix.Some? <==> r.value.latLonAltitude.Some?
  {
    if LooksLikeSentence(line) then
      match nmea
      case ParseOk(st) =>
        if st.fixType.Some? then
          Some(ParseOut(st.fixType, Labelled(OkLabel, line, BufferCap), Some(GetPos(st))))
        else
          Some(ParseOut(None, Labelled(NoFixLabel, line, BufferCap), None))
      case ParseErr =>
        Some(ParseOut(None, Labelled(ErrLabel, line, BufferCap), None))
    else
      Some(ParseOut(None, Labelled(BadLabel, line, BufferCap), None))
  }

  /** The buffers `read_and_parse` can hold: empty, or a `$` and what followed it. */
  predicate Shaped(buf: Bytes) {
    |buf| <= BufferCap && (buf == [] || buf[0] == Dollar)
  }

  /** What one byte does to the sentence buffer: the line it completes, if any. */
  datatype Absorbed = Absorbed(line: Option<Bytes>, buf: Bytes)

  /** One byte of the loop of `read_and_parse`. As written (`restart` false) a `$` that
      completes a line leaves the buffer empty; with `restart` it also starts the next line. */
  function Absorb(buf: Bytes, b: Byte, restart: bool): (r: Absorbed)
    ensures Shaped(buf) ==> Shaped(r.buf)
    ensures r.line.Some? <==> b == Dollar && buf != []
    ensures r.line.Some? ==> r.line.value == buf && r.buf == (if restart then [Dollar] else [])
    ensures b == Dollar && buf == [] ==> r.buf == [Dollar]
    ensures b == Cr ==> r.buf == buf
    ensures b != Dollar && buf == [] ==> r.buf == []
    ensures b != Dollar && b != Cr && buf != [] ==> r.buf == PushChar(buf, b, BufferCap)
  {
    if b == Dollar then
      if buf != [] then Absorbed(Some(buf), if restart then [Dollar] else [])
      else Absorbed(None, [Dollar])
    else if b == Cr then Absorbed(None, buf)
    else if buf != [] then Absorbed(None, PushChar(buf, b, BufferCap))
    else Absorbed(None, buf)
  }

  /** The outcome of reading bytes until a line completes or the source runs dry. */
  datatype ScanResult =
    | Completed(line: Bytes, consumed: nat, buf: Bytes)
    | Exhausted(buf: Bytes)

  /** The same outcome seen from `k` bytes earlier in the source. */
  function Later(r: ScanResult, k: nat): ScanResult {
    match r
    case Completed(line, n, buf) => Completed(line, n + k, buf)
    case Exhausted(buf) => r
  }

  /** Bytes of `source` are absorbed in order until one completes a line. */
  function Scan(buf: Bytes, source: Bytes, restart: bool): (r: ScanResult)
    ensures r.Completed? ==> 1 <= r.consumed <= |source| && source[r.consumed - 1] == Dollar
    ensures r.Completed? ==> r.buf == (if restart then [Dollar] else [])
    ensures Shaped(buf) ==> Shaped(r.buf)
    ensures Shaped(buf) && r.Completed? ==> Shaped(r.line) && r.line != []
    decreases |source|
  {
    if source == [] then Exhausted(buf)
    else
      var a := Absorb(buf, source[0], restart);
      if a.line.Some? then Completed(a.line.value, 1, a.buf)
      else Later(Scan(a.buf, source[1..], restart), 1)
  }

  lemma ScanStep(buf: Bytes, source: Bytes, i: nat, restart: bool)
    requires i < |source|
    requires Absorb(buf, source[i], restart).line.None?
    ensures Scan(buf, source[i..], restart)
         == Later(Scan(Absorb(buf, source[i], restart).buf, source[i + 1..], restart), 1)
  {
    assert source[i..][1..] == source[i + 1..];
  }

  lemma ScanCompletes(buf: Bytes, source: Bytes, i: nat)
    requires i < |source| && source[i] == Dollar && buf != []
    ensures Scan(buf, source[i..], false) == Completed(buf, 1, [])
  {
  }

  /** The loop invariant of `read_and_parse` carried over one byte that completes nothing. */
  lemma ScanAdvance(start: Bytes, buf: Bytes, next: Bytes, source: Bytes, i: nat, restart: bool)
    requires i < |source|
    requires Absorb(buf, source[i], restart) == Absorbed(None, next)
    requires Scan(start, source, restart) == Later(Scan(buf, source[i..], restart), i)
    ensures Scan(start, source, restart) == Later(Scan(next, source[i + 1..], restart), i + 1)
  {
    ScanStep(buf, source, i, restart);
    LaterLater(Scan(next, source[i + 1..], restart), 1, i);
  }

  lemma LaterLater(r: ScanResult, j: nat, k: nat)
    ensures Later(Later(r, j), k) == Later(r, j + k)
  {
  }

  /** Every line the scan hands to `parse_line` starts with `$`, so of the `[BAD]` guard only
      the test for a `*` can reject it. */
  lemma ScannedLineGuard(buf: Bytes, source: Bytes, restart: bool)
    requires Shaped(buf) && Scan(buf, source, restart).Completed?
    ensures var line := Scan(buf, source, restart).line;
      LooksLikeSentence(line) <==> Star in line
  {
  }

  class Gps {
    /** `sentence_buffer`; the UART and the parser are outside the model. */
    var sentenceBuffer: Bytes

    ghost predicate Valid()
      reads this
    {
      Shaped(sentenceBuffer)
    }

    constructor Init()
      ensures Valid() && sentenceBuffer == []
    {
      sentenceBuffer := [];
    }

    /** The body of `read_and_parse`'s loop for one byte: a `$` swaps a non-empty line out
        of the buffer, which is then left empty; otherwise the byte is absorbed in place. */
    method AbsorbByte(byte: Byte) returns (line: Option<Bytes>)
      requires Valid()
      modifies this
      ensures Valid()
      ensures Absorbed(line, sentenceBuffer) == Absorb(old(sentenceBuffer), byte, false)
    {
      line := None;
      if byte == Dollar {
        if sentenceBuffer != [] {
          line := Some(sentenceBuffer);
          sentenceBuffer := [];
          return;
        }
        sentenceBuffer := [];
        sentenceBuffer := PushChar(sentenceBuffer, Dollar, BufferCap);
      } else if byte == Cr {
      } else if sentenceBuffer != [] {
        sentenceBuffer := PushChar(sentenceBuffer, byte, BufferCap);
      }
    }

    /** `read_and_parse` over `source`, the bytes the UART delivers before a read fails;
        `parser` gives the parser's report on a line. Returns the classified line, if one
        completed, and how many bytes were read. */
    method ReadAndParse(source: Bytes, parser: Bytes -> NmeaReport) returns (out: Option<ParseOut>, consumed: nat)
      requires Valid()
      modifies this
      ensures Valid()
      ensures match Scan(old(sentenceBuffer), source, false)
        case Completed(line, n, buf) =>
          out == ParseLine(line, parser(line)) && consumed == n && sentenceBuffer == buf
        case Exhausted(buf) =>
          out == None && consumed == |source| && sentenceBuffer == buf
    {
      ghost var start := sentenceBuffer;
      var i := 0;
      while i < |source|
        invariant 0 <= i <= |source|
        invariant Valid()
        invariant Scan(start, source, false) == Later(Scan(sentenceBuffer, source[i..], false), i)
        decreases |source| - i
      {
        ghost var before := sentenceBuffer;
        var line := AbsorbByte(source[i]);
        if line.Some? {
          ScanCompletes(line.value, source, i);
          assert Scan(start, source, false) == Completed(line.value, i + 1, []);
          // `parse_line` always has an answer, so the call returns here.
          out := ParseLine(line.value, parser(line.value));
          consumed := i + 1;
          return;
        }
        ScanAdvance(start, before, sentenceBuffer, source, i, false);
        i := i + 1;
      }
      assert source[i..] == [];
      assert Scan(start, source, false) == Exhausted(sentenceBuffer);
      out := None;
      consumed := i;
    }
  }

  /** Calling `read_and_parse` again and again on what is left of the source: every line it
      returns, in order. */
  function Collect(buf: Bytes, source: Bytes, restart: bool): (lines: seq<Bytes>)
    ensures Shaped(buf) ==> forall k :: 0 <= k < |lines| ==> lines[k] != [] && lines[k][0] == Dollar
    decreases |source|
  {
    match Scan(buf, source, restart)
    case Exhausted(_) => []
    case Completed(line, n, rest) => [line] + Collect(rest, source[n..], restart)
  }

  /** As written, the `$` that completes a line is consumed and not kept, so the next
      sentence loses its start and is skipped: of `$A$B$C$`, only `$A` and `$C` come out. */
  lemma SkipsEveryOtherSentence()
    ensures Collect([], [Dollar, 'A' as int, Dollar, 'B' as int, Dollar, 'C' as int, Dollar], false)
         == [[Dollar, 'A' as int], [Dollar, 'C' as int]]
  {
    var s := [Dollar, 'A' as int, Dollar, 'B' as int, Dollar, 'C' as int, Dollar];
    ExampleFirstLine();
    var t := s[3..];
    assert t == ['B' as int, Dollar, 'C' as int, Dollar];
    ExampleSecondLine();
    assert t[4..] == [];
    assert Collect([], t[4..], false) == [];
  }

  /** The first line of the example: `$A`, completed by the third byte. */
  lemma ExampleFirstLine()
    ensures Scan([], [Dollar, 'A' as int, Dollar, 'B' as int, Dollar, 'C' as int, Dollar], false)
         == Completed([Dollar, 'A' as int], 3, [])
  {
    var s := [Dollar, 'A' as int, Dollar, 'B' as int, Dollar, 'C' as int, Dollar];
    assert EncodeByteChar('A' as int) == ['A' as int];
    assert Scan([Dollar, 'A' as int], s[2..], false) == Completed([Dollar, 'A' as int], 1, []);
    assert s[1..][1..] == s[2..];
    assert Scan([Dollar], s[1..], false) == Completed([Dollar, 'A' as int], 2, []);
  }

  /** After it, `B` falls outside any line and `$C` is the second line. */
  lemma ExampleSecondLine()
    ensures Scan([], ['B' as int, Dollar, 'C' as int, Dollar], false) == Completed([Dollar, 'C' as int], 4, [])
  {
    var t := ['B' as int, Dollar, 'C' as int, Dollar];
    assert EncodeByteChar('C' as int) == ['C' as int];
    assert t[1..][1..] == t[2..];
    assert t[2..][1..] == t[3..];
    assert Scan([Dollar, 'C' as int], t[3..], false) == Completed([Dollar, 'C' as int], 1, []);
    assert Scan([Dollar], t[2..], false) == Completed([Dollar, 'C' as int], 2, []);
    assert Scan([], t[1..], false) == Completed([Dollar, 'C' as int], 3, []);
  }

  /** A sentence body that the buffer keeps byte for byte: ASCII, no `$` and no CR. */
  predicate PlainBody(body: Bytes) {
    |body| < BufferCap && forall i :: 0 <= i < |body| ==> body[i] < 0x80 && body[i] != Dollar && body[i] != Cr
  }

  /** The bodies of consecutive sentences, each followed by the `$` that starts the next. */
  function Framed(bodies: seq<Bytes>): Bytes
    decreases |bodies|
  {
    if bodies == [] then [] else bodies[0] + [Dollar] + Framed(bodies[1..])
  }

  /** The sentences the bodies stand for. */
  function Sentences(bodies: seq<Bytes>): seq<Bytes>
  {
    seq(|bodies|, k requires 0 <= k < |bodies| => [Dollar] + bodies[k])
  }

  /** A plain byte read while a line is open is appended as it is. */
  lemma AbsorbPlain(buf: Bytes, c: Byte, restart: bool)
    requires buf != [] && |buf| < BufferCap
    requires c < 0x80 && c != Dollar && c != Cr
    ensures Absorb(buf, c, restart) == Absorbed(None, buf + [c])
  {
  }

  /** Reading a byte that completes nothing, then the rest. */
  lemma ScanCons(buf: Bytes, c: Byte, t: Bytes, restart: bool)
    requires Absorb(buf, c, restart).line.None?
    ensures Scan(buf, [c] + t, restart) == Later(Scan(Absorb(buf, c, restart).buf, t, restart), 1)
  {
    assert ([c] + t)[1..] == t;
  }

  /** The first byte of a plain body, read into a started buffer. */
  lemma ScanPlainFirst(prefix: Bytes, body: Bytes, rest: Bytes, restart: bool)
    requires PlainBody(body) && body != [] && 1 + |prefix| + |body| <= BufferCap
    ensures Scan([Dollar] + prefix, body + rest, restart)
         == Later(Scan([Dollar] + (prefix + [body[0]]), body[1..] + rest, restart), 1)
  {
    var buf := [Dollar] + prefix;
    var c := body[0];
    AbsorbPlain(buf, c, restart);
    assert buf + [c] == [Dollar] + (prefix + [c]);
    assert body + rest == [c] + (body[1..] + rest);
    ScanCons(buf, c, body[1..] + rest, restart);
  }

  /** Absorbing a plain body into a started buffer completes nothing and appends it. */
  lemma {:induction false} ScanBody(prefix: Bytes, body: Bytes, rest: Bytes, restart: bool)
    requires PlainBody(body) && 1 + |prefix| + |body| <= BufferCap
    ensures Scan([Dollar] + prefix, body + rest, restart)
         == Later(Scan([Dollar] + prefix + body, rest, restart), |body|)
    decreases |body|
  {
    if body != [] {
      var next := prefix + [body[0]];
      ScanPlainFirst(prefix, body, rest, restart);
      ScanBody(next, body[1..], rest, restart);
      ShiftFirst(prefix, body);
      LaterLater(Scan([Dollar] + prefix + body, rest, restart), |body| - 1, 1);
    } else {
      assert [Dollar] + prefix + body == [Dollar] + prefix;
      assert body + rest == rest;
    }
  }

  lemma ShiftFirst(prefix: Bytes, body: Bytes)
    requires body != []
    ensures [Dollar] + (prefix + [body[0]]) + body[1..] == [Dollar] + prefix + body
  {
    assert body == [body[0]] + body[1..];
  }

  /** With the restart, a plain body followed by `$` is one sentence, and the buffer is left
      holding the start of the next one. */
  lemma ScanSentence(body: Bytes, rest: Bytes)
    requires PlainBody(body)
    ensures Scan([Dollar], body + [Dollar] + rest, true) == Completed([Dollar] + body, |body| + 1, [Dollar])
  {
    ScanBody([], body, [Dollar] + rest, true);
    assert [Dollar] + [] == [Dollar];
    assert body + [Dollar] + rest == body + ([Dollar] + rest);
    assert [Dollar] + [] + body == [Dollar] + body;
    assert Scan([Dollar] + body, [Dollar] + rest, true) == Completed([Dollar] + body, 1, [Dollar]);
  }

  /** With the restart, every sentence of a stream of plain sentences is delivered, in
      order: none is lost to the `$` that completes the one before it. */
  lemma {:induction false} CollectDeliversAll(bodies: seq<Bytes>)
    requires forall k :: 0 <= k < |bodies| ==> PlainBody(bodies[k])
    ensures Collect([Dollar], Framed(bodies), true) == Sentences(bodies)
    decreases |bodies|
  {
    if bodies != [] {
      var rest := Framed(bodies[1..]);
      ScanSentence(bodies[0], rest);
      FramedDrop(bodies);
      CollectDeliversAll(bodies[1..]);
      SentencesCons(bodies);
    } else {
      assert Scan([Dollar], [], true) == Exhausted([Dollar]);
    }
  }

  /** Past the first sentence of a framed source, the rest is framed. */
  lemma FramedDrop(bodies: seq<Bytes>)
    requires bodies != []
    ensures Framed(bodies) == bodies[0] + [Dollar] + Framed(bodies[1..])
    ensures Framed(bodies)[|bodies[0]| + 1..] == Framed(bodies[1..])
  {
  }

  lemma SentencesCons(bodies: seq<Bytes>)
    requires bodies != []
    ensures Sentences(bodies) == [[Dollar] + bodies[0]] + Sentences(bodies[1..])
  {
  }

  /** From an idle buffer, the first `$` starts the first sentence. */
  lemma CollectFromIdle(bodies: seq<Bytes>)
    requires forall k :: 0 <= k < |bodies| ==> PlainBody(bodies[k])
    ensures Collect([], [Dollar] + Framed(bodies), true) == Sentences(bodies)
  {
    if bodies != [] {
      CollectFromEmpty([], bodies);
    } else {
      assert [Dollar] + Framed(bodies) == [Dollar];
      LoneDollar();
    }
  }

  /** The same for at least one sentence, with the idle buffer named so that the scan from it
      is unfolded only where the proof asks for it. */
  lemma CollectFromEmpty(idle: Bytes, bodies: seq<Bytes>)
    requires idle == [] && bodies != []
    requires forall k :: 0 <= k < |bodies| ==> PlainBody(bodies[k])
    ensures Collect(idle, [Dollar] + Framed(bodies), true) == Sentences(bodies)
  {
    ScanFromIdle(idle, bodies);
    CollectCompleted(idle, [Dollar] + Framed(bodies), true, [Dollar] + bodies[0], |bodies[0]| + 2, [Dollar]);
    CollectDeliversAll(bodies[1..]);
    SentencesCons(bodies);
  }

  /** A lone `$` only starts a line. */
  lemma LoneDollar()
    ensures Collect([], [Dollar], true) == []
  {
    assert Absorb([], Dollar, true) == Absorbed(None, [Dollar]);
    assert Scan([Dollar], [], true) == Exhausted([Dollar]);
  }

  /** `Collect` past a completed line. */
  lemma CollectCompleted(buf: Bytes, source: Bytes, restart: bool, line: Bytes, n: nat, rest: Bytes)
    requires Scan(buf, source, restart) == Completed(line, n, rest)
    ensures Collect(buf, source, restart) == [line] + Collect(rest, source[n..], restart)
  {
  }

  /** The first sentence read from an idle buffer, and the framed rest after it. */
  lemma ScanFromIdle(idle: Bytes, bodies: seq<Bytes>)
    requires idle == [] && bodies != [] && PlainBody(bodies[0])
    ensures Scan(idle, [Dollar] + Framed(bodies), true)
         == Completed([Dollar] + bodies[0], |bodies[0]| + 2, [Dollar])
    ensures ([Dollar] + Framed(bodies))[|bodies[0]| + 2..] == Framed(bodies[1..])
  {
    assert Absorb(idle, Dollar, true) == Absorbed(None, [Dollar]);
    ScanCons(idle, Dollar, Framed(bodies), true);
    ScanSentence(bodies[0], Framed(bodies[1..]));
    FramedDrop(bodies);
  }

}
