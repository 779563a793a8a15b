/** The byte-to-sentence state machine of src/gps/assembler.rs. It is idle while its buffer is
    empty and building once a `$` has arrived; a line feed hands the buffered sentence out. */
module Assembler {
  import opened Common

  /** Longest NMEA 0183 sentence, `$` and CR LF included (section 5.3 of NMEA 0183). */
  const MaxLen: nat := 82

  /** What one byte does: the sentence handed out, if any, and the buffer left behind. */
  datatype Step = Step(out: Option<Bytes>, buf: Bytes)

  /** The buffers the assembler can hold: empty (idle), or a `$` followed by bytes that are
      neither `$`, CR nor LF (building), within the capacity. */
  predicate WellFormed(buf: Bytes) {
    |buf| <= MaxLen &&
    (buf == [] || (buf[0] == Dollar && forall i :: 1 <= i < |buf| ==> buf[i] != Dollar && buf[i] != Cr && buf[i] != Lf))
  }

  /** `push_byte` as a transition: `$` restarts the buffer, CR is ignored, LF hands out a
      non-empty buffer, and any other byte is appended while building (if it fits). */
  function Transition(buf: Bytes, b: Byte): (r: Step)
    ensures WellFormed(buf) ==> WellFormed(r.buf)
    ensures r.out.Some? <==> b == Lf && buf != []
    ensures r.out.Some? ==> r.out.value == buf && r.buf == []
    ensures b == Dollar ==> r.buf == [Dollar]
    ensures b == Cr ==> r.buf == buf
    ensures buf == [] && b != Dollar ==> r.buf == []
    ensures b != Dollar && b != Lf ==> |buf| <= |r.buf|
    ensures b != Dollar && b != Cr && b != Lf && buf != [] ==> r == Step(None, PushChar(buf, b, MaxLen))
    ensures b != Dollar && b != Cr && b != Lf && |buf| + |EncodeByteChar(b)| > MaxLen ==> r == Step(None, buf)
  {
    if b == Dollar then Step(None, PushChar([], Dollar, MaxLen))
    else if b == Cr then Step(None, buf)
    else if b == Lf then
      if buf != [] then Step(Some(buf), []) else Step(None, buf)
    else if buf != [] then Step(None, PushChar(buf, b, MaxLen))
    else Step(None, buf)
  }

  class NmeaAssembler {
    var buf: Bytes

    ghost predicate Valid()
      reads this
    {
      WellFormed(buf)
    }

    constructor ()
      ensures Valid() && buf == []
    {
      buf := [];
    }

    /** Pushes one byte; returns the completed sentence when the byte ends one. */
    method PushByte(byte: Byte) returns (out: Option<Bytes>)
      requires Valid()
      modifies this
      ensures Valid()
      ensures Step(out, buf) == Transition(old(buf), byte)
      ensures out.Some? ==> 1 <= |out.value| <= MaxLen && out.value[0] == Dollar
    {
      if byte == Dollar {
        buf := [];
        buf := PushChar(buf, Dollar, MaxLen);
        out := None;
      } else if byte == Cr {
        out := None;
      } else if byte == Lf {
        if buf != [] {
          var sentence := [];
          sentence, buf := buf, sentence;
          return Some(sentence);
        }
        out := None;
      } else {
        if buf != [] {
          buf := PushChar(buf, byte, MaxLen);
        }
        out := None;
      }
    }
  }

  /** The results of pushing a run of bytes one at a time, and the buffer left at the end. */
  datatype Run = Run(outs: seq<Option<Bytes>>, buf: Bytes)

  function Feed(buf: Bytes, bytes: Bytes): (r: Run)
    ensures |r.outs| == |bytes|
    decreases |bytes|
  {
    if bytes == [] then Run([], buf)
    else
      var before := Feed(buf, bytes[..|bytes| - 1]);
      var step := Transition(before.buf, bytes[|bytes| - 1]);
      Run(before.outs + [step.out], step.buf)
  }

  /** `n` results of "nothing completed". */
  function Nothing(n: nat): (r: seq<Option<Bytes>>)
    ensures |r| == n && forall i :: 0 <= i < n ==> r[i] == None
  {
    seq(n, _ => None)
  }

  /** A sentence body: no byte of it restarts or ends a sentence. */
  predicate IsBody(body: Bytes) {
    forall i :: 0 <= i < |body| ==> body[i] != Dollar && body[i] != Cr && body[i] != Lf
  }

  lemma {:induction false} EncodeByteCharsPrefix(body: Bytes, k: nat)
    requires k <= |body|
    ensures |EncodeByteChars(body[..k])| <= |EncodeByteChars(body)|
    decreases |body|
  {
    if k < |body| {
      assert body[..|body| - 1][..k] == body[..k];
      EncodeByteCharsPrefix(body[..|body| - 1], k);
    } else {
      assert body[..k] == body;
    }
  }

  /** Pushing `$` and then the first `k` bytes of a body emits nothing and leaves `$` followed
      by those bytes (each as its UTF-8 encoding) in the buffer. */
  lemma {:induction false} FeedBody(buf: Bytes, body: Bytes, k: nat)
    requires IsBody(body) && 1 + |EncodeByteChars(body)| <= MaxLen
    requires k <= |body|
    ensures Feed(buf, [Dollar] + body[..k]) == Run(Nothing(k + 1), [Dollar] + EncodeByteChars(body[..k]))
    decreases k
  {
    if k == 0 {
      assert [Dollar] + body[..0] == [] + [Dollar];
      FeedSnoc(buf, [], Dollar);
      assert Nothing(1) == [None];
    } else {
      var prev := [Dollar] + body[..k - 1];
      var sofar := [Dollar] + EncodeByteChars(body[..k - 1]);
      var b := body[k - 1];
      var e := EncodeByteChar(b);
      FeedBody(buf, body, k - 1);
      EncodeSnoc(body, k);
      TransitionAppend(sofar, b);
      FeedSnoc(buf, prev, b);
      assert Feed(buf, prev + [b]) == Run(Nothing(k) + [None], sofar + e);
      AppendAssoc([Dollar], EncodeByteChars(body[..k - 1]), e);
      DollarSlice(body, k);
      NothingSnoc(k);
    }
  }

  lemma DollarSlice(body: Bytes, k: nat)
    requires 1 <= k <= |body|
    ensures [Dollar] + body[..k] == [Dollar] + body[..k - 1] + [body[k - 1]]
  {
    assert body[..k] == body[..k - 1] + [body[k - 1]];
  }

  lemma NothingSnoc(k: nat)
    ensures Nothing(k) + [None] == Nothing(k + 1)
  {
  }

  /** Feeding one more byte is one more transition. */
  lemma FeedSnoc(buf: Bytes, bytes: Bytes, b: Byte)
    ensures var before := Feed(buf, bytes);
      var step := Transition(before.buf, b);
      Feed(buf, bytes + [b]) == Run(before.outs + [step.out], step.buf)
  {
    assert (bytes + [b])[..|bytes|] == bytes;
  }

  /** A byte that neither starts, nor ends, nor is ignored is appended to an open sentence
      when its encoding fits. */
  lemma TransitionAppend(sofar: Bytes, b: Byte)
    requires sofar != [] && b != Dollar && b != Cr && b != Lf
    requires |sofar| + |EncodeByteChar(b)| <= MaxLen
    ensures Transition(sofar, b) == Step(None, sofar + EncodeByteChar(b))
  {
  }

  /** The encoding of one more byte of the body, which still fits in the buffer. */
  lemma EncodeSnoc(body: Bytes, k: nat)
    requires 1 <= k <= |body|
    requires IsBody(body)
    ensures EncodeByteChars(body[..k]) == EncodeByteChars(body[..k - 1]) + EncodeByteChar(body[k - 1])
    ensures |EncodeByteChars(body[..k])| <= |EncodeByteChars(body)|
    ensures body[k - 1] != Dollar && body[k - 1] != Cr && body[k - 1] != Lf
  {
    assert body[..k][..k - 1] == body[..k - 1];
    EncodeByteCharsPrefix(body, k);
  }

  /** Assembler completeness: from any state, the bytes `$`, body, CR, LF yield exactly one
      sentence, at the LF, equal to `$` followed by the body; every other byte yields nothing
      and the assembler ends idle. */
  lemma FeedSentence(buf: Bytes, body: Bytes)
    requires IsBody(body) && 1 + |EncodeByteChars(body)| <= MaxLen
    ensures Feed(buf, [Dollar] + body + [Cr, Lf])
         == Run(Nothing(|body| + 2) + [Some([Dollar] + EncodeByteChars(body))], [])
  {
    var sentence := [Dollar] + body;
    FeedBody(buf, body, |body|);
    assert body[..|body|] == body;
    var withCr := sentence + [Cr];
    var all := withCr + [Lf];
    assert all == [Dollar] + body + [Cr, Lf];
    assert withCr[..|withCr| - 1] == sentence;
    assert all[..|all| - 1] == withCr;
    assert Nothing(|body| + 1) + [None] == Nothing(|body| + 2);
  }

  /** For ASCII bodies the sentence is the bytes as sent. */
  lemma {:induction false} AsciiEncodesToItself(body: Bytes)
    requires forall i :: 0 <= i < |body| ==> body[i] < 0x80
    ensures EncodeByteChars(body) == body
    decreases |body|
  {
    if body != [] {
      AsciiEncodesToItself(body[..|body| - 1]);
    }
  }
}
