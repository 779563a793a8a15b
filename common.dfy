/** Byte strings and the pieces of Rust's `core` and `heapless` string handling that the
    GPS telemetry path relies on. A Rust `str`/`heapless::String<N>` is modelled by its UTF-8
    bytes, so the capacity `N` of a heapless string is a bound on the length of a `Bytes`. */
module Common {

  type Byte = b: int | 0 <= b < 256
  type Bytes = seq<Byte>

  datatype Option<T> = None | Some(value: T)

  /** The outcome of code that may panic (an `unwrap` of `None`/`Err`, an index out of range,
      an overflowing `collect` into a `heapless::Vec`). */
  datatype Abortable<T> = Returned(value: T) | Panicked

  const Lf: Byte := 10
  const Cr: Byte := 13
  const Space: Byte := 32
  const Dollar: Byte := 36
  const Star: Byte := 42
  const Plus: Byte := 43
  const Comma: Byte := 44
  const Minus: Byte := 45
  const Dot: Byte := 46
  const Slash: Byte := 47
  const Zero: Byte := 48
  const Colon: Byte := 58

  const U8Max: nat := 255
  const U32Max: nat := 0xFFFF_FFFF

  /** The bytes of an ASCII literal. */
  function Ascii(s: string): (r: Bytes)
    requires forall i :: 0 <= i < |s| ==> s[i] as int < 128
    ensures |r| == |s|
    ensures forall i :: 0 <= i < |r| ==> r[i] == s[i] as int
  {
    seq(|s|, i requires 0 <= i < |s| => s[i] as int)
  }

  /** The UTF-8 encoding of `b as char`, the code point U+0000..U+00FF that a byte becomes
      when Rust casts it to `char`. */
  function EncodeByteChar(b: Byte): (r: Bytes)
    ensures b < 0x80 ==> r == [b]
    ensures b >= 0x80 ==> |r| == 2 && forall i :: 0 <= i < 2 ==> r[i] >= 0x80
  {
    if b < 0x80 then [b] else [0xC0 + b / 64, 0x80 + b % 64]
  }

  /** The UTF-8 encoding of a run of bytes each cast to `char`. */
  function EncodeByteChars(bs: Bytes): (r: Bytes)
    ensures |bs| <= |r| <= 2 * |bs|
    decreases |bs|
  {
    if bs == [] then [] else EncodeByteChars(bs[..|bs| - 1]) + EncodeByteChar(bs[|bs| - 1])
  }

  /** `heapless::String::push(c)`: the encoding of `c` is appended when all of it fits in
      `cap` bytes, otherwise the string is left as it was. */
  function PushChar(buf: Bytes, b: Byte, cap: nat): (r: Bytes)
    ensures |buf| <= cap ==> |r| <= cap
    ensures |buf| + |EncodeByteChar(b)| <= cap ==> r == buf + EncodeByteChar(b)
    ensures |buf| + |EncodeByteChar(b)| > cap ==> r == buf
  {
    var e := EncodeByteChar(b);
    if |buf| + |e| <= cap then buf + e else buf
  }

  /** `heapless::String::push_str(s)`: all of `s` or nothing. */
  function PushStr(buf: Bytes, s: Bytes, cap: nat): (r: Bytes)
    ensures |buf| + |s| <= cap ==> r == buf + s
    ensures |buf| + |s| > cap ==> r == buf
  {
    if |buf| + |s| <= cap then buf + s else buf
  }

  /** A fresh `String<cap>` after `push_str(tag)` and then `push_str(line)`: the line is
      dropped whole when it does not fit after the tag. */
  function Labelled(tag: Bytes, line: Bytes, cap: nat): (r: Bytes)
    requires |tag| <= cap
    ensures |r| <= cap
    ensures |tag| + |line| <= cap ==> r == tag + line
    ensures |tag| + |line| > cap ==> r == tag
  {
    PushStr(PushStr([], tag, cap), line, cap)
  }

  /** Concatenation regroups freely; stated once so proofs can cite it. */
  lemma AppendAssoc(a: Bytes, b: Bytes, c: Bytes)
    ensures a + (b + c) == a + b + c
  {
  }

  predicate StartsWith(s: Bytes, prefix: Bytes) {
    |prefix| <= |s| && s[..|prefix|] == prefix
  }

  /** Rust's `str::is_char_boundary`: an index is a boundary unless it lands on a UTF-8
      continuation byte (0x80..0xBF) or past the end. */
  predicate IsCharBoundary(s: Bytes, i: nat) {
    i == 0 || i == |s| || (i < |s| && !(0x80 <= s[i] < 0xC0))
  }

  /** Rust's `str::get(a..b)`. */
  function Get(s: Bytes, a: nat, b: nat): (r: Option<Bytes>)
    ensures r.Some? <==> a <= b <= |s| && IsCharBoundary(s, a) && IsCharBoundary(s, b)
    ensures r.Some? ==> r.value == s[a..b]
  {
    if a <= b <= |s| && IsCharBoundary(s, a) && IsCharBoundary(s, b) then Some(s[a..b]) else None
  }

  /** Rust's `str::split(sep)` for a one-byte separator: the pieces between separators, in
      order; there is always one more piece than there are separators. */
  function Split(s: Bytes, sep: Byte): (parts: seq<Bytes>)
    ensures |parts| == multiset(s)[sep] + 1
    ensures forall i :: 0 <= i < |parts| ==> sep !in parts[i]
    decreases |s|
  {
    if s == [] then [[]]
    else
      var rest := Split(s[1..], sep);
      assert s == [s[0]] + s[1..];
      if s[0] == sep then [[]] + rest
      else [[s[0]] + rest[0]] + rest[1..]
  }

  /** The inverse of `Split`: the pieces glued back together with the separator between them. */
  function Join(parts: seq<Bytes>, sep: Byte): (s: Bytes)
    requires |parts| >= 1
    decreases |parts|
  {
    if |parts| == 1 then parts[0] else parts[0] + [sep] + Join(parts[1..], sep)
  }

  lemma {:induction false} JoinSplit(s: Bytes, sep: Byte)
    ensures Join(Split(s, sep), sep) == s
    decreases |s|
  {
    if s != [] {
      var c, t := s[0], s[1..];
      assert s == [c] + t;
      JoinSplit(t, sep);
      SplitCons(c, t, sep);
      JoinConsByte(c, Split(t, sep), sep);
    }
  }

  /** Joining after a byte was put in front of the first piece (or, for the separator, in
      front of the pieces as an empty piece) puts the byte in front of the joined text. */
  lemma JoinConsByte(c: Byte, parts: seq<Bytes>, sep: Byte)
    requires |parts| >= 1
    ensures c == sep ==> Join([[]] + parts, sep) == [c] + Join(parts, sep)
    ensures c != sep ==> Join([[c] + parts[0]] + parts[1..], sep) == [c] + Join(parts, sep)
  {
    if c == sep {
      assert ([[]] + parts)[1..] == parts;
    } else if |parts| > 1 {
      var longer := [[c] + parts[0]] + parts[1..];
      assert longer[1..] == parts[1..];
      assert Join(longer, sep) == [c] + parts[0] + [sep] + Join(parts[1..], sep);
    }
  }

  lemma SplitCons(c: Byte, t: Bytes, sep: Byte)
    ensures c == sep ==> Split([c] + t, sep) == [[]] + Split(t, sep)
    ensures c != sep ==> Split([c] + t, sep) == [[c] + Split(t, sep)[0]] + Split(t, sep)[1..]
  {
    assert ([c] + t)[1..] == t;
  }

  lemma {:induction false} SplitJoin(parts: seq<Bytes>, sep: Byte)
    requires |parts| >= 1
    requires forall i :: 0 <= i < |parts| ==> sep !in parts[i]
    ensures Split(Join(parts, sep), sep) == parts
    decreases |parts|, |parts[0]|
  {
    var p := parts[0];
    if p == [] && |parts| > 1 {
      SplitJoin(parts[1..], sep);
      SplitJoinEmptyHead(parts, sep);
    } else if p != [] {
      var shorter := [p[1..]] + parts[1..];
      assert forall i :: 0 <= i < |shorter| ==> sep !in shorter[i] by {
        assert forall i :: 1 <= i < |shorter| ==> shorter[i] == parts[i];
        assert sep !in p;
      }
      SplitJoin(shorter, sep);
      SplitJoinLongHead(parts, sep);
    }
  }

  lemma SplitJoinEmptyHead(parts: seq<Bytes>, sep: Byte)
    requires |parts| > 1 && parts[0] == []
    requires Split(Join(parts[1..], sep), sep) == parts[1..]
    ensures Split(Join(parts, sep), sep) == parts
  {
    var tail := Join(parts[1..], sep);
    assert Join(parts, sep) == [sep] + tail;
    SplitCons(sep, tail, sep);
    assert parts == [[]] + parts[1..];
  }

  lemma SplitJoinLongHead(parts: seq<Bytes>, sep: Byte)
    requires |parts| >= 1 && parts[0] != [] && sep !in parts[0]
    requires Split(Join([parts[0][1..]] + parts[1..], sep), sep) == [parts[0][1..]] + parts[1..]
    ensures Split(Join(parts, sep), sep) == parts
  {
    var p := parts[0];
    var shorter := [p[1..]] + parts[1..];
    JoinPeel(parts, sep);
    assert p[0] != sep by { assert p[0] in p; }
    SplitPeel(p[0], Join(shorter, sep), shorter, sep);
    PeelBack(parts);
  }

  lemma JoinPeel(parts: seq<Bytes>, sep: Byte)
    requires |parts| >= 1 && parts[0] != []
    ensures Join(parts, sep) == [parts[0][0]] + Join([parts[0][1..]] + parts[1..], sep)
  {
    assert parts == [parts[0]] + parts[1..];
    JoinHead(parts[0], parts[1..], sep);
  }

  lemma SplitPeel(c: Byte, j: Bytes, pieces: seq<Bytes>, sep: Byte)
    requires c != sep && Split(j, sep) == pieces
    ensures Split([c] + j, sep) == [[c] + pieces[0]] + pieces[1..]
  {
    SplitCons(c, j, sep);
  }

  lemma PeelBack(parts: seq<Bytes>)
    requires |parts| >= 1 && parts[0] != []
    ensures var shorter := [parts[0][1..]] + parts[1..];
      [[parts[0][0]] + shorter[0]] + shorter[1..] == parts
  {
    var p := parts[0];
    assert [p[0]] + p[1..] == p;
    assert ([p[1..]] + parts[1..])[1..] == parts[1..];
  }

  lemma JoinHead(p: Bytes, more: seq<Bytes>, sep: Byte)
    requires p != []
    ensures Join([p] + more, sep) == [p[0]] + Join([p[1..]] + more, sep)
  {
    if more != [] {
      assert ([p] + more)[1..] == more;
      assert ([p[1..]] + more)[1..] == more;
    }
  }

  predicate IsDigit(b: Byte) { Zero <= b <= Zero + 9 }

  predicate AllDigits(s: Bytes) { forall i :: 0 <= i < |s| ==> IsDigit(s[i]) }

  /** The number a run of decimal digits denotes (leading zeros allowed). */
  function DigitsValue(s: Bytes): (v: nat)
    requires AllDigits(s)
    ensures |s| <= 1 ==> v <= 9
    ensures |s| <= 2 ==> v <= 99
    decreases |s|
  {
    if s == [] then 0 else DigitsValue(s[..|s| - 1]) * 10 + (s[|s| - 1] - Zero)
  }

  /** Rust's `{}` of an unsigned integer: its decimal digits, most significant first, without
      leading zeros ("0" for zero). */
  function Digits(n: nat): (r: Bytes)
    ensures 1 <= |r| && AllDigits(r)
    ensures |r| > 1 ==> r[0] != Zero
    ensures n < 10 <==> |r| == 1
    ensures n < 100 ==> |r| <= 2
    ensures n < 1000 ==> |r| <= 3
    ensures n >= 1000 ==> |r| >= 4
    decreases n
  {
    if n < 10 then [Zero + n] else Digits(n / 10) + [Zero + n % 10]
  }

  /** Rust's two-digit zero-padded formatting of an unsigned integer: at least two digits, zero-padded on the left. */
  function Pad2(n: nat): (r: Bytes)
    ensures AllDigits(r)
    ensures n < 100 ==> |r| == 2
    ensures n < 1000 ==> |r| <= 3
    ensures |r| >= 2
  {
    if n < 10 then [Zero] + Digits(n) else Digits(n)
  }

  /** Rust's `<uN as FromStr>::from_str` for an unsigned type whose largest value is `max`:
      an optional leading `+`, then at least one decimal digit and nothing else, and the value
      must not exceed `max`. */
  function ParseUnsigned(s: Bytes, max: nat): (r: Option<nat>)
    ensures r.Some? ==> r.value <= max
    ensures r.Some? ==> |s| >= 1 && forall i :: 0 <= i < |s| ==> s[i] < 0x80
    ensures r.Some? && |s| <= 2 ==> r.value <= 99
    ensures var digits := if |s| > 0 && s[0] == Plus then s[1..] else s;
      r.Some? <==> digits != [] && AllDigits(digits) && DigitsValue(digits) <= max
    ensures var digits := if |s| > 0 && s[0] == Plus then s[1..] else s;
      r.Some? ==> r.value == DigitsValue(digits)
  {
    var digits := if |s| > 0 && s[0] == Plus then s[1..] else s;
    if digits == [] || !AllDigits(digits) then None
    else if DigitsValue(digits) <= max then Some(DigitsValue(digits))
    else None
  }

  lemma {:induction false} DigitsValueOfDigits(n: nat)
    ensures DigitsValue(Digits(n)) == n
    decreases n
  {
    if n >= 10 {
      DigitsValueOfDigits(n / 10);
      var d := Digits(n);
      assert d[..|d| - 1] == Digits(n / 10);
    }
  }

  lemma {:induction false} LeadingZeroValue(s: Bytes)
    requires AllDigits(s)
    ensures AllDigits([Zero] + s) && DigitsValue([Zero] + s) == DigitsValue(s)
    decreases |s|
  {
    if s != [] {
      var t := [Zero] + s;
      assert t[..|t| - 1] == [Zero] + s[..|s| - 1];
      LeadingZeroValue(s[..|s| - 1]);
    }
  }

  /** `parse` takes one optional `+` and then digits only: a trailing letter, a bare sign or
      a second sign is an error, and a value above the maximum is an error. */
  lemma ParseUnsignedRejects()
    ensures ParseUnsigned([Zero + 1, 'a' as int], U8Max) == None
    ensures ParseUnsigned([Plus], U8Max) == None
    ensures ParseUnsigned([Plus, Plus, Zero + 7], U8Max) == None
    ensures ParseUnsigned([Zero + 2, Zero + 5, Zero + 6], U8Max) == None
    ensures ParseUnsigned([Plus, Zero + 7], U8Max) == Some(7)
  {
    var n := [Zero + 2, Zero + 5, Zero + 6];
    assert n[..2] == [Zero + 2, Zero + 5] && n[..2][..1] == [Zero + 2] && n[..2][..1][..0] == [];
    assert DigitsValue(n[..2][..1]) == 2;
    assert DigitsValue(n[..2]) == 25;
    assert DigitsValue(n) == 256;
    var twice := [Plus, Plus, Zero + 7];
    assert twice[1..] == [Plus, Zero + 7];
    assert !IsDigit(twice[1..][0]);
    assert !AllDigits(twice[1..]);
    assert [Plus, Zero + 7][1..] == [Zero + 7];
  }

  /** Parsing undoes `{}` formatting: the digits of `n` parse back to `n` in any unsigned type
      that can hold it. */
  lemma ParseDigits(n: nat, max: nat)
    requires n <= max
    ensures ParseUnsigned(Digits(n), max) == Some(n)
  {
    DigitsValueOfDigits(n);
  }

  /** Parsing undoes two-digit zero-padded formatting too. */
  lemma ParsePad2(n: nat, max: nat)
    requires n <= max
    ensures ParseUnsigned(Pad2(n), max) == Some(n)
  {
    DigitsValueOfDigits(n);
    if n < 10 {
      LeadingZeroValue(Digits(n));
    }
  }
}
