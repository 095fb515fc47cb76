/**
 * UTF-8 as defined by section 4 of RFC 3629: the well-formed byte sequences of one to
 * four bytes and the Unicode scalar values they stand for. Offsets in failures are
 * offsets into the whole input, so a name decoder can report them unchanged.
 */
module Utf8 {
  import opened Results

  /**
   * A continuation byte at `i` inside the span that ends at `end`, restricted to
   * `lo..hi` (the tables of RFC 3629 narrow the second byte after some lead bytes).
   */
  function Continuation(s: seq<uint8>, i: nat, end: nat, lo: nat, hi: nat): (r: ParseResult<uint8>)
    ensures r.Success? <==> i < end && i < |s| && lo <= s[i] <= hi
    ensures r.Success? ==> r.value == s[i] && r.next == i + 1
    ensures r.Failure? ==> r.error == if i < end && i < |s| then Unexpected(s[i], i) else UnexpectedEnd
  {
    if i >= end || i >= |s| then Failure(UnexpectedEnd)
    else if lo <= s[i] <= hi then Success(s[i], i + 1)
    else Failure(Unexpected(s[i], i))
  }

  /** Decodes the one scalar value whose encoding starts at `pos` and ends by `end`. */
  function Scalar(s: seq<uint8>, pos: nat, end: nat): (r: ParseResult<char>)
    ensures r.Success? ==> pos < r.next <= end && r.next <= |s|
    ensures r.Failure? && r.error.Unexpected? ==>
              pos <= r.error.location < end && r.error.location < |s| && s[r.error.location] == r.error.byte
    ensures r.Failure? ==> !r.error.VectorInvalidLength?
  {
    if pos >= end || pos >= |s| then Failure(UnexpectedEnd)
    else
      var b0 := s[pos];
      if b0 < 0x80 then Success(b0 as char, pos + 1)
      else if 0xC2 <= b0 <= 0xDF then
        match Continuation(s, pos + 1, end, 0x80, 0xBF)
        case Failure(e) => Failure(e)
        case Success(b1, _) => Success(((b0 - 0xC0) * 0x40 + (b1 - 0x80)) as char, pos + 2)
      else if 0xE0 <= b0 <= 0xEF then
        match Continuation(s, pos + 1, end, if b0 == 0xE0 then 0xA0 else 0x80, if b0 == 0xED then 0x9F else 0xBF)
        case Failure(e) => Failure(e)
        case Success(b1, _) =>
          match Continuation(s, pos + 2, end, 0x80, 0xBF)
          case Failure(e) => Failure(e)
          case Success(b2, _) =>
            Success(((b0 - 0xE0) * 0x1000 + (b1 - 0x80) * 0x40 + (b2 - 0x80)) as char, pos + 3)
      else if 0xF0 <= b0 <= 0xF4 then
        match Continuation(s, pos + 1, end, if b0 == 0xF0 then 0x90 else 0x80, if b0 == 0xF4 then 0x8F else 0xBF)
        case Failure(e) => Failure(e)
        case Success(b1, _) =>
          match Continuation(s, pos + 2, end, 0x80, 0xBF)
          case Failure(e) => Failure(e)
          case Success(b2, _) =>
            match Continuation(s, pos + 3, end, 0x80, 0xBF)
            case Failure(e) => Failure(e)
            case Success(b3, _) =>
              Success(((b0 - 0xF0) * 0x40000 + (b1 - 0x80) * 0x1000 + (b2 - 0x80) * 0x40 + (b3 - 0x80)) as char,
                      pos + 4)
      else Failure(Unexpected(b0, pos))
  }

  /** Decodes the whole span `pos..end` as a sequence of scalar values. */
  function Decode(s: seq<uint8>, pos: nat, end: nat): (r: ParseResult<string>)
    decreases end - pos
    ensures r.Success? ==> r.next == if pos <= end then end else pos
    ensures r.Failure? && r.error.Unexpected? ==>
              pos <= r.error.location < end && r.error.location < |s| && s[r.error.location] == r.error.byte
    ensures r.Failure? ==> !r.error.VectorInvalidLength?
  {
    if pos >= end then Success([], pos)
    else
      match Scalar(s, pos, end)
      case Failure(e) => Failure(e)
      case Success(c, next) =>
        match Decode(s, next, end)
        case Failure(e) => Failure(e)
        case Success(cs, last) => Success([c] + cs, last)
  }

  /** The RFC 3629 encoding of one scalar value. */
  function EncodeScalar(c: char): (e: seq<uint8>)
    ensures 1 <= |e| <= 4
  {
    var n := c as int;
    if n < 0x80 then [n]
    else if n < 0x800 then [0xC0 + n / 0x40, 0x80 + n % 0x40]
    else if n < 0x10000 then [0xE0 + n / 0x1000, 0x80 + n / 0x40 % 0x40, 0x80 + n % 0x40]
    else [0xF0 + n / 0x40000, 0x80 + n / 0x1000 % 0x40, 0x80 + n / 0x40 % 0x40, 0x80 + n % 0x40]
  }

  function Encode(cs: string): seq<uint8>
  {
    if cs == [] then [] else EncodeScalar(cs[0]) + Encode(cs[1..])
  }

  /** Decoding the encoding of a scalar value gives it back and consumes exactly its bytes. */
  lemma ScalarOfEncoding(p: seq<uint8>, c: char, rest: seq<uint8>, end: nat)
    requires |p| + |EncodeScalar(c)| <= end
    ensures Scalar(p + EncodeScalar(c) + rest, |p|, end) == Success(c, |p| + |EncodeScalar(c)|)
  {
    var s := p + EncodeScalar(c) + rest;
    var e := EncodeScalar(c);
    forall k | 0 <= k < |e| ensures s[|p| + k] == e[k] { }
    var n := c as int;
    if n < 0x80 {
    } else if n < 0x800 {
      ScalarOfTwo(s, |p|, end, c);
    } else if n < 0x10000 {
      ScalarOfThree(s, |p|, end, c);
    } else {
      ScalarOfFour(s, |p|, end, c);
    }
  }

  lemma ScalarOfTwo(s: seq<uint8>, pos: nat, end: nat, c: char)
    requires 0x80 <= c as int < 0x800
    requires pos + 2 <= end && pos + 2 <= |s|
    requires s[pos] == EncodeScalar(c)[0] && s[pos + 1] == EncodeScalar(c)[1]
    ensures Scalar(s, pos, end) == Success(c, pos + 2)
  {
    var n := c as int;
    assert n == (n / 0x40) * 0x40 + n % 0x40;
  }

  lemma ScalarOfThree(s: seq<uint8>, pos: nat, end: nat, c: char)
    requires 0x800 <= c as int < 0x10000
    requires pos + 3 <= end && pos + 3 <= |s|
    requires s[pos] == EncodeScalar(c)[0] && s[pos + 1] == EncodeScalar(c)[1] && s[pos + 2] == EncodeScalar(c)[2]
    ensures Scalar(s, pos, end) == Success(c, pos + 3)
  {
    var n := c as int;
    var hi, mid, lo := n / 0x1000, n / 0x40 % 0x40, n % 0x40;
    SplitThree(n);
    assert s[pos] == 0xE0 + hi && s[pos + 1] == 0x80 + mid && s[pos + 2] == 0x80 + lo;
    assert hi == 0 ==> mid >= 0x20;
    assert hi == 0xD ==> mid < 0x20;
  }

  lemma ScalarOfFour(s: seq<uint8>, pos: nat, end: nat, c: char)
    requires 0x10000 <= c as int
    requires pos + 4 <= end && pos + 4 <= |s|
    requires s[pos] == EncodeScalar(c)[0] && s[pos + 1] == EncodeScalar(c)[1]
    requires s[pos + 2] == EncodeScalar(c)[2] && s[pos + 3] == EncodeScalar(c)[3]
    ensures Scalar(s, pos, end) == Success(c, pos + 4)
  {
    var n := c as int;
    var top, hi, mid, lo := n / 0x40000, n / 0x1000 % 0x40, n / 0x40 % 0x40, n % 0x40;
    SplitFour(n);
    assert s[pos] == 0xF0 + top && s[pos + 1] == 0x80 + hi;
    assert s[pos + 2] == 0x80 + mid && s[pos + 3] == 0x80 + lo;
    assert top == 0 ==> hi >= 0x10;
    assert top == 4 ==> hi < 0x10;
  }

  /** A number below 0x10000 is its three six-bit groups. */
  lemma SplitThree(n: nat)
    ensures n == (n / 0x1000) * 0x1000 + (n / 0x40 % 0x40) * 0x40 + n % 0x40
  {
    var q1 := n / 0x40;
    assert n == q1 * 0x40 + n % 0x40;
    assert q1 == (q1 / 0x40) * 0x40 + q1 % 0x40;
    assert n / 0x1000 == q1 / 0x40;
  }

  /** A number is its top bits and three six-bit groups. */
  lemma SplitFour(n: nat)
    ensures n == (n / 0x40000) * 0x40000 + (n / 0x1000 % 0x40) * 0x1000 + (n / 0x40 % 0x40) * 0x40 + n % 0x40
  {
    var q1 := n / 0x40;
    var q2 := q1 / 0x40;
    assert n == q1 * 0x40 + n % 0x40;
    assert q1 == q2 * 0x40 + q1 % 0x40;
    assert n / 0x1000 == q2;
    assert q2 == (q2 / 0x40) * 0x40 + q2 % 0x40;
    assert n / 0x40000 == q2 / 0x40;
  }

  /** Decoding the encoding of a string gives it back and consumes exactly its bytes. */
  lemma {:induction false} DecodeOfEncoding(p: seq<uint8>, cs: string, rest: seq<uint8>)
    ensures Decode(p + Encode(cs) + rest, |p|, |p| + |Encode(cs)|) == Success(cs, |p| + |Encode(cs)|)
    decreases |cs|
  {
    if cs != [] {
      var e, tail := EncodeScalar(cs[0]), Encode(cs[1..]);
      assert Encode(cs) == e + tail;
      var s := p + Encode(cs) + rest;
      var end := |p| + |e| + |tail|;
      assert s == p + e + (tail + rest);
      ScalarOfEncoding(p, cs[0], tail + rest, end);
      var q := p + e;
      assert s == q + tail + rest && |q| == |p| + |e|;
      DecodeOfEncoding(q, cs[1..], rest);
      assert Decode(s, |q|, end) == Success(cs[1..], end);
      DecodeFromParts(s, |p|, |q|, end, cs[0], cs[1..]);
      assert [cs[0]] + cs[1..] == cs;
    }
  }

  /** A scalar value followed by a decoded span decodes as one span. */
  lemma DecodeFromParts(s: seq<uint8>, pos: nat, mid: nat, end: nat, c: char, cs: string)
    requires pos < end
    requires Scalar(s, pos, end) == Success(c, mid)
    requires Decode(s, mid, end) == Success(cs, end)
    ensures Decode(s, pos, end) == Success([c] + cs, end)
  {
  }

  /** The decoder accepts only shortest-form encodings: what it reads is the encoding of what it returns. */
  lemma ScalarIsEncoding(s: seq<uint8>, pos: nat, end: nat)
    requires Scalar(s, pos, end).Success?
    ensures pos <= Scalar(s, pos, end).next <= |s|
    ensures s[pos..Scalar(s, pos, end).next] == EncodeScalar(Scalar(s, pos, end).value)
  {
    var r := Scalar(s, pos, end);
    var b0 := s[pos];
    if b0 < 0x80 {
      assert s[pos..r.next] == [b0];
    } else if b0 < 0xE0 {
      TwoBytesAreEncoding(b0, s[pos + 1]);
      assert s[pos..r.next] == [b0, s[pos + 1]];
    } else if b0 < 0xF0 {
      ThreeBytesAreEncoding(b0, s[pos + 1], s[pos + 2]);
      assert s[pos..r.next] == [b0, s[pos + 1], s[pos + 2]];
    } else {
      FourBytesAreEncoding(b0, s[pos + 1], s[pos + 2], s[pos + 3]);
      assert s[pos..r.next] == [b0, s[pos + 1], s[pos + 2], s[pos + 3]];
    }
  }

  lemma TwoBytesAreEncoding(b0: int, b1: int)
    requires 0xC2 <= b0 <= 0xDF && 0x80 <= b1 <= 0xBF
    ensures EncodeScalar(((b0 - 0xC0) * 0x40 + (b1 - 0x80)) as char) == [b0, b1]
  {
    var n := (b0 - 0xC0) * 0x40 + (b1 - 0x80);
    assert n / 0x40 == b0 - 0xC0 && n % 0x40 == b1 - 0x80;
  }

  lemma ThreeBytesAreEncoding(b0: int, b1: int, b2: int)
    requires 0xE0 <= b0 <= 0xEF && 0x80 <= b2 <= 0xBF
    requires (if b0 == 0xE0 then 0xA0 else 0x80) <= b1 <= (if b0 == 0xED then 0x9F else 0xBF)
    ensures EncodeScalar(((b0 - 0xE0) * 0x1000 + (b1 - 0x80) * 0x40 + (b2 - 0x80)) as char) == [b0, b1, b2]
  {
    var n := (b0 - 0xE0) * 0x1000 + (b1 - 0x80) * 0x40 + (b2 - 0x80);
    assert n % 0x40 == b2 - 0x80;
    assert n / 0x40 == (b0 - 0xE0) * 0x40 + (b1 - 0x80);
    assert n / 0x1000 == b0 - 0xE0;
  }

  lemma FourBytesAreEncoding(b0: int, b1: int, b2: int, b3: int)
    requires 0xF0 <= b0 <= 0xF4 && 0x80 <= b2 <= 0xBF && 0x80 <= b3 <= 0xBF
    requires (if b0 == 0xF0 then 0x90 else 0x80) <= b1 <= (if b0 == 0xF4 then 0x8F else 0xBF)
    ensures EncodeScalar(((b0 - 0xF0) * 0x40000 + (b1 - 0x80) * 0x1000 + (b2 - 0x80) * 0x40 + (b3 - 0x80)) as char)
         == [b0, b1, b2, b3]
  {
    var n := (b0 - 0xF0) * 0x40000 + (b1 - 0x80) * 0x1000 + (b2 - 0x80) * 0x40 + (b3 - 0x80);
    assert n % 0x40 == b3 - 0x80;
    assert n / 0x40 == (b0 - 0xF0) * 0x1000 + (b1 - 0x80) * 0x40 + (b2 - 0x80);
    assert n / 0x1000 == (b0 - 0xF0) * 0x40 + (b1 - 0x80);
    assert n / 0x40000 == b0 - 0xF0;
  }

  /** A span that decodes is exactly the encoding of the decoded string. */
  lemma {:induction false} DecodeIsEncoding(s: seq<uint8>, pos: nat, end: nat)
    requires pos <= end <= |s|
    requires Decode(s, pos, end).Success?
    ensures s[pos..end] == Encode(Decode(s, pos, end).value)
    decreases end - pos
  {
    if pos < end {
      var r := Scalar(s, pos, end);
      ScalarIsEncoding(s, pos, end);
      DecodeIsEncoding(s, r.next, end);
      var cs := Decode(s, pos, end).value;
      assert cs[0] == r.value && cs[1..] == Decode(s, r.next, end).value;
      assert s[pos..end] == s[pos..r.next] + s[r.next..end];
    }
  }
}
