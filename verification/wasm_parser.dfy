/**
 * The binary decoder (WASMParser): small decoders over a byte input, each reading at an
 * offset and returning the value with the offset just past it, or the first failure
 * with the offset where it happened. An offset at or past the end of the input reads
 * as the end of input.
 */
module WasmParser {
  import opened Results
  import T = WasmTypes
  import Leb128
  import Utf8

  /** A bit width handed to the integer decoders. */
  type Width = n: nat | n >= 1 witness 32

  /** A decoder taken as a value, as `vector(of:)` takes one. */
  type Decoder<X> = (seq<uint8>, nat) -> ParseResult<X>

  /** One byte that `accept` admits. */
  function Satisfy(accept: uint8 -> bool, s: seq<uint8>, pos: nat): (r: ParseResult<uint8>)
    ensures r.Success? <==> pos < |s| && accept(s[pos])
    ensures r.Success? ==> r.value == s[pos] && r.next == pos + 1
    ensures r.Failure? ==> r.error == if pos < |s| then Unexpected(s[pos], pos) else UnexpectedEnd
  {
    if pos >= |s| then Failure(UnexpectedEnd)
    else if accept(s[pos]) then Success(s[pos], pos + 1)
    else Failure(Unexpected(s[pos], pos))
  }

  /** byte(b): the byte `expected` and nothing else. */
  function Byte(expected: uint8, s: seq<uint8>, pos: nat): (r: ParseResult<uint8>)
    ensures r.Success? <==> pos < |s| && s[pos] == expected
    ensures r.Success? ==> r == Success(expected, pos + 1)
    ensures pos >= |s| ==> r == Failure(UnexpectedEnd)
    ensures pos < |s| && s[pos] != expected ==> r == Failure(Unexpected(s[pos], pos))
  {
    Satisfy(b => b == expected, s, pos)
  }

  /** byte(in: lo..<hi): one byte of the half-open range. */
  function ByteInRange(lo: uint8, hi: nat, s: seq<uint8>, pos: nat): (r: ParseResult<uint8>)
    ensures r.Success? <==> pos < |s| && lo <= s[pos] < hi
    ensures r.Success? ==> r == Success(s[pos], pos + 1)
    ensures pos >= |s| ==> r == Failure(UnexpectedEnd)
    ensures pos < |s| && !(lo <= s[pos] < hi) ==> r == Failure(Unexpected(s[pos], pos))
  {
    Satisfy(b => lo <= b < hi, s, pos)
  }

  /** byte(in: set): one byte of the set. */
  function ByteInSet(allowed: set<uint8>, s: seq<uint8>, pos: nat): (r: ParseResult<uint8>)
    ensures r.Success? <==> pos < |s| && s[pos] in allowed
    ensures r.Success? ==> r == Success(s[pos], pos + 1)
    ensures pos >= |s| ==> r == Failure(UnexpectedEnd)
    ensures pos < |s| && s[pos] !in allowed ==> r == Failure(Unexpected(s[pos], pos))
  {
    Satisfy(b => b in allowed, s, pos)
  }

  /**
   * bytes(e): the fixed sequence `e`, matched one byte at a time, so that a mismatch is
   * reported at the offset where the input leaves `e`, and running out of input first
   * is reported as the end of input.
   */
  function Bytes(expected: seq<uint8>, s: seq<uint8>, pos: nat): (r: ParseResult<seq<uint8>>)
    requires pos <= |s|
    decreases |expected|
    ensures r.Success? <==> pos + |expected| <= |s| && s[pos..pos + |expected|] == expected
    ensures r.Success? ==> r.value == expected && r.next == pos + |expected|
    ensures r.Failure? && r.error.Unexpected? ==>
              && pos <= r.error.location < |s|
              && r.error.location - pos < |expected|
              && s[pos..r.error.location] == expected[..r.error.location - pos]
              && r.error.byte == s[r.error.location] != expected[r.error.location - pos]
    ensures r.Failure? && !r.error.Unexpected? ==>
              && r.error == UnexpectedEnd
              && |s| < pos + |expected|
              && s[pos..] == expected[..|s| - pos]
  {
    if expected == [] then Success([], pos)
    else
      match Byte(expected[0], s, pos)
      case Failure(e) => Failure(e)
      case Success(b, next) =>
        match Bytes(expected[1..], s, next)
        case Failure(e) => Failure(e)
        case Success(bs, last) => Success([b] + bs, last)
  }

  /**
   * uint(N): an unsigned LEB128 number. A width of seven bits or fewer takes exactly one
   * byte, which must be below 2^N; a wider width takes as many groups as the continuation
   * bits ask for, without bounding the value by the width.
   */
  function Uint(width: Width, s: seq<uint8>, pos: nat): (r: ParseResult<nat>)
    ensures Located(r, s, pos)
    ensures r.Success? ==> pos < r.next
    ensures r.Success? && width <= 7 ==> r.value < Leb128.Pow2(width) && r.next == pos + 1
    ensures r.Failure? ==> r.error.UnexpectedEnd? || (r.error.Unexpected? && width <= 7 && r.error.location == pos)
  {
    if width <= 7 then
      if pos >= |s| then Failure(UnexpectedEnd)
      else if s[pos] < Leb128.Pow2(width) then Success(s[pos] as nat, pos + 1)
      else Failure(Unexpected(s[pos], pos))
    else
      match Leb128.Scan(s, pos)
      case Failure(e) => Failure(e)
      case Success((v, _), next) => Success(v, next)
  }

  /**
   * sint(N): a signed LEB128 number, sign-extended from bit 6 of its final group. A width
   * of seven bits or fewer takes one byte whose value fits N-bit two's complement.
   */
  function Sint(width: Width, s: seq<uint8>, pos: nat): (r: ParseResult<int>)
    ensures Located(r, s, pos)
    ensures r.Success? ==> pos < r.next
    ensures r.Success? && width <= 7 ==>
              -(Leb128.Pow2(width - 1) as int) <= r.value < Leb128.Pow2(width - 1) && r.next == pos + 1
    ensures r.Failure? ==> r.error.UnexpectedEnd? || (r.error.Unexpected? && width <= 7 && r.error.location == pos)
  {
    if width <= 7 then
      if pos >= |s| then Failure(UnexpectedEnd)
      else
        var half := Leb128.Pow2(width - 1);
        if s[pos] < half then Success(s[pos] as int, pos + 1)
        else if 0x80 - half <= s[pos] < 0x80 then Success(s[pos] as int - 0x80, pos + 1)
        else Failure(Unexpected(s[pos], pos))
    else
      match Leb128.Scan(s, pos)
      case Failure(e) => Failure(e)
      case Success((v, k), next) => Success(Leb128.SignExtend(v, k), next)
  }

  /**
   * int(N): read as `sint(N)`, except that a value whose N-bit pattern has its top bit
   * set (2^(N-1) <= v < 2^N) is taken as that pattern's two's-complement value.
   */
  function Int(width: Width, s: seq<uint8>, pos: nat): (r: ParseResult<int>)
    ensures Located(r, s, pos)
    ensures r.Success? ==> pos < r.next && (r.value < Leb128.Pow2(width - 1) || r.value >= Leb128.Pow2(width))
  {
    match Sint(width, s, pos)
    case Failure(e) => Failure(e)
    case Success(v, next) =>
      var half, full := Leb128.Pow2(width - 1), Leb128.Pow2(width);
      Success(if half <= v < full then v - full else v, next)
  }

  function Pow256(k: nat): (r: nat)
    ensures r >= 1
  {
    if k == 0 then 1 else 256 * Pow256(k - 1)
  }

  /** The number whose bytes, most significant first, are `bs`. */
  function BigEndian(bs: seq<uint8>): (n: nat)
    ensures n < Pow256(|bs|)
  {
    if bs == [] then 0 else BigEndian(bs[..|bs| - 1]) * 256 + bs[|bs| - 1]
  }

  /** The `k` bytes, most significant first, of `n` modulo 256^k. */
  function ToBigEndian(n: nat, k: nat): (bs: seq<uint8>)
    ensures |bs| == k
  {
    if k == 0 then [] else ToBigEndian(n / 256, k - 1) + [n % 256]
  }

  /** float32(): the bit pattern of a binary32 value, four bytes read most significant first. */
  function Float32(s: seq<uint8>, pos: nat): (r: ParseResult<nat>)
    ensures r.Success? <==> pos + 4 <= |s|
    ensures r.Success? ==> r.next == pos + 4 && r.value < 0x1_0000_0000
    ensures r.Failure? ==> r.error == UnexpectedEnd
  {
    if pos + 4 <= |s| then
      assert Pow256(4) == 0x1_0000_0000;
      Success(BigEndian(s[pos..pos + 4]), pos + 4)
    else Failure(UnexpectedEnd)
  }

  /** float64(): the bit pattern of a binary64 value, eight bytes read most significant first. */
  function Float64(s: seq<uint8>, pos: nat): (r: ParseResult<nat>)
    ensures r.Success? <==> pos + 8 <= |s|
    ensures r.Success? ==> r.next == pos + 8 && r.value < 0x1_0000_0000_0000_0000
    ensures r.Failure? ==> r.error == UnexpectedEnd
  {
    if pos + 8 <= |s| then
      assert Pow256(8) == 0x1_0000_0000_0000_0000;
      Success(BigEndian(s[pos..pos + 8]), pos + 8)
    else Failure(UnexpectedEnd)
  }

  /**
   * name(): a byte length in unsigned LEB128, then exactly that many bytes read as UTF-8.
   * Too few bytes is the end of input whatever they hold; the count, not the text,
   * decides how far the input is consumed. A multi-byte scalar that the declared
   * length cuts short also fails as the end of input, even when the bytes it still
   * needs follow the span.
   */
  function Name(s: seq<uint8>, pos: nat): (r: ParseResult<string>)
    ensures Located(r, s, pos)
    ensures Uint(32, s, pos).Success? && Uint(32, s, pos).next + Uint(32, s, pos).value > |s| ==>
              r == Failure(UnexpectedEnd)
    ensures r.Success? ==>
              && Uint(32, s, pos).Success?
              && r.next == Uint(32, s, pos).next + Uint(32, s, pos).value
  {
    match Uint(32, s, pos)
    case Failure(e) => Failure(e)
    case Success(length, start) =>
      if start + length > |s| then Failure(UnexpectedEnd)
      else
        match Utf8.Decode(s, start, start + length)
        case Failure(e) => Failure(e)
        case Success(text, next) => Success(text, next)
  }

  /** Runs `element` `count` times, each from where the last stopped; the first failure wins. */
  function Repeat<X>(element: Decoder<X>, count: nat, s: seq<uint8>, pos: nat): (r: ParseResult<seq<X>>)
    decreases count
    ensures r.Success? ==> |r.value| == count
  {
    if count == 0 then Success([], pos)
    else
      match element(s, pos)
      case Failure(e) => Failure(e)
      case Success(x, next) =>
        match Repeat(element, count - 1, s, next)
        case Failure(e) => Failure(e)
        case Success(xs, last) => Success([x] + xs, last)
  }

  /** Repeating an element decoder whose results are located gives a located result. */
  lemma {:induction false} RepeatLocated<X>(element: Decoder<X>, count: nat, s: seq<uint8>, pos: nat)
    requires pos <= |s|
    requires forall p: nat :: Located(element(s, p), s, p)
    ensures Located(Repeat(element, count, s, pos), s, pos)
    decreases count
  {
    if count > 0 {
      var e := element(s, pos);
      assert Located(e, s, pos);
      if e.Success? {
        RepeatLocated(element, count - 1, s, e.next);
      }
    }
  }

  /**
   * vector(of: element): a count in unsigned LEB128, then `count` elements in order.
   * A count of zero is refused at the count's offset.
   */
  function Vector<X>(element: Decoder<X>, s: seq<uint8>, pos: nat): (r: ParseResult<seq<X>>)
    ensures Uint(32, s, pos).Failure? ==> r == Failure(Uint(32, s, pos).error)
    ensures Uint(32, s, pos).Success? && Uint(32, s, pos).value == 0 ==> r == Failure(VectorInvalidLength(0, pos))
    ensures r.Success? ==> Uint(32, s, pos).Success? && |r.value| == Uint(32, s, pos).value >= 1
  {
    match Uint(32, s, pos)
    case Failure(e) => Failure(e)
    case Success(count, next) =>
      if count == 0 then Failure(VectorInvalidLength(0, pos))
      else Repeat(element, count, s, next)
  }

  /** A vector of located elements is located. */
  lemma VectorLocated<X>(element: Decoder<X>, s: seq<uint8>, pos: nat)
    requires forall p: nat :: Located(element(s, p), s, p)
    ensures Located(Vector(element, s, pos), s, pos)
  {
    var c := Uint(32, s, pos);
    if c.Success? && c.value > 0 {
      RepeatLocated(element, c.value, s, c.next);
    }
  }

  /** valueType(): one of the four value-type bytes. */
  function ValueType(s: seq<uint8>, pos: nat): (r: ParseResult<T.ValueType>)
    ensures r.Success? <==> pos < |s| && s[pos] in T.ValueTypeCodes
    ensures r.Success? ==> r.next == pos + 1 && T.Code(r.value) == s[pos]
    ensures r.Failure? ==> r.error == if pos < |s| then Unexpected(s[pos], pos) else UnexpectedEnd
  {
    if pos >= |s| then Failure(UnexpectedEnd)
    else if s[pos] == 0x7F then Success(T.Int32, pos + 1)
    else if s[pos] == 0x7E then Success(T.Int64, pos + 1)
    else if s[pos] == 0x7D then Success(T.Uint32, pos + 1)
    else if s[pos] == 0x7C then Success(T.Uint64, pos + 1)
    else Failure(Unexpected(s[pos], pos))
  }

  /** resultType(): 0x40 for no result, or one value type. */
  function ResultType(s: seq<uint8>, pos: nat): (r: ParseResult<T.ResultType>)
    ensures r.Success? ==> pos < |s| && r.next == pos + 1 && |r.value| <= 1 && s[pos..pos + 1] == T.EncodeResultType(r.value)
    ensures r.Failure? ==> r.error == if pos < |s| then Unexpected(s[pos], pos) else UnexpectedEnd
  {
    if pos < |s| && s[pos] == 0x40 then Success([], pos + 1)
    else
      match ValueType(s, pos)
      case Failure(e) => Failure(e)
      case Success(t, next) => Success([t], next)
  }

  /** functionType(): 0x60, a vector of parameter types, a vector of result types. */
  function FunctionType(s: seq<uint8>, pos: nat): (r: ParseResult<T.FunctionType>)
    ensures Located(r, s, pos)
    ensures r.Success? ==> pos < |s| && s[pos] == 0x60 && |r.value.parameters| >= 1 && |r.value.results| >= 1
  {
    assert forall p: nat :: Located(ValueType(s, p), s, p);
    match Byte(0x60, s, pos)
    case Failure(e) => Failure(e)
    case Success(_, afterTag) =>
      VectorLocated(ValueType, s, afterTag);
      match Vector(ValueType, s, afterTag)
      case Failure(e) => Failure(e)
      case Success(parameters, afterParameters) =>
        VectorLocated(ValueType, s, afterParameters);
        match Vector(ValueType, s, afterParameters)
        case Failure(e) => Failure(e)
        case Success(results, last) => Success(T.FunctionType(parameters, results), last)
  }

  /** limits(): flag 0x00 then a minimum, or flag 0x01 then a minimum and a maximum. */
  function Limits(s: seq<uint8>, pos: nat): (r: ParseResult<T.Limits>)
    ensures Located(r, s, pos)
    ensures r.Success? ==> pos < r.next && s[pos] in {0x00, 0x01} && (r.value.max.Some? <==> s[pos] == 0x01)
    ensures pos < |s| && s[pos] !in {0x00, 0x01} ==> r == Failure(Unexpected(s[pos], pos))
  {
    if pos >= |s| then Failure(UnexpectedEnd)
    else if s[pos] == 0x00 then
      match Uint(32, s, pos + 1)
      case Failure(e) => Failure(e)
      case Success(min, next) => Success(T.Limits(min, None), next)
    else if s[pos] == 0x01 then
      match Uint(32, s, pos + 1)
      case Failure(e) => Failure(e)
      case Success(min, afterMin) =>
        match Uint(32, s, afterMin)
        case Failure(e) => Failure(e)
        case Success(max, next) => Success(T.Limits(min, Some(max)), next)
    else Failure(Unexpected(s[pos], pos))
  }

  /** memoryType(): a memory type is its limits. */
  function MemoryType(s: seq<uint8>, pos: nat): (r: ParseResult<T.MemoryType>)
    ensures Located(r, s, pos)
    ensures r.Success? ==> pos < r.next && (r.value.max.Some? <==> s[pos] == 0x01)
    ensures pos < |s| && s[pos] !in {0x00, 0x01} ==> r == Failure(Unexpected(s[pos], pos))
  {
    Limits(s, pos)
  }

  /** tableType(): the element kind 0x70, then limits. */
  function TableType(s: seq<uint8>, pos: nat): (r: ParseResult<T.TableType>)
    ensures Located(r, s, pos)
    ensures r.Success? ==> pos < |s| && s[pos] == 0x70 && pos < r.next
    ensures pos < |s| && s[pos] != 0x70 ==> r == Failure(Unexpected(s[pos], pos))
  {
    match Byte(0x70, s, pos)
    case Failure(e) => Failure(e)
    case Success(_, next) =>
      match Limits(s, next)
      case Failure(e) => Failure(e)
      case Success(l, last) => Success(T.TableType(l), last)
  }

  /** globalType(): a value type, then 0x00 (constant) or 0x01 (variable). */
  function GlobalType(s: seq<uint8>, pos: nat): (r: ParseResult<T.GlobalType>)
    ensures Located(r, s, pos)
    ensures r.Success? ==> r.next == pos + 2 && s[pos..pos + 2] == T.EncodeGlobalType(r.value)
  {
    match ValueType(s, pos)
    case Failure(e) => Failure(e)
    case Success(t, next) =>
      if next >= |s| then Failure(UnexpectedEnd)
      else if s[next] == 0x00 then Success(T.GlobalType(T.Constant, t), next + 1)
      else if s[next] == 0x01 then Success(T.GlobalType(T.Variable, t), next + 1)
      else Failure(Unexpected(s[next], next))
  }

  /** index(): an index of any index space, as `uint(32)`. */
  function Index(s: seq<uint8>, pos: nat): (r: ParseResult<nat>)
    ensures Located(r, s, pos)
    ensures r.Success? ==> pos < r.next
    ensures r.Failure? ==> r.error == UnexpectedEnd
  {
    Uint(32, s, pos)
  }
}
