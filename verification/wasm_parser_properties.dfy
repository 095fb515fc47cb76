/**
 * What the decoders promise across calls: each decodes what the matching encoder writes
 * (and consumes exactly that), `int` reads N-bit two's-complement patterns, and the
 * zero-count rule of `vector` carries over to the types built from it.
 */
module WasmParserProperties {
  import opened Results
  import opened WasmParser
  import T = WasmTypes
  import Leb128
  import Utf8

  lemma {:induction false} Pow2Monotone(a: nat, b: nat)
    requires a <= b
    ensures Leb128.Pow2(a) <= Leb128.Pow2(b)
    decreases b
  {
    if a < b {
      Pow2Monotone(a, b - 1);
    }
  }

  /** uint(N) reads back every number the unsigned encoder writes, if the width admits it. */
  lemma UintOfEncoding(width: Width, p: seq<uint8>, n: nat, rest: seq<uint8>)
    requires width > 7 || n < Leb128.Pow2(width)
    ensures Uint(width, p + Leb128.EncodeUnsigned(n) + rest, |p|)
         == Success(n, |p| + |Leb128.EncodeUnsigned(n)|)
  {
    Leb128.ScanEncodeUnsigned(p, n, rest);
    if width <= 7 {
      Pow2Monotone(width, 7);
      assert Leb128.Pow2(7) == 128;
      assert (p + Leb128.EncodeUnsigned(n) + rest)[|p|] == n;
    }
  }

  /** sint(N) reads back every number the signed encoder writes, if the width admits it. */
  lemma SintOfEncoding(width: Width, p: seq<uint8>, i: int, rest: seq<uint8>)
    requires width > 7 || -(Leb128.Pow2(width - 1) as int) <= i < Leb128.Pow2(width - 1)
    ensures Sint(width, p + Leb128.EncodeSigned(i) + rest, |p|)
         == Success(i, |p| + |Leb128.EncodeSigned(i)|)
  {
    Leb128.ScanEncodeSigned(p, i, rest);
    if width <= 7 {
      Pow2Monotone(width - 1, 6);
      assert Leb128.Pow2(6) == 64;
      assert (p + Leb128.EncodeSigned(i) + rest)[|p|] == i % 0x80;
    }
  }

  /**
   * int(N) reads an N-bit pattern as two's complement: the signed encoding of any
   * i that sint(N) accepts reads as i, except that i in 2^(N-1)..<2^N reads as
   * i - 2^N.
   */
  lemma IntOfEncoding(width: Width, p: seq<uint8>, i: int, rest: seq<uint8>)
    requires width > 7 || -(Leb128.Pow2(width - 1) as int) <= i < Leb128.Pow2(width - 1)
    ensures Int(width, p + Leb128.EncodeSigned(i) + rest, |p|)
         == Success(if Leb128.Pow2(width - 1) <= i < Leb128.Pow2(width) then i - Leb128.Pow2(width) else i,
                    |p| + |Leb128.EncodeSigned(i)|)
  {
    SintOfEncoding(width, p, i, rest);
  }

  /** BigEndian undoes ToBigEndian for numbers that fit the byte count. */
  lemma {:induction false} BigEndianOfBytes(n: nat, k: nat)
    requires n < Pow256(k)
    ensures BigEndian(ToBigEndian(n, k)) == n
  {
    if k > 0 {
      var bs := ToBigEndian(n, k);
      assert bs[..|bs| - 1] == ToBigEndian(n / 256, k - 1);
      BigEndianOfBytes(n / 256, k - 1);
    }
  }

  /** float32() reads back any 32-bit pattern written most significant byte first. */
  lemma Float32OfBits(p: seq<uint8>, n: nat, rest: seq<uint8>)
    requires n < 0x1_0000_0000
    ensures Float32(p + ToBigEndian(n, 4) + rest, |p|) == Success(n, |p| + 4)
  {
    var s := p + ToBigEndian(n, 4) + rest;
    assert s[|p|..|p| + 4] == ToBigEndian(n, 4);
    assert Pow256(4) == 0x1_0000_0000;
    BigEndianOfBytes(n, 4);
  }

  /** float64() reads back any 64-bit pattern written most significant byte first. */
  lemma Float64OfBits(p: seq<uint8>, n: nat, rest: seq<uint8>)
    requires n < 0x1_0000_0000_0000_0000
    ensures Float64(p + ToBigEndian(n, 8) + rest, |p|) == Success(n, |p| + 8)
  {
    var s := p + ToBigEndian(n, 8) + rest;
    assert s[|p|..|p| + 8] == ToBigEndian(n, 8);
    assert Pow256(8) == 0x1_0000_0000_0000_0000;
    BigEndianOfBytes(n, 8);
  }

  /** name() reads back any text written as its UTF-8 byte count followed by its UTF-8 bytes. */
  lemma NameOfEncoding(p: seq<uint8>, text: string, rest: seq<uint8>)
    ensures var e := Utf8.Encode(text);
              Name(p + Leb128.EncodeUnsigned(|e|) + e + rest, |p|)
              == Success(text, |p| + |Leb128.EncodeUnsigned(|e|)| + |e|)
  {
    var e := Utf8.Encode(text);
    var len := Leb128.EncodeUnsigned(|e|);
    var s := p + len + e + rest;
    var start := |p| + |len|;
    assert s == p + len + (e + rest);
    UintOfEncoding(32, p, |e|, e + rest);
    assert s == (p + len) + e + rest;
    Utf8.DecodeOfEncoding(p + len, text, rest);
    NameFromParts(s, |p|, |e|, start, text);
  }

  lemma NameFromParts(s: seq<uint8>, pos: nat, length: nat, start: nat, text: string)
    requires Uint(32, s, pos) == Success(length, start)
    requires start + length <= |s|
    requires Utf8.Decode(s, start, start + length) == Success(text, start + length)
    ensures Name(s, pos) == Success(text, start + length)
  {
    var u := Uint(32, s, pos);
    assert u.Success? && u.value == length && u.next == start;
    assert !(start + length > |s|);
  }

  /** What name() consumes after the count is exactly the UTF-8 encoding of the text it returns. */
  lemma NameIsEncoding(s: seq<uint8>, pos: nat)
    requires Name(s, pos).Success?
    ensures Uint(32, s, pos).Success?
    ensures s[Uint(32, s, pos).next..Name(s, pos).next] == Utf8.Encode(Name(s, pos).value)
  {
    var start, length := Uint(32, s, pos).next, Uint(32, s, pos).value;
    Utf8.DecodeIsEncoding(s, start, start + length);
  }

  /**
   * `xs` read element after element: element i is what `element` returns at `qs[i]`,
   * and it ends at `qs[i + 1]`, where the next element starts.
   */
  ghost predicate Chain<X>(element: Decoder<X>, s: seq<uint8>, xs: seq<X>, qs: seq<nat>) {
    |qs| == |xs| + 1 && forall i | 0 <= i < |xs| :: element(s, qs[i]) == Success(xs[i], qs[i + 1])
  }

  /** A chain without its first element is a chain. */
  lemma ChainTail<X>(element: Decoder<X>, s: seq<uint8>, xs: seq<X>, qs: seq<nat>)
    requires Chain(element, s, xs, qs) && |xs| >= 1
    ensures Chain(element, s, xs[1..], qs[1..])
  {
    forall i | 0 <= i < |xs| - 1
      ensures element(s, qs[1..][i]) == Success(xs[1..][i], qs[1..][i + 1])
    {
      assert element(s, qs[i + 1]) == Success(xs[i + 1], qs[i + 2]);
    }
  }

  /** Running `element` over a chain of n successes returns their values in order and ends where the last ends. */
  lemma {:induction false} RepeatOfElements<X>(element: Decoder<X>, s: seq<uint8>, xs: seq<X>, qs: seq<nat>)
    requires Chain(element, s, xs, qs)
    ensures Repeat(element, |xs|, s, qs[0]) == Success(xs, qs[|xs|])
    decreases |xs|
  {
    if xs != [] {
      assert element(s, qs[0]) == Success(xs[0], qs[1]);
      ChainTail(element, s, xs, qs);
      RepeatOfElements(element, s, xs[1..], qs[1..]);
      assert [xs[0]] + xs[1..] == xs;
    }
  }

  /**
   * When the elements before it succeed, the first element that fails decides the
   * outcome: its error is the result, and no partial list is returned.
   */
  lemma {:induction false} RepeatStopsAtFailure<X>(element: Decoder<X>, n: nat, s: seq<uint8>, xs: seq<X>, qs: seq<nat>)
    requires Chain(element, s, xs, qs) && |xs| < n
    requires element(s, qs[|xs|]).Failure?
    ensures Repeat(element, n, s, qs[0]) == Failure(element(s, qs[|xs|]).error)
    decreases |xs|
  {
    if xs != [] {
      assert element(s, qs[0]) == Success(xs[0], qs[1]);
      ChainTail(element, s, xs, qs);
      RepeatStopsAtFailure(element, n - 1, s, xs[1..], qs[1..]);
    }
  }

  /** vector(of: element) returns the elements of a chain as long as its count, in order. */
  lemma VectorOfElements<X>(element: Decoder<X>, s: seq<uint8>, pos: nat, xs: seq<X>, qs: seq<nat>)
    requires Chain(element, s, xs, qs) && |xs| >= 1
    requires Uint(32, s, pos) == Success(|xs|, qs[0])
    ensures Vector(element, s, pos) == Success(xs, qs[|xs|])
  {
    RepeatOfElements(element, s, xs, qs);
  }

  /** vector(of: element) fails with the error of the first element that fails. */
  lemma VectorStopsAtFailure<X>(element: Decoder<X>, s: seq<uint8>, pos: nat, n: nat, xs: seq<X>, qs: seq<nat>)
    requires Chain(element, s, xs, qs) && |xs| < n
    requires Uint(32, s, pos) == Success(n, qs[0])
    requires element(s, qs[|xs|]).Failure?
    ensures Vector(element, s, pos) == Failure(element(s, qs[|xs|]).error)
  {
    RepeatStopsAtFailure(element, n, s, xs, qs);
  }

  /** The byte at index `i` of a list's codes is the code of its type at index `i`. */
  lemma {:induction false} CodesAt(ts: seq<T.ValueType>, i: nat)
    requires i < |ts|
    ensures T.Codes(ts)[i] == T.Code(ts[i])
    decreases |ts|
  {
    if i > 0 {
      CodesAt(ts[1..], i - 1);
    }
  }

  /** vector(of: valueType()) reads back any non-empty vector of value types. */
  lemma VectorOfValueTypes(p: seq<uint8>, ts: seq<T.ValueType>, rest: seq<uint8>)
    requires |ts| >= 1
    ensures Vector(ValueType, p + T.EncodeValueTypes(ts) + rest, |p|)
         == Success(ts, |p| + |T.EncodeValueTypes(ts)|)
  {
    var count := Leb128.EncodeUnsigned(|ts|);
    var s := p + T.EncodeValueTypes(ts) + rest;
    assert s == p + count + (T.Codes(ts) + rest);
    UintOfEncoding(32, p, |ts|, T.Codes(ts) + rest);
    var start := |p| + |count|;
    var qs := seq(|ts| + 1, i => start + i);
    forall i | 0 <= i < |ts|
      ensures ValueType(s, qs[i]) == Success(ts[i], qs[i + 1])
    {
      CodesAt(ts, i);
      assert s[start + i] == T.Codes(ts)[i];
    }
    VectorOfElements(ValueType, s, |p|, ts, qs);
  }

  /** A vector's zero count is refused whatever its elements would have been. */
  lemma VectorOfNothing<X>(element: Decoder<X>, p: seq<uint8>, rest: seq<uint8>)
    ensures Vector(element, p + [0x00] + rest, |p|) == Failure(VectorInvalidLength(0, |p|))
  {
    UintOfEncoding(32, p, 0, rest);
  }

  /** resultType() reads back the encoding of an empty or one-element result type. */
  lemma ResultTypeOfEncoding(p: seq<uint8>, ts: T.ResultType, rest: seq<uint8>)
    requires |ts| <= 1
    ensures ResultType(p + T.EncodeResultType(ts) + rest, |p|) == Success(ts, |p| + 1)
  {
    assert (p + T.EncodeResultType(ts) + rest)[|p|] == T.EncodeResultType(ts)[0];
    if ts != [] {
      assert ts == [ts[0]];
    }
  }

  /** functionType() reads back a function type whose parameter and result lists are non-empty. */
  lemma FunctionTypeOfEncoding(p: seq<uint8>, f: T.FunctionType, rest: seq<uint8>)
    requires |f.parameters| >= 1 && |f.results| >= 1
    ensures FunctionType(p + T.EncodeFunctionType(f) + rest, |p|)
         == Success(f, |p| + |T.EncodeFunctionType(f)|)
  {
    var ps, rs := T.EncodeValueTypes(f.parameters), T.EncodeValueTypes(f.results);
    var s := p + T.EncodeFunctionType(f) + rest;
    assert s == (p + [0x60]) + ps + (rs + rest);
    VectorOfValueTypes(p + [0x60], f.parameters, rs + rest);
    assert s == (p + [0x60] + ps) + rs + rest;
    VectorOfValueTypes(p + [0x60] + ps, f.results, rest);
    FunctionTypeFromParts(s, |p|, f, |p| + 1 + |ps|, |p| + 1 + |ps| + |rs|);
  }

  lemma FunctionTypeFromParts(s: seq<uint8>, pos: nat, f: T.FunctionType, afterParameters: nat, last: nat)
    requires pos < |s| && s[pos] == 0x60
    requires Vector(ValueType, s, pos + 1) == Success(f.parameters, afterParameters)
    requires Vector(ValueType, s, afterParameters) == Success(f.results, last)
    ensures FunctionType(s, pos) == Success(f, last)
  {
    assert Byte(0x60, s, pos) == Success(0x60, pos + 1);
  }

  /**
   * Because `vector` refuses a zero count, a function type without parameters, or
   * without results, does not decode: the count's offset is reported.
   */
  lemma FunctionTypeWithoutParameters(p: seq<uint8>, rest: seq<uint8>)
    ensures FunctionType(p + [0x60, 0x00] + rest, |p|) == Failure(VectorInvalidLength(0, |p| + 1))
  {
    var s := p + [0x60, 0x00] + rest;
    assert s == (p + [0x60]) + [0x00] + rest;
    VectorOfNothing(ValueType, p + [0x60], rest);
  }

  lemma FunctionTypeWithoutResults(p: seq<uint8>, ts: seq<T.ValueType>, rest: seq<uint8>)
    requires |ts| >= 1
    ensures var ps := T.EncodeValueTypes(ts);
              FunctionType(p + [0x60] + ps + [0x00] + rest, |p|)
              == Failure(VectorInvalidLength(0, |p| + 1 + |ps|))
  {
    var ps := T.EncodeValueTypes(ts);
    var s := p + [0x60] + ps + [0x00] + rest;
    var a := |p| + 1;
    assert s[|p|] == 0x60;
    assert Byte(0x60, s, |p|) == Success(0x60, a);
    assert s == (p + [0x60]) + ps + ([0x00] + rest);
    VectorOfValueTypes(p + [0x60], ts, [0x00] + rest);
    assert Vector(ValueType, s, a) == Success(ts, a + |ps|);
    assert s == (p + [0x60] + ps) + [0x00] + rest;
    VectorOfNothing(ValueType, p + [0x60] + ps, rest);
  }

  /** limits() reads back both shapes of limits. */
  lemma LimitsOfEncoding(p: seq<uint8>, l: T.Limits, rest: seq<uint8>)
    ensures Limits(p + T.EncodeLimits(l) + rest, |p|) == Success(l, |p| + |T.EncodeLimits(l)|)
  {
    var min := Leb128.EncodeUnsigned(l.min);
    var s := p + T.EncodeLimits(l) + rest;
    match l.max
    case None =>
      assert s == (p + [0x00]) + min + rest;
      UintOfEncoding(32, p + [0x00], l.min, rest);
    case Some(m) =>
      var max := Leb128.EncodeUnsigned(m);
      assert s == (p + [0x01]) + min + (max + rest);
      UintOfEncoding(32, p + [0x01], l.min, max + rest);
      assert s == (p + [0x01] + min) + max + rest;
      UintOfEncoding(32, p + [0x01] + min, m, rest);
  }

  /** A memory type is read back from its limits' encoding. */
  lemma MemoryTypeOfEncoding(p: seq<uint8>, m: T.MemoryType, rest: seq<uint8>)
    ensures MemoryType(p + T.EncodeLimits(m) + rest, |p|) == Success(m, |p| + |T.EncodeLimits(m)|)
  {
    LimitsOfEncoding(p, m, rest);
  }

  /** Any index, however large, is read back from its unsigned LEB128 encoding. */
  lemma IndexOfEncoding(p: seq<uint8>, n: nat, rest: seq<uint8>)
    ensures Index(p + Leb128.EncodeUnsigned(n) + rest, |p|) == Success(n, |p| + |Leb128.EncodeUnsigned(n)|)
  {
    UintOfEncoding(32, p, n, rest);
  }

  /** tableType() reads back any table type. */
  lemma TableTypeOfEncoding(p: seq<uint8>, t: T.TableType, rest: seq<uint8>)
    ensures TableType(p + T.EncodeTableType(t) + rest, |p|) == Success(t, |p| + |T.EncodeTableType(t)|)
  {
    var s := p + T.EncodeTableType(t) + rest;
    assert s == (p + [0x70]) + T.EncodeLimits(t.limits) + rest;
    LimitsOfEncoding(p + [0x70], t.limits, rest);
  }

  /** globalType() reads back any global type. */
  lemma GlobalTypeOfEncoding(p: seq<uint8>, g: T.GlobalType, rest: seq<uint8>)
    ensures GlobalType(p + T.EncodeGlobalType(g) + rest, |p|) == Success(g, |p| + 2)
  {
    var s := p + T.EncodeGlobalType(g) + rest;
    assert s[|p|] == T.Code(g.valueType) && s[|p| + 1] == T.EncodeGlobalType(g)[1];
  }
}
