/**
 * The cursor the decoders read from: a byte input and a position that each
 * read advances. Every method reads byte by byte and is proved to return
 * exactly what the corresponding decoder function of wasm_parser.dfy
 * returns, and to leave the cursor where that result says reading stopped.
 */
module ByteStreams {
  import opened Results
  import Leb128
  import WasmParser

  /** Where reading stops for a result: just past the value on success, at
    * the offending byte for an unexpected element or a refused length, and
    * at the end of the input when it ran out. */
  function Stop<T>(r: ParseResult<T>, s: seq<uint8>): nat {
    match r
    case Success(_, next) => next
    case Failure(UnexpectedEnd) => |s|
    case Failure(Unexpected(_, location)) => location
    case Failure(VectorInvalidLength(_, location)) => location
  }

  /** A LEB128 scan result with `groups` groups of value `acc` read in
    * front of it, so that its own groups weigh `weight` each. */
  function Shift(acc: nat, weight: nat, groups: nat, r: ParseResult<(nat, nat)>): ParseResult<(nat, nat)> {
    match r
    case Failure(e) => Failure(e)
    case Success((v, k), next) => Success((acc + weight * v, groups + k), next)
  }

  /** `acc` with `d` added at weight `weight`. */
  function Weigh(acc: nat, weight: nat, d: nat): nat {
    acc + weight * d
  }

  /** A list of decoded elements with `items` decoded in front of it. */
  function Prepend<X>(items: seq<X>, r: ParseResult<seq<X>>): ParseResult<seq<X>> {
    match r
    case Failure(e) => Failure(e)
    case Success(xs, next) => Success(items + xs, next)
  }

  /** A continuation group contributes its low seven bits below the rest. */
  lemma ScanContinues(s: seq<uint8>, p: nat)
    requires p < |s| && s[p] >= 0x80
    ensures Leb128.Scan(s, p) == Shift(s[p] - 0x80, 128, 1, Leb128.Scan(s, p + 1))
  {
  }

  /** Reading one more group in front merges into the groups already read. */
  lemma ShiftTwice(acc: nat, weight: nat, groups: nat, d: nat, r: ParseResult<(nat, nat)>)
    ensures Shift(acc, weight, groups, Shift(d, 128, 1, r)) == Shift(acc + weight * d, weight * 128, groups + 1, r)
  {
    match r
    case Failure(_) =>
    case Success((v, k), next) =>
      assert weight * (d + 128 * v) == weight * d + (weight * 128) * v by {
        assert weight * (128 * v) == (weight * 128) * v;
      }
  }

  /** One element read by the loop of `ByteStream.Vector`: its failure ends
    * the repetition, its success moves it into the elements read. */
  lemma RepeatStep<X>(element: WasmParser.Decoder<X>, n: nat, s: seq<uint8>, p: nat, items: seq<X>)
    requires n >= 1
    ensures element(s, p).Failure? ==>
              Prepend(items, WasmParser.Repeat(element, n, s, p)) == Failure(element(s, p).error)
    ensures element(s, p).Success? ==>
              Prepend(items, WasmParser.Repeat(element, n, s, p))
              == Prepend(items + [element(s, p).value], WasmParser.Repeat(element, n - 1, s, element(s, p).next))
  {
    var e := element(s, p);
    if e.Success? {
      var rest := WasmParser.Repeat(element, n - 1, s, e.next);
      if rest.Success? {
        assert items + ([e.value] + rest.value) == (items + [e.value]) + rest.value;
      }
    }
  }

  /** One continuation group read by the loop of `ByteStream.Leb`. */
  lemma LebAdvances(s: seq<uint8>, start: nat, p: nat, acc: nat, weight: nat, groups: nat)
    requires p < |s| && s[p] >= 0x80
    requires Leb128.Scan(s, start) == Shift(acc, weight, groups, Leb128.Scan(s, p))
    ensures Leb128.Scan(s, start) == Shift(acc + weight * (s[p] - 0x80), weight * 128, groups + 1, Leb128.Scan(s, p + 1))
  {
    ScanContinues(s, p);
    ShiftTwice(acc, weight, groups, s[p] - 0x80, Leb128.Scan(s, p + 1));
  }

  /** The loop of `ByteStream.Leb` reaching the end of input. */
  lemma LebRunsOut(s: seq<uint8>, start: nat, p: nat, acc: nat, weight: nat, groups: nat)
    requires p >= |s|
    requires Leb128.Scan(s, start) == Shift(acc, weight, groups, Leb128.Scan(s, p))
    ensures Leb128.Scan(s, start) == Failure(UnexpectedEnd)
  {
  }

  /** The final group read by the loop of `ByteStream.Leb`. */
  lemma LebEnds(s: seq<uint8>, start: nat, p: nat, acc: nat, weight: nat, groups: nat)
    requires p < |s| && s[p] < 0x80
    requires Leb128.Scan(s, start) == Shift(acc, weight, groups, Leb128.Scan(s, p))
    ensures Leb128.Scan(s, start) == Success((acc + weight * s[p], groups + 1), p + 1)
  {
    assert Leb128.Scan(s, p) == Success((s[p] as nat, 1), p + 1);
  }

  class ByteStream {
    const bytes: seq<uint8>
    var pos: nat

    constructor (bytes: seq<uint8>)
      ensures this.bytes == bytes && pos == 0
    {
      this.bytes := bytes;
      pos := 0;
    }

    /** byte(b): consumes `expected` or fails at the current byte. */
    method Consume(expected: uint8) returns (r: ParseResult<uint8>)
      modifies this
      ensures r == WasmParser.Byte(expected, bytes, old(pos))
      ensures pos == Stop(r, bytes)
    {
      if pos >= |bytes| {
        pos := |bytes|;
        return Failure(UnexpectedEnd);
      }
      var b := bytes[pos];
      if b != expected {
        return Failure(Unexpected(b, pos));
      }
      pos := pos + 1;
      return Success(b, pos);
    }

    /** Reads LEB128 groups up to the first one without the continuation
      * bit, accumulating their value, least significant group first. */
    method Leb() returns (r: ParseResult<(nat, nat)>)
      modifies this
      ensures r == Leb128.Scan(bytes, old(pos))
      ensures pos == Stop(r, bytes)
    {
      var s, start := bytes, pos;
      var p := start;
      var acc: nat, weight: nat, groups: nat := 0, 1, 0;
      while true
        invariant start <= p && groups == p - start
        invariant Leb128.Scan(s, start) == Shift(acc, weight, groups, Leb128.Scan(s, p))
        decreases |s| - p
      {
        if p >= |s| {
          LebRunsOut(s, start, p, acc, weight, groups);
          pos := |s|;
          return Failure(UnexpectedEnd);
        }
        var b: nat := s[p];
        if b < 0x80 {
          LebEnds(s, start, p, acc, weight, groups);
          pos := p + 1;
          return Success((Weigh(acc, weight, b), groups + 1), pos);
        }
        LebAdvances(s, start, p, acc, weight, groups);
        acc, weight, groups, p := Weigh(acc, weight, b - 0x80), weight * 128, groups + 1, p + 1;
      }
    }

    /** uint(N). */
    method Uint(width: WasmParser.Width) returns (r: ParseResult<nat>)
      modifies this
      ensures r == WasmParser.Uint(width, bytes, old(pos))
      ensures pos == Stop(r, bytes)
    {
      if width <= 7 {
        if pos >= |bytes| {
          pos := |bytes|;
          return Failure(UnexpectedEnd);
        }
        var b := bytes[pos];
        if b >= Leb128.Pow2(width) {
          return Failure(Unexpected(b, pos));
        }
        pos := pos + 1;
        return Success(b as nat, pos);
      }
      var scan := Leb();
      match scan
      case Failure(e) => r := Failure(e);
      case Success((v, _), next) => r := Success(v, next);
    }

    /** sint(N). */
    method Sint(width: WasmParser.Width) returns (r: ParseResult<int>)
      modifies this
      ensures r == WasmParser.Sint(width, bytes, old(pos))
      ensures pos == Stop(r, bytes)
    {
      if width <= 7 {
        if pos >= |bytes| {
          pos := |bytes|;
          return Failure(UnexpectedEnd);
        }
        var b := bytes[pos];
        var half: int := Leb128.Pow2(width - 1);
        if b < half {
          r := Success(b as int, pos + 1);
        } else if 0x80 - half <= b < 0x80 {
          r := Success(b as int - 0x80, pos + 1);
        } else {
          return Failure(Unexpected(b, pos));
        }
        pos := pos + 1;
        return;
      }
      var scan := Leb();
      match scan
      case Failure(e) => r := Failure(e);
      case Success((v, k), next) => r := Success(Leb128.SignExtend(v, k), next);
    }

    /** int(N). */
    method Int(width: WasmParser.Width) returns (r: ParseResult<int>)
      modifies this
      ensures r == WasmParser.Int(width, bytes, old(pos))
      ensures pos == Stop(r, bytes)
    {
      r := Sint(width);
      if r.Success? {
        var v, full := r.value, Leb128.Pow2(width);
        if Leb128.Pow2(width - 1) <= v < full {
          r := Success(v - full, r.next);
        }
      }
    }

    /** vector(of: element): the count, then the elements one after another;
      * a failing element ends the read where its result says. */
    method Vector<X>(element: WasmParser.Decoder<X>) returns (r: ParseResult<seq<X>>)
      modifies this
      ensures r == WasmParser.Vector(element, bytes, old(pos))
      ensures pos == Stop(r, bytes)
    {
      var s, start := bytes, pos;
      var c := Uint(32);
      if c.Failure? {
        return Failure(c.error);
      }
      if c.value == 0 {
        pos := start;
        return Failure(VectorInvalidLength(0, start));
      }
      var count, items, i, p := c.value, [], 0, c.next;
      var whole := WasmParser.Repeat(element, count, s, p);
      assert whole.Success? ==> [] + whole.value == whole.value;
      while i < count
        invariant i <= count && |items| == i
        invariant WasmParser.Repeat(element, count, s, c.next)
               == Prepend(items, WasmParser.Repeat(element, count - i, s, p))
        decreases count - i
      {
        var e := element(s, p);
        RepeatStep(element, count - i, s, p, items);
        if e.Failure? {
          r := Failure(e.error);
          pos := Stop(r, s);
          return;
        }
        items, p, i := items + [e.value], e.next, i + 1;
      }
      assert items + [] == items;
      pos := p;
      r := Success(items, p);
    }
  }
}
