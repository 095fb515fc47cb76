/**
 * The decoder's fixed examples, each lemma the cases of one test of
 * Tests/SwasmTests/WASMParserTests.swift.
 */
module WasmParserVectors {
  import opened Results
  import opened WasmParser
  import T = WasmTypes
  import Utf8
  import WasmParserProperties

  /** The element decoder of the vector examples: byte(0x01). */
  function ByteOne(s: seq<uint8>, pos: nat): ParseResult<uint8>
  {
    Byte(0x01, s, pos)
  }

  lemma VectorExamples()
    ensures Vector(ByteOne, [0x01], 0) == Failure(UnexpectedEnd)
    ensures Vector(ByteOne, [0x00], 0) == Failure(VectorInvalidLength(0, 0))
    ensures Vector(ByteOne, [0x02, 0x01, 0x01], 0) == Success([0x01, 0x01], 3)
  {
    var s: seq<uint8> := [0x02, 0x01, 0x01];
    assert ByteOne(s, 1) == Success(0x01, 2) && ByteOne(s, 2) == Success(0x01, 3);
    assert Repeat(ByteOne, 0, s, 3) == Success([], 3);
    assert [0x01] + [] == [0x01] && [0x01] + [0x01] == [0x01, 0x01];
    assert Repeat(ByteOne, 1, s, 2) == Success([0x01], 3);
    assert Repeat(ByteOne, 2, s, 1) == Success([0x01, 0x01], 3);
  }

  lemma ByteExamples()
    ensures Byte(0x01, [0x01], 0) == Success(0x01, 1)
    ensures Byte(0x01, [], 0) == Failure(UnexpectedEnd)
    ensures Byte(0x01, [0x02], 0) == Failure(Unexpected(0x02, 0))
  {
  }

  lemma ByteInRangeExamples()
    ensures ByteInRange(0x01, 0x03, [0x02], 0) == Success(0x02, 1)
    ensures ByteInRange(0x01, 0x03, [], 0) == Failure(UnexpectedEnd)
    ensures ByteInRange(0x01, 0x03, [0x00], 0) == Failure(Unexpected(0x00, 0))
  {
  }

  lemma ByteInSetExamples()
    ensures ByteInSet({0x01, 0x02, 0x03}, [0x02], 0) == Success(0x02, 1)
    ensures ByteInSet({0x01, 0x02, 0x03}, [], 0) == Failure(UnexpectedEnd)
    ensures ByteInSet({0x01, 0x02, 0x03}, [0x00], 0) == Failure(Unexpected(0x00, 0))
  {
  }

  lemma BytesExamples()
    ensures Bytes([0x01, 0x02, 0x03], [0x01], 0) == Failure(UnexpectedEnd)
    ensures Bytes([0x01, 0x02, 0x03], [0x01, 0x02, 0x03], 0) == Success([0x01, 0x02, 0x03], 3)
    ensures Bytes([0x01, 0x02, 0x03], [0x01, 0x09], 0) == Failure(Unexpected(0x09, 1))
  {
  }

  lemma UintExamples()
    ensures Uint(8, [0x7F], 0) == Success(0x7F, 1)
    ensures Uint(8, [0x80], 0) == Failure(UnexpectedEnd)
    ensures Uint(8, [0x80, 0x80], 0) == Failure(UnexpectedEnd)
    ensures Uint(1, [0x80, 0x80], 0) == Failure(Unexpected(0x80, 0))
    ensures Uint(8, [0x82, 0x01], 0) == Success(130, 2)
    ensures Uint(8, [0x83, 0x82, 0x01], 0) == Success(16643, 3)
  {
  }

  lemma SintExamples()
    ensures Sint(8, [0x41], 0) == Success(-63, 1)
    ensures Sint(8, [0x80], 0) == Failure(UnexpectedEnd)
    ensures Sint(8, [0x80, 0x80], 0) == Failure(UnexpectedEnd)
    ensures Sint(1, [0x80, 0x80], 0) == Failure(Unexpected(0x80, 0))
    ensures Sint(8, [0x80, 0x01], 0) == Success(128, 2)
    ensures Sint(8, [0xC2, 0xC1, 0x40], 0) == Success(-1040190, 3)
  {
  }

  lemma IntExamples()
    ensures Int(8, [0x41], 0) == Success(-63, 1)
    ensures Int(8, [0x80], 0) == Failure(UnexpectedEnd)
    ensures Int(8, [0x80, 0x80], 0) == Failure(UnexpectedEnd)
    ensures Int(1, [0x80, 0x80], 0) == Failure(Unexpected(0x80, 0))
    ensures Int(8, [0x80, 0x01], 0) == Success(-128, 2)
    ensures Int(8, [0xC2, 0xC1, 0x40], 0) == Success(-1040190, 3)
  {
  }

  /** The bit patterns are those of 1.0 and of Swift's `Float.pi` in binary32. */
  lemma Float32Examples()
    ensures Float32([0xFF, 0xFF], 0) == Failure(UnexpectedEnd)
    ensures Float32([0x3F, 0x80, 0x00, 0x00], 0) == Success(0x3F80_0000, 4)
    ensures Float32([0x40, 0x49, 0x0F, 0xDA], 0) == Success(0x4049_0FDA, 4)
  {
    assert ToBigEndian(0x3F80_0000, 4) == [0x3F, 0x80, 0x00, 0x00] by {
      assert ToBigEndian(0x3F, 1) == [0x3F];
      assert ToBigEndian(0x3F80, 2) == [0x3F, 0x80];
      assert ToBigEndian(0x3F80_00, 3) == [0x3F, 0x80, 0x00];
    }
    assert ToBigEndian(0x4049_0FDA, 4) == [0x40, 0x49, 0x0F, 0xDA] by {
      assert ToBigEndian(0x40, 1) == [0x40];
      assert ToBigEndian(0x4049, 2) == [0x40, 0x49];
      assert ToBigEndian(0x4049_0F, 3) == [0x40, 0x49, 0x0F];
    }
    ReadsBack32([0x3F, 0x80, 0x00, 0x00], 0x3F80_0000);
    ReadsBack32([0x40, 0x49, 0x0F, 0xDA], 0x4049_0FDA);
  }

  /** The bit patterns are those of 1.0 and of `Double.pi` in binary64. */
  lemma Float64Examples()
    ensures Float64([0xFF, 0xFF, 0xFF, 0xFF], 0) == Failure(UnexpectedEnd)
    ensures Float64([0x3F, 0xF0, 0x00, 0x00, 0x00, 0x00, 0x00, 0x00], 0) == Success(0x3FF0_0000_0000_0000, 8)
    ensures Float64([0x40, 0x09, 0x21, 0xFB, 0x54, 0x44, 0x2D, 0x18], 0) == Success(0x4009_21FB_5444_2D18, 8)
  {
    assert ToBigEndian(0x3FF0_0000_0000_0000, 8) == [0x3F, 0xF0, 0x00, 0x00, 0x00, 0x00, 0x00, 0x00] by {
      assert ToBigEndian(0x3F, 1) == [0x3F];
      assert ToBigEndian(0x3FF0, 2) == [0x3F, 0xF0];
      assert ToBigEndian(0x3FF0_00, 3) == [0x3F, 0xF0, 0x00];
      assert ToBigEndian(0x3FF0_0000, 4) == [0x3F, 0xF0, 0x00, 0x00];
      assert ToBigEndian(0x3FF0_0000_00, 5) == [0x3F, 0xF0, 0x00, 0x00, 0x00];
      assert ToBigEndian(0x3FF0_0000_0000, 6) == [0x3F, 0xF0, 0x00, 0x00, 0x00, 0x00];
      assert ToBigEndian(0x3FF0_0000_0000_00, 7) == [0x3F, 0xF0, 0x00, 0x00, 0x00, 0x00, 0x00];
    }
    assert ToBigEndian(0x4009_21FB_5444_2D18, 8) == [0x40, 0x09, 0x21, 0xFB, 0x54, 0x44, 0x2D, 0x18] by {
      assert ToBigEndian(0x40, 1) == [0x40];
      assert ToBigEndian(0x4009, 2) == [0x40, 0x09];
      assert ToBigEndian(0x4009_21, 3) == [0x40, 0x09, 0x21];
      assert ToBigEndian(0x4009_21FB, 4) == [0x40, 0x09, 0x21, 0xFB];
      assert ToBigEndian(0x4009_21FB_54, 5) == [0x40, 0x09, 0x21, 0xFB, 0x54];
      assert ToBigEndian(0x4009_21FB_5444, 6) == [0x40, 0x09, 0x21, 0xFB, 0x54, 0x44];
      assert ToBigEndian(0x4009_21FB_5444_2D, 7) == [0x40, 0x09, 0x21, 0xFB, 0x54, 0x44, 0x2D];
    }
    ReadsBack64([0x3F, 0xF0, 0x00, 0x00, 0x00, 0x00, 0x00, 0x00], 0x3FF0_0000_0000_0000);
    ReadsBack64([0x40, 0x09, 0x21, 0xFB, 0x54, 0x44, 0x2D, 0x18], 0x4009_21FB_5444_2D18);
  }

  /** A float32 example through the round trip of `Float32OfBits`. */
  lemma ReadsBack32(bs: seq<uint8>, n: nat)
    requires n < 0x1_0000_0000 && ToBigEndian(n, 4) == bs
    ensures Float32(bs, 0) == Success(n, 4)
  {
    WasmParserProperties.Float32OfBits([], n, []);
    assert [] + bs + [] == bs;
  }

  /** A float64 example through the round trip of `Float64OfBits`. */
  lemma ReadsBack64(bs: seq<uint8>, n: nat)
    requires n < 0x1_0000_0000_0000_0000 && ToBigEndian(n, 8) == bs
    ensures Float64(bs, 0) == Success(n, 8)
  {
    WasmParserProperties.Float64OfBits([], n, []);
    assert [] + bs + [] == bs;
  }

  lemma NameExamples()
    ensures Name([0x01, 0x61], 0) == Success("a", 2)
    ensures Name([0x01], 0) == Failure(UnexpectedEnd)
    ensures Name([0x02, 0xC3, 0xA6], 0) == Success("\U{E6}", 3)
    ensures Name([0x02, 0xC3], 0) == Failure(UnexpectedEnd)
    ensures Name([0x03, 0xE3, 0x81, 0x82], 0) == Success("\U{3042}", 4)
    ensures Name([0x03, 0xE3, 0x81], 0) == Failure(UnexpectedEnd)
    ensures Name([0x04, 0xF0, 0x9F, 0x8D, 0xA3], 0) == Success("\U{1F363}", 5)
    ensures Name([0x04, 0xF0, 0x9F, 0x8D], 0) == Failure(UnexpectedEnd)
  {
    var a: seq<uint8> := [0x01, 0x61];
    assert Utf8.Scalar(a, 1, 2) == Success('a', 2);
    assert Utf8.Decode(a, 2, 2) == Success([], 2) && ['a'] + [] == "a";
    assert Utf8.Decode(a, 1, 2) == Success("a", 2);
    var ae: seq<uint8> := [0x02, 0xC3, 0xA6];
    assert Utf8.Scalar(ae, 1, 3) == Success('\U{E6}', 3);
    assert Utf8.Decode(ae, 3, 3) == Success([], 3) && ['\U{E6}'] + [] == "\U{E6}";
    assert Utf8.Decode(ae, 1, 3) == Success("\U{E6}", 3);
    var hiragana: seq<uint8> := [0x03, 0xE3, 0x81, 0x82];
    assert Utf8.Scalar(hiragana, 1, 4) == Success('\U{3042}', 4);
    assert Utf8.Decode(hiragana, 4, 4) == Success([], 4) && ['\U{3042}'] + [] == "\U{3042}";
    assert Utf8.Decode(hiragana, 1, 4) == Success("\U{3042}", 4);
    var sushi: seq<uint8> := [0x04, 0xF0, 0x9F, 0x8D, 0xA3];
    assert Utf8.Scalar(sushi, 1, 5) == Success('\U{1F363}', 5);
    assert Utf8.Decode(sushi, 5, 5) == Success([], 5) && ['\U{1F363}'] + [] == "\U{1F363}";
    assert Utf8.Decode(sushi, 1, 5) == Success("\U{1F363}", 5);
  }

  lemma ValueTypeExamples()
    ensures ValueType([], 0) == Failure(UnexpectedEnd)
    ensures ValueType([0x7F], 0) == Success(T.Int32, 1)
    ensures ValueType([0x7E], 0) == Success(T.Int64, 1)
    ensures ValueType([0x7D], 0) == Success(T.Uint32, 1)
    ensures ValueType([0x7C], 0) == Success(T.Uint64, 1)
    ensures ValueType([0x7B], 0) == Failure(Unexpected(0x7B, 0))
  {
  }

  lemma ResultTypeExamples()
    ensures ResultType([], 0) == Failure(UnexpectedEnd)
    ensures ResultType([0x40], 0) == Success([], 1)
    ensures ResultType([0x7F], 0) == Success([T.Int32], 1)
    ensures ResultType([0x7E], 0) == Success([T.Int64], 1)
    ensures ResultType([0x7D], 0) == Success([T.Uint32], 1)
    ensures ResultType([0x7C], 0) == Success([T.Uint64], 1)
    ensures ResultType([0x7B], 0) == Failure(Unexpected(0x7B, 0))
  {
  }

  lemma FunctionTypeExamples()
    ensures FunctionType([0x60, 0x01, 0x7E, 0x01, 0x7D], 0) == Success(T.FunctionType([T.Int64], [T.Uint32]), 5)
  {
    var s: seq<uint8> := [0x60, 0x01, 0x7E, 0x01, 0x7D];
    assert Repeat(ValueType, 0, s, 3) == Success([], 3) && [T.Int64] + [] == [T.Int64];
    assert Repeat(ValueType, 1, s, 2) == Success([T.Int64], 3);
    assert Vector(ValueType, s, 1) == Success([T.Int64], 3);
    assert Repeat(ValueType, 0, s, 5) == Success([], 5) && [T.Uint32] + [] == [T.Uint32];
    assert Repeat(ValueType, 1, s, 4) == Success([T.Uint32], 5);
    assert Vector(ValueType, s, 3) == Success([T.Uint32], 5);
  }

  lemma LimitsExamples()
    ensures Limits([0x00, 0x01], 0) == Success(T.Limits(1, None), 2)
    ensures Limits([0x01, 0x01, 0x02], 0) == Success(T.Limits(1, Some(2)), 3)
  {
  }

  lemma MemoryTypeExamples()
    ensures MemoryType([0x00, 0x01], 0) == Success(T.Limits(1, None), 2)
    ensures MemoryType([0x01, 0x01, 0x02], 0) == Success(T.Limits(1, Some(2)), 3)
  {
  }

  lemma TableTypeExamples()
    ensures TableType([0x70, 0x00, 0x01], 0) == Success(T.TableType(T.Limits(1, None)), 3)
    ensures TableType([0x70, 0x01, 0x01, 0x02], 0) == Success(T.TableType(T.Limits(1, Some(2))), 4)
  {
  }

  lemma GlobalTypeExamples()
    ensures GlobalType([0x7F, 0x00], 0) == Success(T.GlobalType(T.Constant, T.Int32), 2)
    ensures GlobalType([0x7F, 0x01], 0) == Success(T.GlobalType(T.Variable, T.Int32), 2)
  {
  }

  lemma IndexExamples()
    ensures Index([0x7F], 0) == Success(0x7F, 1)
  {
  }
}
