/**
 * The type grammar of the binary format, sections 5.3.1-5.3.7 of the WebAssembly Core
 * Specification 1.0, as the decoder's results, together with the encodings a module
 * writer would produce; the encodings are the reference the decoders are proved against.
 */
module WasmTypes {
  import opened Results
  import Leb128

  /**
   * The four value types. The source names the variants for 0x7D and 0x7C `uint32` and
   * `uint64` (the standard calls them f32 and f64); the model keeps the source's names.
   */
  datatype ValueType = Int32 | Int64 | Uint32 | Uint64

  /** Zero or one value type. */
  type ResultType = seq<ValueType>

  datatype FunctionType = FunctionType(parameters: seq<ValueType>, results: seq<ValueType>)

  /** `max >= min` is the validator's rule, not the decoder's. */
  datatype Limits = Limits(min: nat, max: Option<nat>)

  /** A memory type is its limits, in pages. */
  type MemoryType = Limits

  /** The element kind byte 0x70 (function references) is the only one, so only the limits remain. */
  datatype TableType = TableType(limits: Limits)

  datatype Mutability = Constant | Variable

  datatype GlobalType = GlobalType(mutability: Mutability, valueType: ValueType)

  const ValueTypeCodes: set<uint8> := {0x7F, 0x7E, 0x7D, 0x7C}

  /** The byte that stands for a value type. */
  function Code(t: ValueType): (b: uint8)
    ensures b in ValueTypeCodes
  {
    match t
    case Int32 => 0x7F
    case Int64 => 0x7E
    case Uint32 => 0x7D
    case Uint64 => 0x7C
  }

  function Codes(ts: seq<ValueType>): (e: seq<uint8>)
    ensures |e| == |ts|
  {
    if ts == [] then [] else [Code(ts[0])] + Codes(ts[1..])
  }

  /** A vector of value types: its length in unsigned LEB128, then one byte per element. */
  function EncodeValueTypes(ts: seq<ValueType>): seq<uint8>
  {
    Leb128.EncodeUnsigned(|ts|) + Codes(ts)
  }

  function EncodeResultType(ts: ResultType): seq<uint8>
    requires |ts| <= 1
  {
    if ts == [] then [0x40] else [Code(ts[0])]
  }

  function EncodeFunctionType(f: FunctionType): seq<uint8>
  {
    [0x60] + EncodeValueTypes(f.parameters) + EncodeValueTypes(f.results)
  }

  function EncodeLimits(l: Limits): seq<uint8>
  {
    match l.max
    case None => [0x00] + Leb128.EncodeUnsigned(l.min)
    case Some(m) => [0x01] + Leb128.EncodeUnsigned(l.min) + Leb128.EncodeUnsigned(m)
  }

  function EncodeTableType(t: TableType): seq<uint8>
  {
    [0x70] + EncodeLimits(t.limits)
  }

  function EncodeGlobalType(g: GlobalType): seq<uint8>
  {
    [Code(g.valueType), if g.mutability == Constant then 0x00 else 0x01]
  }
}
