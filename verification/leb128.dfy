/**
 * Little-endian base-128 (LEB128) integers, section 5.2.2 of the WebAssembly Core
 * Specification 1.0: each byte carries seven value bits, least significant group first,
 * and bit 0x80 says that another byte follows.
 */
module Leb128 {
  import opened Results

  function Pow2(n: nat): (r: nat)
    ensures r >= 1
  {
    if n == 0 then 1 else 2 * Pow2(n - 1)
  }

  /** 128 to the power k: the weight of the group after k groups. */
  function Pow128(k: nat): (r: nat)
    ensures r >= 1
  {
    if k == 0 then 1 else 128 * Pow128(k - 1)
  }

  /**
   * Reads groups from `pos` while the continuation bit is set. The value is the
   * unsigned number the groups spell; the second component counts the bytes read.
   */
  function Scan(s: seq<uint8>, pos: nat): (r: ParseResult<(nat, nat)>)
    decreases |s| - pos
    ensures r.Failure? ==> r.error == UnexpectedEnd
    ensures r.Success? ==>
              && r.value.1 >= 1
              && r.next == pos + r.value.1 <= |s|
              && r.value.0 < Pow128(r.value.1)
  {
    if pos >= |s| then Failure(UnexpectedEnd)
    else if s[pos] < 0x80 then Success((s[pos], 1), pos + 1)
    else
      match Scan(s, pos + 1)
      case Failure(e) => Failure(e)
      case Success((v, k), next) =>
        assert Pow128(k + 1) == 128 * Pow128(k);
        Success((s[pos] - 0x80 + 0x80 * v, k + 1), next)
  }

  /**
   * A scan fails exactly when no byte from `pos` on ends a number; otherwise it
   * stops just after the first byte without the continuation bit.
   */
  lemma {:induction false} ScanStopsAtFinalGroup(s: seq<uint8>, pos: nat)
    ensures Scan(s, pos).Failure? <==> forall i | pos <= i < |s| :: s[i] >= 0x80
    ensures Scan(s, pos).Success? ==>
              && s[Scan(s, pos).next - 1] < 0x80
              && forall i | pos <= i < Scan(s, pos).next - 1 :: s[i] >= 0x80
    decreases |s| - pos
  {
    if pos < |s| && s[pos] >= 0x80 {
      ScanStopsAtFinalGroup(s, pos + 1);
    }
  }

  /**
   * Two's-complement reading of a `k`-group value: when bit 6 of the final group is
   * set, every bit above the groups is taken to be 1.
   */
  function SignExtend(v: nat, k: nat): (i: int)
    requires k >= 1
    ensures i == v || i == v - Pow128(k)
    ensures v < Pow128(k) ==> -0x40 * Pow128(k - 1) <= i < 0x40 * Pow128(k - 1)
    ensures v < Pow128(k) ==> (i < 0 <==> v >= 0x40 * Pow128(k - 1))
  {
    if v >= 0x40 * Pow128(k - 1) then v - Pow128(k) else v
  }

  /** The shortest unsigned LEB128 encoding of `n`. */
  function EncodeUnsigned(n: nat): (e: seq<uint8>)
    ensures |e| >= 1 && e[|e| - 1] < 0x80
    decreases n
  {
    if n < 0x80 then [n]
    else
      var e := [n % 0x80 + 0x80] + EncodeUnsigned(n / 0x80);
      assert e[|e| - 1] == EncodeUnsigned(n / 0x80)[|e| - 2];
      e
  }

  /** The shortest signed LEB128 encoding of `i`. */
  function EncodeSigned(i: int): (e: seq<uint8>)
    ensures |e| >= 1 && e[|e| - 1] < 0x80
    decreases if i < 0 then -i else i
  {
    if -0x40 <= i < 0x40 then [i % 0x80]
    else
      var e := [i % 0x80 + 0x80] + EncodeSigned(i / 0x80);
      assert e[|e| - 1] == EncodeSigned(i / 0x80)[|e| - 2];
      e
  }

  /** Scanning an unsigned encoding gives back the number, and consumes exactly the encoding. */
  lemma {:induction false} ScanEncodeUnsigned(p: seq<uint8>, n: nat, rest: seq<uint8>)
    ensures Scan(p + EncodeUnsigned(n) + rest, |p|)
         == Success((n, |EncodeUnsigned(n)|), |p| + |EncodeUnsigned(n)|)
    decreases n
  {
    if n >= 0x80 {
      var b: uint8 := n % 0x80 + 0x80;
      ScanEncodeUnsigned(p + [b], n / 0x80, rest);
      assert p + EncodeUnsigned(n) + rest == (p + [b]) + EncodeUnsigned(n / 0x80) + rest;
    }
  }

  /** The number of groups of a signed encoding leaves room for `i` in two's complement. */
  lemma {:induction false} EncodeSignedFits(i: int)
    ensures var q := Pow128(|EncodeSigned(i)| - 1);
            -0x40 * q <= i < 0x40 * q
    decreases if i < 0 then -i else i
  {
    if !(-0x40 <= i < 0x40) {
      var i' := i / 0x80;
      EncodeSignedFits(i');
      var q' := Pow128(|EncodeSigned(i')| - 1);
      assert |EncodeSigned(i)| - 1 == |EncodeSigned(i')|;
      assert Pow128(|EncodeSigned(i)| - 1) == 0x80 * q';
      assert i == 0x80 * i' + i % 0x80;
      assert -0x40 * q' <= i' <= 0x40 * q' - 1;
      assert 0x80 * (-0x40 * q') <= 0x80 * i' <= 0x80 * (0x40 * q' - 1);
    }
  }

  /** Scanning a signed encoding reads the two's-complement bits of `i` over its groups. */
  lemma {:induction false} ScanEncodeSignedValue(p: seq<uint8>, i: int, rest: seq<uint8>)
    ensures var k := |EncodeSigned(i)|;
            Scan(p + EncodeSigned(i) + rest, |p|) == Success((if i >= 0 then i else i + Pow128(k), k), |p| + k)
    decreases if i < 0 then -i else i
  {
    var s := p + EncodeSigned(i) + rest;
    if -0x40 <= i < 0x40 {
      assert EncodeSigned(i) == [i % 0x80];
      assert s[|p|] == i % 0x80;
      SingleGroup(s, |p|);
      assert Pow128(1) == 0x80;
    } else {
      var b: uint8 := i % 0x80 + 0x80;
      var i' := i / 0x80;
      var q := p + [b];
      assert EncodeSigned(i) == [b] + EncodeSigned(i');
      assert s == q + EncodeSigned(i') + rest && |q| == |p| + 1 && s[|p|] == b;
      ScanEncodeSignedValue(q, i', rest);
      var k' := |EncodeSigned(i')|;
      var v': nat := if i' >= 0 then i' else i' + Pow128(k');
      assert Scan(s, |q|) == Success((v', k'), |q| + k');
      GroupInFront(i, Pow128(k'), Pow128(k' + 1));
      var w: nat := if i >= 0 then i else i + Pow128(k' + 1);
      ScanContinuation(s, |p|, v', k', |p| + 1 + k', w);
      assert |EncodeSigned(i)| == k' + 1;
    }
  }

  /** A byte without the continuation bit is a number of one group. */
  lemma SingleGroup(s: seq<uint8>, pos: nat)
    requires pos < |s| && s[pos] < 0x80
    ensures Scan(s, pos) == Success((s[pos] as nat, 1), pos + 1)
  {
  }

  /** The low group of `i` in front of the two's-complement bits of `i / 0x80`. */
  lemma GroupInFront(i: int, m: nat, m2: nat)
    requires m2 == 0x80 * m
    ensures var i' := i / 0x80;
            i % 0x80 + 0x80 * (if i' >= 0 then i' else i' + m) == if i >= 0 then i else i + m2
  {
    var i' := i / 0x80;
    assert i == 0x80 * i' + i % 0x80;
    assert i >= 0 <==> i' >= 0;
  }

  /** A continuation byte in front of a scanned number adds a low group to it. */
  lemma ScanContinuation(s: seq<uint8>, pos: nat, v: nat, k: nat, next: nat, w: nat)
    requires pos < |s| && s[pos] >= 0x80
    requires Scan(s, pos + 1) == Success((v, k), next)
    requires w == s[pos] - 0x80 + 0x80 * v
    ensures Scan(s, pos) == Success((w, k + 1), next)
  {
  }

  /**
   * Scanning a signed encoding gives a group count in which `i` fits as a two's-complement
   * number, and a value whose sign extension is `i`.
   */
  lemma ScanEncodeSigned(p: seq<uint8>, i: int, rest: seq<uint8>)
    ensures var r := Scan(p + EncodeSigned(i) + rest, |p|);
            && r.Success?
            && r.next == |p| + |EncodeSigned(i)|
            && r.value.1 == |EncodeSigned(i)|
            && -0x40 * Pow128(r.value.1 - 1) <= i < 0x40 * Pow128(r.value.1 - 1)
            && r.value.0 == (if i >= 0 then i else i + Pow128(r.value.1))
            && SignExtend(r.value.0, r.value.1) == i
  {
    ScanEncodeSignedValue(p, i, rest);
    EncodeSignedFits(i);
    var k := |EncodeSigned(i)|;
    assert Pow128(k) == 0x80 * Pow128(k - 1);
  }
}
