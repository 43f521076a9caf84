/** Base 128 varints (the Protocol Buffers encoding specification, "Base 128 Varints") as the generated
    codec writes, measures and reads them (x/builder/types/tx.pb.go). */
module Varint {
  import opened Integers
  import opened Proposals

  /** Seven bits a byte, low bits first; every byte but the last has its top bit set. */
  function EncodeVarint(v: nat): (e: Bytes)
    ensures |e| >= 1
  {
    if v < 128 then [v] else [v % 128 + 128] + EncodeVarint(v / 128)
  }

  datatype Read = Overflow | Truncated | Value(value: nat, size: nat)

  /** Reads a varint off the front of `s`, having read `k` bytes with value `low` of it. The bits are
      collected in a 64-bit integer; an eleventh byte is an overflow. */
  function ReadVarint(s: Bytes, k: nat, low: nat): (r: Read)
    ensures r.Value? ==> k < r.size <= k + |s| && r.value < TWO_TO_THE_64
    decreases |s|
  {
    if 7 * k >= 64 then Overflow
    else if s == [] then Truncated
    else
      var v := (low + s[0] % 128 * Power128(k)) % TWO_TO_THE_64;
      if s[0] < 128 then Value(v, k + 1) else ReadVarint(s[1..], k + 1, v)
  }

  function Power128(k: nat): nat {
    if k == 0 then 1 else 128 * Power128(k - 1)
  }

  /** Go's `bits.Len64`: how many bits a number needs. */
  function Len64(n: nat): nat {
    if n == 0 then 0 else 1 + Len64(n / 2)
  }

  /** The generated size computation. */
  function Sov(x: nat): nat {
    (Len64(if x % 2 == 0 then x + 1 else x) + 6) / 7
  }

  lemma Len64Drops7(n: nat)
    requires n >= 128
    ensures Len64(n) == 7 + Len64(n / 128)
  {
    var n1, n2, n3 := n / 2, n / 4, n / 8;
    var n4, n5, n6 := n / 16, n / 32, n / 64;
    assert n1 / 2 == n2 && n2 / 2 == n3 && n3 / 2 == n4 && n4 / 2 == n5 && n5 / 2 == n6 && n6 / 2 == n / 128;
    assert Len64(n) == 1 + Len64(n1) == 2 + Len64(n2) == 3 + Len64(n3) == 4 + Len64(n4);
    assert Len64(n4) == 1 + Len64(n5) == 2 + Len64(n6) == 3 + Len64(n / 128);
  }

  lemma Len64Small(n: nat)
    requires 1 <= n < 128
    ensures 1 <= Len64(n) <= 7
  {
    var n1, n2, n3 := n / 2, n / 4, n / 8;
    var n4, n5, n6 := n / 16, n / 32, n / 64;
    assert n1 / 2 == n2 && n2 / 2 == n3 && n3 / 2 == n4 && n4 / 2 == n5 && n5 / 2 == n6 && n6 / 2 == 0;
    assert Len64(n6) <= 1 && Len64(n5) <= 2 && Len64(n4) <= 3 && Len64(n3) <= 4;
    assert Len64(n2) <= 5 && Len64(n1) <= 6;
  }

  lemma Len64IgnoresTheLowBit(n: nat)
    requires n >= 1
    ensures Len64(if n % 2 == 0 then n + 1 else n) == Len64(n)
  {
    if n % 2 == 0 {
      assert (n + 1) / 2 == n / 2;
      assert Len64(n + 1) == 1 + Len64(n / 2);
    }
  }

  /** The size computation, from the bit length, is exactly the number of bytes written. */
  lemma {:induction false} SovIsTheSize(v: nat)
    ensures Sov(v) == |EncodeVarint(v)|
  {
    var odd := if v % 2 == 0 then v + 1 else v;
    if v < 128 {
      Len64Small(odd);
    } else {
      SovIsTheSize(v / 128);
      Len64Drops7(odd);
      Len64IgnoresTheLowBit(v / 128);
      assert odd / 128 == v / 128;
    }
  }

  lemma Power128s()
    ensures Power128(9) == 0x8000_0000_0000_0000 && Power128(10) == 128 * TWO_TO_THE_63
  {
    assert Power128(3) == 0x20_0000;
    assert Power128(6) == 0x20_0000 * 0x20_0000;
    assert Power128(9) == 0x20_0000 * 0x20_0000 * 0x20_0000;
  }

  lemma Power128Next(k: nat)
    ensures Power128(k + 1) == 128 * Power128(k)
  {
  }

  lemma SplitDigit(v: nat, p: nat)
    ensures v * p == (v % 128) * p + (v / 128) * (128 * p)
    ensures (v % 128) * p >= 0 && (v / 128) * (128 * p) >= 0
    ensures v >= 128 ==> (v / 128) * (128 * p) >= 128 * p
  {
    assert v == v % 128 + 128 * (v / 128);
    assert (128 * (v / 128)) * p == (v / 128) * (128 * p);
    if v >= 128 {
      assert (v / 128 - 1) * (128 * p) >= 0;
    }
  }

  /** One byte of reading what was written. */
  lemma ReadOne(v: nat, k: nat, low: nat, rest: Bytes)
    requires low + v * Power128(k) < TWO_TO_THE_64 && k <= 9
    ensures v < 128 ==> ReadVarint(EncodeVarint(v) + rest, k, low) == Value(low + v * Power128(k), k + 1)
    ensures v >= 128 ==> ReadVarint(EncodeVarint(v) + rest, k, low)
                         == ReadVarint(EncodeVarint(v / 128) + rest, k + 1, low + (v % 128) * Power128(k))
  {
    var s := EncodeVarint(v) + rest;
    SplitDigit(v, Power128(k));
    if v < 128 {
      assert s[0] == v;
      SmallStays(low + v * Power128(k));
    } else {
      assert s[0] == v % 128 + 128 && s[1..] == EncodeVarint(v / 128) + rest;
      Continuation(v % 128);
      SmallStays(low + (v % 128) * Power128(k));
      hide EncodeVarint, Power128;
    }
  }

  lemma Continuation(digit: nat)
    requires digit < 128
    ensures (digit + 128) % 128 == digit
  {
  }

  lemma SmallStays(n: nat)
    requires n < TWO_TO_THE_64
    ensures n % TWO_TO_THE_64 == n
  {
  }

  /** Reading undoes writing, whatever follows. */
  lemma {:induction false} ReadUndoesEncode(v: nat, k: nat, low: nat, rest: Bytes)
    requires low + v * Power128(k) < TWO_TO_THE_64 && k <= 9
    ensures ReadVarint(EncodeVarint(v) + rest, k, low) == Value(low + v * Power128(k), k + |EncodeVarint(v)|)
    decreases v
  {
    hide ReadVarint, Power128;
    ReadOne(v, k, low, rest);
    if v >= 128 {
      SplitDigit(v, Power128(k));
      Power128Next(k);
      Power128s();
      ReadUndoesEncode(v / 128, k + 1, low + (v % 128) * Power128(k), rest);
    }
  }

  /** Every 64-bit number is read back as it was written. */
  lemma VarintRoundTrip(v: nat, rest: Bytes)
    requires v < TWO_TO_THE_64
    ensures ReadVarint(EncodeVarint(v) + rest, 0, 0) == Value(v, |EncodeVarint(v)|)
  {
    assert Power128(0) == 1;
    ReadUndoesEncode(v, 0, 0, rest);
  }

  /** The number that seven bits a byte, low bits first, stand for. */
  function Digits(s: Bytes): nat {
    if s == [] then 0 else s[0] % 128 + 128 * Digits(s[1..])
  }

  /** The written form: as few bytes as it takes, all but the last marked, that stand for the number. */
  lemma {:induction false} EncodeIsBase128(v: nat)
    ensures var e := EncodeVarint(v);
            && Digits(e) == v
            && (forall i :: 0 <= i < |e| - 1 ==> e[i] >= 128)
            && e[|e| - 1] < 128 && (|e| > 1 ==> e[|e| - 1] > 0)
    decreases v
  {
    if v >= 128 {
      EncodeIsBase128(v / 128);
      var e, rest := EncodeVarint(v), EncodeVarint(v / 128);
      assert e[1..] == rest && e[0] % 128 == v % 128;
      forall i | 0 <= i < |e| - 1 ensures e[i] >= 128 {
        assert i > 0 ==> e[i] == rest[i - 1];
      }
    }
  }

  /** How many bytes lead up to the first unmarked one. */
  function Marked(s: Bytes): (n: nat)
    ensures n <= |s|
    ensures forall i :: 0 <= i < n ==> s[i] >= 128
    ensures n < |s| ==> s[n] < 128
  {
    if s == [] || s[0] < 128 then 0 else 1 + Marked(s[1..])
  }

  lemma DigitsAfterMod(low: nat, digit: nat, p: nat, rest: nat)
    ensures ((low + digit * p) % TWO_TO_THE_64 + rest * (128 * p)) % TWO_TO_THE_64 == (low + (digit + 128 * rest) * p) % TWO_TO_THE_64
  {
    var a, b := low + digit * p, rest * (128 * p);
    assert (digit + 128 * rest) * p == digit * p + (128 * rest) * p;
    assert (128 * rest) * p == b;
    ModAdds(a, b);
  }

  lemma ModAdds(a: nat, b: nat)
    ensures (a % TWO_TO_THE_64 + b) % TWO_TO_THE_64 == (a + b) % TWO_TO_THE_64
  {
  }

  lemma ReadUnfolds(s: Bytes, k: nat, low: nat)
    ensures k >= 10 ==> ReadVarint(s, k, low) == Overflow
    ensures k < 10 && s == [] ==> ReadVarint(s, k, low) == Truncated
    ensures k < 10 && s != [] ==>
              var v := (low + s[0] % 128 * Power128(k)) % TWO_TO_THE_64;
              ReadVarint(s, k, low) == if s[0] < 128 then Value(v, k + 1) else ReadVarint(s[1..], k + 1, v)
  {
    hide Power128;
  }

  lemma DigitsCons(s: Bytes, n: nat)
    requires n < |s|
    ensures Digits(s[..n + 1]) == s[0] % 128 + 128 * Digits(s[1..][..n])
    ensures n == 0 ==> Digits(s[1..][..n]) == 0
  {
    assert s[..n + 1][1..] == s[1..][..n];
  }

  /** What reading gives on any bytes, having read `k`: the digits up to the first unmarked byte, in 64
      bits; an overflow when ten bytes are marked; and nothing when the bytes end before. */
  lemma {:induction false} ReadIs(s: Bytes, k: nat, low: nat)
    requires k <= 10 && low < TWO_TO_THE_64
    ensures var n := Marked(s);
            ReadVarint(s, k, low) == if k + n >= 10 then Overflow
                                     else if n == |s| then Truncated
                                     else Value((low + Digits(s[..n + 1]) * Power128(k)) % TWO_TO_THE_64, k + n + 1)
    decreases |s|
  {
    hide ReadVarint, Power128, Digits;
    ReadUnfolds(s, k, low);
    if k < 10 && s != [] {
      var n, v := Marked(s), (low + s[0] % 128 * Power128(k)) % TWO_TO_THE_64;
      if n < |s| {
        DigitsCons(s, n);
      }
      if s[0] >= 128 {
        ReadIs(s[1..], k + 1, v);
        if n < |s| {
          Power128Next(k);
          DigitsAfterMod(low, s[0] % 128, Power128(k), Digits(s[1..][..n]));
        }
      }
    }
  }

  /** What has been read does not depend on what follows. */
  lemma {:induction false} ReadIsPrefix(s: Bytes, rest: Bytes, k: nat, low: nat)
    requires ReadVarint(s, k, low).Value?
    ensures ReadVarint(s + rest, k, low) == ReadVarint(s, k, low)
    decreases |s|
  {
    assert (s + rest)[0] == s[0] && (s + rest)[1..] == s[1..] + rest;
    if s[0] >= 128 {
      ReadIsPrefix(s[1..], rest, k + 1, (low + s[0] % 128 * Power128(k)) % TWO_TO_THE_64);
    }
  }

  /** A buffer in three parts: as it was, what has been written, and as it was again. */
  ghost predicate InParts(now: Bytes, was: Bytes, base: nat, written: Bytes) {
    base + |written| <= |was| && now == was[..base] + written + was[base + |written|..]
  }

  lemma StoreNext(now: Bytes, was: Bytes, base: nat, written: Bytes, b: Byte)
    requires InParts(now, was, base, written) && base + |written| < |was|
    ensures |now| == |was| && InParts(now[base + |written| := b], was, base, written + [b])
  {
    var o := base + |written|;
    assert was[o..] == [was[o]] + was[o + 1..];
    assert now[o := b] == was[..base] + written + [b] + was[o + 1..];
  }

  lemma EncodeUnfolds(written: Bytes, v: nat)
    ensures v < 128 ==> EncodeVarint(v) == [v]
    ensures v >= 128 ==> && |EncodeVarint(v)| == 1 + |EncodeVarint(v / 128)|
                         && written + EncodeVarint(v) == (written + [v % 128 + 128]) + EncodeVarint(v / 128)
  {
  }

  lemma NothingWritten(was: Bytes, base: nat)
    requires base <= |was|
    ensures InParts(was, was, base, [])
  {
  }

  lemma AllWritten(now: Bytes, was: Bytes, base: nat, written: Bytes)
    requires InParts(now, was, base, written)
    ensures now == was[..base] + written + was[base + |written|..]
  {
  }

  /** Stores one byte behind what has been written. */
  method PutByte(dAtA: array<Byte>, b: Byte, ghost was: Bytes, ghost base: nat, ghost written: Bytes, o: nat)
    requires InParts(dAtA[..], was, base, written) && o == base + |written| < |was|
    modifies dAtA
    ensures InParts(dAtA[..], was, base, written + [b])
  {
    hide InParts;
    ghost var now := dAtA[..];
    StoreNext(now, was, base, written, b);
    dAtA[o] := b;
    assert dAtA[..] == now[o := b];
  }

  /** Writes a varint so that it ends at `offset`, and returns where it starts. */
  method EncodeVarintTx(dAtA: array<Byte>, offset: nat, v: nat) returns (base: nat)
    requires Sov(v) <= offset <= dAtA.Length
    modifies dAtA
    ensures base == offset - |EncodeVarint(v)|
    ensures dAtA[..] == old(dAtA[..])[..base] + EncodeVarint(v) + old(dAtA[..])[offset..]
  {
    SovIsTheSize(v);
    hide Sov, EncodeVarint, InParts;
    var o: nat := offset - Sov(v);
    base := o;
    var x := v;
    ghost var was, written: Bytes := dAtA[..], [];
    NothingWritten(was, base);
    assert written + EncodeVarint(x) == EncodeVarint(v);
    while x >= 128
      invariant o == base + |written| && o + |EncodeVarint(x)| == offset
      invariant written + EncodeVarint(x) == EncodeVarint(v)
      invariant InParts(dAtA[..], was, base, written)
    {
      PutByte(dAtA, x % 128 + 128, was, base, written, o);
      EncodeUnfolds(written, x);
      written := written + [x % 128 + 128];
      x := x / 128;
      o := o + 1;
    }
    PutByte(dAtA, x, was, base, written, o);
    EncodeUnfolds(written, x);
    AllWritten(dAtA[..], was, base, EncodeVarint(v));
  }

  /** The loop that reads a varint at `i`. */
  method DecodeVarint(data: Bytes, i: nat) returns (r: Read)
    requires i <= |data|
    ensures r == ReadVarint(data[i..], 0, 0)
  {
    var k: nat, v: nat, scale: nat := 0, 0, 1;
    while true
      invariant i + k <= |data| && 7 * k < 77 && scale == Power128(k)
      invariant ReadVarint(data[i..], 0, 0) == ReadVarint(data[i + k..], k, v)
      decreases |data| - k
    {
      if 7 * k >= 64 {
        return Overflow;
      }
      if i + k >= |data| {
        return Truncated;
      }
      var b := data[i + k];
      assert data[i + k..][0] == b && data[i + k..][1..] == data[i + k + 1..];
      v := (v + b % 128 * scale) % TWO_TO_THE_64;
      k := k + 1;
      scale := 128 * scale;
      if b < 128 {
        return Value(v, k);
      }
    }
  }
}
