/** Unsigned base-128 varints (LEB128 as in section 7.6 of DWARF v4, the same
    encoding as Protocol Buffers varints), as read by `decode_varint`. */
module Protobufs {
  import opened Ints

  /** The two error strings of `decode_varint`. */
  datatype VarintError =
    | TooLong     // "Varint is too long": a 11th byte is reached after ten continuation bytes
    | Incomplete  // "Incomplete varint data": the input ends before a terminating byte

  /** The value of the 7-bit groups of `s`, first byte least significant. */
  function GroupValue(s: seq<Byte>): nat
  {
    if s == [] then 0 else s[0] % 128 + 128 * GroupValue(s[1..])
  }

  /** `data` starts with a complete varint of n bytes whose groups, truncated
      to 64 bits, are v: n - 1 continuation bytes, then one with a clear high
      bit, and at most ten bytes in all. */
  predicate IsVarintAt(data: seq<Byte>, v: U64, n: nat)
  {
    && 1 <= n <= 10 && n <= |data|
    && data[n - 1] < 128
    && (forall j :: 0 <= j < n - 1 ==> data[j] >= 128)
    && v == GroupValue(data[..n]) % TWO_64
  }

  /** What the loop of `decode_varint` returns from byte i on, the groups of
      the bytes before i being already in `acc`: at the end of the data the
      varint is incomplete; once ten bytes are in (`shift >= 64`) it is too
      long; otherwise the byte's group goes in at bit 7 * i, and a clear high
      bit ends the varint. */
  function VarintFrom(data: seq<Byte>, i: nat, acc: U64): (r: Result<(U64, nat), VarintError>)
    requires i <= |data|
    ensures r.Ok? ==> i < r.value.1 <= |data|
    decreases |data| - i
  {
    if i == |data| then Err(Incomplete)
    else if i >= 10 then Err(TooLong)
    else
      var acc' := (acc + (data[i] % 128) * Pow2(7 * i)) % TWO_64;
      if data[i] < 128 then Ok((acc', i + 1)) else VarintFrom(data, i + 1, acc')
  }

  /** What `decode_varint` returns for `data`: the value (truncated to 64 bits)
      and the number of bytes consumed, or one of its two errors. */
  function VarintOf(data: seq<Byte>): (r: Result<(U64, nat), VarintError>)
    ensures r.Ok? ==> 1 <= r.value.1 <= |data|
  {
    VarintFrom(data, 0, 0)
  }

  /** Appending a byte adds its group at bit position 7 * |s|. */
  lemma {:induction false} GroupValueSnoc(s: seq<Byte>, b: Byte)
    ensures GroupValue(s + [b]) == GroupValue(s) + (b % 128) * Pow2(7 * |s|)
    decreases |s|
  {
    if s == [] {
      assert s + [b] == [b];
      assert [b][1..] == [];
    } else {
      var p := Pow2(7 * (|s| - 1));
      assert GroupValue(s[1..] + [b]) == GroupValue(s[1..]) + (b % 128) * p by {
        GroupValueSnoc(s[1..], b);
      }
      assert Pow2(7 * |s|) == 128 * p by {
        Pow2Add(7, 7 * (|s| - 1));
        Pow2Small();
      }
      assert (s + [b])[1..] == s[1..] + [b];
      calc {
        GroupValue(s + [b]);
        s[0] % 128 + 128 * GroupValue(s[1..] + [b]);
        s[0] % 128 + 128 * (GroupValue(s[1..]) + (b % 128) * p);
        { assert 128 * ((b % 128) * p) == (b % 128) * (128 * p); }
        GroupValue(s) + (b % 128) * (128 * p);
      }
    }
  }

  /** Groups of n bytes fit in 7 * n bits. */
  lemma {:induction false} GroupValueBound(s: seq<Byte>)
    ensures GroupValue(s) < Pow2(7 * |s|)
    decreases |s|
  {
    if s != [] {
      GroupValueBound(s[1..]);
      Pow2Add(7, 7 * (|s| - 1));
      assert Pow2(7) == 128;
      assert GroupValue(s) <= 127 + 128 * (Pow2(7 * (|s| - 1)) - 1);
    }
  }

  lemma ModAddLeft(a: nat, b: nat, m: nat)
    requires m > 0
    ensures (a % m + b) % m == (a + b) % m
  {
    var q := a / m;
    assert a == q * m + a % m;
    var q2 := (a % m + b) / m;
    var r2 := (a % m + b) % m;
    assert a % m + b == q2 * m + r2;
    assert a + b == (q + q2) * m + r2;
    DivModUnique(a + b, m, q + q2, r2);
  }

  /** The groups of the bytes read so far, as the loop keeps them. */
  lemma VarintFromTurn(data: seq<Byte>, i: nat, acc: U64)
    requires i < |data|
    requires acc == GroupValue(data[..i]) % TWO_64
    ensures (acc + (data[i] % 128) * Pow2(7 * i)) % TWO_64 == GroupValue(data[..i + 1]) % TWO_64
  {
    assert data[..i + 1] == data[..i] + [data[i]];
    GroupValueSnoc(data[..i], data[i]);
    ModAddLeft(GroupValue(data[..i]), (data[i] % 128) * Pow2(7 * i), TWO_64);
  }

  /** The outcome of the loop from byte i on, described by the bytes alone. */
  lemma {:induction false} VarintFromSpec(data: seq<Byte>, i: nat, acc: U64)
    requires i <= 10 && i <= |data|
    requires forall j :: 0 <= j < i ==> data[j] >= 128
    requires acc == GroupValue(data[..i]) % TWO_64
    ensures VarintFrom(data, i, acc).Ok? ==>
              IsVarintAt(data, VarintFrom(data, i, acc).value.0, VarintFrom(data, i, acc).value.1)
    ensures VarintFrom(data, i, acc) == Err(Incomplete) <==>
              |data| <= 10 && forall j :: 0 <= j < |data| ==> data[j] >= 128
    ensures VarintFrom(data, i, acc) == Err(TooLong) <==>
              |data| > 10 && forall j :: 0 <= j < 10 ==> data[j] >= 128
    decreases |data| - i
  {
    if i < |data| && i < 10 {
      VarintFromTurn(data, i, acc);
      if data[i] >= 128 {
        VarintFromSpec(data, i + 1, (acc + (data[i] % 128) * Pow2(7 * i)) % TWO_64);
      }
    }
  }

  /** `decode_varint` succeeds exactly on a complete varint of at most ten
      bytes, and fails as incomplete when the data ends first, as too long
      when ten continuation bytes come first. */
  lemma VarintOfSpec(data: seq<Byte>)
    ensures VarintOf(data).Ok? ==> IsVarintAt(data, VarintOf(data).value.0, VarintOf(data).value.1)
    ensures VarintOf(data) == Err(Incomplete) <==>
              |data| <= 10 && forall j :: 0 <= j < |data| ==> data[j] >= 128
    ensures VarintOf(data) == Err(TooLong) <==>
              |data| > 10 && forall j :: 0 <= j < 10 ==> data[j] >= 128
  {
    assert data[..0] == [];
    VarintFromSpec(data, 0, 0);
  }

  /** Conversely, a complete varint at the start of the data is what is read. */
  lemma VarintOfComplete(data: seq<Byte>, v: U64, n: nat)
    requires IsVarintAt(data, v, n)
    ensures VarintOf(data) == Ok((v, n))
  {
    VarintOfSpec(data);
    assert data[n - 1] < 128;
    if VarintOf(data).Ok? {
      var m := VarintOf(data).value.1;
      assert data[m - 1] < 128;
      assert !(m < n) && !(n < m);
      assert data[..m] == data[..n];
    } else {
      var e := VarintOf(data).error;
      assert VarintOf(data) == Err(e);
      match e
      case Incomplete => assert false;
      case TooLong => assert false;
    }
  }

  /** `decode_varint`: the loop over `data` with the mutable `result` and `shift`.
      `result |= value << shift` is written as an addition modulo 2^64: the
      groups already in `result` lie below bit `shift`, so the OR adds, and the
      u64 shift drops the bits of `value` that land at or beyond bit 64. */
  method DecodeVarint(data: seq<Byte>) returns (r: Result<(U64, nat), VarintError>)
    ensures r == VarintOf(data)
  {
    var result: U64 := 0;
    var shift: nat := 0;
    for i := 0 to |data|
      invariant i <= 10
      invariant shift == 7 * i
      invariant VarintOf(data) == VarintFrom(data, i, result)
    {
      if shift >= 64 {
        return Err(TooLong);
      }
      var value := data[i] % 128;
      result := (result + value * Pow2(shift)) % TWO_64;
      if data[i] < 128 {
        return Ok((result, i + 1));
      }
      shift := shift + 7;
    }
    return Err(Incomplete);
  }

  /** The LEB128 encoding of `v`: the inverse of `VarintOf`. */
  function EncodeVarint(v: nat): (s: seq<Byte>)
    ensures |s| >= 1
    decreases v
  {
    if v < 128 then [v] else [v % 128 + 128] + EncodeVarint(v / 128)
  }

  /** Every byte of an encoding but the last carries the continuation bit. */
  lemma {:induction false} EncodeVarintShape(v: nat)
    ensures var s := EncodeVarint(v);
            s[|s| - 1] < 128 && forall j :: 0 <= j < |s| - 1 ==> s[j] >= 128
    decreases v
  {
    if v >= 128 {
      EncodeVarintShape(v / 128);
      var s := EncodeVarint(v);
      assert s[1..] == EncodeVarint(v / 128);
    }
  }

  lemma {:induction false} EncodeVarintValue(v: nat)
    ensures GroupValue(EncodeVarint(v)) == v
    decreases v
  {
    if v >= 128 {
      EncodeVarintValue(v / 128);
      assert EncodeVarint(v)[1..] == EncodeVarint(v / 128);
    }
  }

  /** A value below 2^(7k) takes at most k bytes. */
  lemma {:induction false} EncodeVarintLength(v: nat, k: nat)
    requires k >= 1 && v < Pow2(7 * k)
    ensures |EncodeVarint(v)| <= k
    decreases v
  {
    if v >= 128 {
      Pow2Small();
      assert k >= 2;
      Pow2Add(7, 7 * (k - 1));
      assert v / 128 < Pow2(7 * (k - 1));
      EncodeVarintLength(v / 128, k - 1);
    }
  }

  /** Round trip: a u64 encoded and followed by any bytes decodes to itself,
      consuming exactly its encoding. */
  lemma VarintRoundTrip(v: U64, rest: seq<Byte>)
    ensures VarintOf(EncodeVarint(v) + rest) == Ok((v, |EncodeVarint(v)|))
  {
    var e := EncodeVarint(v);
    var n := |e|;
    var data := e + rest;
    assert n <= 10 by {
      assert v < Pow2(7 * 10) by {
        Pow2Of64();
        Pow2Monotone(64, 70);
      }
      EncodeVarintLength(v, 10);
    }
    EncodeVarintShape(v);
    assert data[..n] == e;
    assert forall j :: 0 <= j < n ==> data[j] == e[j];
    assert GroupValue(e) % TWO_64 == v by {
      EncodeVarintValue(v);
      DivModUnique(v, TWO_64, 0, v);
    }
    VarintOfComplete(data, v, n);
  }

  /** Only the bytes up to the terminator matter: anything after it is ignored. */
  lemma VarintIgnoresSuffix(data: seq<Byte>, rest: seq<Byte>)
    requires VarintOf(data).Ok?
    ensures var n := VarintOf(data).value.1;
            VarintOf(data[..n] + rest) == VarintOf(data)
  {
    var (v, n) := VarintOf(data).value;
    VarintOfSpec(data);
    var d2 := data[..n] + rest;
    assert d2[..n] == data[..n];
    assert forall j :: 0 <= j < n ==> d2[j] == data[j];
    VarintOfComplete(d2, v, n);
  }

  /** A single byte below 0x80 is a complete varint. */
  lemma VarintSingleByte(b: Byte, rest: seq<Byte>)
    requires b < 128
    ensures VarintOf([b] + rest) == Ok((b as U64, 1))
  {
    var data := [b] + rest;
    assert data[..1] == [b];
    assert GroupValue([b]) == b by {
      assert [b][1..] == [];
    }
    VarintOfComplete(data, b, 1);
  }

  /** The vector of the source's unit test: 0x96 0x01 0x00 is 150 in two bytes. */
  lemma VarintDecodes150()
    ensures VarintOf([0x96, 0x01, 0x00]) == Ok((150, 2))
  {
    var data: seq<Byte> := [0x96, 0x01, 0x00];
    assert data[..2] == [0x96, 0x01];
    assert GroupValue([0x96, 0x01]) == 150 by {
      assert [0x96, 0x01][1..] == [0x01];
      assert [0x01][1..] == [];
    }
    VarintOfComplete(data, 150, 2);
  }
}
