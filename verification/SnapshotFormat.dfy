/** The primitive encodings shared by every part of a snapshot, and their reader. */
module SnapshotFormat {
  import opened Ordering
  import opened Errors

  const TWO32: nat := 0x1_0000_0000
  const TWO64: nat := 0x1_0000_0000_0000_0000

  type U32 = n: int | 0 <= n < TWO32
  type U64 = n: int | 0 <= n < TWO64

  // ---------------------------------------------------------------- little-endian integers

  /** The `n` low bytes of `v`, least significant first. */
  function LE(v: nat, n: nat): (b: Bytes)
    ensures |b| == n
    decreases n
  {
    if n == 0 then [] else [v % 256] + LE(v / 256, n - 1)
  }

  function FromLE(b: Bytes): nat {
    if b == [] then 0 else b[0] + 256 * FromLE(b[1..])
  }

  function Pow256(n: nat): nat { if n == 0 then 1 else 256 * Pow256(n - 1) }

  /** Byte i counts 256^i. */
  lemma {:induction false} DigitAt(v: nat, n: nat, i: nat)
    requires i < n
    ensures Pow256(i) > 0 && LE(v, n)[i] == v / Pow256(i) % 256
    decreases n
  {
    PowPositive(i);
    if i > 0 {
      DigitAt(v / 256, n - 1, i - 1);
      DividedTwice(v, Pow256(i - 1));
    }
  }

  lemma {:induction false} PowPositive(i: nat)
    ensures Pow256(i) > 0
  {
    if i > 0 { PowPositive(i - 1); }
  }

  lemma DividedTwice(v: nat, d: nat)
    requires d > 0
    ensures v / 256 / d == v / (256 * d)
  {
    var h, q := v / 256, v / 256 / d;
    assert q * d <= h < q * d + d;
    assert (256 * d) * q == 256 * (q * d);
    WholePart(v, 256 * d, q);
  }

  lemma WholePart(v: nat, d: nat, q: nat)
    requires d > 0 && d * q <= v < d * q + d
    ensures v / d == q
  {
    var e := v / d;
    assert d * e <= v < d * e + d;
    assert d * (e + 1 - q) == d * e + d - d * q && d * (q + 1 - e) == d * q + d - d * e;
    SameSign(d, e + 1 - q);
    SameSign(d, q + 1 - e);
  }

  lemma SameSign(d: nat, x: int)
    requires d > 0 && d * x > 0
    ensures x > 0
  {
  }

  lemma {:induction false} FromLELE(v: nat, n: nat)
    requires v < Pow256(n)
    ensures FromLE(LE(v, n)) == v
    decreases n
  {
    if n > 0 {
      FromLELE(v / 256, n - 1);
      assert LE(v, n)[1..] == LE(v / 256, n - 1);
    }
  }

  lemma {:induction false} LEFromLE(b: Bytes)
    ensures FromLE(b) < Pow256(|b|) && LE(FromLE(b), |b|) == b
  {
    if b != [] {
      LEFromLE(b[1..]);
      assert FromLE(b) % 256 == b[0] && FromLE(b) / 256 == FromLE(b[1..]);
      assert b == [b[0]] + b[1..];
    }
  }

  function U32Bytes(v: U32): Bytes { LE(v, 4) }

  function U64Bytes(v: U64): Bytes { LE(v, 8) }

  /** A more significant byte adds its value at the next power. */
  lemma {:induction false} FromLESnoc(b: Bytes, x: Byte)
    ensures FromLE(b + [x]) == FromLE(b) + x * Pow256(|b|)
  {
    if b != [] {
      FromLESnoc(b[1..], x);
      assert (b + [x])[1..] == b[1..] + [x];
      assert 256 * (x * Pow256(|b| - 1)) == x * (256 * Pow256(|b| - 1));
    }
  }

  /** u32 length, then the bytes. */
  function StringBytes(s: Bytes): Bytes
    requires |s| < TWO32
  {
    U32Bytes(|s|) + s
  }

  lemma Pow256Values()
    ensures Pow256(1) == 256 && Pow256(4) == TWO32 && Pow256(8) == TWO64
  {
    assert Pow256(2) == 256 * 256 && Pow256(3) == 256 * 256 * 256;
    assert Pow256(5) == 256 * Pow256(4) && Pow256(6) == 256 * Pow256(5) && Pow256(7) == 256 * Pow256(6);
  }

  /** Moving the brackets of a concatenation, and taking off its first part. */
  lemma Assoc(a: Bytes, b: Bytes, c: Bytes)
    ensures a + b + c == a + (b + c) && (a + b + c)[|a|..] == b + c
  {
  }

  lemma Regroup(a: Bytes, b: Bytes, c: Bytes, d: Bytes)
    ensures a + b + c + d == a + (b + (c + d)) && (a + b + c + d)[|a|..] == b + (c + d)
  {
  }

  // ---------------------------------------------------------------- what a read yields

  /** A value read from the front of a byte string, and what is left; None when it runs past the end. */
  type Read<T> = Option<(T, Bytes)>

  function ReadRaw(s: Bytes, n: nat): Read<Bytes> { if |s| < n then None else Some((s[..n], s[n..])) }

  function ReadU8(s: Bytes): Read<Byte> { if |s| < 1 then None else Some((s[0], s[1..])) }

  function ReadInt(s: Bytes, n: nat): Read<nat> { if |s| < n then None else Some((FromLE(s[..n]), s[n..])) }

  function ReadString(s: Bytes): Read<Bytes> {
    match ReadInt(s, 4)
    case None => None
    case Some(p) => ReadRaw(p.1, p.0)
  }

  /** Reading back what was written, in front of anything else. */
  lemma ReadBack(v: nat, n: nat, rest: Bytes)
    requires v < Pow256(n)
    ensures ReadInt(LE(v, n) + rest, n) == Some((v, rest))
  {
    FromLELE(v, n);
    assert (LE(v, n) + rest)[..n] == LE(v, n) && (LE(v, n) + rest)[n..] == rest;
  }

  lemma ReadU32Back(v: U32, rest: Bytes)
    ensures ReadInt(U32Bytes(v) + rest, 4) == Some((v, rest))
  {
    Pow256Values();
    ReadBack(v, 4, rest);
  }

  lemma ReadStringBack(s: Bytes, rest: Bytes)
    requires |s| < TWO32
    ensures ReadString(StringBytes(s) + rest) == Some((s, rest))
  {
    ReadU32Back(|s|, s + rest);
    assert StringBytes(s) + rest == U32Bytes(|s|) + (s + rest);
    assert (s + rest)[..|s|] == s && (s + rest)[|s|..] == rest;
  }

  /** A successful integer read consumed exactly the encoding of its value. */
  lemma ReadIntSound(s: Bytes, n: nat)
    requires ReadInt(s, n).Some?
    ensures ReadInt(s, n).value.0 < Pow256(n) && s == LE(ReadInt(s, n).value.0, n) + ReadInt(s, n).value.1
  {
    LEFromLE(s[..n]);
    assert s == s[..n] + s[n..];
  }

  lemma ReadStringSound(s: Bytes)
    requires ReadString(s).Some?
    ensures |ReadString(s).value.0| < TWO32 && s == StringBytes(ReadString(s).value.0) + ReadString(s).value.1
  {
    hide LE, FromLE;
    Pow256Values();
    ReadIntSound(s, 4);
    var p := ReadInt(s, 4).value;
    assert p.1 == p.1[..p.0] + p.1[p.0..];
    Assoc(LE(p.0, 4), p.1[..p.0], p.1[p.0..]);
  }

  // ---------------------------------------------------------------- ByteWriter

  /** An append-only little-endian buffer. */
  class ByteWriter {
    var buffer: Bytes

    constructor ()
      ensures buffer == []
    {
      buffer := [];
    }

    method PutU8(v: Byte)
      modifies this
      ensures buffer == old(buffer) + [v]
    {
      buffer := buffer + [v];
    }

    method PutInt(v: nat, width: nat)
      modifies this
      ensures buffer == old(buffer) + LE(v, width)
    {
      var left := v;
      for i := 0 to width
        invariant old(buffer) + LE(v, width) == buffer + LE(left, width - i)
      {
        ghost var before := buffer;
        PutU8(left % 256);
        assert before + LE(left, width - i) == buffer + LE(left / 256, width - i - 1);
        left := left / 256;
      }
    }

    method PutU32(v: U32)
      modifies this
      ensures buffer == old(buffer) + U32Bytes(v)
    {
      PutInt(v, 4);
    }

    method PutU64(v: U64)
      modifies this
      ensures buffer == old(buffer) + U64Bytes(v)
    {
      PutInt(v, 8);
    }

    method PutRaw(bytes: Bytes)
      modifies this
      ensures buffer == old(buffer) + bytes
    {
      buffer := buffer + bytes;
    }

    method PutString(s: Bytes)
      requires |s| < TWO32
      modifies this
      ensures buffer == old(buffer) + StringBytes(s)
    {
      PutU32(|s|);
      PutRaw(s);
      assert old(buffer) + U32Bytes(|s|) + s == old(buffer) + StringBytes(s);
    }
  }

  // ---------------------------------------------------------------- ByteReader

  /** A bounds-checked cursor: a read past the end trips a sticky flag and yields zero. */
  class ByteReader {
    const data: Bytes
    var pos: nat
    var ok: bool

    ghost predicate Valid()
      reads this
    {
      pos <= |data|
    }

    /** What is still unread. */
    function Rest(): Bytes
      requires Valid()
      reads this
    {
      data[pos..]
    }

    constructor (data: Bytes)
      ensures Valid() && ok && Rest() == data && this.data == data
    {
      this.data := data;
      pos, ok := 0, true;
    }

    method Ensure(need: nat) returns (r: bool)
      requires Valid()
      modifies this`ok
      ensures Valid() && r == ok == (old(ok) && need <= |Rest()|)
    {
      if !ok {
        return false;
      }
      if pos + need > |data| {
        ok := false;
        return false;
      }
      return true;
    }

    method GetU8() returns (v: Byte)
      requires Valid()
      modifies this
      ensures Valid() && ok == (old(ok) && ReadU8(old(Rest())).Some?)
      ensures if ok then ReadU8(old(Rest())) == Some((v, Rest())) else v == 0 && pos == old(pos)
    {
      var enough := Ensure(1);
      if !enough {
        return 0;
      }
      v := data[pos];
      pos := pos + 1;
    }

    method GetInt(width: nat) returns (v: nat)
      requires Valid()
      modifies this
      ensures Valid() && ok == (old(ok) && ReadInt(old(Rest()), width).Some?)
      ensures if ok then ReadInt(old(Rest()), width) == Some((v, Rest())) else v == 0 && pos == old(pos)
    {
      var enough := Ensure(width);
      if !enough {
        return 0;
      }
      v := 0;
      var scale: nat := 1;
      for i := 0 to width
        modifies {}
        invariant v == FromLE(data[pos..pos + i]) && scale == Pow256(i)
      {
        assert data[pos..pos + i + 1] == data[pos..pos + i] + [data[pos + i]];
        FromLESnoc(data[pos..pos + i], data[pos + i]);
        v := v + data[pos + i] * scale;
        scale := 256 * scale;
      }
      assert old(Rest())[..width] == data[pos..pos + width];
      pos := pos + width;
    }

    method GetU32() returns (v: U32)
      requires Valid()
      modifies this
      ensures Valid() && ok == (old(ok) && ReadInt(old(Rest()), 4).Some?)
      ensures if ok then ReadInt(old(Rest()), 4) == Some((v, Rest())) else v == 0 && pos == old(pos)
    {
      Pow256Values();
      var n := GetInt(4);
      if ok { ReadIntSound(old(Rest()), 4); }
      v := n;
    }

    method GetU64() returns (v: U64)
      requires Valid()
      modifies this
      ensures Valid() && ok == (old(ok) && ReadInt(old(Rest()), 8).Some?)
      ensures if ok then ReadInt(old(Rest()), 8) == Some((v, Rest())) else v == 0 && pos == old(pos)
    {
      Pow256Values();
      var n := GetInt(8);
      if ok { ReadIntSound(old(Rest()), 8); }
      v := n;
    }

    method GetRaw(n: nat) returns (bytes: Bytes)
      requires Valid()
      modifies this
      ensures Valid() && ok == (old(ok) && ReadRaw(old(Rest()), n).Some?)
      ensures if ok then ReadRaw(old(Rest()), n) == Some((bytes, Rest())) else bytes == [] && pos == old(pos)
    {
      var enough := Ensure(n);
      if !enough {
        return [];
      }
      bytes := data[pos..pos + n];
      assert old(Rest())[..n] == bytes;
      pos := pos + n;
    }

    method GetString() returns (s: Bytes)
      requires Valid()
      modifies this
      ensures Valid() && ok == (old(ok) && ReadString(old(Rest())).Some?)
      ensures if ok then ReadString(old(Rest())) == Some((s, Rest())) else s == []
    {
      var len := GetU32();
      s := GetRaw(len);
    }

    /** A reader over the next `n` bytes, which this one skips. */
    method Sub(n: nat) returns (child: ByteReader)
      requires Valid()
      modifies this
      ensures Valid() && ok == (old(ok) && n <= |old(Rest())|)
      ensures fresh(child) && child.Valid() && child.ok
      ensures if ok then child.Rest() == old(Rest())[..n] && Rest() == old(Rest())[n..] else child.Rest() == []
    {
      var bytes := GetRaw(n);
      child := new ByteReader(bytes);
    }
  }
}
