/** The kpimon readers of big-endian byte strings, in Go's wrapping int64 and int32 arithmetic. */
module E2smIntegers {
  import opened Basics

  const TWO24 := 0x100_0000
  const TWO31 := 0x8000_0000
  const TWO32 := 0x1_0000_0000
  const TWO63 := 0x8000_0000_0000_0000
  const TWO64 := 0x1_0000_0000_0000_0000

  // What an int64 or int32 holds after an operation whose exact result is x.

  function Wrap64(x: int): (r: int)
    ensures -0x8000_0000_0000_0000 <= r < 0x8000_0000_0000_0000 && (x - r) % 0x1_0000_0000_0000_0000 == 0
  {
    var m := x % TWO64;
    if m < TWO63 then m else m - TWO64
  }

  function Wrap32(x: int): (r: int)
    ensures -0x8000_0000 <= r < 0x8000_0000 && (x - r) % 0x1_0000_0000 == 0
  {
    var m := x % TWO32;
    if m < TWO31 then m else m - TWO32
  }

  lemma Wrap64Off(x: int) returns (k: int)
    ensures x == Wrap64(x) + k * TWO64
  {
    k := x / TWO64 + if x % TWO64 < TWO63 then 0 else 1;
  }

  lemma Wrap32Off(x: int) returns (k: int)
    ensures x == Wrap32(x) + k * TWO32
  {
    k := x / TWO32 + if x % TWO32 < TWO31 then 0 else 1;
  }

  lemma Wrap64Congruent(x: int, y: int, k: int)
    requires x == y + k * TWO64
    ensures Wrap64(x) == Wrap64(y)
  {
  }

  lemma Wrap32Congruent(x: int, y: int, k: int)
    requires x == y + k * TWO32
    ensures Wrap32(x) == Wrap32(y)
  {
  }

  lemma Wrap64Step(v: int, b: Byte)
    ensures Wrap64(Wrap64(Wrap64(v) * 256) + b) == Wrap64(v * 256 + b)
  {
    var k := Wrap64Off(v);
    var j := Wrap64Off(Wrap64(v) * 256);
    Wrap64Congruent(v * 256 + b, Wrap64(Wrap64(v) * 256) + b, j + 256 * k);
  }

  // The number a byte string stands for.
  function BigEndian(b: seq<Byte>): nat {
    if b == [] then 0 else BigEndian(b[..|b| - 1]) * 256 + b[|b| - 1]
  }

  function Power256(n: nat): (p: nat)
    ensures p > 0
  {
    if n == 0 then 1 else Power256(n - 1) * 256
  }

  lemma {:induction false} BigEndianBound(b: seq<Byte>)
    ensures BigEndian(b) < Power256(|b|)
  {
    if b != [] {
      BigEndianBound(b[..|b| - 1]);
    }
  }

  lemma {:induction false} BigEndianInjective(a: seq<Byte>, b: seq<Byte>)
    requires |a| == |b| && BigEndian(a) == BigEndian(b)
    ensures a == b
  {
    if a != [] {
      BigEndianInjective(a[..|a| - 1], b[..|b| - 1]);
      assert a == a[..|a| - 1] + [a[|a| - 1]] && b == b[..|b| - 1] + [b[|b| - 1]];
    }
  }

  lemma {:induction false} BigEndianConcat(a: seq<Byte>, b: seq<Byte>)
    ensures BigEndian(a + b) == BigEndian(a) * Power256(|b|) + BigEndian(b)
  {
    if b == [] {
      assert a + b == a;
    } else {
      var rest, last := b[..|b| - 1], b[|b| - 1];
      BigEndianConcat(a, rest);
      assert (a + b)[..|a + b| - 1] == a + rest;
      ScaleStep(BigEndian(a), Power256(|rest|), BigEndian(rest), last);
    }
  }

  lemma ScaleStep(x: nat, p: nat, y: nat, b: nat)
    ensures (x * p + y) * 256 + b == x * (p * 256) + (y * 256 + b)
  {
  }

  // Powers of 256 beside the machine words.

  lemma WordPowers()
    ensures Power256(3) == TWO24 && Power256(7) * 128 == TWO63 && Power256(8) == TWO64
  {
    assert Power256(1) == 256 && Power256(2) == 0x1_0000 && Power256(3) == TWO24;
    assert Power256(4) == TWO32 && Power256(5) == 0x100_0000_0000;
    assert Power256(6) == 0x1_0000_0000_0000 && Power256(7) == 0x100_0000_0000_0000;
  }

  lemma {:induction false} PowerGrows(m: nat, n: nat)
    requires m <= n
    ensures Power256(m) <= Power256(n)
  {
    if m < n {
      PowerGrows(m, n - 1);
    }
  }

  lemma {:induction false} PowerDivisible(n: nat) returns (k: nat)
    requires n >= 8
    ensures Power256(n) == k * TWO64
  {
    WordPowers();
    if n == 8 {
      k := 1;
    } else {
      k := PowerDivisible(n - 1);
      k := k * 256;
    }
  }

  // The parsers

  // value*256 + int64(buffer[index]), where value is what the bytes from the start on gave.
  method ReadByte(value: int, buffer: seq<Byte>, ghost start: nat, index: nat) returns (r: int)
    requires start <= index < |buffer|
    requires value == Wrap64(BigEndian(buffer[start..index]))
    ensures r == Wrap64(BigEndian(buffer[start..index + 1]))
  {
    Wrap64Step(BigEndian(buffer[start..index]), buffer[index]);
    assert buffer[start..index + 1][..index - start] == buffer[start..index];
    r := Wrap64(Wrap64(value * 256) + buffer[index]);
  }

  // A buffer holds the bytes up to the slice's capacity, which is as far as the source can slice it. No result stands
  // for the panic on an index outside it.

  method ParseInteger(buffer: seq<Byte>, size: int) returns (r: Option<int>)
    ensures r == None <==> size > |buffer|
    ensures r.Some? ==> r.value == Wrap64(BigEndian(if size < 0 then [] else buffer[..size]))
  {
    var value, i := 0, 0;
    while i < size
      invariant 0 <= i <= |buffer| && (i <= size || i == 0)
      invariant value == Wrap64(BigEndian(buffer[0..i]))
    {
      if i >= |buffer| { return None; }
      value := ReadByte(value, buffer, 0, i);
      i := i + 1;
    }
    assert buffer[0..i] == buffer[..i];
    return Some(value);
  }

  method ParseTimestamp(buffer: seq<Byte>, size: int) returns (r: Option<(int, int)>)
    ensures r == None <==> size < 8 || size > |buffer|
    ensures r.Some? ==> r.value == (Wrap64(BigEndian(buffer[..size - 8])), Wrap64(BigEndian(buffer[size - 8..size])))
  {
    var sec, nsec, index := 0, 0, 0;
    while index < size - 8
      invariant 0 <= index <= |buffer| && (index <= size - 8 || index == 0)
      invariant sec == Wrap64(BigEndian(buffer[0..index]))
    {
      if index >= |buffer| { return None; }
      sec := ReadByte(sec, buffer, 0, index);
      index := index + 1;
    }
    if size < 8 {
      // The second loop begins below zero.
      return None;
    }
    assert buffer[0..size - 8] == buffer[..size - 8];
    index := size - 8;
    while index < size
      invariant size - 8 <= index <= size && index <= |buffer|
      invariant nsec == Wrap64(BigEndian(buffer[size - 8..index]))
    {
      if index >= |buffer| { return None; }
      nsec := ReadByte(nsec, buffer, size - 8, index);
      index := index + 1;
    }
    return Some((sec, nsec));
  }

  datatype OctetString = OctetString(buf: seq<Byte>, size: int)
  // The SST buffer is read up to its length, the SD buffer as far as it can be sliced.
  datatype SliceId = SliceId(sst: OctetString, sd: Option<OctetString>)

  // The bytes a slice id contributes: an empty SST buffer reads as zero, and so does an absent SD.
  function SstByte(s: SliceId): Byte { if s.sst.buf == [] then 0 else s.sst.buf[0] }
  function SdBytes(s: SliceId): (b: seq<Byte>)
    requires s.sd.Some? ==> |s.sd.value.buf| >= 3
    ensures |b| == 3
  {
    if s.sd == None then [0, 0, 0] else s.sd.value.buf[..3]
  }

  datatype SliceResult = Combined(value: int) | IllegalLength | Panic

  method ParseSliceId(s: SliceId) returns (r: SliceResult)
    ensures r.IllegalLength? <==> s.sst.size != 1 || (s.sd.Some? && s.sd.value.size != 3)
    ensures r.Panic? <==> s.sst.size == 1 && s.sd.Some? && s.sd.value.size == 3 && |s.sd.value.buf| < 3
    ensures r.Combined? ==> r.value == Wrap32(BigEndian([SstByte(s)] + SdBytes(s)))
  {
    if s.sst.size != 1 || (s.sd.Some? && s.sd.value.size != 3) {
      return IllegalLength;
    }
    var sst := if s.sst.buf == [] then 0 else s.sst.buf[0];
    if s.sd == None {
      SliceSum(sst, SdBytes(s));
      ZeroBytes();
      return Combined(Wrap32(sst * TWO24));
    }
    if |s.sd.value.buf| < 3 { return Panic; }
    SliceSum(sst, SdBytes(s));
    var sd := ReadSd(s.sd.value.buf);
    return Combined(Wrap32(Wrap32(sst * TWO24) + sd));
  }

  method ReadSd(buf: seq<Byte>) returns (sd: int)
    requires |buf| >= 3
    ensures sd == BigEndian(buf[..3])
  {
    sd := 0;
    for i := 0 to 3
      invariant sd == BigEndian(buf[..i])
    {
      var temp := buf[i];
      assert buf[..i + 1][..i] == buf[..i];
      BigEndianBound(buf[..i + 1]);
      WordPowers();
      PowerGrows(i + 1, 3);
      Wrap32Small(sd * 256);
      Wrap32Small(sd * 256 + temp);
      sd := Wrap32(Wrap32(sd * 256) + temp);
    }
  }

  lemma SliceSum(sst: Byte, sd: seq<Byte>)
    requires |sd| == 3
    ensures Wrap32(Wrap32(sst * TWO24) + BigEndian(sd)) == Wrap32(BigEndian([sst] + sd))
    ensures BigEndian(sd) == 0 ==> Wrap32(sst * TWO24) == Wrap32(BigEndian([sst] + sd))
  {
    WordPowers();
    BigEndianConcat([sst], sd);
    OneByte(sst);
    var j := Wrap32Off(sst * TWO24);
    Wrap32Congruent(sst * TWO24 + BigEndian(sd), Wrap32(sst * TWO24) + BigEndian(sd), j);
  }

  lemma OneByte(a: Byte)
    ensures BigEndian([a]) == a
  {
    assert [a][..0] == [];
  }

  lemma ZeroBytes()
    ensures BigEndian([0, 0, 0]) == 0
  {
    assert [0, 0, 0][..2] == [0, 0] && [0, 0][..1] == [0];
    OneByte(0);
    assert BigEndian([0, 0]) == 0;
  }

  lemma Wrap32Small(x: int)
    requires 0 <= x < TWO31
    ensures Wrap32(x) == x
  {
  }

  // What the parsed values tell about the bytes

  /** The value is the number itself exactly when that is below 2^63, so always up to seven bytes. */
  lemma ParsedExactIff(b: seq<Byte>)
    ensures Wrap64(BigEndian(b)) == BigEndian(b) <==> BigEndian(b) < TWO63
    ensures |b| <= 7 ==> Wrap64(BigEndian(b)) == BigEndian(b)
  {
    BigEndianBound(b);
    WordPowers();
    if |b| <= 7 {
      PowerGrows(|b|, 7);
    }
  }

  ghost predicate DistinctAtSize(n: nat) {
    forall a: seq<Byte>, b: seq<Byte> ::
      (|a| == |b| == n && Wrap64(BigEndian(a)) == Wrap64(BigEndian(b))) ==> a == b
  }

  /** Strings of one length parse to different values exactly when they are at most eight bytes long. */
  lemma ParsedDistinctIff(n: nat)
    ensures DistinctAtSize(n) <==> n <= 8
  {
    if n <= 8 {
      forall a: seq<Byte>, b: seq<Byte> | |a| == |b| == n && Wrap64(BigEndian(a)) == Wrap64(BigEndian(b))
        ensures a == b
      {
        SmallDistinct(a, b);
      }
    } else {
      var a, b := SameValue(n);
    }
  }

  // A leading byte worth a multiple of 2^64 is lost.
  lemma SameValue(n: nat) returns (a: seq<Byte>, b: seq<Byte>)
    requires n > 8
    ensures |a| == |b| == n && a != b && Wrap64(BigEndian(a)) == Wrap64(BigEndian(b))
  {
    var zeros: seq<Byte> := seq(n - 1, _ => 0);
    a, b := [0] + zeros, [1] + zeros;
    BigEndianConcat([0], zeros);
    BigEndianConcat([1], zeros);
    OneByte(0);
    OneByte(1);
    var k := PowerDivisible(n - 1);
    Wrap64Congruent(BigEndian(b), BigEndian(a), k);
    assert a[0] != b[0];
  }

  lemma SmallDistinct(a: seq<Byte>, b: seq<Byte>)
    requires |a| == |b| <= 8 && Wrap64(BigEndian(a)) == Wrap64(BigEndian(b))
    ensures a == b
  {
    BelowTwo64(a);
    BelowTwo64(b);
    WrapInjective(BigEndian(a), BigEndian(b));
    BigEndianInjective(a, b);
  }

  lemma WrapInjective(x: nat, y: nat)
    requires x < TWO64 && y < TWO64 && Wrap64(x) == Wrap64(y)
    ensures x == y
  {
  }

  lemma BelowTwo64(b: seq<Byte>)
    requires |b| <= 8
    ensures BigEndian(b) < TWO64
  {
    BigEndianBound(b);
    WordPowers();
    PowerGrows(|b|, 8);
  }

  /** Seconds and nanoseconds put together give the number in the whole buffer exactly when neither half wraps. */
  lemma TimestampExactIff(b: seq<Byte>)
    requires |b| >= 8
    ensures var high, low := b[..|b| - 8], b[|b| - 8..];
            Wrap64(BigEndian(high)) * TWO64 + Wrap64(BigEndian(low)) == BigEndian(b) <==>
            BigEndian(high) < TWO63 && BigEndian(low) < TWO63
  {
    var high, low := b[..|b| - 8], b[|b| - 8..];
    assert b == high + low;
    BigEndianConcat(high, low);
    WordPowers();
    BelowTwo64(low);
    HalvesExactIff(BigEndian(high), BigEndian(low));
  }

  lemma HalvesExactIff(h: nat, l: nat)
    requires l < TWO64
    ensures Wrap64(h) * TWO64 + Wrap64(l) == h * TWO64 + l <==> h < TWO63 && l < TWO63
  {
  }

  /** The combined slice id tells the SST and the three SD bytes; only an absent SD and a zero SD look alike. */
  lemma SliceIdTells(a: SliceId, b: SliceId)
    requires a.sd.Some? ==> |a.sd.value.buf| >= 3
    requires b.sd.Some? ==> |b.sd.value.buf| >= 3
    ensures Wrap32(BigEndian([SstByte(a)] + SdBytes(a))) == Wrap32(BigEndian([SstByte(b)] + SdBytes(b))) <==>
            SstByte(a) == SstByte(b) && SdBytes(a) == SdBytes(b)
  {
    var x, y := [SstByte(a)] + SdBytes(a), [SstByte(b)] + SdBytes(b);
    if Wrap32(BigEndian(x)) == Wrap32(BigEndian(y)) {
      BelowTwo32(x);
      BelowTwo32(y);
      Wrap32Injective(BigEndian(x), BigEndian(y));
      BigEndianInjective(x, y);
      assert x[0] == y[0] && x[1..] == y[1..];
      assert x[1..] == SdBytes(a) && y[1..] == SdBytes(b);
    }
  }

  /** The combined bytes as a number: the SST byte above the three SD bytes, an empty SST buffer and an absent SD
      counting as zero. */
  lemma SliceIdNumber(s: SliceId)
    requires s.sd.Some? ==> |s.sd.value.buf| >= 3
    ensures var sst: int := if |s.sst.buf| == 0 then 0 else s.sst.buf[0];
            BigEndian([SstByte(s)] + SdBytes(s)) == sst * 0x100_0000 +
            if s.sd == None then 0
            else var d: seq<int> := s.sd.value.buf; d[0] * 0x1_0000 + d[1] * 0x100 + d[2]
  {
    var d: seq<int> := SdBytes(s);
    BigEndianConcat([SstByte(s)], d);
    OneByte(SstByte(s));
    WordPowers();
    OneByte(d[0]);
    assert d[..2][..1] == [d[0]] && d[..2][1] == d[1];
    assert BigEndian(d[..2]) == d[0] * 0x100 + d[1];
  }

  lemma Wrap32Injective(x: nat, y: nat)
    requires x < TWO32 && y < TWO32 && Wrap32(x) == Wrap32(y)
    ensures x == y
  {
  }

  lemma BelowTwo32(b: seq<Byte>)
    requires |b| == 4
    ensures BigEndian(b) < TWO32
  {
    BigEndianBound(b);
    WordPowers();
    assert Power256(4) == Power256(3) * 256;
  }
}
