/** What the Base64 codec writes and reads, character by character in the alphabet of section 4 of RFC 4648. */
module Base64Text {
  import opened Basics
  import opened Base64

  const UPPER: string := "ABCDEFGHIJKLMNOPQRSTUVWXYZ"
  const LOWER: string := "abcdefghijklmnopqrstuvwxyz"
  const OTHERS: string := "0123456789+/"
  const ALPHABET: string := UPPER + LOWER + OTHERS

  lemma UpperLetter(i: nat)
    requires i < 26
    ensures UPPER[i] as int == i + 65
  {
  }

  lemma LowerLetter(i: nat)
    requires i < 26
    ensures LOWER[i] as int == i + 97
  {
  }

  lemma OtherLetter(i: nat)
    requires i < 12
    ensures OTHERS[i] as int == if i < 10 then i + 48 else if i == 10 then 43 else 47
  {
  }

  lemma Letter(i: nat)
    requires i < 64
    ensures |ALPHABET| == 64 && ALPHABET[i] as int == Table(i)
  {
    if i < 26 {
      UpperLetter(i);
      assert ALPHABET[i] == UPPER[i];
    } else if i < 52 {
      LowerLetter(i - 26);
      assert ALPHABET[i] == LOWER[i - 26];
    } else {
      OtherLetter(i - 52);
      assert ALPHABET[i] == OTHERS[i - 52];
    }
  }

  // What is written

  function ByteAt(s: seq<Byte>, i: nat): Byte { if i < |s| then s[i] else 0 }

  // The 24-bit number of the q-th three bytes, where missing bytes are zero.
  function Word24(s: seq<Byte>, q: nat): nat {
    (ByteAt(s, 3 * q) * 256 + ByteAt(s, 3 * q + 1)) * 256 + ByteAt(s, 3 * q + 2)
  }

  // The k-th six bits.
  function SixBits(s: seq<Byte>, k: nat): (v: nat)
    ensures v < 64
  {
    var w := Word24(s, k / 4);
    (if k % 4 == 0 then w / 0x40000 else if k % 4 == 1 then w / 0x1000 else if k % 4 == 2 then w / 0x40 else w) % 64
  }

  lemma Above(q: nat, r: nat)
    ensures r < 0x40 ==> (q * 0x40 + r) / 0x40 == q && (q * 0x40 + r) % 0x40 == r
    ensures r < 0x1000 ==> (q * 0x1000 + r) / 0x1000 == q
    ensures r < 0x40000 ==> (q * 0x40000 + r) / 0x40000 == q
  {
  }

  lemma SixesOfFour(p: nat, q: nat, r: nat, s: nat)
    requires p < 64 && q < 64 && r < 64 && s < 64
    ensures var w := ((p * 0x40 + q) * 0x40 + r) * 0x40 + s;
            w / 0x40000 % 64 == p && w / 0x1000 % 64 == q && w / 0x40 % 64 == r && w % 64 == s
  {
    Above((p * 0x40 + q) * 0x40 + r, s);
    Above(p * 0x40 + q, r);
    Above(p * 0x40 + q, r * 0x40 + s);
    Above(p, q);
    Above(p, (q * 0x40 + r) * 0x40 + s);
  }

  // Three bytes and four times six bits are one 24-bit number.
  lemma SixesOfWord(a: Byte, b: Byte, c: Byte)
    ensures var p, q, r, s := a / 4, a % 4 * 16 + b / 16, b % 16 * 4 + c / 64, c % 64;
            q < 64 && r < 64 && (a * 256 + b) * 256 + c == ((p * 0x40 + q) * 0x40 + r) * 0x40 + s
  {
  }

  lemma FirstChars(s: seq<Byte>, k: nat)
    requires s != [] && k < 4
    ensures EncodeChar(ByteAt(s, 0), ByteAt(s, 1), ByteAt(s, 2), k) == Table(SixBits(s, k))
  {
    var a, b, c := ByteAt(s, 0), ByteAt(s, 1), ByteAt(s, 2);
    SixesOfWord(a, b, c);
    SixesOfFour(a / 4, a % 4 * 16 + b / 16, b % 16 * 4 + c / 64, c % 64);
  }

  lemma SixBitsOfRest(s: seq<Byte>, k: nat)
    requires |s| >= 3 && k >= 4
    ensures SixBits(s, k) == SixBits(s[3..], k - 4)
  {
    assert k / 4 == (k - 4) / 4 + 1 && k % 4 == (k - 4) % 4;
    var q := (k - 4) / 4;
    assert ByteAt(s, 3 * (q + 1)) == ByteAt(s[3..], 3 * q);
    assert ByteAt(s, 3 * (q + 1) + 1) == ByteAt(s[3..], 3 * q + 1);
    assert ByteAt(s, 3 * (q + 1) + 2) == ByteAt(s[3..], 3 * q + 2);
  }

  /** Character k of the encoding of n bytes is '=' exactly from position (4n + 2) / 3 on, and before that the letter
      of the k-th six bits of the bytes. */
  lemma {:induction false} EncodedLetter(s: seq<Byte>, k: nat)
    requires k < |Encoded(s)|
    ensures Encoded(s)[k] == '=' as int <==> k >= (4 * |s| + 2) / 3
    ensures k < (4 * |s| + 2) / 3 ==> Encoded(s)[k] == ALPHABET[SixBits(s, k)] as int
    decreases |s|
  {
    Letter(SixBits(s, k));
    SextetOfTable(SixBits(s, k));
    if |s| < 3 {
      FirstChars(s, k);
      TailLetter(s, k);
    } else if k < 4 {
      FirstChars(s, k);
      assert Encoded(s)[k] == EncodeBlock(s[0], s[1], s[2])[k];
    } else {
      EncodedLetter(s[3..], k - 4);
      SixBitsOfRest(s, k);
      assert Encoded(s)[k] == Encoded(s[3..])[k - 4];
    }
  }

  lemma TailLetter(s: seq<Byte>, k: nat)
    requires 0 < |s| < 3 && k < 4
    ensures Encoded(s)[k] == if k > |s| then '=' as int else EncodeChar(ByteAt(s, 0), ByteAt(s, 1), ByteAt(s, 2), k)
  {
    assert Encoded(s)[k] == TailChar(s, k);
  }

  // What is read

  /** A letter reads as its place in the alphabet, and '=' as zero. */
  lemma LetterValue(i: nat)
    requires i < 64
    ensures ALPHABET[i] as int < 256 && Sextet(ALPHABET[i] as int) == i && Sextet('=' as int) == 0
  {
    Letter(i);
    SextetOfTable(i);
  }

  /** The bytes that count are the letters and '='. */
  lemma AlphabetIff(c: Byte)
    ensures InAlphabet(c) <==> c as char in ALPHABET || c as char == '='
  {
    if InAlphabet(c) && c != PAD {
      TableOfSextet(c);
      Letter(Sextet(c));
      assert ALPHABET[Sextet(c)] == c as char;
    }
    if c as char in ALPHABET {
      var i :| 0 <= i < |ALPHABET| && ALPHABET[i] == c as char;
      LetterValue(i);
    }
  }

  lemma FilterHead(c: Byte, s: seq<Byte>)
    ensures Filter([c] + s) == (if InAlphabet(c) then [c] else []) + Filter(s)
  {
    assert ([c] + s)[1..] == s;
  }

  lemma Associate(a: seq<Byte>, b: seq<Byte>, c: seq<Byte>)
    ensures a + b + c == a + (b + c)
  {
  }

  /** The text is what counts of each part, in order. */
  lemma {:induction false} FilterOfSum(a: seq<Byte>, b: seq<Byte>)
    ensures Filter(a + b) == Filter(a) + Filter(b)
  {
    if a == [] {
      assert a + b == b;
    } else {
      var c, rest := a[0], a[1..];
      FilterOfSum(rest, b);
      FilterHead(c, rest);
      FilterHead(c, rest + b);
      assert a == [c] + rest;
      Associate([c], rest, b);
      Associate(if InAlphabet(c) then [c] else [], Filter(rest), Filter(b));
    }
  }

  lemma FilterOfOne(c: Byte)
    ensures Filter([c]) == if c as char in ALPHABET || c as char == '=' then [c] else []
  {
    AlphabetIff(c);
    assert [c][1..] == [];
  }

  function IsPad(c: Byte): nat { if c as char == '=' then 1 else 0 }

  // The '=' characters of the q-th block of four.
  function PadsIn(t: seq<Byte>, q: nat): nat
    requires 4 * q + 4 <= |t|
  {
    IsPad(t[4 * q]) + IsPad(t[4 * q + 1]) + IsPad(t[4 * q + 2]) + IsPad(t[4 * q + 3])
  }

  // The first block with a '=', or the number of blocks.
  predicate FirstPadded(t: seq<Byte>, q: nat) {
    && 4 * q <= |t| && (forall j :: 0 <= j < q ==> PadsIn(t, j) == 0)
    && (4 * q + 4 <= |t| ==> PadsIn(t, q) > 0)
  }

  // The 24-bit number of the q-th block of four.
  function Block24(t: seq<Byte>, q: nat): nat
    requires 4 * q + 4 <= |t|
  {
    ((Sextet(t[4 * q]) * 64 + Sextet(t[4 * q + 1])) * 64 + Sextet(t[4 * q + 2])) * 64 + Sextet(t[4 * q + 3])
  }

  function EightBits(w: nat, j: nat): nat {
    (if j % 3 == 0 then w / 0x10000 else if j % 3 == 1 then w / 0x100 else w) % 256
  }

  // The bytes read from a text whose first padded block is the q-th: three of each block before it, and three less its
  // padding of that block.
  ghost predicate Reads(t: seq<Byte>, q: nat, bytes: seq<Byte>)
    requires FirstPadded(t, q) && |t| % 4 == 0
  {
    && |bytes| == 3 * q + (if 4 * q < |t| && PadsIn(t, q) <= 3 then 3 - PadsIn(t, q) else 0)
    && forall j :: 0 <= j < |bytes| ==> 4 * (j / 3) + 4 <= |t| && bytes[j] == EightBits(Block24(t, j / 3), j)
  }

  lemma PadsOfFour(t: seq<Byte>)
    requires |t| == 4
    ensures Pads(t) == PadsIn(t, 0)
  {
    assert t[..3][..2] == t[..2] && t[..2][..1] == t[..1] && t[..1][..0] == [];
    assert Pads(t[..1]) == Pads([]) + IsPad(t[0]);
    assert Pads(t[..2]) == Pads(t[..1]) + IsPad(t[1]);
    assert Pads(t[..3]) == Pads(t[..2]) + IsPad(t[2]);
  }

  lemma AboveByte(q: nat, r: nat)
    ensures r < 0x100 ==> (q * 0x100 + r) / 0x100 == q && (q * 0x100 + r) % 0x100 == r
    ensures r < 0x10000 ==> (q * 0x10000 + r) / 0x10000 == q
  {
  }

  lemma EightsOfBlock(w: nat, x: nat, y: nat, z: nat)
    requires w < 64 && x < 64 && y < 64 && z < 64
    ensures var n := ((w * 64 + x) * 64 + y) * 64 + z;
            && n / 0x10000 % 256 == w * 4 + x / 16 && n / 0x100 % 256 == x % 16 * 16 + y / 4
            && n % 256 == y % 4 * 64 + z
  {
    var p, q, r := w * 4 + x / 16, x % 16 * 16 + y / 4, y % 4 * 64 + z;
    assert ((w * 64 + x) * 64 + y) * 64 + z == (p * 0x100 + q) * 0x100 + r;
    AboveByte(p * 0x100 + q, r);
    AboveByte(p, q);
    AboveByte(p, q * 0x100 + r);
  }

  lemma BlockReads(t: seq<Byte>, j: nat)
    requires |t| == 4 && IsText(t) && j < 3
    ensures DecodeBlock(t)[j] == EightBits(Block24(t, 0), j)
  {
    var w, x, y, z := Sextet(t[0]), Sextet(t[1]), Sextet(t[2]), Sextet(t[3]);
    EightsOfBlock(w, x, y, z);
  }

  // Blocks of the rest of a text are the later blocks of the text.
  lemma RestBlocks(t: seq<Byte>, q: nat)
    requires 4 * q + 8 <= |t|
    ensures PadsIn(t[4..], q) == PadsIn(t, q + 1) && Block24(t[4..], q) == Block24(t, q + 1)
  {
    assert t[4..][4 * q] == t[4 * (q + 1)] && t[4..][4 * q + 1] == t[4 * (q + 1) + 1];
    assert t[4..][4 * q + 2] == t[4 * (q + 1) + 2] && t[4..][4 * q + 3] == t[4 * (q + 1) + 3];
  }

  lemma FirstPaddedRest(t: seq<Byte>, q: nat)
    requires |t| % 4 == 0 && FirstPadded(t, q) && q > 0
    ensures |t| >= 4 && PadsIn(t, 0) == 0 && FirstPadded(t[4..], q - 1)
    ensures 4 * q + 4 <= |t| ==> PadsIn(t[4..], q - 1) == PadsIn(t, q)
  {
    forall j | 0 <= j < q - 1
      ensures PadsIn(t[4..], j) == 0
    {
      RestBlocks(t, j);
    }
    if 4 * q + 4 <= |t| {
      RestBlocks(t, q - 1);
    }
  }

  lemma HeadBlock(t: seq<Byte>)
    requires |t| >= 4
    ensures PadsIn(t[..4], 0) == PadsIn(t, 0) && Block24(t[..4], 0) == Block24(t, 0)
  {
    assert t[..4][0] == t[0] && t[..4][1] == t[1] && t[..4][2] == t[2] && t[..4][3] == t[3];
  }

  lemma HeadReads(t: seq<Byte>)
    requires |t| >= 4 && IsText(t)
    ensures forall j :: 0 <= j < 3 ==> DecodeBlock(t[..4])[j] == EightBits(Block24(t, 0), j)
  {
    HeadBlock(t);
    BlockReads(t[..4], 0);
    BlockReads(t[..4], 1);
    BlockReads(t[..4], 2);
  }

  lemma {:induction false} BlocksRead(t: seq<Byte>, q: nat)
    requires |t| % 4 == 0 && IsText(t) && FirstPadded(t, q)
    ensures DecodeBlocks(t).Malformed? <==> 4 * q < |t| && PadsIn(t, q) > 2
    ensures DecodeBlocks(t).Decoded? ==> Reads(t, q, DecodeBlocks(t).bytes)
    decreases q
  {
    if t != [] {
      HeadBlock(t);
      PadsOfFour(t[..4]);
      if q > 0 {
        FirstPaddedRest(t, q);
        BlocksRead(t[4..], q - 1);
        HeadReads(t);
        if DecodeBlocks(t).Decoded? { HeadThenRest(t, q, DecodeBlock(t[..4]), DecodeBlocks(t[4..]).bytes); }
      } else {
        HeadReads(t);
      }
    }
  }

  lemma HeadThenRest(t: seq<Byte>, q: nat, head: seq<Byte>, rest: seq<Byte>)
    requires |t| % 4 == 0 && t != [] && q > 0 && FirstPadded(t, q) && FirstPadded(t[4..], q - 1)
    requires 4 * q + 4 <= |t| ==> PadsIn(t[4..], q - 1) == PadsIn(t, q)
    requires |head| == 3 && forall j :: 0 <= j < 3 ==> head[j] == EightBits(Block24(t, 0), j)
    requires Reads(t[4..], q - 1, rest)
    ensures Reads(t, q, head + rest)
  {
    forall j | 0 <= j < |head + rest|
      ensures 4 * (j / 3) + 4 <= |t| && (head + rest)[j] == EightBits(Block24(t, j / 3), j)
    {
      if j < 3 {
        assert j / 3 == 0;
      } else {
        RestReads(t, q, rest, j);
      }
    }
  }

  lemma RestReads(t: seq<Byte>, q: nat, rest: seq<Byte>, j: nat)
    requires |t| % 4 == 0 && t != [] && q > 0 && FirstPadded(t[4..], q - 1) && Reads(t[4..], q - 1, rest)
    requires 3 <= j < |rest| + 3
    ensures 4 * (j / 3) + 4 <= |t| && rest[j - 3] == EightBits(Block24(t, j / 3), j)
  {
    assert (j - 3) / 3 == j / 3 - 1 && (j - 3) % 3 == j % 3;
    RestBlocks(t, (j - 3) / 3);
  }

  /** The decoder takes the letters and '=' of its input, refuses it unless they come in full blocks and at least one,
      reads blocks up to the first with a '=', refuses three or four of those, and gives for each block the three bytes
      of its letters' places in the alphabet, of the last block as many less as it has '='. */
  lemma DecodedReads(s: seq<Byte>, q: nat)
    requires |Filter(s)| % 4 == 0 ==> FirstPadded(Filter(s), q)
    ensures var t, r := Filter(s), DecodedText(s);
            && (r.Malformed? <==> |t| == 0 || |t| % 4 != 0 || (4 * q < |t| && PadsIn(t, q) > 2))
            && (r.Decoded? ==> Reads(t, q, r.bytes))
  {
    if |Filter(s)| % 4 == 0 {
      BlocksRead(Filter(s), q);
    }
  }

  /** Every text in full blocks has a first padded block or none. */
  lemma {:induction false} SomeFirstPadded(t: seq<Byte>, from: nat) returns (q: nat)
    requires |t| % 4 == 0 && 4 * from <= |t| && forall j :: 0 <= j < from ==> PadsIn(t, j) == 0
    ensures FirstPadded(t, q)
    decreases |t| - 4 * from
  {
    if 4 * from < |t| && PadsIn(t, from) == 0 {
      q := SomeFirstPadded(t, from + 1);
    } else {
      q := from;
    }
  }
}
