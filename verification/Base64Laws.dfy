/** The Base64 encoder and decoder are inverse bijections between non-empty byte strings and canonical texts. */
module Base64Laws {
  import opened Basics
  import opened Base64

  // Bytes and values of a block as numbers

  lemma ValuesOfBytes(a: Byte, b: Byte, c: Byte)
    ensures a / 4 * 4 + (a % 4 * 16 + b / 16) / 16 == a
    ensures (a % 4 * 16 + b / 16) % 16 * 16 + (b % 16 * 4 + c / 64) / 4 == b
    ensures (b % 16 * 4 + c / 64) % 4 * 64 + c % 64 == c
  {
  }

  lemma BytesOfValues(w: nat, x: nat, y: nat, z: nat)
    requires w < 64 && x < 64 && y < 64 && z < 64
    ensures (w * 4 + x / 16) / 4 == w
    ensures (w * 4 + x / 16) % 4 * 16 + (x % 16 * 16 + y / 4) / 16 == x
    ensures (x % 16 * 16 + y / 4) % 16 * 4 + (y % 4 * 64 + z) / 64 == y
    ensures (y % 4 * 64 + z) % 64 == z
  {
  }

  lemma PadsOf4(t: seq<Byte>)
    requires |t| == 4
    ensures Pads(t) == (if t[0] == PAD then 1 else 0) + (if t[1] == PAD then 1 else 0)
                       + (if t[2] == PAD then 1 else 0) + (if t[3] == PAD then 1 else 0)
  {
    assert t[..3][..2] == t[..2] && t[..2][..1] == t[..1] && t[..1][..0] == [];
    assert Pads(t[..1]) == Pads([]) + (if t[0] == PAD then 1 else 0);
    assert Pads(t[..2]) == Pads(t[..1]) + (if t[1] == PAD then 1 else 0);
    assert Pads(t[..3]) == Pads(t[..2]) + (if t[2] == PAD then 1 else 0);
  }

  // A block of four alphabet characters, by their values.
  function Characters(w: nat, x: nat, y: nat, z: nat): (t: seq<Byte>)
    requires w < 64 && x < 64 && y < 64 && z < 64
    ensures |t| == 4
  {
    [Table(w), Table(x), Table(y), Table(z)]
  }

  lemma DecodeOfCharacters(w: nat, x: nat, y: nat, z: nat)
    requires w < 64 && x < 64 && y < 64 && z < 64
    ensures var t := Characters(w, x, y, z);
            && IsText(t) && Pads(t) == 0
            && DecodeBlock(t) == [w * 4 + x / 16, x % 16 * 16 + y / 4, y % 4 * 64 + z]
  {
    SextetOfTable(w);
    SextetOfTable(x);
    SextetOfTable(y);
    SextetOfTable(z);
    PadsOf4(Characters(w, x, y, z));
  }

  lemma DecodeOfBlock(a: Byte, b: Byte, c: Byte)
    ensures IsText(EncodeBlock(a, b, c)) && Pads(EncodeBlock(a, b, c)) == 0
    ensures DecodeBlock(EncodeBlock(a, b, c)) == [a, b, c]
  {
    var w, x, y, z := a / 4, a % 4 * 16 + b / 16, b % 16 * 4 + c / 64, c % 64;
    assert EncodeBlock(a, b, c) == Characters(w, x, y, z);
    DecodeOfCharacters(w, x, y, z);
    ValuesOfBytes(a, b, c);
  }

  /** A block's four values and its three bytes are one 24-bit group (section 4 of RFC 4648). */
  lemma BlockIsGroup(a: Byte, b: Byte, c: Byte)
    ensures var t := EncodeBlock(a, b, c);
            ((Sextet(t[0]) * 64 + Sextet(t[1])) * 64 + Sextet(t[2])) * 64 + Sextet(t[3]) == (a * 256 + b) * 256 + c
  {
    SextetOfTable(a / 4);
    SextetOfTable(a % 4 * 16 + b / 16);
    SextetOfTable(b % 16 * 4 + c / 64);
    SextetOfTable(c % 64);
  }

  lemma DecodeOfOneByte(a: Byte)
    ensures var r: seq<Byte> := [Table(a / 4), Table(a % 4 * 16), PAD, PAD];
            IsText(r) && Pads(r) == 2 && DecodeBlock(r)[..1] == [a]
  {
    var r: seq<Byte> := [Table(a / 4), Table(a % 4 * 16), PAD, PAD];
    SextetOfTable(a / 4);
    SextetOfTable(a % 4 * 16);
    PadsOf4(r);
    DecodeBlockIs(r);
  }

  lemma DecodeOfTwoBytes(a: Byte, b: Byte)
    ensures var r: seq<Byte> := [Table(a / 4), Table(a % 4 * 16 + b / 16), Table(b % 16 * 4), PAD];
            IsText(r) && Pads(r) == 1 && DecodeBlock(r)[..2] == [a, b]
  {
    var r: seq<Byte> := [Table(a / 4), Table(a % 4 * 16 + b / 16), Table(b % 16 * 4), PAD];
    SextetOfTable(a / 4);
    SextetOfTable(a % 4 * 16 + b / 16);
    SextetOfTable(b % 16 * 4);
    PadsOf4(r);
    ValuesOfBytes(a, b, 0);
    DecodeBlockIs(r);
  }

  lemma DecodeOfTail(t: seq<Byte>)
    requires |t| == 1 || |t| == 2
    ensures IsText(EncodeTail(t)) && Pads(EncodeTail(t)) == 3 - |t|
    ensures DecodeBlock(EncodeTail(t))[..|t|] == t
  {
    EncodeTailIs(t);
    if |t| == 1 {
      DecodeOfOneByte(t[0]);
      assert t == [t[0]];
    } else {
      DecodeOfTwoBytes(t[0], t[1]);
      assert t == [t[0], t[1]];
    }
  }

  lemma {:induction false} DecodeBlocksOfEncoded(s: seq<Byte>)
    ensures IsText(Encoded(s)) && DecodeBlocks(Encoded(s)) == Decoded(s)
    decreases |s|
  {
    if s == [] {
    } else if |s| < 3 {
      DecodeOfTail(s);
      assert Encoded(s)[..4] == EncodeTail(s);
    } else {
      var head := EncodeBlock(s[0], s[1], s[2]);
      DecodeOfBlock(s[0], s[1], s[2]);
      DecodeBlocksOfEncoded(s[3..]);
      assert Encoded(s)[..4] == head && Encoded(s)[4..] == Encoded(s[3..]);
      assert s == [s[0], s[1], s[2]] + s[3..];
    }
  }

  lemma {:induction false} FilterOfText(t: seq<Byte>)
    requires IsText(t)
    ensures Filter(t) == t
  {
    if t != [] {
      FilterOfText(t[1..]);
    }
  }

  lemma EncodedIsBlocks(s: seq<Byte>)
    ensures |Encoded(s)| % 4 == 0
    ensures s != [] ==> Encoded(s) != []
  {
    assert s != [] ==> (|s| + 2) / 3 >= 1;
  }

  lemma DecodedTextOf(t: seq<Byte>)
    requires t != [] && |t| % 4 == 0 && IsText(t)
    ensures DecodedText(t) == DecodeBlocks(t)
  {
    FilterOfText(t);
  }

  /** Decoding the encoding of any non-empty byte string gives it back. */
  lemma RoundTrip(s: seq<Byte>)
    requires s != []
    ensures DecodedText(Encoded(s)) == Decoded(s)
  {
    EncodedIsBlocks(s);
    DecodeBlocksOfEncoded(s);
    DecodedTextOf(Encoded(s));
  }

  /** The decoder sees only the alphabet: removing every other byte first changes nothing. */
  lemma ForeignBytesIgnored(s: seq<Byte>)
    ensures DecodedText(s) == DecodedText(Filter(s))
  {
    FilterOfText(Filter(s));
  }

  // Canonical text: padding only at the end of the last block, spare bits zero.
  predicate CanonicalLast(t: seq<Byte>) {
    && |t| == 4 && IsText(t) && t[0] != PAD && t[1] != PAD
    && (t[2] == PAD ==> t[3] == PAD && Sextet(t[1]) % 16 == 0)
    && (t[2] != PAD && t[3] == PAD ==> Sextet(t[2]) % 4 == 0)
  }

  predicate Canonical(t: seq<Byte>) {
    && |t| >= 4 && |t| % 4 == 0
    && (if |t| == 4 then CanonicalLast(t) else IsText(t[..4]) && Pads(t[..4]) == 0 && Canonical(t[4..]))
  }

  function Reencode(t: seq<Byte>): seq<Byte>
    requires |t| == 4 && IsText(t)
  {
    var d := DecodeBlock(t);
    EncodeBlock(d[0], d[1], d[2])
  }

  lemma ReencodeOfCharacters(w: nat, x: nat, y: nat, z: nat)
    requires w < 64 && x < 64 && y < 64 && z < 64
    ensures IsText(Characters(w, x, y, z)) && Reencode(Characters(w, x, y, z)) == Characters(w, x, y, z)
  {
    DecodeOfCharacters(w, x, y, z);
    EncodeOfValues(w, x, y, z);
  }

  lemma ReencodeOfBlock(t: seq<Byte>)
    requires |t| == 4 && IsText(t) && Pads(t) == 0
    ensures Reencode(t) == t
  {
    CharactersOfText(t);
    ReencodeOfCharacters(Sextet(t[0]), Sextet(t[1]), Sextet(t[2]), Sextet(t[3]));
  }

  lemma CharactersOfText(t: seq<Byte>)
    requires |t| == 4 && IsText(t) && Pads(t) == 0
    ensures forall k :: 0 <= k < 4 ==> Sextet(t[k]) < 64
    ensures Characters(Sextet(t[0]), Sextet(t[1]), Sextet(t[2]), Sextet(t[3])) == t
  {
    PadsOf4(t);
    TableOfSextet(t[0]);
    TableOfSextet(t[1]);
    TableOfSextet(t[2]);
    TableOfSextet(t[3]);
  }

  lemma EncodeOfValues(w: nat, x: nat, y: nat, z: nat)
    requires w < 64 && x < 64 && y < 64 && z < 64
    ensures EncodeBlock(w * 4 + x / 16, x % 16 * 16 + y / 4, y % 4 * 64 + z) == Characters(w, x, y, z)
  {
    BytesOfValues(w, x, y, z);
  }

  lemma EncodeOfOneByte(a: Byte, w: nat, x: nat)
    requires w < 64 && x < 64 && a / 4 == w && a % 4 * 16 == x
    ensures EncodeTail([a]) == [Table(w), Table(x), PAD, PAD]
  {
    EncodeTailIs([a]);
  }

  lemma EncodeOfTwoBytes(a: Byte, b: Byte, w: nat, x: nat, y: nat)
    requires w < 64 && x < 64 && y < 64 && a / 4 == w && a % 4 * 16 + b / 16 == x && b % 16 * 4 == y
    ensures EncodeTail([a, b]) == [Table(w), Table(x), Table(y), PAD]
  {
    EncodeTailIs([a, b]);
  }

  lemma EncodeOfLast(t: seq<Byte>)
    requires CanonicalLast(t)
    ensures DecodeBlocks(t).Decoded? && DecodeBlocks(t).bytes != [] && Encoded(DecodeBlocks(t).bytes) == t
  {
    PadsOf4(t);
    assert t[..4] == t && t[4..] == [];
    var d := DecodeBlock(t);
    if t[3] != PAD {
      ReencodeOfBlock(t);
      assert DecodeBlocks([]) == Decoded([]);
      assert d + [] == d && d[3..] == [];
      assert Encoded(d) == EncodeBlock(d[0], d[1], d[2]) + [];
    } else {
      EncodeOfPaddedLast(t);
    }
  }

  lemma EncodeOfPaddedLast(t: seq<Byte>)
    requires CanonicalLast(t) && t[3] == PAD
    ensures var n := if t[2] == PAD then 1 else 2;
            Pads(t) == 3 - n && EncodeTail(DecodeBlock(t)[..n]) == t
  {
    PadsOf4(t);
    if t[2] == PAD {
      EncodeOfLast1(t);
    } else {
      EncodeOfLast2(t);
    }
  }

  lemma EncodeOfLast1(t: seq<Byte>)
    requires CanonicalLast(t) && t[2] == PAD
    ensures EncodeTail(DecodeBlock(t)[..1]) == t
  {
    TableOfSextet(t[0]);
    TableOfSextet(t[1]);
    DecodeBlockIs(t);
    var w, x := Sextet(t[0]), Sextet(t[1]);
    BytesOfValues(w, x, 0, 0);
    EncodeOfOneByte(DecodeBlock(t)[0], w, x);
    assert DecodeBlock(t)[..1] == [DecodeBlock(t)[0]];
  }

  lemma EncodeOfLast2(t: seq<Byte>)
    requires CanonicalLast(t) && t[2] != PAD && t[3] == PAD
    ensures EncodeTail(DecodeBlock(t)[..2]) == t
  {
    TableOfSextet(t[0]);
    TableOfSextet(t[1]);
    TableOfSextet(t[2]);
    DecodeBlockIs(t);
    var w, x, y := Sextet(t[0]), Sextet(t[1]), Sextet(t[2]);
    BytesOfValues(w, x, y, 0);
    EncodeOfTwoBytes(DecodeBlock(t)[0], DecodeBlock(t)[1], w, x, y);
    assert DecodeBlock(t)[..2] == [DecodeBlock(t)[0], DecodeBlock(t)[1]];
  }

  lemma {:induction false} EncodeOfCanonicalBlocks(t: seq<Byte>)
    requires Canonical(t)
    ensures IsText(t) && DecodeBlocks(t).Decoded? && DecodeBlocks(t).bytes != [] && Encoded(DecodeBlocks(t).bytes) == t
    decreases |t|
  {
    if |t| == 4 {
      EncodeOfLast(t);
    } else {
      EncodeOfCanonicalBlocks(t[4..]);
      ReencodeOfBlock(t[..4]);
      assert t == t[..4] + t[4..];
      var d, rest := DecodeBlock(t[..4]), DecodeBlocks(t[4..]).bytes;
      assert (d + rest)[3..] == rest;
      assert Encoded(d + rest) == EncodeBlock(d[0], d[1], d[2]) + Encoded(rest);
    }
  }

  /** Encoding the decoding of any canonical text gives the text back. */
  lemma InverseOnCanonical(t: seq<Byte>)
    requires Canonical(t)
    ensures DecodedText(t).Decoded? && Encoded(DecodedText(t).bytes) == t
  {
    EncodeOfCanonicalBlocks(t);
    FilterOfText(t);
  }

  lemma {:induction false} EncodedIsCanonical(s: seq<Byte>)
    requires s != []
    ensures Canonical(Encoded(s))
    decreases |s|
  {
    if |s| < 3 {
      TailIsCanonical(s);
    } else {
      var head, rest := EncodeBlock(s[0], s[1], s[2]), Encoded(s[3..]);
      DecodeOfBlock(s[0], s[1], s[2]);
      if |s| == 3 {
        assert head + rest == head;
        FullBlockIsCanonical(head);
      } else {
        EncodedIsCanonical(s[3..]);
        CanonicalExtends(head, rest);
      }
    }
  }

  lemma FullBlockIsCanonical(t: seq<Byte>)
    requires |t| == 4 && IsText(t) && Pads(t) == 0
    ensures CanonicalLast(t)
  {
    PadsOf4(t);
  }

  lemma CanonicalExtends(t: seq<Byte>, rest: seq<Byte>)
    requires |t| == 4 && IsText(t) && Pads(t) == 0 && Canonical(rest)
    ensures Canonical(t + rest)
  {
    assert (t + rest)[..4] == t && (t + rest)[4..] == rest;
  }

  lemma TailIsCanonical(t: seq<Byte>)
    requires |t| == 1 || |t| == 2
    ensures CanonicalLast(EncodeTail(t))
  {
    EncodeTailIs(t);
    SextetOfTable(t[0] / 4);
    if |t| == 1 {
      SextetOfTable(t[0] % 4 * 16);
    } else {
      SextetOfTable(t[0] % 4 * 16 + t[1] / 16);
      SextetOfTable(t[1] % 16 * 4);
    }
  }

  /** Decoding and then encoding gives a text back exactly when the text is canonical. */
  lemma ReencodesIff(t: seq<Byte>)
    ensures Canonical(t) <==> DecodedText(t).Decoded? && Encoded(DecodedText(t).bytes) == t
  {
    if Canonical(t) {
      InverseOnCanonical(t);
    } else if DecodedText(t).Decoded? && DecodedText(t).bytes != [] {
      EncodedIsCanonical(DecodedText(t).bytes);
    }
  }

  /** The canonical texts are exactly the encodings of the non-empty byte strings. */
  lemma CanonicalIff(t: seq<Byte>)
    ensures Canonical(t) <==> exists s :: s != [] && Encoded(s) == t
  {
    if Canonical(t) {
      EncodeOfCanonicalBlocks(t);
      var s := DecodeBlocks(t).bytes;
      assert s != [] && Encoded(s) == t;
    }
    if s :| s != [] && Encoded(s) == t {
      EncodedIsCanonical(s);
    }
  }
}
