/** The E2 termination's Base64 codec: two loops over byte buffers, and what they compute. */
module Base64 {
  import opened Basics

  // Shifts and masks of bytes are written as division and remainder; the lemmas below give each its bit form.

  lemma EncoderBits(a: bv8, b: bv8)
    ensures a >> 2 == a / 4
    ensures ((a & 0x03) << 4) | (b >> 4) == a % 4 * 16 + b / 16
    ensures ((a & 0x0f) << 2) | (b >> 6) == a % 16 * 4 + b / 64
    ensures a & 0x3f == a % 64
    ensures (a & 0x03) << 4 == a % 4 * 16 && (a & 0x0f) << 2 == a % 16 * 4
  {
  }

  lemma DecoderBits(w: bv8, x: bv8)
    requires w < 64 && x < 64
    ensures (w << 2) | (x >> 4) == w * 4 + x / 16
    ensures (w << 4) | (x >> 2) == w % 16 * 16 + x / 4
    ensures (w << 6) | x == w % 4 * 64 + x
  {
  }

  const PAD: Byte := 61    // '='
  const FOREIGN: Byte := 0x80

  // The alphabet of section 4 of RFC 4648, A-Z a-z 0-9 + /, by value.
  function Table(i: nat): Byte
    requires i < 64
  {
    if i < 26 then i + 65 else if i < 52 then i + 71 else if i < 62 then i - 4 else if i == 62 then 43 else 47
  }

  // The value of a text byte; padding counts as zero.
  function Sextet(c: Byte): (v: Byte)
    ensures v < 64 || v == FOREIGN
  {
    if 65 <= c <= 90 then c - 65
    else if 97 <= c <= 122 then c - 71
    else if 48 <= c <= 57 then c + 4
    else if c == 43 then 62
    else if c == 47 then 63
    else if c == PAD then 0
    else FOREIGN
  }

  predicate InAlphabet(c: Byte) { Sextet(c) != FOREIGN }

  lemma SextetOfTable(i: nat)
    requires i < 64
    ensures Sextet(Table(i)) == i && Table(i) != PAD
  {
  }

  lemma TableOfSextet(c: Byte)
    requires InAlphabet(c) && c != PAD
    ensures Sextet(c) < 64 && Table(Sextet(c)) == c
  {
  }

  predicate IsText(t: seq<Byte>) { forall k {:trigger Sextet(t[k])} :: 0 <= k < |t| ==> Sextet(t[k]) != FOREIGN }

  // Encoding

  // Blocks are given character by character.

  function EncodeChar(a: Byte, b: Byte, c: Byte, k: nat): Byte {
    if k == 0 then Table(a / 4)
    else if k == 1 then Table(a % 4 * 16 + b / 16)
    else if k == 2 then Table(b % 16 * 4 + c / 64)
    else Table(c % 64)
  }

  function EncodeBlock(a: Byte, b: Byte, c: Byte): (r: seq<Byte>)
    ensures |r| == 4
  {
    seq(4, k requires 0 <= k < 4 => EncodeChar(a, b, c, k))
  }

  // One or two last bytes: the missing ones count as zero, and their characters become padding.
  function TailChar(t: seq<Byte>, k: nat): Byte
    requires |t| == 1 || |t| == 2
  {
    if k > |t| then PAD else EncodeChar(t[0], if |t| == 2 then t[1] else 0, 0, k)
  }

  function EncodeTail(t: seq<Byte>): (r: seq<Byte>)
    requires |t| == 1 || |t| == 2
    ensures |r| == 4
  {
    seq(4, k requires 0 <= k < 4 => TailChar(t, k))
  }

  lemma EncodeTailIs(t: seq<Byte>)
    requires |t| == 1 || |t| == 2
    ensures EncodeTail(t) == if |t| == 1 then [Table(t[0] / 4), Table(t[0] % 4 * 16), PAD, PAD]
                             else [Table(t[0] / 4), Table(t[0] % 4 * 16 + t[1] / 16), Table(t[1] % 16 * 4), PAD]
  {
    var r := EncodeTail(t);
    assert r[0] == TailChar(t, 0) && r[1] == TailChar(t, 1) && r[2] == TailChar(t, 2) && r[3] == TailChar(t, 3);
  }

  function Encoded(s: seq<Byte>): (r: seq<Byte>)
    ensures |r| == 4 * ((|s| + 2) / 3)
  {
    if s == [] then []
    else if |s| < 3 then EncodeTail(s)
    else EncodeBlock(s[0], s[1], s[2]) + Encoded(s[3..])
  }

  // With done written, the whole text is done followed by the encoding of the bytes left.
  ghost predicate Unwritten(goal: seq<Byte>, rest: seq<Byte>, done: seq<Byte>) {
    goal == done + Encoded(rest)
  }

  lemma UnwrittenStep(goal: seq<Byte>, rest: seq<Byte>, done: seq<Byte>)
    requires |rest| >= 3 && Unwritten(goal, rest, done)
    ensures Unwritten(goal, rest[3..], done + EncodeBlock(rest[0], rest[1], rest[2]))
  {
    var text := EncodeBlock(rest[0], rest[1], rest[2]);
    assert Encoded(rest) == text + Encoded(rest[3..]);
    assert done + (text + Encoded(rest[3..])) == done + text + Encoded(rest[3..]);
  }

  lemma UnwrittenTail(goal: seq<Byte>, rest: seq<Byte>, done: seq<Byte>)
    requires |rest| < 3 && Unwritten(goal, rest, done)
    ensures goal == if rest == [] then done else done + EncodeTail(rest)
  {
  }

  // The destination agrees with the text written so far, as far as it reaches.
  ghost predicate Kept(dst: array<Byte>, done: seq<Byte>)
    reads dst
  {
    forall k :: 0 <= k < |done| && k < dst.Length ==> dst[k] == done[k]
  }

  // One write through the moving pointer. A write beyond the array is lost, and one at or beyond dstLen is noted.
  method Put(dst: array<Byte>, dstLen: int, pos: nat, c: Byte, before: bool) returns (past: bool)
    modifies dst
    ensures past <==> before || pos >= dstLen
    ensures pos < dst.Length ==> dst[pos] == c
    ensures forall k :: 0 <= k < dst.Length && k != pos ==> dst[k] == old(dst[k])
  {
    past := before || pos >= dstLen;
    if pos < dst.Length {
      dst[pos] := c;
    }
  }

  method PutBlock(dst: array<Byte>, dstLen: int, pos: nat, a: Byte, b: Byte, c: Byte, before: bool,
                  ghost done: seq<Byte>)
    returns (past: bool)
    requires |done| == pos && Kept(dst, done)
    modifies dst
    ensures Kept(dst, done + EncodeBlock(a, b, c))
    ensures past <==> before || pos + 3 >= dstLen
    ensures forall k :: pos + 4 <= k < dst.Length ==> dst[k] == old(dst[k])
  {
    past := Put(dst, dstLen, pos, Table(a / 4), before);
    past := Put(dst, dstLen, pos + 1, Table(a % 4 * 16 + b / 16), past);
    past := Put(dst, dstLen, pos + 2, Table(b % 16 * 4 + c / 64), past);
    past := Put(dst, dstLen, pos + 3, Table(c % 64), past);
  }

  method PutTail(dst: array<Byte>, dstLen: int, pos: nat, src: array<Byte>, in_: nat, end: nat, before: bool,
                 ghost done: seq<Byte>)
    returns (past: bool)
    requires dst != src && end <= src.Length && (end == in_ + 1 || end == in_ + 2)
    requires |done| == pos && Kept(dst, done)
    modifies dst
    ensures Kept(dst, done + EncodeTail(src[in_..end]))
    ensures past <==> before || pos + 3 >= dstLen
    ensures forall k :: pos + 4 <= k < dst.Length ==> dst[k] == old(dst[k])
  {
    EncodeTailIs(src[in_..end]);
    var a := src[in_];
    past := Put(dst, dstLen, pos, Table(a / 4), before);
    if end - in_ == 1 {
      past := Put(dst, dstLen, pos + 1, Table(a % 4 * 16), past);
      past := Put(dst, dstLen, pos + 2, PAD, past);
    } else {
      var b := src[in_ + 1];
      past := Put(dst, dstLen, pos + 1, Table(a % 4 * 16 + b / 16), past);
      past := Put(dst, dstLen, pos + 2, Table(b % 16 * 4), past);
    }
    past := Put(dst, dstLen, pos + 3, PAD, past);
  }

  method WriteBlock(dst: array<Byte>, dstLen: int, pos: nat, a: Byte, b: Byte, c: Byte, before: bool,
                    ghost goal: seq<Byte>, ghost rest: seq<Byte>, ghost done: seq<Byte>)
    returns (past: bool, ghost done': seq<Byte>)
    requires |rest| >= 3 && rest[..3] == [a, b, c]
    requires |done| == pos && Kept(dst, done) && Unwritten(goal, rest, done)
    modifies dst
    ensures |done'| == pos + 4 && Kept(dst, done') && Unwritten(goal, rest[3..], done')
    ensures past <==> before || pos + 3 >= dstLen
    ensures forall k :: pos + 4 <= k < dst.Length ==> dst[k] == old(dst[k])
  {
    UnwrittenStep(goal, rest, done);
    assert rest[0] == rest[..3][0] && rest[1] == rest[..3][1] && rest[2] == rest[..3][2];
    past := PutBlock(dst, dstLen, pos, a, b, c, before, done);
    done' := done + EncodeBlock(a, b, c);
  }

  // The last one or two bytes, if any.
  method FinishText(dst: array<Byte>, dstLen: int, pos: nat, src: array<Byte>, in_: nat, end: nat, before: bool,
                    ghost goal: seq<Byte>, ghost done: seq<Byte>)
    returns (last: nat, past: bool)
    requires in_ <= end < in_ + 3 && end <= src.Length && dst != src
    requires |done| == pos && Kept(dst, done) && Unwritten(goal, src[in_..end], done)
    modifies dst
    ensures last == pos + (if in_ < end then 4 else 0) && Kept(dst, goal)
    ensures past <==> before || (in_ < end && pos + 3 >= dstLen)
    ensures forall k :: last <= k < dst.Length ==> dst[k] == old(dst[k])
  {
    UnwrittenTail(goal, src[in_..end], done);
    last, past := pos, before;
    if end - in_ != 0 {
      past := PutTail(dst, dstLen, pos, src, in_, end, before, done);
      last := pos + 4;
    }
  }

  method EncodeLoop(src: array<Byte>, srcLen: nat, dst: array<Byte>, dstLen: int, ghost goal: seq<Byte>)
    returns (pos: nat, past: bool)
    requires srcLen <= src.Length && dst != src && dstLen > 0 && Unwritten(goal, src[..srcLen], [])
    modifies dst
    ensures pos == 4 * ((srcLen + 2) / 3) && Kept(dst, goal)
    ensures past <==> pos > dstLen
    ensures forall k :: pos <= k < dst.Length ==> dst[k] == old(dst[k])
  {
    ghost var s := src[..srcLen];
    var in_ := 0;
    pos, past := 0, false;
    ghost var blocks := 0;
    ghost var rest: seq<Byte>, done: seq<Byte> := s, [];
    while srcLen - in_ >= 3
      invariant in_ == 3 * blocks <= srcLen && pos == 4 * blocks == |done| && rest == s[in_..]
      invariant src[..srcLen] == s && Kept(dst, done) && Unwritten(goal, rest, done)
      invariant past <==> pos > dstLen
      invariant forall k :: pos <= k < dst.Length ==> dst[k] == old(dst[k])
    {
      past, done := WriteBlock(dst, dstLen, pos, src[in_], src[in_ + 1], src[in_ + 2], past, goal, rest, done);
      rest := rest[3..];
      pos := pos + 4;
      in_ := in_ + 3;
      blocks := blocks + 1;
    }
    assert rest == src[in_..srcLen];
    pos, past := FinishText(dst, dstLen, pos, src, in_, srcLen, past, goal, done);
  }

  method EncodeInto(src: array<Byte>, srcLen: nat, dst: array<Byte>, dstLen: int) returns (pos: nat, past: bool)
    requires srcLen <= src.Length && dst != src && dstLen > 0
    modifies dst
    ensures pos == 4 * ((srcLen + 2) / 3) && Kept(dst, Encoded(src[..srcLen]))
    ensures past <==> pos > dstLen
    ensures forall k :: pos <= k < dst.Length ==> dst[k] == old(dst[k])
  {
    assert [] + Encoded(src[..srcLen]) == Encoded(src[..srcLen]);
    pos, past := EncodeLoop(src, srcLen, dst, dstLen, Encoded(src[..srcLen]));
  }

  /** Encodes srcLen bytes of src into dst, terminates the text with a zero byte and returns its length.
      Some byte is written at or past dstLen exactly when dstLen is below the text's length plus one. */
  method Encode(src: array?<Byte>, srcLen: int, dst: array?<Byte>, dstLen: int)
    returns (rc: int, outLen: int, past: bool)
    requires src != null ==> srcLen <= src.Length
    requires dst != null ==> dstLen <= dst.Length && dst != src
    requires srcLen * 4 < 0x8000_0000
    modifies dst
    ensures rc == 0 <==> dstLen > 0 && srcLen > 0 && srcLen * 4 / 3 <= dstLen && dst != null && src != null
    ensures rc != 0 ==> rc == -1 && outLen == dstLen && !past && (dst != null ==> dst[..] == old(dst[..]))
    ensures rc == 0 ==> outLen == 4 * ((srcLen + 2) / 3) && (past <==> dstLen < 4 * ((srcLen + 2) / 3) + 1)
    ensures rc == 0 ==> forall k :: 0 <= k < dst.Length ==>
              dst[k] == if k < outLen then Encoded(src[..srcLen])[k] else if k == outLen then 0 else old(dst[k])
  {
    if dstLen <= 0 || srcLen <= 0 { return -1, dstLen, false; }
    if dstLen < srcLen * 4 / 3 { return -1, dstLen, false; }
    if dst == null { return -1, dstLen, false; }
    if src == null { return -1, dstLen, false; }
    outLen, past := EncodeInto(src, srcLen, dst, dstLen);
    past := Put(dst, dstLen, outLen, 0, past);
    rc := 0;
  }

  /** The capacity check accepts too little by exactly this much: the destination of every length of source has a
      size that passes the check and is written past, such as one byte for a source of one byte. */
  lemma CapacityCheckFallsShort(srcLen: nat, dstLen: int)
    requires srcLen > 0
    ensures dstLen > 0 && srcLen * 4 / 3 <= dstLen && dstLen < 4 * ((srcLen + 2) / 3) + 1 <==>
            var least := srcLen * 4 / 3;
            least <= dstLen < least + (if srcLen % 3 == 0 then 1 else if srcLen % 3 == 1 then 4 else 3)
    ensures 0 < srcLen * 4 / 3 < 4 * ((srcLen + 2) / 3) + 1
    ensures 1 * 4 / 3 <= 1 < 4 * ((1 + 2) / 3) + 1
  {
    FourThirds(srcLen / 3, srcLen % 3);
    FourThirds(0, 1);
    assert srcLen == 3 * (srcLen / 3) + srcLen % 3;
  }

  lemma FourThirds(m: nat, r: nat)
    requires r < 3
    ensures (3 * m + r) * 4 / 3 == 4 * m + r && (3 * m + r + 2) / 3 == m + if r == 0 then 0 else 1
  {
  }

  // Decoding

  function Filter(s: seq<Byte>): (r: seq<Byte>)
    ensures |r| <= |s|
    ensures IsText(r)
  {
    if s == [] then [] else if InAlphabet(s[0]) then [s[0]] + Filter(s[1..]) else Filter(s[1..])
  }

  lemma FilterDrop(s: seq<Byte>, i: nat)
    requires i < |s|
    ensures Filter(s[i..]) == (if InAlphabet(s[i]) then [s[i]] else []) + Filter(s[i + 1..])
  {
    assert s[i..][1..] == s[i + 1..];
  }

  datatype Decoding = Decoded(bytes: seq<Byte>) | Malformed

  function Prepend(x: seq<Byte>, r: Decoding): Decoding {
    if r.Decoded? then Decoded(x + r.bytes) else Malformed
  }

  function Pads(t: seq<Byte>): (n: nat)
    ensures n <= |t|
  {
    if t == [] then 0 else Pads(t[..|t| - 1]) + (if t[|t| - 1] == PAD then 1 else 0)
  }

  function DecodeBlock(t: seq<Byte>): (r: seq<Byte>)
    requires |t| == 4 && IsText(t)
    ensures |r| == 3
  {
    seq(3, k requires 0 <= k < 3 => DecodeByte(Sextet(t[0]), Sextet(t[1]), Sextet(t[2]), Sextet(t[3]), k))
  }

  function DecodeByte(w: nat, x: nat, y: nat, z: nat, k: nat): Byte
    requires w < 64 && x < 64 && y < 64 && z < 64
  {
    if k == 0 then w * 4 + x / 16 else if k == 1 then x % 16 * 16 + y / 4 else y % 4 * 64 + z
  }

  lemma DecodeBlockIs(t: seq<Byte>)
    requires |t| == 4 && IsText(t)
    ensures var w, x, y, z := Sextet(t[0]), Sextet(t[1]), Sextet(t[2]), Sextet(t[3]);
            DecodeBlock(t) == [w * 4 + x / 16, x % 16 * 16 + y / 4, y % 4 * 64 + z]
  {
  }

  // Blocks of four up to the first with padding, which ends the text.
  function DecodeBlocks(t: seq<Byte>): Decoding
    requires |t| % 4 == 0 && IsText(t)
  {
    if t == [] then Decoded([])
    else
      var pad := Pads(t[..4]);
      if pad == 0 then Prepend(DecodeBlock(t[..4]), DecodeBlocks(t[4..]))
      else if pad <= 2 then Decoded(DecodeBlock(t[..4])[..3 - pad])
      else Malformed
  }

  function DecodedText(s: seq<Byte>): Decoding {
    var t := Filter(s);
    if |t| == 0 || |t| % 4 != 0 then Malformed else DecodeBlocks(t)
  }

  ghost predicate IsInverse(inverse: array<Byte>)
    reads inverse
  {
    inverse.Length == 256 && forall c: Byte :: inverse[c] == Sextet(c)
  }

  /** The inverse table: filled with the foreign mark, then entered character by character from the alphabet. */
  method BuildInverse() returns (inverse: array<Byte>)
    ensures fresh(inverse) && IsInverse(inverse)
  {
    inverse := new Byte[256](_ => FOREIGN);
    for i := 0 to 64
      invariant forall c: Byte ::
                  inverse[c] == if InAlphabet(c) && c != PAD && Sextet(c) < i then Sextet(c) else FOREIGN
    {
      SextetOfTable(i);
      forall c: Byte | InAlphabet(c) && c != PAD && Sextet(c) == i
        ensures c == Table(i)
      {
        TableOfSextet(c);
      }
      inverse[Table(i)] := i;
    }
    inverse[PAD] := 0;
  }

  // C division truncates toward zero.
  function Quarter(n: int): int { if n < 0 then -((-n) / 4) else n / 4 }

  method WriteDecoded(dst: array<Byte>, pos: nat, block: array<Byte>, ghost text: seq<Byte>)
    requires pos + 3 <= dst.Length && block.Length == 4 && dst != block
    requires |text| == 4 && IsText(text) && forall k :: 0 <= k < 4 ==> block[k] == Sextet(text[k])
    modifies dst
    ensures dst[..pos + 3] == old(dst[..pos]) + DecodeBlock(text)
    ensures forall k :: pos + 3 <= k < dst.Length ==> dst[k] == old(dst[k])
  {
    dst[pos] := block[0] * 4 + block[1] / 16;
    dst[pos + 1] := block[1] % 16 * 16 + block[2] / 4;
    dst[pos + 2] := block[2] % 4 * 64 + block[3];
  }

  // The unfinished block: its text, its values in the buffer, its length and its count of padding.
  ghost predicate Holding(block: array<Byte>, count: nat, pad: nat, partial: seq<Byte>)
    reads block
  {
    && block.Length == 4 && count == |partial| <= 4 && pad == Pads(partial)
    && forall k :: 0 <= k < count ==> block[k] == Sextet(partial[k])
  }

  /** Writes a full block and, if it is padded, ends the text. */
  method FinishBlock(dst: array<Byte>, pos: nat, block: array<Byte>, pad: nat,
                     ghost goal: Decoding, ghost rest: seq<Byte>, ghost partial: seq<Byte>)
    returns (stop: bool, ok: bool, end: nat)
    requires pos + 3 <= dst.Length && dst != block && IsText(partial)
    requires Holding(block, 4, pad, partial) && Unread(goal, rest, partial, dst[..pos])
    modifies dst
    ensures !stop ==> pad == 0 && end == pos + 3 && Unread(goal, rest, [], dst[..end])
    ensures stop ==> end <= pos + 3 && goal == (if ok then Decoded(dst[..end]) else Malformed)
    ensures forall k :: pos + 3 <= k < dst.Length ==> dst[k] == old(dst[k])
  {
    UnreadBlock(goal, rest, partial, dst[..pos]);
    WriteDecoded(dst, pos, block, partial);
    end := pos + 3;
    if pad != 0 {
      if pad == 1 {
        end := end - 1;
      } else if pad == 2 {
        end := end - 2;
      } else {
        return true, false, end;
      }
      assert dst[..end] == dst[..pos + 3][..end];
      return true, true, end;
    }
    return false, true, end;
  }

  /** Takes one text byte into the block, and finishes the block when it is full. */
  method TakeByte(c: Byte, tmp: Byte, block: array<Byte>, count: nat, pad: nat, dst: array<Byte>, pos: nat,
                  ghost goal: Decoding, ghost rest: seq<Byte>, ghost partial: seq<Byte>)
    returns (stop: bool, ok: bool, count': nat, pad': nat, end: nat, ghost partial': seq<Byte>)
    requires dst != block && count < 4 && tmp == Sextet(c) && InAlphabet(c) && IsText(rest)
    requires pos <= dst.Length && Holding(block, count, pad, partial) && Unread(goal, [c] + rest, partial, dst[..pos])
    requires count == 3 ==> pos + 3 <= dst.Length
    modifies block, dst
    ensures end <= dst.Length
    ensures !stop ==> if count == 3 then end == pos + 3 && count' == 0 else end == pos && count' == count + 1
    ensures !stop ==> Holding(block, count', pad', partial') && Unread(goal, rest, partial', dst[..end])
    ensures stop ==> count == 3 && end <= pos + 3 && goal == (if ok then Decoded(dst[..end]) else Malformed)
    ensures forall k :: pos + (if count == 3 then 3 else 0) <= k < dst.Length ==> dst[k] == old(dst[k])
  {
    block[count] := tmp;
    pad' := if c == PAD then pad + 1 else pad;
    UnreadStep(goal, rest, partial, dst[..pos], c);
    partial' := partial + [c];
    count' := count + 1;
    stop, ok, end := false, true, pos;
    if count' == 4 {
      stop, ok, end := FinishBlock(dst, pos, block, pad', goal, rest, partial');
      count', partial' := 0, [];
    }
  }

  // The texts of all suffixes of s.
  ghost predicate SuffixStep(s: seq<Byte>, texts: seq<seq<Byte>>, i: nat)
    requires |texts| == |s| + 1 && i < |s|
  {
    IsText(texts[i + 1]) && texts[i] == if InAlphabet(s[i]) then [s[i]] + texts[i + 1] else texts[i + 1]
  }

  lemma FilterSuffixes(s: seq<Byte>) returns (texts: seq<seq<Byte>>)
    ensures |texts| == |s| + 1 && texts[0] == Filter(s) && texts[|s|] == []
    ensures forall i :: 0 <= i < |s| ==> SuffixStep(s, texts, i)
  {
    texts := seq(|s| + 1, i requires 0 <= i <= |s| => Filter(s[i..]));
    assert s[0..] == s && s[|s|..] == [];
    forall i | 0 <= i < |s|
      ensures SuffixStep(s, texts, i)
    {
      FilterDrop(s, i);
      assert [] + Filter(s[i + 1..]) == Filter(s[i + 1..]);
    }
  }

  lemma BlockFits(blocks: nat, count: nat, i: nat, srcLen: nat)
    requires 4 * blocks + count <= i < srcLen
    ensures 3 * blocks <= 3 * (srcLen / 4)
    ensures count == 3 ==> 3 * blocks + 3 <= 3 * (srcLen / 4)
  {
  }

  // The decoding loop, where texts holds the alphabet bytes of every suffix of the source.
  method DecodeLoop(src: array<Byte>, srcLen: nat, inverse: array<Byte>, dst: array<Byte>,
                    ghost goal: Decoding, ghost texts: seq<seq<Byte>>, ghost limit: nat)
    returns (ok: bool, pos: nat)
    requires srcLen <= src.Length && limit == 3 * (srcLen / 4) <= dst.Length
    requires src != inverse && dst != inverse && IsInverse(inverse)
    requires |texts| == srcLen + 1 && texts[srcLen] == [] && Unread(goal, texts[0], [], [])
    requires forall i :: 0 <= i < srcLen ==> SuffixStep(src[..srcLen], texts, i)
    modifies dst
    ensures pos <= limit && goal == (if ok then Decoded(dst[..pos]) else Malformed)
    ensures forall k :: limit <= k < dst.Length ==> dst[k] == old(dst[k])
  {
    ghost var s := src[..srcLen];
    var block := new Byte[4];
    var i: nat, count: nat, pad: nat := 0, 0, 0;
    pos := 0;
    ghost var partial: seq<Byte>, blocks: nat := [], 0;
    assert dst[..0] == [];
    while i < srcLen
      invariant 0 <= i <= srcLen && forall k :: i <= k < srcLen ==> src[k] == s[k]
      invariant Holding(block, count, pad, partial) && count < 4
      invariant pos == 3 * blocks <= limit && 4 * blocks + count <= i
      invariant Unread(goal, texts[i], partial, dst[..pos])
      invariant forall k :: pos <= k < dst.Length ==> dst[k] == old(dst[k])
    {
      assert SuffixStep(s, texts, i);
      var tmp := inverse[src[i]];
      if tmp != FOREIGN {
        BlockFits(blocks, count, i, srcLen);
        if count == 3 { blocks := blocks + 1; }
        var stop, good;
        stop, good, count, pad, pos, partial := TakeByte(src[i], tmp, block, count, pad, dst, pos,
                                                         goal, texts[i + 1], partial);
        if stop { return good, pos; }
      }
      i := i + 1;
    }
    UnreadNothing(goal, partial, dst[..pos]);
    return true, pos;
  }

  method DecodeInto(src: array<Byte>, srcLen: nat, inverse: array<Byte>, dst: array<Byte>, ghost goal: Decoding)
    returns (ok: bool, pos: nat)
    requires srcLen <= src.Length && 3 * (srcLen / 4) <= dst.Length
    requires src != inverse && dst != inverse && IsInverse(inverse)
    requires Unread(goal, Filter(src[..srcLen]), [], [])
    modifies dst
    ensures pos <= 3 * (srcLen / 4) && goal == (if ok then Decoded(dst[..pos]) else Malformed)
    ensures forall k :: 3 * (srcLen / 4) <= k < dst.Length ==> dst[k] == old(dst[k])
  {
    ghost var texts := FilterSuffixes(src[..srcLen]);
    ok, pos := DecodeLoop(src, srcLen, inverse, dst, goal, texts, 3 * (srcLen / 4));
  }

  /** Decodes srcLen bytes of src into dst, which may be src itself, as a byte is written only after the bytes there
      were read. Every write lies below 3*(srcLen/4), the capacity it checks for. */
  method Decode(src: array<Byte>, srcLen: int, dst: array?<Byte>, dstLen: int) returns (rc: int, outLen: int)
    requires srcLen <= src.Length
    requires dst != null ==> dstLen <= dst.Length
    modifies dst
    ensures rc == 0 || rc == -1
    ensures var quarter := if srcLen < 0 then -((-srcLen) / 4) else srcLen / 4;
            rc == 0 <==> dstLen != 0 && quarter * 3 <= dstLen && dst != null
                         && srcLen > 0 && DecodedText(old(src[..srcLen])).Decoded?
    ensures rc == 0 ==> 0 <= outLen <= 3 * (srcLen / 4) && dst[..outLen] == DecodedText(old(src[..srcLen])).bytes
    ensures dst != null ==> forall k :: 0 <= k < dst.Length && 3 * (srcLen / 4) <= k ==> dst[k] == old(dst[k])
  {
    var inverse := BuildInverse();
    if dstLen == 0 || dstLen < Quarter(srcLen) * 3 { return -1, dstLen; }
    if dst == null { return -1, dstLen; }
    if srcLen <= 0 {
      // The counting loop is empty, and a zero count is refused.
      return -1, dstLen;
    }
    var count := CountText(src, srcLen, inverse);
    if count == 0 || count % 4 != 0 { return -1, dstLen; }
    UnreadAll(src[..srcLen]);
    var ok, pos := DecodeInto(src, srcLen, inverse, dst, DecodedText(src[..srcLen]));
    if !ok { return -1, dstLen; }
    return 0, pos;
  }

  // With done written and partial held in the block, the result is done followed by decoding partial and the rest.
  ghost predicate Unread(goal: Decoding, rest: seq<Byte>, partial: seq<Byte>, done: seq<Byte>) {
    && IsText(partial) && IsText(rest) && |partial + rest| % 4 == 0
    && goal == Prepend(done, DecodeBlocks(partial + rest))
  }

  lemma UnreadAll(s: seq<Byte>)
    requires |Filter(s)| != 0 && |Filter(s)| % 4 == 0
    ensures Unread(DecodedText(s), Filter(s), [], [])
  {
    assert [] + Filter(s) == Filter(s);
    assert DecodedText(s).Decoded? ==> [] + DecodedText(s).bytes == DecodedText(s).bytes;
  }

  lemma UnreadStep(goal: Decoding, rest: seq<Byte>, partial: seq<Byte>, done: seq<Byte>, c: Byte)
    requires InAlphabet(c) && IsText(rest) && Unread(goal, [c] + rest, partial, done)
    ensures Unread(goal, rest, partial + [c], done)
    ensures Pads(partial + [c]) == Pads(partial) + (if c == PAD then 1 else 0)
  {
    assert partial + ([c] + rest) == partial + [c] + rest;
    assert (partial + [c])[..|partial|] == partial;
  }

  lemma BlocksHead(t: seq<Byte>, rest: seq<Byte>)
    requires |t| == 4 && IsText(t) && IsText(rest) && |rest| % 4 == 0
    ensures DecodeBlocks(t + rest) == if Pads(t) == 0 then Prepend(DecodeBlock(t), DecodeBlocks(rest))
                                      else if Pads(t) <= 2 then Decoded(DecodeBlock(t)[..3 - Pads(t)])
                                      else Malformed
  {
    assert (t + rest)[..4] == t && (t + rest)[4..] == rest;
  }

  lemma TakeOfSum(a: seq<Byte>, b: seq<Byte>, m: nat)
    requires m <= |b|
    ensures a + b[..m] == (a + b)[..|a| + m]
  {
  }

  lemma UnreadBlock(goal: Decoding, rest: seq<Byte>, partial: seq<Byte>, done: seq<Byte>)
    requires |partial| == 4 && Unread(goal, rest, partial, done)
    ensures Pads(partial) == 0 ==> Unread(goal, rest, [], done + DecodeBlock(partial))
    ensures Pads(partial) == 1 ==> goal == Decoded((done + DecodeBlock(partial))[..|done| + 2])
    ensures Pads(partial) == 2 ==> goal == Decoded((done + DecodeBlock(partial))[..|done| + 1])
    ensures Pads(partial) > 2 ==> goal == Malformed
  {
    BlocksHead(partial, rest);
    if Pads(partial) == 0 {
      assert [] + rest == rest;
      PrependTwice(done, DecodeBlock(partial), DecodeBlocks(rest));
    } else {
      TakeOfSum(done, DecodeBlock(partial), 1);
      TakeOfSum(done, DecodeBlock(partial), 2);
    }
  }

  lemma UnreadNothing(goal: Decoding, partial: seq<Byte>, done: seq<Byte>)
    requires |partial| < 4 && Unread(goal, [], partial, done)
    ensures goal == Decoded(done)
  {
    assert partial + [] == partial == [];
    assert done + [] == done;
  }

  method CountText(src: array<Byte>, srcLen: nat, inverse: array<Byte>) returns (count: nat)
    requires srcLen <= src.Length
    requires IsInverse(inverse)
    ensures count == |Filter(src[..srcLen])|
  {
    count := 0;
    ghost var s := src[..srcLen];
    assert s[0..] == s;
    for i := 0 to srcLen
      invariant count + |Filter(s[i..])| == |Filter(s)|
    {
      FilterDrop(s, i);
      if inverse[src[i]] != FOREIGN {
        count := count + 1;
      }
    }
  }

  lemma PrependTwice(x: seq<Byte>, y: seq<Byte>, r: Decoding)
    ensures Prepend(x, Prepend(y, r)) == Prepend(x + y, r)
  {
    if r.Decoded? {
      assert x + (y + r.bytes) == x + y + r.bytes;
    }
  }
}
