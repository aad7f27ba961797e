/** The RAN name printer of the E2 termination, writing into a zeroed character buffer. */
module RanNames {
  import opened Basics
  import opened Decimal

  // The global id in an E2 Setup request. For every other node kind the printer fails, possibly after writing
  // some text.
  datatype E2Node = Gnb(plmn: seq<Byte>, id: Option<seq<Byte>>)
                  | EnGnb(plmn: seq<Byte>, id: Option<seq<Byte>>)
                  | OtherNode(written: string)

  predicate Named(node: E2Node) { !node.OtherNode? && |node.plmn| >= 3 }

  // PLMN octets, section 9.3.3.5 of 3GPP TS 38.413: the low nibble is the earlier digit, and a third MNC digit
  // of 15 is absent.

  function Low(x: Byte): nat { x % 16 }
  function High(x: Byte): nat { x / 16 }

  function KindText(node: E2Node): string
    requires Named(node)
  {
    if node.Gnb? then "gnb_" else "en_gnb_"
  }

  function PlmnDigits(d: seq<Byte>): string
    requires |d| >= 3
  {
    var mcc := Digits(Low(d[0])) + Digits(High(d[0])) + Digits(Low(d[1]));
    if High(d[1]) != 15
    then mcc + "_" + (Digits(Low(d[2])) + Digits(High(d[2])) + Digits(High(d[1])))
    else mcc + "_0" + (Digits(Low(d[2])) + Digits(High(d[2])))
  }

  // snprintf into n characters keeps at most n - 1 of the text.
  function Truncated(s: string, n: nat): string
    requires n > 0
  {
    if |s| < n then s else s[..n - 1]
  }

  function PlmnText(node: E2Node): string
    requires Named(node)
  {
    Truncated(KindText(node) + PlmnDigits(node.plmn), 20)
  }

  function HexChar(n: nat): char
    requires n < 16
  {
    "0123456789abcdef"[n]
  }

  function HexText(b: seq<Byte>): (s: string)
    ensures |s| == 2 * |b|
    ensures '\0' !in s
  {
    if b == [] then "" else
    HexText(b[..|b| - 1]) + [HexChar(High(b[|b| - 1])), HexChar(Low(b[|b| - 1]))]
  }

  function IdText(id: Option<seq<Byte>>): (s: string)
    ensures '\0' !in s
  {
    if id == None then "" else "_" + HexText(id.value)
  }

  function RanName(node: E2Node): string
    requires Named(node)
  {
    PlmnText(node) + IdText(node.id)
  }

  // The buffer

  // A C string held in a buffer whose remaining characters are all zero.
  ghost predicate Holds(buffer: array<char>, text: string)
    reads buffer
  {
    && |text| < buffer.Length && '\0' !in text
    && buffer[..|text|] == text
    && forall k :: |text| <= k < buffer.Length ==> buffer[k] == '\0'
  }

  function CString(s: seq<char>): string {
    if s == [] || s[0] == '\0' then "" else [s[0]] + CString(s[1..])
  }

  lemma {:induction false} CStringOfText(text: string, rest: seq<char>)
    requires '\0' !in text && rest != [] && rest[0] == '\0'
    ensures CString(text + rest) == text
  {
    if text == "" {
      assert text + rest == rest;
    } else {
      CStringOfText(text[1..], rest);
      assert (text + rest)[1..] == text[1..] + rest;
    }
  }

  lemma CStringOfBuffer(buffer: array<char>, text: string)
    requires Holds(buffer, text)
    ensures CString(buffer[..]) == text
  {
    assert buffer[..] == text + buffer[|text|..];
    CStringOfText(text, buffer[|text|..]);
  }

  method CopyText(buffer: array<char>, text: string)
    requires |text| <= buffer.Length
    modifies buffer
    ensures buffer[..|text|] == text
    ensures forall k :: |text| <= k < buffer.Length ==> buffer[k] == old(buffer[k])
  {
    for k := 0 to |text|
      invariant buffer[..k] == text[..k]
      invariant forall j :: k <= j < buffer.Length ==> buffer[j] == old(buffer[j])
    {
      buffer[k] := text[k];
    }
  }

  // Appends one character by printing the held string and the character into a scratch buffer of 256
  // characters, which cuts nothing off a name from a buffer no longer than that, and copying the result back.
  method AppendChar(ranName: array<char>, c: char, ghost text: string)
    requires ranName.Length <= 256 && Holds(ranName, text) && |text| + 1 < ranName.Length && c != '\0'
    modifies ranName
    ensures Holds(ranName, text + [c])
  {
    CStringOfBuffer(ranName, text);
    var printed := Truncated(CString(ranName[..]) + [c], 256);
    CopyText(ranName, printed);
  }

  lemma PlmnTextFits(node: E2Node)
    requires Named(node)
    ensures |PlmnText(node)| <= 19 && '\0' !in PlmnText(node)
  {
    assert '\0' !in KindText(node) && '\0' !in PlmnDigits(node.plmn);
  }

  method TranslatePlmnId(ranName: array<char>, node: E2Node)
    requires Named(node) && ranName.Length >= 20 && Holds(ranName, "")
    modifies ranName
    ensures Holds(ranName, PlmnText(node))
  {
    PlmnTextFits(node);
    var d := node.plmn;
    var mcc1, mcc2, mcc3 := Low(d[0]), High(d[0]), Low(d[1]);
    var mnc1, mnc2, mnc3 := Low(d[2]), High(d[2]), High(d[1]);
    var mcc := Digits(mcc1) + Digits(mcc2) + Digits(mcc3);
    var text;
    if mnc3 != 15 {
      text := KindText(node) + (mcc + "_" + (Digits(mnc1) + Digits(mnc2) + Digits(mnc3)));
    } else {
      text := KindText(node) + (mcc + "_0" + (Digits(mnc1) + Digits(mnc2)));
    }
    CopyText(ranName, Truncated(text, 20));
  }

  method TranslateBitStringToChar(ranName: array<char>, data: seq<Byte>, ghost text: string)
    requires ranName.Length <= 256 && Holds(ranName, text) && |text| + 1 + 2 * |data| < ranName.Length
    modifies ranName
    ensures Holds(ranName, text + ("_" + HexText(data)))
  {
    AppendChar(ranName, '_', text);
    ghost var soFar := text + "_";
    assert data[..0] == [];
    for i := 0 to |data|
      invariant soFar == text + ("_" + HexText(data[..i])) && Holds(ranName, soFar)
    {
      var b1, b2 := High(data[i]), Low(data[i]);
      assert data[..i + 1][..i] == data[..i];
      assert HexText(data[..i + 1]) == HexText(data[..i]) + [HexChar(b1), HexChar(b2)];
      AppendChar(ranName, HexChar(b1), soFar);
      AppendChar(ranName, HexChar(b2), soFar + [HexChar(b1)]);
      soFar := soFar + [HexChar(b1)] + [HexChar(b2)];
    }
    assert data[..|data|] == data;
  }

  /** Leaves the node's name in the zeroed buffer, or fails for the other node kinds. */
  method BuildRanName(ranName: array<char>, node: E2Node) returns (rc: int)
    requires 20 <= ranName.Length <= 256 && Holds(ranName, "")
    requires if node.OtherNode? then |node.written| < ranName.Length
             else |node.plmn| >= 3 && (node.id.Some? ==> 20 + 2 * |node.id.value| < ranName.Length)
    modifies ranName
    ensures rc == 0 <==> Named(node)
    ensures rc == 0 || rc == -1
    ensures rc == 0 ==> Holds(ranName, RanName(node)) && CString(ranName[..]) == RanName(node)
  {
    match node
    case OtherNode(written) =>
      CopyText(ranName, written);
      return -1;
    case _ =>
      TranslatePlmnId(ranName, node);
      PlmnTextFits(node);
      if node.id.Some? {
        TranslateBitStringToChar(ranName, node.id.value, PlmnText(node));
      }
      CStringOfBuffer(ranName, RanName(node));
      return 0;
  }

  // What a name tells

  datatype Triple = Triple(x: nat, y: nat, z: nat)

  predicate Nibbles(t: Triple) { t.x < 16 && t.y < 16 && t.z < 16 }

  function Mcc(d: seq<Byte>): (t: Triple)
    requires |d| >= 3
    ensures Nibbles(t)
  {
    Triple(Low(d[0]), High(d[0]), Low(d[1]))
  }

  // The MNC in three digits, a two-digit MNC padded with a leading zero.
  function Mnc(d: seq<Byte>): (t: Triple)
    requires |d| >= 3
    ensures Nibbles(t) && IsMnc(t)
  {
    if High(d[1]) == 15 then Triple(0, Low(d[2]), High(d[2])) else Triple(Low(d[2]), High(d[2]), High(d[1]))
  }

  // A third digit of 15 stands for a two-digit MNC, so it can be third only after the padding.
  predicate IsMnc(t: Triple) { t.z != 15 || t.x == 0 }

  // The octets of an MCC and an MNC.
  function Plmn(mcc: Triple, mnc: Triple): (d: seq<Byte>)
    requires Nibbles(mcc) && Nibbles(mnc) && IsMnc(mnc)
    ensures |d| == 3 && Mcc(d) == mcc && Mnc(d) == mnc
  {
    var last: Byte := if mnc.z == 15 then mnc.y + 16 * 15 else mnc.x + 16 * mnc.y;
    var first: Byte, middle: Byte := mcc.x + 16 * mcc.y, mcc.z + 16 * mnc.z;
    [first, middle, last]
  }

  // The digits printed for three nibbles: one above nine takes two.
  function Spell(t: Triple): (s: seq<nat>)
    requires Nibbles(t)
    ensures 3 <= |s| <= 6 && forall k :: 0 <= k < |s| ==> s[k] < 10
  {
    if t.x < 10 then
      if t.y < 10 then
        if t.z < 10 then [t.x, t.y, t.z] else [t.x, t.y, 1, t.z - 10]
      else if t.z < 10 then [t.x, 1, t.y - 10, t.z] else [t.x, 1, t.y - 10, 1, t.z - 10]
    else if t.y < 10 then
      if t.z < 10 then [1, t.x - 10, t.y, t.z] else [1, t.x - 10, t.y, 1, t.z - 10]
    else if t.z < 10 then [1, t.x - 10, 1, t.y - 10, t.z] else [1, t.x - 10, 1, t.y - 10, 1, t.z - 10]
  }

  predicate AllLong(t: Triple) { t.x >= 10 && t.y >= 10 && t.z >= 10 }

  // The digits printed for the MNC: the name of an en-gNB in which all six nibbles take two digits loses the last one.
  function PrintedMnc(node: E2Node): (s: seq<nat>)
    requires Named(node)
    ensures 3 <= |s| <= 6 && forall k :: 0 <= k < |s| ==> s[k] < 10
  {
    var s := Spell(Mnc(node.plmn));
    if node.EnGnb? && AllLong(Mcc(node.plmn)) && AllLong(Mnc(node.plmn)) then s[..5] else s
  }

  function Chars(s: seq<nat>): (t: string)
    requires forall k :: 0 <= k < |s| ==> s[k] < 10
    ensures |t| == |s| && '_' !in t
  {
    seq(|s|, k requires 0 <= k < |s| => DigitChar(s[k]))
  }

  lemma CharsInjective(s: seq<nat>, t: seq<nat>)
    requires forall k :: 0 <= k < |s| ==> s[k] < 10
    requires forall k :: 0 <= k < |t| ==> t[k] < 10
    requires Chars(s) == Chars(t)
    ensures s == t
  {
    forall k | 0 <= k < |s|
      ensures s[k] == t[k]
    {
      assert DigitValue(Chars(s)[k]) == s[k] && DigitValue(Chars(t)[k]) == t[k];
    }
  }

  lemma NibbleDigits(n: nat)
    requires n < 16
    ensures Digits(n) == if n < 10 then [DigitChar(n)] else [DigitChar(1), DigitChar(n - 10)]
  {
    if n >= 10 {
      assert Digits(n / 10) == [DigitChar(1)];
    }
  }

  lemma DigitsOfTriple(t: Triple)
    requires Nibbles(t)
    ensures Digits(t.x) + Digits(t.y) + Digits(t.z) == Chars(Spell(t))
  {
    NibbleDigits(t.x);
    NibbleDigits(t.y);
    NibbleDigits(t.z);
  }

  lemma PlmnDigitsShape(d: seq<Byte>)
    requires |d| >= 3
    ensures PlmnDigits(d) == Chars(Spell(Mcc(d))) + ("_" + Chars(Spell(Mnc(d))))
  {
    var mcc, l, h := Chars(Spell(Mcc(d))), Digits(Low(d[2])), Digits(High(d[2]));
    DigitsOfTriple(Mcc(d));
    DigitsOfTriple(Mnc(d));
    if High(d[1]) == 15 {
      NibbleDigits(0);
      assert Digits(0) == "0";
      assert "_0" + (l + h) == "_" + ("0" + l + h);
      assert mcc + "_0" + (l + h) == mcc + ("_0" + (l + h));
    } else {
      assert mcc + "_" + (l + h + Digits(High(d[1]))) == mcc + ("_" + (l + h + Digits(High(d[1]))));
    }
  }

  lemma {:induction false} HexTextAt(a: seq<Byte>, k: nat)
    requires k < |a|
    ensures HexText(a)[2 * k] == HexChar(High(a[k])) && HexText(a)[2 * k + 1] == HexChar(Low(a[k]))
  {
    if k < |a| - 1 {
      HexTextAt(a[..|a| - 1], k);
    }
  }

  lemma HexTextInjective(a: seq<Byte>, b: seq<Byte>)
    requires HexText(a) == HexText(b)
    ensures a == b
  {
    forall k | 0 <= k < |a|
      ensures a[k] == b[k]
    {
      HexTextAt(a, k);
      HexTextAt(b, k);
      HexCharInjective(High(a[k]), High(b[k]));
      HexCharInjective(Low(a[k]), Low(b[k]));
    }
  }

  lemma HexCharInjective(m: nat, n: nat)
    requires m < 16 && n < 16 && HexChar(m) == HexChar(n)
    ensures m == n
  {
  }

  // The parts of a name: kind, MCC, MNC and id.
  function NameBody(node: E2Node): string
    requires Named(node)
  {
    Chars(Spell(Mcc(node.plmn))) + ("_" + (Chars(PrintedMnc(node)) + IdText(node.id)))
  }

  lemma TruncatedParts(kind: string, mcc: string, mnc: string)
    requires mnc != "" && |kind| + |mcc| + |mnc| <= 19
    ensures Truncated(kind + (mcc + ("_" + mnc)), 20) ==
            kind + (mcc + ("_" + if |kind| + |mcc| + |mnc| == 19 then mnc[..|mnc| - 1] else mnc))
  {
  }

  lemma NameShape(node: E2Node)
    requires Named(node)
    ensures RanName(node) == KindText(node) + NameBody(node)
  {
    var kind, mcc, mnc := KindText(node), Chars(Spell(Mcc(node.plmn))), Chars(Spell(Mnc(node.plmn)));
    PlmnDigitsShape(node.plmn);
    SpellLength(Mcc(node.plmn));
    SpellLength(Mnc(node.plmn));
    TruncatedParts(kind, mcc, mnc);
    var printed := Chars(PrintedMnc(node));
    assert |kind| + |mcc| + |mnc| == 19 ==> printed == mnc[..5];
    PartsAssociate(kind, mcc, printed, IdText(node.id));
  }

  lemma PartsAssociate(kind: string, mcc: string, mnc: string, id: string)
    ensures kind + (mcc + ("_" + mnc)) + id == kind + (mcc + ("_" + (mnc + id)))
  {
  }

  lemma SpellLength(t: Triple)
    requires Nibbles(t)
    ensures |Spell(t)| == 6 <==> AllLong(t)
  {
  }

  lemma UnderscoreSplit(a: string, x: string, b: string, y: string)
    requires '_' !in a && '_' !in b && a + ("_" + x) == b + ("_" + y)
    ensures a == b && x == y
  {
    var s := a + ("_" + x);
    assert s[|a|] == '_' && s[|b|] == '_';
    assert forall k :: 0 <= k < |a| ==> s[k] == a[k] && s[k] != '_';
    assert forall k :: 0 <= k < |b| ==> s[k] == b[k] && s[k] != '_';
    assert |a| == |b|;
    assert a == s[..|a|] && b == s[..|b|];
    assert x == s[|a| + 1..] && y == s[|b| + 1..];
  }

  lemma UnderscoreOfId(a: string, x: Option<seq<Byte>>)
    requires '_' !in a
    ensures '_' in a + IdText(x) <==> x.Some?
  {
    if x.Some? {
      assert (a + IdText(x))[|a|] == '_';
    }
  }

  // A text without underscores is told apart from the id text after it.
  lemma IdSplit(a: string, x: Option<seq<Byte>>, b: string, y: Option<seq<Byte>>)
    requires '_' !in a && '_' !in b && a + IdText(x) == b + IdText(y)
    ensures a == b && x == y
  {
    UnderscoreOfId(a, x);
    UnderscoreOfId(b, y);
    if x.Some? {
      UnderscoreSplit(a, HexText(x.value), b, HexText(y.value));
      HexTextInjective(x.value, y.value);
    } else {
      assert a + "" == a && b + "" == b;
    }
  }

  lemma BodyTells(a: E2Node, b: E2Node)
    requires Named(a) && Named(b) && NameBody(a) == NameBody(b)
    ensures Spell(Mcc(a.plmn)) == Spell(Mcc(b.plmn)) && PrintedMnc(a) == PrintedMnc(b) && a.id == b.id
  {
    UnderscoreSplit(Chars(Spell(Mcc(a.plmn))), Chars(PrintedMnc(a)) + IdText(a.id),
                    Chars(Spell(Mcc(b.plmn))), Chars(PrintedMnc(b)) + IdText(b.id));
    IdSplit(Chars(PrintedMnc(a)), a.id, Chars(PrintedMnc(b)), b.id);
    CharsInjective(Spell(Mcc(a.plmn)), Spell(Mcc(b.plmn)));
    CharsInjective(PrintedMnc(a), PrintedMnc(b));
  }

  /** Two names are equal exactly when the kind, the printed MCC digits, the printed MNC digits and the id are. */
  lemma SameNameIff(a: E2Node, b: E2Node)
    requires Named(a) && Named(b)
    ensures RanName(a) == RanName(b) <==>
            && a.Gnb? == b.Gnb? && Spell(Mcc(a.plmn)) == Spell(Mcc(b.plmn))
            && PrintedMnc(a) == PrintedMnc(b) && a.id == b.id
  {
    NameShape(a);
    NameShape(b);
    if RanName(a) == RanName(b) {
      var s, k := RanName(a), |KindText(a)|;
      assert s[0] == KindText(a)[0] && s[0] == KindText(b)[0];
      assert NameBody(a) == s[k..] && NameBody(b) == s[k..];
      BodyTells(a, b);
    }
  }

  // The same digits from other nibbles

  // A one before a two-digit nibble reads as eleven before the nibble's second digit.
  predicate Shifts(u: nat, v: nat) { (u == 1 && v >= 10) || (u == 11 && v <= 5) }

  predicate MccShared(t: Triple) {
    || Shifts(t.x, t.y) || Shifts(t.y, t.z)
    || (t.x >= 10 && t.y == 1 && t.z <= 5) || (t.x == 1 && t.y <= 5 && t.z >= 10)
  }

  // For an MNC the other reading must be an MNC too.
  predicate MncShared(t: Triple) {
    || Shifts(t.x, t.y)
    || (t.y == 1 && t.z >= 10) || (t.y == 11 && (t.z <= 4 || (t.z == 5 && t.x == 0)))
    || (t.x >= 10 && t.y == 1 && t.z <= 4) || (t.x == 1 && t.y <= 5 && t.z >= 10)
  }

  // Two-digit first nibbles followed by what the cut leaves as a one.
  predicate CutShared(t: Triple) { t.x >= 10 && t.y >= 10 && (t.z == 1 || t.z >= 10) }

  function Cut(s: seq<nat>): seq<nat> { if |s| == 6 then s[..5] else s }

  lemma MccReadings(s: Triple, t: Triple)
    requires Nibbles(s) && Nibbles(t) && s != t && Spell(s) == Spell(t)
    ensures MccShared(s)
  {
    assert |Spell(s)| == |Spell(t)| && Spell(s)[0] == Spell(t)[0] && Spell(s)[1] == Spell(t)[1];
    assert Spell(s)[2] == Spell(t)[2];
    assert |Spell(s)| > 3 ==> Spell(s)[3] == Spell(t)[3];
    assert |Spell(s)| > 4 ==> Spell(s)[4] == Spell(t)[4];
  }

  lemma MncReadings(s: Triple, t: Triple)
    requires Nibbles(s) && Nibbles(t) && IsMnc(s) && IsMnc(t) && s != t && Spell(s) == Spell(t)
    ensures MncShared(s)
  {
    assert |Spell(s)| == |Spell(t)| && Spell(s)[0] == Spell(t)[0] && Spell(s)[1] == Spell(t)[1];
    assert Spell(s)[2] == Spell(t)[2];
    assert |Spell(s)| > 3 ==> Spell(s)[3] == Spell(t)[3];
    assert |Spell(s)| > 4 ==> Spell(s)[4] == Spell(t)[4];
  }

  lemma CutReadings(s: Triple, t: Triple)
    requires Nibbles(s) && Nibbles(t) && IsMnc(s) && IsMnc(t) && s != t && Cut(Spell(s)) == Cut(Spell(t))
    ensures MncShared(s) || CutShared(s)
  {
    SpellLength(s);
    SpellLength(t);
    if Spell(s) == Spell(t) {
      MncReadings(s, t);
    } else if !AllLong(s) {
      var c, d := Spell(s), Spell(t)[..5];
      assert c == d && c[0] == d[0] && c[1] == d[1] && c[2] == d[2] && c[3] == d[3] && c[4] == d[4];
    }
  }

  function OtherMcc(t: Triple): (o: Triple)
    requires Nibbles(t) && MccShared(t)
    ensures Nibbles(o) && o != t && Spell(o) == Spell(t)
  {
    if t.x == 1 && t.y >= 10 then Triple(11, t.y - 10, t.z)
    else if t.x == 11 && t.y <= 5 then Triple(1, 10 + t.y, t.z)
    else if t.y == 1 && t.z >= 10 then Triple(t.x, 11, t.z - 10)
    else if t.y == 11 && t.z <= 5 then Triple(t.x, 1, 10 + t.z)
    else if t.x >= 10 then Triple(1, t.x - 10, 10 + t.z)
    else Triple(10 + t.y, 1, t.z - 10)
  }

  lemma OtherMncIs(t: Triple)
    requires Nibbles(t) && IsMnc(t) && MncShared(t)
    ensures MccShared(t) && IsMnc(OtherMcc(t))
  {
  }

  function OtherCut(t: Triple): (o: Triple)
    requires Nibbles(t) && CutShared(t)
    ensures Nibbles(o) && IsMnc(o) && o != t && Cut(Spell(o)) == Cut(Spell(t))
  {
    if t.z == 10 then Triple(t.x, t.y, 11) else Triple(t.x, t.y, 10)
  }

  /** The guard, on nibbles: some other MCC or MNC gives the same name. */
  predicate Clashes(node: E2Node)
    requires Named(node)
  {
    || MccShared(Mcc(node.plmn)) || MncShared(Mnc(node.plmn))
    || (node.EnGnb? && AllLong(Mcc(node.plmn)) && CutShared(Mnc(node.plmn)))
  }

  predicate SamePlmn(a: E2Node, b: E2Node)
    requires Named(a) && Named(b)
  {
    Mcc(a.plmn) == Mcc(b.plmn) && Mnc(a.plmn) == Mnc(b.plmn)
  }

  // Another node of the same kind and id.
  function WithPlmn(node: E2Node, mcc: Triple, mnc: Triple): (b: E2Node)
    requires Named(node) && Nibbles(mcc) && Nibbles(mnc) && IsMnc(mnc)
    ensures Named(b) && Mcc(b.plmn) == mcc && Mnc(b.plmn) == mnc && b.Gnb? == node.Gnb? && b.id == node.id
  {
    node.(plmn := Plmn(mcc, mnc))
  }

  lemma PrintedIsCut(node: E2Node)
    requires Named(node)
    ensures PrintedMnc(node) ==
            if node.EnGnb? && AllLong(Mcc(node.plmn)) then Cut(Spell(Mnc(node.plmn))) else Spell(Mnc(node.plmn))
  {
    SpellLength(Mnc(node.plmn));
  }

  lemma SameNameClashes(a: E2Node, b: E2Node)
    requires Named(a) && Named(b) && !SamePlmn(a, b)
    requires a.Gnb? == b.Gnb? && Spell(Mcc(a.plmn)) == Spell(Mcc(b.plmn)) && PrintedMnc(a) == PrintedMnc(b)
    ensures Clashes(a)
  {
    PrintedIsCut(a);
    PrintedIsCut(b);
    SpellLength(Mcc(a.plmn));
    SpellLength(Mcc(b.plmn));
    if Mcc(a.plmn) != Mcc(b.plmn) {
      MccReadings(Mcc(a.plmn), Mcc(b.plmn));
    } else if a.EnGnb? && AllLong(Mcc(a.plmn)) {
      CutReadings(Mnc(a.plmn), Mnc(b.plmn));
    } else {
      MncReadings(Mnc(a.plmn), Mnc(b.plmn));
    }
  }

  lemma ClashingNode(a: E2Node) returns (b: E2Node)
    requires Named(a) && Clashes(a)
    ensures Named(b) && RanName(a) == RanName(b) && !SamePlmn(a, b)
  {
    var mcc, mnc := Mcc(a.plmn), Mnc(a.plmn);
    SpellLength(mcc);
    if MccShared(mcc) {
      SpellLength(OtherMcc(mcc));
      b := WithPlmn(a, OtherMcc(mcc), mnc);
    } else if MncShared(mnc) {
      OtherMncIs(mnc);
      b := WithPlmn(a, mcc, OtherMcc(mnc));
    } else {
      b := WithPlmn(a, mcc, OtherCut(mnc));
    }
    PrintedIsCut(a);
    PrintedIsCut(b);
    SameNameIff(a, b);
  }

  /** A node of another MCC or MNC has the same name exactly when the node's nibbles clash. */
  lemma NameSharedIff(a: E2Node)
    requires Named(a)
    ensures Clashes(a) <==> exists b :: Named(b) && RanName(b) == RanName(a) && !SamePlmn(a, b)
  {
    if Clashes(a) {
      var b := ClashingNode(a);
      assert Named(b) && RanName(b) == RanName(a) && !SamePlmn(a, b);
    }
    if b :| Named(b) && RanName(b) == RanName(a) && !SamePlmn(a, b) {
      SameNameIff(a, b);
      SameNameClashes(a, b);
    }
  }

  /** Unless its nibbles clash, a node's name tells exactly its kind, MCC, MNC up to a leading zero and id,
      among the names of all nodes. */
  lemma RanNameTells(a: E2Node, b: E2Node)
    requires Named(a) && Named(b) && !Clashes(a)
    ensures RanName(a) == RanName(b) <==> a.Gnb? == b.Gnb? && SamePlmn(a, b) && a.id == b.id
  {
    SameNameIff(a, b);
    if RanName(a) == RanName(b) && !SamePlmn(a, b) {
      SameNameClashes(a, b);
    }
  }

  predicate DecimalPlmn(d: seq<Byte>) {
    && |d| >= 3
    && Low(d[0]) < 10 && High(d[0]) < 10 && Low(d[1]) < 10
    && Low(d[2]) < 10 && High(d[2]) < 10 && (High(d[1]) < 10 || High(d[1]) == 15)
  }

  /** The name of a node with decimal PLMN digits is told apart from the names of all other nodes, decimal or not. */
  lemma DecimalNameTells(a: E2Node, b: E2Node)
    requires Named(a) && Named(b) && DecimalPlmn(a.plmn)
    ensures !Clashes(a)
    ensures RanName(a) == RanName(b) <==> a.Gnb? == b.Gnb? && SamePlmn(a, b) && a.id == b.id
  {
    RanNameTells(a, b);
  }

  /** Two nodes whose names collide, and one whose nibbles are all above nine and whose name is its own. */
  lemma ClashExamples()
    ensures var a, b := Gnb([0x1b, 0xf0, 0x21], None), Gnb([0xb1, 0xf0, 0x21], None);
            Clashes(a) && Clashes(b) && RanName(a) == RanName(b) && Mcc(a.plmn) != Mcc(b.plmn)
    ensures !Clashes(Gnb([0xbb, 0xbb, 0xbb], None))
  {
    var a, b := Gnb([0x1b, 0xf0, 0x21], None), Gnb([0xb1, 0xf0, 0x21], None);
    assert Mcc(a.plmn) == Triple(11, 1, 0) && Mcc(b.plmn) == Triple(1, 11, 0);
    assert Spell(Mcc(a.plmn)) == [1, 1, 1, 0] == Spell(Mcc(b.plmn));
    SameNameIff(a, b);
  }

  /** No name begins with the text of the other kinds of table key, so a scan that skips those keys skips no RAN. */
  lemma RanNameIsNotOtherKey(node: E2Node)
    requires Named(node)
    ensures RanName(node) != "" && !("host:" <= RanName(node)) && !("msg:" <= RanName(node))
  {
    assert RanName(node)[0] == KindText(node)[0];
    assert KindText(node)[0] == 'g' || KindText(node)[0] == 'e';
    assert "host:"[0] == 'h' && "msg:"[0] == 'm';
  }
}
