/** The characters of a RAN name, read off the octets of the node. */
module RanNameText {
  import opened Basics
  import opened Decimal
  import opened RanNames

  // One decimal character for a value up to nine, two for a value from ten to fifteen.
  function Printed(v: nat): string
    requires v < 16
  {
    if v < 10 then [('0' as int + v) as char] else ['1', ('0' as int + v - 10) as char]
  }

  function PrintedPlmn(d: seq<Byte>): string
    requires |d| >= 3
  {
    Printed(d[0] % 16) + Printed(d[0] / 16) + Printed(d[1] % 16) + "_" +
    (if d[1] / 16 == 15 then "0" else "") + Printed(d[2] % 16) + Printed(d[2] / 16) +
    (if d[1] / 16 == 15 then "" else Printed(d[1] / 16))
  }

  function FirstCharacters(s: string, n: nat): string { if |s| <= n then s else s[..n] }

  // The character of a value in lower-case hexadecimal.
  function HexOf(v: nat): char
    requires v < 16
  {
    (if v < 10 then '0' as int + v else 'a' as int + v - 10) as char
  }

  lemma PrintedIsDigits(v: nat)
    requires v < 16
    ensures Digits(v) == Printed(v)
  {
    NibbleDigits(v);
    if v < 10 {
      OneDigit(v);
    } else {
      OneDigit(v - 10);
      OneDigit(1);
    }
  }

  lemma PlmnCharacters(d: seq<Byte>)
    requires |d| >= 3
    ensures PlmnDigits(d) == PrintedPlmn(d)
  {
    PrintedIsDigits(d[0] % 16);
    PrintedIsDigits(d[0] / 16);
    PrintedIsDigits(d[1] % 16);
    PrintedIsDigits(d[2] % 16);
    PrintedIsDigits(d[2] / 16);
    PrintedIsDigits(d[1] / 16);
    var mcc := Printed(d[0] % 16) + Printed(d[0] / 16) + Printed(d[1] % 16);
    Joined(mcc, Printed(d[2] % 16), Printed(d[2] / 16), Printed(d[1] / 16));
  }

  lemma Joined(mcc: string, a: string, b: string, c: string)
    ensures mcc + "_0" + (a + b) == mcc + "_" + "0" + a + b + ""
    ensures mcc + "_" + (a + b + c) == mcc + "_" + "" + a + b + c
  {
    assert "_0" == "_" + "0";
  }

  lemma HexCharacter(v: nat)
    requires v < 16
    ensures HexChar(v) == HexOf(v)
  {
  }

  // What an id adds to a name.
  predicate PrintsId(text: string, id: seq<Byte>) {
    && |text| == 1 + 2 * |id| && text[0] == '_'
    && forall k :: 0 <= k < |id| ==> text[1 + 2 * k] == HexOf(id[k] / 16) && text[2 + 2 * k] == HexOf(id[k] % 16)
  }

  lemma IdCharacters(id: seq<Byte>)
    ensures PrintsId("_" + HexText(id), id)
  {
    forall k | 0 <= k < |id|
      ensures HexText(id)[2 * k] == HexOf(id[k] / 16) && HexText(id)[2 * k + 1] == HexOf(id[k] % 16)
    {
      HexTextAt(id, k);
      HexCharacter(id[k] / 16);
      HexCharacter(id[k] % 16);
    }
  }

  /** A name is "gnb_" or "en_gnb_" and the printed PLMN, cut to 19 characters, and then, if there is an id, an
      underscore and two hexadecimal characters for each of its bytes. */
  lemma NameText(node: E2Node)
    requires Named(node)
    ensures var plmn := FirstCharacters((if node.Gnb? then "gnb_" else "en_gnb_") + PrintedPlmn(node.plmn), 19);
            && plmn <= RanName(node)
            && if node.id == None then RanName(node) == plmn else PrintsId(RanName(node)[|plmn|..], node.id.value)
  {
    PlmnCharacters(node.plmn);
    if node.id.Some? {
      IdCharacters(node.id.value);
    }
  }
}
