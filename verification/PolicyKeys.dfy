/** The key text of the A1 mediator's flat store and the prefix scans over it. */
module PolicyKeys {
  import opened Decimal

  const TYPE_PREFIX := "a1.policy_type."
  const INSTANCE_PREFIX := "a1.policy_instance."
  const METADATA_PREFIX := "a1.policy_inst_metadata."
  const HANDLER_PREFIX := "a1.policy_handler."

  function TypeKeyText(t: int): string { TYPE_PREFIX + ToString(t) }
  function InstanceScan(t: int): string { INSTANCE_PREFIX + (ToString(t) + ".") }
  function InstanceKeyText(t: int, i: string): string { INSTANCE_PREFIX + (ToString(t) + "." + i) }
  function MetadataKeyText(t: int, i: string): string { METADATA_PREFIX + (ToString(t) + "." + i) }
  function HandlerScan(t: int, i: string): string { HANDLER_PREFIX + (ToString(t) + "." + (i + ".")) }
  function HandlerKeyText(t: int, i: string, h: string): string { HandlerScan(t, i) + h }

  /** What a key names. A handler key names a type and a slot, the text "<instance>.<handler>"
      in which the store cannot tell where the instance id ends. */
  datatype Key = TypeKey(t: int)
               | InstanceKey(t: int, i: string)
               | MetadataKey(t: int, i: string)
               | HandlerKey(t: int, slot: string)
  {
    function Prefix(): string {
      match this
      case TypeKey(_) => TYPE_PREFIX
      case InstanceKey(_, _) => INSTANCE_PREFIX
      case MetadataKey(_, _) => METADATA_PREFIX
      case HandlerKey(_, _) => HANDLER_PREFIX
    }

    // The id text after the family prefix and the type id.
    function Id(): string {
      match this
      case TypeKey(_) => ""
      case InstanceKey(_, i) => i
      case MetadataKey(_, i) => i
      case HandlerKey(_, slot) => slot
    }

    function Rest(): string {
      if TypeKey? then ToString(t) else ToString(t) + "." + Id()
    }

    function Render(): string { Prefix() + Rest() }
  }

  function Slot(i: string, h: string): string { i + "." + h }

  /** The four key builders render the four kinds of key. */
  lemma BuildersRender(t: int, i: string, h: string)
    ensures TypeKeyText(t) == TypeKey(t).Render()
    ensures InstanceKeyText(t, i) == InstanceKey(t, i).Render()
    ensures MetadataKeyText(t, i) == MetadataKey(t, i).Render()
    ensures HandlerKeyText(t, i, h) == HandlerKey(t, Slot(i, h)).Render()
  {
    var d := ToString(t) + ".";
    assert HANDLER_PREFIX + (d + (i + ".")) + h == HANDLER_PREFIX + (d + (i + "." + h));
  }

  /** The texts of the four kinds of key. */
  lemma KeyTexts(t: int, i: string, h: string)
    ensures TypeKeyText(t) == "a1.policy_type." + ToString(t)
    ensures InstanceKeyText(t, i) == "a1.policy_instance." + ToString(t) + "." + i
    ensures MetadataKeyText(t, i) == "a1.policy_inst_metadata." + ToString(t) + "." + i
    ensures HandlerKeyText(t, i, h) == "a1.policy_handler." + ToString(t) + "." + i + "." + h
    ensures InstanceScan(t) == "a1.policy_instance." + ToString(t) + "."
    ensures HandlerScan(t, i) == "a1.policy_handler." + ToString(t) + "." + i + "."
  {
    JoinedByDot("a1.policy_instance.", ToString(t), i);
    JoinedByDot("a1.policy_inst_metadata.", ToString(t), i);
    JoinedByDot("a1.policy_handler.", ToString(t), i + ".");
  }

  lemma JoinedByDot(p: string, d: string, i: string)
    ensures p + (d + "." + i) == p + d + "." + i
    ensures p + (d + ".") == p + d + "."
  {
  }

  // Characters 10 and 14 of a key tell its family.
  lemma FamilyChars(k: Key)
    ensures |k.Prefix()| > 14
    ensures k.Prefix()[10] == match k { case TypeKey(_) => 't' case HandlerKey(_, _) => 'h' case _ => 'i' }
    ensures k.InstanceKey? ==> k.Prefix()[14] == 'a'
    ensures k.MetadataKey? ==> k.Prefix()[14] == '_'
  {
  }

  // A text that begins with the family prefix of f and is a prefix of k's text is of k's family.
  lemma SameFamily(f: Key, q: string, k: Key)
    requires f.Prefix() + q <= k.Render()
    ensures f.Prefix() == k.Prefix() && q <= k.Rest()
  {
    FamilyChars(f);
    FamilyChars(k);
    var p, r := f.Prefix(), k.Render();
    assert forall n :: 0 <= n < |p| ==> p[n] == (p + q)[n] == r[n];
    assert forall n :: 0 <= n < |k.Prefix()| ==> k.Prefix()[n] == r[n];
    assert p[10] == k.Prefix()[10] && p[14] == k.Prefix()[14];
    assert f.Prefix() == k.Prefix();
    PrefixOfSum(p, q, k.Rest());
  }

  lemma PrefixAtDot(a: string, b: string, x: string)
    requires '.' !in a && '.' !in b
    ensures a + "." <= b + "." + x <==> a == b
  {
    var s := b + "." + x;
    assert s[|b|] == '.';
    if a + "." <= s {
      var q := a + ".";
      assert forall n :: 0 <= n < |q| ==> q[n] == s[n];
      assert forall n :: 0 <= n < |a| ==> a[n] == q[n];
      assert forall n :: 0 <= n < |b| ==> b[n] == s[n];
      assert q[|a|] == '.' == s[|a|];
      assert |a| == |b|;
      assert a == q[..|a|] == s[..|a|];
    }
  }

  lemma SplitAtDot(a: string, x: string, b: string, y: string)
    requires '.' !in a && '.' !in b
    requires a + "." + x == b + "." + y
    ensures a == b && x == y
  {
    assert a + "." <= a + "." + x;
    PrefixAtDot(a, b, y);
    assert x == (a + "." + x)[|a| + 1..];
    assert y == (b + "." + y)[|b| + 1..];
  }

  /** The four families never meet and keys are injective, for any ids. */
  lemma RenderInjective(k: Key, k': Key)
    requires k.Render() == k'.Render()
    ensures k == k'
  {
    SameFamily(k, k.Rest(), k');
    FamilyChars(k);
    FamilyChars(k');
    assert k.Rest() == k.Render()[|k.Prefix()|..] == k'.Rest();
    if k.TypeKey? {
      ToStringInjective(k.t, k'.t);
    } else {
      SplitAtDot(ToString(k.t), k.Id(), ToString(k'.t), k'.Id());
      ToStringInjective(k.t, k'.t);
    }
  }

  lemma PrefixOfSum(p: string, a: string, b: string)
    ensures p + a <= p + b <==> a <= b
  {
    if p + a <= p + b {
      assert a == (p + a)[|p|..];
      assert (p + b)[..|p + a|][|p|..] == b[..|a|];
    }
    if a <= b {
      assert p + b == p + a + b[|a|..];
    }
  }

  lemma TypeScanExact(k: Key)
    ensures TYPE_PREFIX <= k.Render() <==> k.TypeKey?
  {
    FamilyChars(k);
    FamilyChars(TypeKey(0));
    if TYPE_PREFIX <= k.Render() {
      assert TYPE_PREFIX == TypeKey(0).Prefix() + "";
      SameFamily(TypeKey(0), "", k);
    }
  }

  /** The instance scan of a type finds exactly that type's instances, for any ids. */
  lemma InstanceScanExact(t: int, k: Key)
    ensures InstanceScan(t) <= k.Render() <==> k.InstanceKey? && k.t == t
  {
    FamilyChars(k);
    FamilyChars(InstanceKey(t, ""));
    var q := ToString(t) + ".";
    if InstanceScan(t) <= k.Render() {
      SameFamily(InstanceKey(t, ""), q, k);
    }
    if k.InstanceKey? {
      PrefixOfSum(INSTANCE_PREFIX, q, k.Rest());
      PrefixAtDot(ToString(t), ToString(k.t), k.i);
      if q <= k.Rest() {
        ToStringInjective(t, k.t);
      }
    }
  }

  /** The handler scan of an instance finds exactly the slots of its type that begin with "<instance>.". */
  lemma HandlerScanExact(t: int, i: string, k: Key)
    ensures HandlerScan(t, i) <= k.Render() <==> k.HandlerKey? && k.t == t && i + "." <= k.slot
  {
    FamilyChars(k);
    FamilyChars(HandlerKey(t, ""));
    var q := ToString(t) + "." + (i + ".");
    if HandlerScan(t, i) <= k.Render() {
      SameFamily(HandlerKey(t, ""), q, k);
    }
    if k.HandlerKey? {
      PrefixOfSum(HANDLER_PREFIX, q, k.Rest());
      HandlerRest(t, i, k);
    }
  }

  lemma HandlerRest(t: int, i: string, k: Key)
    requires k.HandlerKey?
    ensures ToString(t) + "." + (i + ".") <= k.Rest() <==> k.t == t && i + "." <= k.slot
  {
    var head := ToString(t) + ".";
    var q := head + (i + ".");
    if q <= k.Rest() {
      assert head == q[..|head|] == k.Rest()[..|head|];
      PrefixAtDot(ToString(t), ToString(k.t), k.slot);
      ToStringInjective(t, k.t);
    }
    if k.t == t {
      assert k.Rest() == head + k.slot;
      PrefixOfSum(head, i + ".", k.slot);
    }
  }

  // Instance ids

  /** j is i followed by a dot and more text. */
  predicate DotExtends(i: string, j: string) { i + "." <= j }

  /** No id of the set dot-extends another. */
  ghost predicate Separable(ids: iset<string>) {
    forall i, j :: i in ids && j in ids ==> !DotExtends(i, j)
  }

  lemma DotExtensionHasDot(i: string, j: string)
    ensures DotExtends(i, j) ==> '.' in j
  {
    if DotExtends(i, j) {
      assert j[|i|] == (i + ".")[|i|];
    }
  }

  lemma {:induction false} DotFreeIdsAreSeparable(ids: iset<string>)
    requires forall i :: i in ids ==> '.' !in i
    ensures Separable(ids)
  {
    forall i, j | i in ids && j in ids
      ensures !DotExtends(i, j)
    {
      DotExtensionHasDot(i, j);
    }
  }

  /** A handler of instance j can be found by the scan of instance i exactly when i is j or one
      dot-extends the other. */
  lemma HandlerScanMeetsIff(i: string, j: string)
    ensures (exists h :: i + "." <= Slot(j, h)) <==> i == j || DotExtends(i, j) || DotExtends(j, i)
  {
    if h :| i + "." <= Slot(j, h) {
      ScanMeetsOnlyIf(i, j, h);
    }
    if i == j || DotExtends(i, j) {
      assert Slot(j, "") == j + ".";
      assert i + "." <= Slot(j, "");
    } else if DotExtends(j, i) {
      var h := i[|j| + 1..] + ".";
      assert i == j + "." + i[|j| + 1..];
      assert Slot(j, h) == i + ".";
    }
  }

  lemma ScanMeetsOnlyIf(i: string, j: string, h: string)
    requires i + "." <= Slot(j, h)
    ensures i == j || DotExtends(i, j) || DotExtends(j, i)
  {
    var s := Slot(j, h);
    assert s[..|j|] == j && s[|j|] == '.';
    assert s[..|i|] == (i + ".")[..|i|] == i && s[|i|] == (i + ".")[|i|];
    if |i| < |j| {
      assert i + "." == s[..|i| + 1] == j[..|i| + 1];
    } else if |j| < |i| {
      assert j + "." == s[..|j| + 1] == i[..|j| + 1];
    }
  }

  lemma {:induction false} SlotInjective(ids: iset<string>, i: string, h: string, j: string, g: string)
    requires Separable(ids) && i in ids && j in ids
    requires Slot(i, h) == Slot(j, g)
    ensures i == j && h == g
  {
    assert i + "." <= Slot(i, h);
    ScanMeetsOnlyIf(i, j, g);
    assert h == Slot(i, h)[|i| + 1..];
    assert g == Slot(j, g)[|j| + 1..];
  }

  // Each handler scan finds the slots of one instance only.
  ghost predicate ScansApart(ids: iset<string>) {
    forall i, j, h :: i in ids && j in ids && i + "." <= Slot(j, h) ==> i == j
  }

  // A slot tells its instance and its handler.
  ghost predicate SlotsApart(ids: iset<string>) {
    forall i, h, j, g :: i in ids && j in ids && Slot(i, h) == Slot(j, g) ==> i == j && h == g
  }

  /** Handler keys act as keys of (type, instance, handler) triples, and each handler scan as a scan of one instance,
      exactly when no instance id dot-extends another. */
  lemma {:induction false} HandlerKeysSeparateIff(ids: iset<string>)
    ensures Separable(ids) <==> ScansApart(ids)
    ensures Separable(ids) <==> SlotsApart(ids)
  {
    if Separable(ids) {
      forall i, j, h | i in ids && j in ids && i + "." <= Slot(j, h)
        ensures i == j
      {
        ScanMeetsOnlyIf(i, j, h);
      }
      forall i, h, j, g | i in ids && j in ids && Slot(i, h) == Slot(j, g)
        ensures i == j && h == g
      {
        SlotInjective(ids, i, h, j, g);
      }
    } else {
      var i, j :| i in ids && j in ids && DotExtends(i, j);
      var h := j[|i| + 1..] + ".";
      assert j == i + "." + j[|i| + 1..];
      assert Slot(j, "") == Slot(i, h);
      assert i + "." <= Slot(j, "");
    }
  }

  // Listing: the text after the scan prefix, recovered with Python's str.split

  ghost predicate OccursAt(p: string, s: string, j: nat) {
    j + |p| <= |s| && s[j..j + |p|] == p
  }

  ghost predicate Occurs(p: string, s: string) {
    exists j :: OccursAt(p, s, j)
  }

  function Find(s: string, p: string, from: nat): (r: int)
    requires p != ""
    ensures r == -1 || (from <= r && OccursAt(p, s, r))
    ensures r == -1 ==> forall j :: from <= j ==> !OccursAt(p, s, j)
    decreases |s| - from
  {
    if from + |p| > |s| then -1
    else if s[from..from + |p|] == p then from
    else Find(s, p, from + 1)
  }

  function Split(s: string, p: string): (r: seq<string>)
    requires p != ""
    ensures |r| >= 1
    ensures |r| >= 2 <==> Occurs(p, s)
    ensures r[0] == s <==> !Occurs(p, s)
    decreases |s|
  {
    var j := Find(s, p, 0);
    if j == -1 then [s] else
    assert OccursAt(p, s, j);
    [s[..j]] + Split(s[j + |p|..], p)
  }

  /** Splitting a scanned key on the scan prefix gives back the id exactly when the id does not contain that prefix. */
  lemma ListedIdExactIff(p: string, id: string)
    requires p != ""
    ensures |Split(p + id, p)| >= 2
    ensures Split(p + id, p)[1] == id <==> !Occurs(p, id)
  {
    assert OccursAt(p, p + id, 0);
    assert Find(p + id, p, 0) == 0;
    assert (p + id)[|p|..] == id;
  }

  lemma ListedInstanceExactIff(t: int, i: string)
    ensures |Split(InstanceKeyText(t, i), InstanceScan(t))| >= 2
    ensures Split(InstanceKeyText(t, i), InstanceScan(t))[1] == i <==> !Occurs(InstanceScan(t), i)
  {
    var d := ToString(t) + ".";
    assert InstanceKeyText(t, i) == INSTANCE_PREFIX + (d + i) == INSTANCE_PREFIX + d + i;
    ListedIdExactIff(InstanceScan(t), i);
  }

  lemma OccurrenceChars(p: string, s: string, n: nat, j: nat)
    requires n < |p|
    ensures OccursAt(p, s, j) ==> p[n] in s
  {
    if OccursAt(p, s, j) {
      assert s[j + n] == s[j..j + |p|][n];
    }
  }

  lemma OccurrenceHasChar(p: string, s: string, n: nat)
    requires n < |p| && p[n] !in s
    ensures !Occurs(p, s)
  {
    forall j: nat
      ensures !OccursAt(p, s, j)
    {
      OccurrenceChars(p, s, n, j);
    }
  }

  lemma DotFreeIdIsListed(t: int, i: string)
    requires '.' !in i
    ensures !Occurs(InstanceScan(t), i)
    ensures |Split(InstanceKeyText(t, i), InstanceScan(t))| >= 2
    ensures Split(InstanceKeyText(t, i), InstanceScan(t))[1] == i
  {
    OccurrenceHasChar(InstanceScan(t), i, 2);
    ListedInstanceExactIff(t, i);
  }

  /** A listed type key reads back as the type id. */
  lemma ListedTypeExact(t: int)
    ensures |Split(TypeKeyText(t), TYPE_PREFIX)| >= 2
    ensures Parse(Split(TypeKeyText(t), TYPE_PREFIX)[1]) == t
  {
    OccurrenceHasChar(TYPE_PREFIX, ToString(t), 2);
    ListedIdExactIff(TYPE_PREFIX, ToString(t));
    ParseToString(t);
  }
}
