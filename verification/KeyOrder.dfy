/** The comparators of an index, and what the refresh of the first directory key does to a key. */
module KeyOrder {
  import opened Order
  import opened IndexOrder
  import opened IndexRun

  type Byte = c: int | 0 <= c < 256

  /** The key field of an item: a buffer that should hold a terminated string. */
  type Key = seq<Byte>

  function At(k: Key, i: int): Byte {
    if 0 <= i < |k| then k[i] else 0
  }

  /** tolower of the C locale, or nothing. */
  function Folded(fold: bool, c: Byte): Byte {
    if fold && 65 <= c <= 90 then c + 32 else c
  }

  /** A char is signed. */
  function Signed(c: Byte): int {
    if c >= 128 then c - 256 else c
  }

  /** HASH_STR and HASH_STR_NC: the first four characters, as an unsigned int. */
  function Hash(fold: bool, k: Key): int {
    (Signed(Folded(fold, At(k, 0))) * 0x8000 + Signed(Folded(fold, At(k, 1))) * 0x400
      + Signed(Folded(fold, At(k, 2))) * 0x20 + Signed(Folded(fold, At(k, 3)))) % 0x1_0000_0000
  }

  /** strcmp and strcasecmp from place i on. */
  function StrCmp(fold: bool, x: Key, y: Key, i: nat): int
    decreases |x| + |y| - i
  {
    var a, b := Folded(fold, At(x, i)), Folded(fold, At(y, i));
    if a != b then a - b
    else if a == 0 || i >= |x| + |y| then 0
    else StrCmp(fold, x, y, i + 1)
  }

  function KeyCompare(fold: bool, x: Key, y: Key): int {
    if Hash(fold, x) < Hash(fold, y) then -1
    else if Hash(fold, x) > Hash(fold, y) then 1
    else StrCmp(fold, x, y, 0)
  }

  /** caseCompare, and noCaseCompare when fold is true. */
  function Comparator(fold: bool): Compare<Key> {
    (p: KeyItem<Key>, q: KeyItem<Key>) => KeyCompare(fold, p.key, q.key)
  }

  lemma {:induction false} StrFlip(fold: bool, x: Key, y: Key, i: nat)
    ensures StrCmp(fold, x, y, i) == -StrCmp(fold, y, x, i)
    decreases |x| + |y| - i
  {
    if Folded(fold, At(x, i)) == Folded(fold, At(y, i)) != 0 && i < |x| + |y| {
      StrFlip(fold, x, y, i + 1);
    }
  }

  lemma {:induction false} StrTrans(fold: bool, x: Key, y: Key, z: Key, i: nat)
    requires StrCmp(fold, x, y, i) <= 0 && StrCmp(fold, y, z, i) <= 0
    ensures StrCmp(fold, x, z, i) <= 0
    decreases |x| + |y| + |z| - i
  {
    var a, b, c := Folded(fold, At(x, i)), Folded(fold, At(y, i)), Folded(fold, At(z, i));
    if a == b == c && a != 0 {
      assert i < |x| && i < |y| && i < |z| by {
        Ended(fold, x, i);
        Ended(fold, y, i);
        Ended(fold, z, i);
      }
      StrTrans(fold, x, y, z, i + 1);
    }
  }

  /** Past the end of a key only zeros are read. */
  lemma Ended(fold: bool, x: Key, i: nat)
    ensures i >= |x| ==> Folded(fold, At(x, i)) == 0
  {
  }

  /** Both comparators are total preorders that look at the keys alone. */
  lemma ComparatorIsPreorder(fold: bool)
    ensures TotalPreorder(Comparator(fold)) && KeyOnly(Comparator(fold))
  {
    hide Hash, StrCmp;
    var cmp := Comparator(fold);
    forall p: KeyItem<Key>, q: KeyItem<Key> ensures cmp(p, q) < 0 <==> cmp(q, p) > 0 {
      StrFlip(fold, p.key, q.key, 0);
    }
    forall p: KeyItem<Key>, q: KeyItem<Key>, r: KeyItem<Key> | cmp(p, q) <= 0 && cmp(q, r) <= 0
      ensures cmp(p, r) <= 0
    {
      if StrCmp(fold, p.key, q.key, 0) <= 0 && StrCmp(fold, q.key, r.key, 0) <= 0 {
        StrTrans(fold, p.key, q.key, r.key, 0);
      }
    }
  }

  /** One character, or the two cases of one letter. */
  predicate Alike(fold: bool, a: Byte, b: Byte) {
    a == b || (fold && ((65 <= a <= 90 && b == a + 32) || (65 <= b <= 90 && a == b + 32)))
  }

  lemma AlikeFolded(fold: bool, a: Byte, b: Byte)
    ensures Alike(fold, a, b) <==> Folded(fold, a) == Folded(fold, b)
    ensures Folded(fold, a) == 0 <==> a == 0
  {
  }

  ghost predicate AllAlike(fold: bool, x: Key, y: Key) {
    |x| == |y| && forall i :: 0 <= i < |x| ==> Alike(fold, x[i], y[i])
  }

  lemma AlikeAt(fold: bool, x: Key, y: Key, i: int)
    requires AllAlike(fold, x, y)
    ensures Folded(fold, At(x, i)) == Folded(fold, At(y, i))
  {
    if 0 <= i < |x| {
      AlikeFolded(fold, x[i], y[i]);
    }
  }

  lemma {:induction false} StrAlike(fold: bool, x: Key, y: Key, z: Key, i: nat)
    requires AllAlike(fold, x, y)
    ensures StrCmp(fold, x, z, i) == StrCmp(fold, y, z, i) && StrCmp(fold, z, x, i) == StrCmp(fold, z, y, i)
    decreases |x| + |z| - i
  {
    AlikeAt(fold, x, y, i);
    hide AllAlike;
    var a, c := Folded(fold, At(x, i)), Folded(fold, At(z, i));
    if a == c != 0 && i < |x| + |z| {
      StrAlike(fold, x, y, z, i + 1);
    }
  }

  /** Without regard to case, keys that differ in the case of letters only are one key to the comparator. */
  lemma CaseIgnored(x: Key, y: Key, z: Key)
    requires AllAlike(true, x, y)
    ensures KeyCompare(true, x, y) == 0
    ensures KeyCompare(true, x, z) == KeyCompare(true, y, z) && KeyCompare(true, z, x) == KeyCompare(true, z, y)
  {
    AlikeAt(true, x, y, 0);
    AlikeAt(true, x, y, 1);
    AlikeAt(true, x, y, 2);
    AlikeAt(true, x, y, 3);
    StrAlike(true, x, y, y, 0);
    StrAlike(true, x, y, z, 0);
    StrFlip(true, y, y, 0);
    hide StrCmp, AllAlike;
  }

  /** Strings compare as level from a place on exactly if they are alike from there to their ends. */
  lemma {:induction false} StrLevel(fold: bool, x: Key, p: nat, y: Key, q: nat, i: nat)
    requires EndsAt(x, p) && EndsAt(y, q) && i <= p && i <= q
    ensures StrCmp(fold, x, y, i) == 0 <==> p == q && forall j :: i <= j < p ==> Alike(fold, x[j], y[j])
    decreases p - i
  {
    AlikeFolded(fold, x[i], y[i]);
    if i < p && i < q && Folded(fold, x[i]) == Folded(fold, y[i]) {
      StrLevel(fold, x, p, y, q, i + 1);
      hide Folded;
    }
  }

  /**
   Two strings that compare as level are equal, or with fold differ in case only; and from three characters on these
   do compare as level.
   */
  lemma LevelIff(fold: bool, x: Key, p: nat, y: Key, q: nat)
    requires EndsAt(x, p) && EndsAt(y, q)
    ensures KeyCompare(fold, x, y) == 0 ==> p == q && forall j :: 0 <= j < p ==> Alike(fold, x[j], y[j])
    ensures p == q >= 3 && (forall j :: 0 <= j < p ==> Alike(fold, x[j], y[j])) ==> KeyCompare(fold, x, y) == 0
  {
    StrLevel(fold, x, p, y, q, 0);
    if p == q >= 3 && forall j :: 0 <= j < p ==> Alike(fold, x[j], y[j]) {
      AlikeFolded(fold, x[0], y[0]);
      AlikeFolded(fold, x[1], y[1]);
      AlikeFolded(fold, x[2], y[2]);
      AlikeFolded(fold, At(x, 3), At(y, 3));
      hide Folded, StrCmp;
    }
  }

  /** The code of a character in lower case. */
  predicate IsLower(c: Byte, l: int) {
    l == if 65 <= c <= 90 then c + 32 else c
  }

  lemma {:induction false} StrDiffers(fold: bool, x: Key, y: Key, i: nat, d: nat)
    requires i <= d < |x| && d < |y| && forall j :: i <= j < d ==> x[j] != 0 && Alike(fold, x[j], y[j])
    requires !Alike(fold, x[d], y[d])
    ensures StrCmp(fold, x, y, i) == StrCmp(fold, x, y, d) == Folded(fold, x[d]) as int - Folded(fold, y[d])
    decreases d - i
  {
    AlikeFolded(fold, x[i], y[i]);
    if i < d {
      StrDiffers(fold, x, y, i + 1, d);
    }
    hide Folded, Alike;
  }

  /** Behind four equal characters the first characters that differ decide: their codes, in lower case with fold. */
  lemma FirstDifference(fold: bool, x: Key, y: Key, d: nat, a: int, b: int)
    requires 4 <= d < |x| && d < |y| && (forall j :: 0 <= j < d ==> x[j] != 0 && Alike(fold, x[j], y[j]))
    requires !Alike(fold, x[d], y[d])
    requires if fold then IsLower(x[d], a) && IsLower(y[d], b) else a == x[d] && b == y[d]
    ensures KeyCompare(fold, x, y) < 0 <==> a < b
    ensures KeyCompare(fold, x, y) > 0 <==> a > b
  {
    StrDiffers(fold, x, y, 0, d);
    hide StrCmp;
    assert Hash(fold, x) == Hash(fold, y) by {
      AlikeFolded(fold, x[0], y[0]);
      AlikeFolded(fold, x[1], y[1]);
      AlikeFolded(fold, x[2], y[2]);
      AlikeFolded(fold, x[3], y[3]);
    }
    hide Hash;
  }

  /** The first four characters of k lie in the g-th group of 32 codes. */
  predicate InGroup(k: Key, g: int) {
    |k| >= 4 && forall i :: 0 <= i < 4 ==> 32 * g <= k[i] < 32 * g + 32
  }

  /** Where in its group each of the first four characters is, as a number in base 32. */
  function GroupValue(k: Key, g: int): int
    requires |k| >= 4
  {
    (k[0] - 32 * g) * 0x8000 + (k[1] - 32 * g) * 0x400 + (k[2] - 32 * g) * 0x20 + (k[3] - 32 * g)
  }

  lemma HashOfGroup(k: Key, g: int)
    requires InGroup(k, g) && 0 <= g < 8
    ensures |k| >= 4 && 0 <= GroupValue(k, g) < 0x10_0000
    ensures Hash(false, k) ==
      GroupValue(k, g) + (if g < 4 then g else g - 8) * 0x10_8420 + (if g < 4 then 0 else 0x1_0000_0000)
  {
    assert 0 <= k[0] - 32 * g < 32 && 0 <= k[1] - 32 * g < 32 && 0 <= k[2] - 32 * g < 32 && 0 <= k[3] - 32 * g < 32;
    assert Signed(At(k, 0)) == k[0] as int - (if g < 4 then 0 else 256);
    assert Signed(At(k, 1)) == k[1] as int - (if g < 4 then 0 else 256);
    assert Signed(At(k, 2)) == k[2] as int - (if g < 4 then 0 else 256);
    assert Signed(At(k, 3)) == k[3] as int - (if g < 4 then 0 else 256);
  }

  /** The number in base 32 and the string comparison are decided by the same character. */
  lemma GroupOrder(x: Key, y: Key, g: int)
    requires InGroup(x, g) && InGroup(y, g) && 0 < g < 8
    ensures |x| >= 4 && |y| >= 4
    ensures GroupValue(x, g) < GroupValue(y, g) ==> StrCmp(false, x, y, 0) < 0
    ensures GroupValue(x, g) > GroupValue(y, g) ==> StrCmp(false, x, y, 0) > 0
  {
    StrStep(x, y, 0);
    StrStep(x, y, 1);
    StrStep(x, y, 2);
    StrStep(x, y, 3);
  }

  lemma StrStep(x: Key, y: Key, i: nat)
    requires i < |x| && i < |y|
    ensures x[i] != y[i] ==> StrCmp(false, x, y, i) == x[i] as int - y[i] as int
    ensures x[i] == y[i] != 0 ==> StrCmp(false, x, y, i) == StrCmp(false, x, y, i + 1)
  {
  }

  /**
   The order of caseCompare is the order of strcmp between keys whose first four characters all come from
   one group of 32 codes, as four lower-case letters do.
   */
  lemma HashKeepsStrcmp(x: Key, y: Key, g: int)
    requires InGroup(x, g) && InGroup(y, g) && 0 < g < 8
    ensures KeyCompare(false, x, y) < 0 <==> StrCmp(false, x, y, 0) < 0
    ensures KeyCompare(false, x, y) == 0 <==> StrCmp(false, x, y, 0) == 0
  {
    HashOfGroup(x, g);
    HashOfGroup(y, g);
    GroupOrder(x, y, g);
  }

  /** In general it is not: "az" is below "b" for strcmp and above it for caseCompare. */
  lemma HashOverridesStrcmp()
    ensures StrCmp(false, [97, 122, 0, 0, 0], [98, 0, 0, 0, 0], 0) < 0
    ensures KeyCompare(false, [97, 122, 0, 0, 0], [98, 0, 0, 0, 0]) > 0
  {
  }

  /** memmove of n bytes of the new key over the old one. */
  function Mix(n: nat, was: Key, new': Key): Key {
    if n <= |new'| == |was| then new'[..n] + was[n..] else new'
  }

  /** The refresh that copies n bytes. */
  function Refresh(n: nat): (Key, Key) -> Key {
    (was: Key, new': Key) => Mix(n, was, new')
  }

  /** The terminated string in x ends at place p. */
  predicate EndsAt(x: Key, p: nat) {
    p < |x| && x[p] == 0 && forall j :: 0 <= j < p ==> x[j] != 0
  }

  /** A field of f bytes with a string of at most l characters; what follows the string does not matter. */
  ghost predicate Terminated(x: Key, f: nat, l: int) {
    |x| == f && exists p: nat :: p <= l && EndsAt(x, p)
  }

  ghost function Fields(f: nat, l: int): Key -> bool {
    (x: Key) => Terminated(x, f, l)
  }

  /** Comparing with a key whose bytes from n on were replaced: at most a tie becomes "below". */
  lemma {:induction false} StrMixed(fold: bool, y: Key, q: nat, x: Key, p: nat, m: Key, n: nat, i: nat)
    requires EndsAt(y, q) && EndsAt(x, p) && i <= p <= n && i <= q <= n && n <= |m| == |x|
    requires forall j :: 0 <= j < n ==> m[j] == x[j]
    ensures StrCmp(fold, y, m, i) <= 0 ==> StrCmp(fold, y, x, i) <= 0
    ensures StrCmp(fold, y, m, i) >= 0 ==> StrCmp(fold, y, x, i) >= 0
    decreases n - i
  {
    if i < n && Folded(fold, y[i]) == Folded(fold, x[i]) != 0 {
      assert y[i] != 0 && x[i] != 0;
      StrMixed(fold, y, q, x, p, m, n, i + 1);
    }
  }

  lemma MixCompared(fold: bool, n: nat, f: nat, y: Key, x: Key, was: Key)
    requires 4 <= n && Terminated(y, f, n) && Terminated(x, f, n)
    ensures KeyCompare(fold, y, Mix(n, was, x)) <= 0 ==> KeyCompare(fold, y, x) <= 0
    ensures KeyCompare(fold, y, Mix(n, was, x)) >= 0 ==> KeyCompare(fold, y, x) >= 0
  {
    var m := Mix(n, was, x);
    if n <= |x| == |was| {
      assert forall j :: 0 <= j < n ==> m[j] == x[j];
      assert Hash(fold, m) == Hash(fold, x);
      var q: nat :| q <= n && EndsAt(y, q);
      var p: nat :| p <= n && EndsAt(x, p);
      StrMixed(fold, y, q, x, p, m, n, 0);
    }
  }

  /** Refreshing with strings of at most as many characters as bytes are copied is harmless. */
  lemma ShortIsHarmless(fold: bool, n: nat, f: nat, l: int)
    requires 4 <= n && l <= n
    ensures Harmless(Comparator(fold), Refresh(n), Fields(f, l))
  {
    forall e: KeyItem<Key>, x: KeyItem<Key> | Fields(f, l)(x.key)
      ensures Shadow(Comparator(fold), Fields(f, l), KeyItem(e.item, Refresh(n)(e.key, x.key)), x)
    {
      ShortShadow(fold, n, f, l, e, x);
    }
  }

  lemma ShortShadow(fold: bool, n: nat, f: nat, l: int, e: KeyItem<Key>, x: KeyItem<Key>)
    requires 4 <= n && l <= n && Terminated(x.key, f, l)
    ensures Shadow(Comparator(fold), Fields(f, l), KeyItem(e.item, Refresh(n)(e.key, x.key)), x)
  {
    hide KeyCompare, Terminated, Mix;
    Longer(x.key, f, l, n);
    forall y: KeyItem<Key> | Terminated(y.key, f, l)
      ensures KeyCompare(fold, y.key, Mix(n, e.key, x.key)) <= 0 ==> KeyCompare(fold, y.key, x.key) <= 0
      ensures KeyCompare(fold, y.key, Mix(n, e.key, x.key)) >= 0 ==> KeyCompare(fold, y.key, x.key) >= 0
    {
      Longer(y.key, f, l, n);
      MixCompared(fold, n, f, y.key, x.key, e.key);
    }
  }

  lemma Longer(x: Key, f: nat, l: int, n: int)
    requires Terminated(x, f, l) && l <= n
    ensures Terminated(x, f, n)
  {
  }

  /** All items have keys of the kind. */
  ghost predicate AllOf(xs: seq<KeyItem<Key>>, good: Key -> bool) {
    forall i :: 0 <= i < |xs| ==> good(xs[i].key)
  }

  /** After any adds of such keys the items in directory order are sorted. */
  lemma ShortKeysSorted(fold: bool, n: nat, f: nat, l: int, max: int, xs: seq<KeyItem<Key>>, t: State<Key>)
    requires 4 <= n && l <= n && Run(Comparator(fold), Refresh(n), max, xs, t) && AllOf(xs, Fields(f, l))
    ensures Sorted(Comparator(fold), Flatten(t.lists))
  {
    ComparatorIsPreorder(fold);
    ShortIsHarmless(fold, n, f, l);
    hide TotalPreorder, KeyOnly, Harmless, Comparator, Refresh, Run, Terminated, Sorted, Fields;
    RunOrdered(Comparator(fold), Refresh(n), Fields(f, l), max, xs, t);
  }

  /** A field of f bytes with a string of at most l characters and zeros after it. */
  ghost predicate Padded(x: Key, f: nat, l: int) {
    |x| == f && exists p: nat :: p <= l && EndsAt(x, p) && forall j :: p <= j < f ==> x[j] == 0
  }

  ghost function PaddedFields(f: nat, l: int): Key -> bool {
    (x: Key) => Padded(x, f, l)
  }

  /** A refresh that copies the whole key. */
  function Whole(): (Key, Key) -> Key {
    (was: Key, new': Key) => new'
  }

  lemma PaddedMix(n: nat, f: nat, l: int, was: Key, x: Key)
    requires l <= n && Padded(was, f, l) && Padded(x, f, l)
    ensures Mix(n, was, x) == x
  {
    if n <= |x| == |was| {
      assert was[n..] == x[n..];
      assert x == x[..n] + x[n..];
    }
  }

  /** For padded strings of at most n characters copying n bytes is copying the whole key. */
  lemma PaddedAgree(n: nat, f: nat, l: int)
    requires l <= n
    ensures Agree(Refresh(n), Whole(), PaddedFields(f, l)) && Closed(Refresh(n), PaddedFields(f, l))
  {
    hide Padded, Mix;
    forall was: Key, x: Key | Padded(was, f, l) && Padded(x, f, l) ensures Mix(n, was, x) == x {
      PaddedMix(n, f, l, was, x);
    }
  }

  lemma WholeIsHarmless(fold: bool, good: Key -> bool)
    ensures Harmless(Comparator(fold), Whole(), good)
  {
    hide KeyCompare;
  }

  /** After any adds of such keys the items in directory order are sorted, however few bytes are copied. */
  lemma PaddedKeysSorted(fold: bool, n: nat, f: nat, l: int, max: int, xs: seq<KeyItem<Key>>, t: State<Key>)
    requires l <= n && Run(Comparator(fold), Refresh(n), max, xs, t) && AllOf(xs, PaddedFields(f, l))
    ensures Sorted(Comparator(fold), Flatten(t.lists))
  {
    ComparatorIsPreorder(fold);
    PaddedAgree(n, f, l);
    WholeIsHarmless(fold, PaddedFields(f, l));
    hide TotalPreorder, KeyOnly, Harmless, Comparator, Refresh, Run, Sorted, Whole, PaddedFields, Agree, Closed;
    RunSame(Comparator(fold), Refresh(n), Whole(), PaddedFields(f, l), max, xs, t);
    RunOrdered(Comparator(fold), Whole(), PaddedFields(f, l), max, xs, t);
  }
}
