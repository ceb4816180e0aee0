/** When the items of an index of strings come in order: exactly when no string is longer than the bytes copied. */
module ScanOrder {
  import opened Order
  import opened IdxBlk
  import opened IndexOrder
  import opened IndexRun
  import opened KeySizes
  import opened KeyOrder
  import opened LostOrder
  import opened Index

  /** Whatever keys of the kind are added, the items are in order afterwards. */
  ghost predicate AlwaysInOrder(fold: bool, n: nat, good: Key -> bool, max: int) {
    forall xs, t :: AllOf(xs, good) && Run(Comparator(fold), Refresh(n), max, xs, t) ==>
      Sorted(Comparator(fold), Flatten(t.lists))
  }

  /** One byte p times, one letter, and zeros up to the length of the field. */
  function Field(f: nat, p: nat, head: Byte, c: Byte): (k: Key)
    requires p + 2 <= f
    ensures |k| == f && k[p] == c && k[p + 1] == 0 && forall j :: 0 <= j < p ==> k[j] == head
    ensures forall j :: p < j < f ==> k[j] == 0
  {
    seq(p, i => head) + [c] + seq(f - p - 1, i => 0)
  }

  lemma {:induction false} StrFrom(fold: bool, x: Key, y: Key, i: nat, p: nat)
    requires i <= p < |x| && p < |y| && forall j :: 0 <= j < p ==> x[j] == y[j] == 97
    ensures StrCmp(fold, x, y, i) == StrCmp(fold, x, y, p)
    decreases p - i
  {
    if i < p {
      StrFrom(fold, x, y, i + 1, p);
    }
  }

  /** Beyond the hashed characters the string comparison decides. */
  lemma StringOrder(fold: bool, f: nat, p: nat, c: Byte, d: Byte)
    requires 4 <= p && p + 2 <= f && 97 <= c < d <= 122
    ensures KeyCompare(fold, Field(f, p, 97, c), Field(f, p, 97, d)) < 0
  {
    var x, y := Field(f, p, 97, c), Field(f, p, 97, d);
    hide Field;
    StrFrom(fold, x, y, 0, p);
    assert StrCmp(fold, x, y, p) == c as int - d as int;
    hide StrCmp;
    assert Hash(fold, x) == Hash(fold, y);
  }

  /** Within them the hash does, whether or not the letter is behind the end of the string. */
  lemma HashOrder(fold: bool, f: nat, p: nat, head: Byte, c: Byte, d: Byte)
    requires p < 4 && p + 2 <= f && head in {0, 97} && 97 <= c < d <= 122
    ensures KeyCompare(fold, Field(f, p, head, c), Field(f, p, head, d)) < 0
  {
    HashOfLetter(fold, f, p, head, c);
    HashOfLetter(fold, f, p, head, d);
    hide Field, Hash, StrCmp;
  }

  lemma HashOfLetter(fold: bool, f: nat, p: nat, head: Byte, c: Byte)
    requires p < 4 && p + 2 <= f && head in {0, 97} && 97 <= c <= 122
    ensures Hash(fold, Field(f, p, head, c)) ==
      if p == 0 then c * 0x8000
      else if p == 1 then head * 0x8000 + c * 0x400
      else if p == 2 then head * 0x8400 + c * 0x20
      else head * 0x8420 + c
  {
    var k := Field(f, p, head, c);
    hide Field;
    assert At(k, 0) == if p == 0 then c else head;
    assert At(k, 1) == if p < 1 then 0 else if p == 1 then c else head;
    assert At(k, 2) == if p < 2 then 0 else if p == 2 then c else head;
    assert At(k, 3) == if p < 3 then 0 else c;
    hide Hash;
    HashOfFour(fold, k);
  }

  /** The hash of four lower-case letters or zeros. */
  lemma HashOfFour(fold: bool, k: Key)
    requires forall i :: 0 <= i < 4 ==> At(k, i) == 0 || 97 <= At(k, i) <= 122
    ensures Hash(fold, k) == At(k, 0) * 0x8000 + At(k, 1) * 0x400 + At(k, 2) * 0x20 + At(k, 3)
  {
    assert At(k, 0) <= 122 && At(k, 1) <= 122 && At(k, 2) <= 122 && At(k, 3) <= 122;
    hide At;
  }

  /** Letters behind the first n bytes are a trap. */
  function Letters(f: nat, p: nat, head: Byte): Trap<Key>
    requires p + 2 <= f
  {
    Trap(Field(f, p, head, 122), Field(f, p, head, 98), Field(f, p, head, 99))
  }

  /** Refreshing one of these keys with another leaves it as it is. */
  lemma RefreshKeeps(n: nat, f: nat, p: nat, head: Byte, c: Byte)
    requires n <= p && p + 2 <= f
    ensures Mix(n, Field(f, p, head, 122), Field(f, p, head, c)) == Field(f, p, head, 122)
  {
  }

  lemma LettersTrap(fold: bool, n: nat, f: nat, p: nat, head: Byte)
    requires n <= p && p + 2 <= f && (head == 97 || (head == 0 && p < 4))
    ensures Traps(Comparator(fold), Refresh(n), Letters(f, p, head))
  {
    ComparatorIsPreorder(fold);
    if p < 4 {
      HashOrder(fold, f, p, head, 98, 99);
      HashOrder(fold, f, p, head, 99, 122);
    } else {
      StringOrder(fold, f, p, 98, 99);
      StringOrder(fold, f, p, 99, 122);
    }
    RefreshKeeps(n, f, p, head, 98);
    RefreshKeeps(n, f, p, head, 99);
    hide TotalPreorder, KeyOnly, KeyCompare, Field, Mix;
  }

  /** The run of LostOrder, with the item numbers 0, 1, 2 and so on. */
  function LosingRun<K>(k: Trap<K>, max: nat): (xs: seq<KeyItem<K>>)
    requires max >= MIN_ITEMS_PER_BLOCK
    ensures Losing(xs, k, max)
  {
    seq(max + 2, i => KeyItem(i, if i == 0 then k.z else if i == max + 1 then k.c else k.b))
  }

  lemma LosingKeys<K>(k: Trap<K>, max: nat, i: nat)
    requires max >= MIN_ITEMS_PER_BLOCK && i < |LosingRun(k, max)|
    ensures LosingRun(k, max)[i].key in {k.z, k.b, k.c}
  {
  }

  lemma LettersAllOf(f: nat, p: nat, head: Byte, max: nat, good: Key -> bool)
    requires p + 2 <= f && max >= MIN_ITEMS_PER_BLOCK
    requires good(Field(f, p, head, 122)) && good(Field(f, p, head, 98)) && good(Field(f, p, head, 99))
    ensures AllOf(LosingRun(Letters(f, p, head), max), good)
  {
    var xs := LosingRun(Letters(f, p, head), max);
    forall i | 0 <= i < |xs| ensures good(xs[i].key) {
      LosingKeys(Letters(f, p, head), max, i);
    }
  }

  /** A trap of keys of the kind shows that the order can be lost. */
  lemma TrapLoses(fold: bool, n: nat, good: Key -> bool, k: Trap<Key>, max: nat)
    requires max >= MIN_ITEMS_PER_BLOCK && Traps(Comparator(fold), Refresh(n), k)
    requires AllOf(LosingRun(k, max), good)
    ensures !AlwaysInOrder(fold, n, good, max)
  {
    hide Run, Sorted, Comparator, Refresh, Flatten, Losing, Traps;
    var xs := LosingRun(k, max);
    OrderLost(Comparator(fold), Refresh(n), xs, k, max, After(xs, max, max + 1));
  }

  /** The letter is the end of a string of p + 1 characters, padded with zeros. */
  lemma LetterPadded(f: nat, p: nat, c: Byte, l: int)
    requires p + 2 <= f && p < l && c != 0
    ensures Padded(Field(f, p, 97, c), f, l) && Terminated(Field(f, p, 97, c), f, l)
  {
    assert EndsAt(Field(f, p, 97, c), p + 1);
  }

  /** Or it is behind the end of the empty string. */
  lemma LetterHidden(f: nat, p: nat, c: Byte, l: nat)
    requires 0 < p && p + 2 <= f
    ensures Terminated(Field(f, p, 0, c), f, l)
  {
    assert EndsAt(Field(f, p, 0, c), 0);
  }

  /** Letters of the kind and behind the copied bytes, for any n and l for which the order can be lost. */
  lemma Lost(fold: bool, n: nat, f: nat, l: nat, max: nat) returns (k: Trap<Key>)
    requires l < f && (n < 4 ==> n + 2 <= f && 3 <= f) && max >= MIN_ITEMS_PER_BLOCK && !(4 <= n && l <= n)
    ensures Traps(Comparator(fold), Refresh(n), k) && AllOf(LosingRun(k, max), Fields(f, l))
  {
    hide Comparator, Refresh, Traps, Terminated;
    if n < 4 {
      var p := if n == 0 then 1 else n;
      k := Letters(f, p, 0);
      LettersTrap(fold, n, f, p, 0);
      LetterHidden(f, p, 122, l);
      LetterHidden(f, p, 98, l);
      LetterHidden(f, p, 99, l);
      LettersAllOf(f, p, 0, max, Fields(f, l));
    } else {
      k := Letters(f, n, 97);
      LettersTrap(fold, n, f, n, 97);
      LetterPadded(f, n, 122, l);
      LetterPadded(f, n, 98, l);
      LetterPadded(f, n, 99, l);
      LettersAllOf(f, n, 97, max, Fields(f, l));
    }
  }

  /**
   For fields of f bytes, of which n are copied when the first directory key is refreshed, strings of at most
   l characters in them, and whatever is left behind the strings: an index is in order after any adds if and only if
   l is at most n and the n bytes take in the hashed ones.
   */
  lemma InOrderIff(fold: bool, n: nat, f: nat, l: nat, max: nat)
    requires l < f && (n < 4 ==> n + 2 <= f && 3 <= f) && max >= MIN_ITEMS_PER_BLOCK
    ensures AlwaysInOrder(fold, n, Fields(f, l), max) <==> 4 <= n && l <= n
  {
    hide Run, Sorted, Comparator, Refresh, Fields, Flatten, Traps, AllOf;
    if 4 <= n && l <= n {
      forall xs, t | AllOf(xs, Fields(f, l)) && Run(Comparator(fold), Refresh(n), max, xs, t)
        ensures Sorted(Comparator(fold), Flatten(t.lists))
      {
        ShortKeysSorted(fold, n, f, l, max, xs, t);
      }
    } else {
      var k := Lost(fold, n, f, l, max);
      TrapLoses(fold, n, Fields(f, l), k, max);
    }
  }

  /** With zeros behind the strings, if and only if l is at most n. */
  lemma PaddedInOrderIff(fold: bool, n: nat, f: nat, l: nat, max: nat)
    requires l < f && max >= MIN_ITEMS_PER_BLOCK
    ensures AlwaysInOrder(fold, n, PaddedFields(f, l), max) <==> l <= n
  {
    hide Run, Sorted, Comparator, Refresh, Flatten, Traps, AllOf;
    if l <= n {
      forall xs, t | AllOf(xs, PaddedFields(f, l)) && Run(Comparator(fold), Refresh(n), max, xs, t)
        ensures Sorted(Comparator(fold), Flatten(t.lists))
      {
        PaddedKeysSorted(fold, n, f, l, max, xs, t);
      }
    } else {
      LettersTrap(fold, n, f, n, 97);
      LetterPadded(f, n, 122, l);
      LetterPadded(f, n, 98, l);
      LetterPadded(f, n, 99, l);
      LettersAllOf(f, n, 97, max, PaddedFields(f, l));
      TrapLoses(fold, n, PaddedFields(f, l), Letters(f, n, 97), max);
    }
  }

  /** The refresh is harmless for the same fields as in InOrderIff, and no others. */
  lemma HarmlessIff(fold: bool, n: nat, f: nat, l: nat)
    requires l < f && (n < 4 ==> n + 2 <= f && 3 <= f)
    ensures Harmless(Comparator(fold), Refresh(n), Fields(f, l)) <==> 4 <= n && l <= n
  {
    if 4 <= n && l <= n {
      ShortIsHarmless(fold, n, f, l);
    } else {
      hide Comparator, Refresh, Fields, Harmless, Traps, AllOf;
      var k := Lost(fold, n, f, l, 4);
      TrapHarms(fold, n, Fields(f, l), k);
    }
  }

  lemma TrapHarms(fold: bool, n: nat, good: Key -> bool, k: Trap<Key>)
    requires Traps(Comparator(fold), Refresh(n), k) && AllOf(LosingRun(k, 4), good)
    ensures !Harmless(Comparator(fold), Refresh(n), good)
  {
    ComparatorIsPreorder(fold);
    hide Run, Sorted, Comparator, Refresh, Flatten, Losing, Harmless, TotalPreorder, KeyOnly, Traps, After;
    var xs := LosingRun(k, 4);
    var t := After(xs, 4, 5);
    OrderLost(Comparator(fold), Refresh(n), xs, k, 4, t);
    if Harmless(Comparator(fold), Refresh(n), good) {
      RunOrdered(Comparator(fold), Refresh(n), good, 4, xs, t);
    }
  }

  /** Strings that are not too long for the bytes that are copied. */
  ghost predicate ShortStrings(xs: seq<KeyItem<Key>>, n: nat, f: nat) {
    (4 <= n && AllOf(xs, Fields(f, n))) || AllOf(xs, PaddedFields(f, n))
  }

  /** An index of such strings is in order. */
  lemma IndexInOrder(idx: DbIndex<Key>, fold: bool, n: nat, f: nat)
    requires idx.Valid() && idx.cmp == Comparator(fold) && idx.refresh == Refresh(n) && ShortStrings(idx.added, n, f)
    ensures Sorted(idx.cmp, idx.Items())
  {
    hide TotalPreorder, Run, Sorted, Comparator, Refresh, AllOf, Flatten, Linked, Lists;
    if 4 <= n && AllOf(idx.added, Fields(f, n)) {
      ShortKeysSorted(fold, n, f, n, idx.cache.maxItems, idx.added, idx.Stored());
    } else {
      PaddedKeysSorted(fold, n, f, n, idx.cache.maxItems, idx.added, idx.Stored());
    }
  }

  /** An index to which the losing run was added is not, whatever its searches answered. */
  lemma IndexOutOfOrder<K(!new)>(idx: DbIndex<K>, k: Trap<K>)
    requires idx.Valid() && Traps(idx.cmp, idx.refresh, k) && Losing(idx.added, k, idx.cache.maxItems)
    ensures !Sorted(idx.cmp, idx.Items())
  {
    hide TotalPreorder, Run, Sorted, Losing, Flatten, Linked, Lists, Traps;
    OrderLost(idx.cmp, idx.refresh, idx.added, k, idx.cache.maxItems, idx.Stored());
  }

  method AddNext<K(!new)>(idx: DbIndex<K>, x: KeyItem<K>)
    requires idx.Valid() && idx.sizes.Inside() && idx.cache.maxItems >= MIN_ITEMS_PER_BLOCK
    modifies idx, idx.cache
    ensures idx.Valid() && idx.added == old(idx.added) + [x] && idx.shell
  {
    assert MIN_ITEMS_PER_BLOCK == 4;
    hide *;
    var ok := idx.AddIndexItem(x);
  }

  /** Items added first to last. */
  method AddEach<K(!new)>(idx: DbIndex<K>, xs: seq<KeyItem<K>>)
    requires idx.Valid() && idx.sizes.Inside() && idx.cache.maxItems >= MIN_ITEMS_PER_BLOCK
    modifies idx, idx.cache
    ensures idx.Valid() && idx.added == old(idx.added) + xs && (xs != [] ==> idx.shell)
  {
    hide *;
    assert xs[..0] == [];
    for i := 0 to |xs|
      invariant idx.Valid() && idx.added == old(idx.added) + xs[..i] && (i > 0 ==> idx.shell)
    {
      AddNext(idx, xs[i]);
      assert xs[..i + 1] == xs[..i] + [xs[i]];
    }
    assert xs[..|xs|] == xs;
  }

  /** A new index with the given items. */
  method AddAll<K(!new)>(cmp: Compare<K>, refresh: (K, K) -> K, sizes: KeySizes, max: int, xs: seq<KeyItem<K>>)
    returns (idx: DbIndex<K>)
    requires TotalPreorder(cmp) && sizes.Valid() && sizes.Inside() && max >= MIN_ITEMS_PER_BLOCK
    ensures fresh(idx) && fresh(idx.cache) && idx.Valid() && idx.added == xs && (xs != [] ==> idx.shell)
    ensures idx.cmp == cmp && idx.refresh == refresh && idx.cache.maxItems == max
  {
    assert max >= 1;
    hide *;
    idx := new DbIndex(cmp, refresh, sizes, max);
    AddEach(idx, xs);
  }

  /**
   Such an index can be had: add z, b and c, each behind as many letters a as bytes are copied, scan forward, and the
   items are out of order.
   */
  method LoseOrder(fold: bool, sizes: KeySizes, max: nat) returns (out: seq<KeyItem<Key>>)
    requires sizes.Valid() && 2 <= sizes.padding <= sizes.field && max >= MIN_ITEMS_PER_BLOCK
    ensures sizes.Copied() + 2 <= sizes.field
    ensures multiset(out) == multiset(LosingRun(Letters(sizes.field, sizes.Copied(), 97), max))
    ensures !Sorted(Comparator(fold), out)
  {
    CopyInside(sizes);
    var n := sizes.Copied();
    ComparatorIsPreorder(fold);
    LettersTrap(fold, n, sizes.field, n, 97);
    hide *;
    var k := Letters(sizes.field, n, 97);
    var xs := LosingRun(k, max);
    LosingLength(xs, k, max);
    var idx := AddAll(Comparator(fold), Refresh(n), sizes, max, xs);
    out := ScanForward(idx, Fields(0, 0));
    IndexOutOfOrder(idx, k);
  }

  lemma LosingLength<K>(xs: seq<KeyItem<K>>, k: Trap<K>, max: int)
    requires Losing(xs, k, max)
    ensures xs != []
  {
  }

  /** Scanning an index of strings that are not too long: every item once, in order. */
  method ScanStrings(idx: DbIndex<Key>, fold: bool, n: nat, f: nat) returns (out: seq<KeyItem<Key>>)
    requires idx.Valid() && idx.shell && idx.cmp == Comparator(fold) && idx.refresh == Refresh(n)
    requires ShortStrings(idx.added, n, f)
    modifies idx, idx.cache
    ensures multiset(out) == multiset(old(idx.added)) && Sorted(Comparator(fold), out)
  {
    hide *;
    out := ScanForward(idx, Fields(f, n));
    IndexInOrder(idx, fold, n, f);
  }
}
