/** Key fields that are too short for the refresh of the first directory key. */
module ShortField {
  import opened IndexOrder
  import opened IndexRun
  import opened KeySizes
  import opened KeyOrder
  import opened ScanOrder

  /** After xs the item x is to be added below the first directory key, all with strings that fit their fields. */
  ghost predicate AddsBelow(fold: bool, z: KeySizes, max: int, xs: seq<KeyItem<Key>>, s: State<Key>, x: KeyItem<Key>)
    requires z.Valid()
  {
    && AllOf(xs + [x], Fields(z.field, z.field - 1)) && Run(Comparator(fold), Refresh(z.Copied()), max, xs, s)
    && s.dir != [] && Comparator(fold)(x, s.dir[0]) < 0
  }

  /** Whatever strings are added, none below the first directory key is copied beyond its field. */
  ghost predicate CopiesInside(fold: bool, z: KeySizes, max: int)
    requires z.Valid()
  {
    forall xs, s, x :: AddsBelow(fold, z, max, xs, s, x) ==> z.Inside()
  }

  /** Fields without room for a character are all alike. */
  lemma OneByte(fold: bool, n: nat)
    ensures Closed(Refresh(n), Fields(1, 0))
    ensures forall x: Key, y: Key :: Terminated(x, 1, 0) && Terminated(y, 1, 0) ==> KeyCompare(fold, x, y) == 0
  {
    forall x: Key | Terminated(x, 1, 0) ensures x == [0] {
    }
    assert forall was: Key, x: Key :: |was| == |x| == 1 && x == was ==> Mix(n, was, x) == x;
    assert KeyCompare(fold, [0], [0]) == 0;
  }

  lemma NothingBelow(fold: bool, z: KeySizes, max: int, xs: seq<KeyItem<Key>>, s: State<Key>, x: KeyItem<Key>)
    requires z.Valid() && z.field <= 1
    ensures !AddsBelow(fold, z, max, xs, s, x)
  {
    var n := z.Copied();
    assert (xs + [x])[|xs|] == x;
    if z.field == 0 {
      NoField(x.key);
    } else if AddsBelow(fold, z, max, xs, s, x) {
      OneByte(fold, n);
      hide KeyCompare, Terminated, Refresh, Run, Closed;
      forall i | 0 <= i < |xs| ensures Fields(1, 0)(xs[i].key) {
        assert (xs + [x])[i] == xs[i];
      }
      RunFirst(Comparator(fold), Refresh(n), Fields(1, 0), max, xs, s);
    }
  }

  lemma NoField(x: Key)
    ensures !Terminated(x, 0, -1)
  {
  }

  /** The item a comes below b. */
  lemma BelowFirst(fold: bool, z: KeySizes, max: int)
    requires z.Valid() && z.field >= 2
    ensures exists xs, s, x :: AddsBelow(fold, z, max, xs, s, x)
  {
    var b, a := KeyItem(0, Field(z.field, 0, 97, 98)), KeyItem(1, Field(z.field, 0, 97, 97));
    HashOrder(fold, z.field, 0, 97, 97, 98);
    LetterPadded(z.field, 0, 98, z.field - 1);
    LetterPadded(z.field, 0, 97, z.field - 1);
    hide Field, KeyCompare, Terminated, Refresh;
    var s := State([KeyItem(1, b.key)], [[b]]);
    FirstRun(Comparator(fold), Refresh(z.Copied()), max, b);
    hide Run;
    assert AddsBelow(fold, z, max, [b], s, a);
  }

  lemma FirstRun<K(!new)>(cmp: Compare<K>, refresh: (K, K) -> K, max: int, x: KeyItem<K>)
    ensures Run(cmp, refresh, max, [x], State([KeyItem(1, x.key)], [[x]]))
  {
    assert Front([x]) == [] && Back([x]) == x;
    var s: State<K> := State([], []);
    assert Run(cmp, refresh, max, [], s);
  }

  /** Every copy stays inside if and only if the field is not shorter than the padding, or has no room at all. */
  lemma CopiesInsideIff(fold: bool, z: KeySizes, max: int)
    requires z.Valid()
    ensures CopiesInside(fold, z, max) <==> z.padding <= z.field || z.field <= 1
  {
    CopyInside(z);
    hide AddsBelow;
    if z.field <= 1 {
      forall xs, s, x ensures !AddsBelow(fold, z, max, xs, s, x) {
        NothingBelow(fold, z, max, xs, s, x);
      }
    } else {
      BelowFirst(fold, z, max);
    }
  }

  /** A field for five characters where a long has eight bytes: a below b has nearly 2^64 bytes copied. */
  lemma FiveCharacters(fold: bool, max: int)
    ensures var z := KeySizes(6, 8, 0x1_0000_0000_0000_0000);
      z.Valid() && z.Copied() == 0xffff_ffff_ffff_fffe && !z.Inside() && !CopiesInside(fold, z, max)
  {
    CopiesInsideIff(fold, KeySizes(6, 8, 0x1_0000_0000_0000_0000), max);
  }
}
