/**
 Adds after which a scan is not in order: keys of which the refresh of the first directory key loses the
 difference. For every block size.
 */
module LostOrder {
  import opened Order
  import opened IndexOrder
  import opened IndexRun

  /** Keys that are below z, in the order b and c, and that leave z as it is when it is refreshed with them. */
  datatype Trap<K> = Trap(z: K, b: K, c: K)

  ghost predicate Traps<K(!new)>(cmp: Compare<K>, refresh: (K, K) -> K, k: Trap<K>) {
    && TotalPreorder(cmp) && KeyOnly(cmp)
    && cmp(KeyItem(0, k.b), KeyItem(0, k.c)) < 0 && cmp(KeyItem(0, k.c), KeyItem(0, k.z)) < 0
    && refresh(k.z, k.b) == k.z && refresh(k.z, k.c) == k.z
  }

  /** z, then as many b as fit a block, then c. */
  ghost predicate Losing<K>(xs: seq<KeyItem<K>>, k: Trap<K>, max: int) {
    && max >= MIN_ITEMS_PER_BLOCK && |xs| == max + 2
    && xs[0].key == k.z && xs[max + 1].key == k.c
    && forall i :: 1 <= i <= max ==> xs[i].key == k.b
  }

  lemma TrapOrder<K(!new)>(cmp: Compare<K>, refresh: (K, K) -> K, k: Trap<K>, p: KeyItem<K>, q: KeyItem<K>)
    requires Traps(cmp, refresh, k)
    ensures p.key == k.b && q.key == k.b ==> cmp(p, q) <= 0
    ensures p.key == k.b && q.key == k.c ==> cmp(p, q) < 0 < cmp(q, p)
    ensures p.key in {k.b, k.c} && q.key == k.z ==> cmp(p, q) < 0
  {
    var b, c, z := KeyItem(0, k.b), KeyItem(0, k.c), KeyItem(0, k.z);
    Flip(cmp, b, b);
    Flip(cmp, p, q);
    StrictTrans(cmp, b, c, z);
    hide TotalPreorder;
  }

  /** There is only one place for an item. */
  lemma PlaceUnique<K(!new)>(cmp: Compare<K>, s: seq<KeyItem<K>>, x: KeyItem<K>, j: int, k: int)
    requires TotalPreorder(cmp) && PlaceOf(cmp, s, x, j) && PlaceOf(cmp, s, x, k)
    ensures j == k
  {
    hide TotalPreorder;
    if j < k {
      Flip(cmp, x, s[j]);
    } else if k < j {
      Flip(cmp, x, s[k]);
    }
  }

  /** What comes of an add below the first entry when the refresh changes nothing. */
  ghost function Outcome<K>(max: int, s: State<K>, x: KeyItem<K>, k: int): State<K>
    requires s.dir != [] && |s.dir| == |s.lists| && 0 <= k <= |s.lists[0]|
  {
    var l := s.lists[0 := Inserted(s.lists[0], k, x)];
    State(SettledDir(max, s.dir, l, 0), SettledLists(max, l, 0))
  }

  /** It is the only thing that can come of it. */
  lemma OneOutcome<K(!new)>(cmp: Compare<K>, refresh: (K, K) -> K, max: int, s: State<K>, x: KeyItem<K>, k: int,
    t: State<K>)
    requires TotalPreorder(cmp) && s.dir != [] && |s.dir| == |s.lists| && PlaceOf(cmp, s.lists[0], x, k)
    requires cmp(x, s.dir[0]) < 0 && refresh(s.dir[0].key, x.key) == s.dir[0].key
    ensures Added(cmp, refresh, max, s, x, t) <==> t == Outcome(max, s, x, k)
  {
    hide TotalPreorder, Inserted, SettledDir, SettledLists;
    assert RefreshedDir(cmp, refresh, s.dir, x) == s.dir;
    if Added(cmp, refresh, max, s, x, t) {
      var i, j :| AddedAt(cmp, refresh, max, s, x, t, i, j);
      PlaceUnique(cmp, s.lists[0], x, j, k);
    }
    if t == Outcome(max, s, x, k) {
      assert AddedAt(cmp, refresh, max, s, x, t, 0, k);
    }
  }

  /** The larger half of an overfull block. */
  function Half(max: int): (h: int)
    requires max >= 4
    ensures 1 <= h < max
  {
    max + 1 - (max + 1) / 2
  }

  /** The state after the item number i of the run. */
  ghost function After<K>(xs: seq<KeyItem<K>>, max: int, i: int): (s: State<K>)
    requires max >= 4 && |xs| == max + 2 && 0 <= i < |xs|
    ensures s.dir != [] && |s.dir| == |s.lists|
  {
    var h := Half(max);
    if i < max then State([KeyItem(1, xs[0].key)], [xs[1..i + 1] + [xs[0]]])
    else
      State([KeyItem(1, xs[0].key), KeyItem(2, xs[1].key)],
            [if i == max then xs[1..h + 1] else xs[1..h + 1] + [xs[max + 1]], xs[h + 1..max + 1] + [xs[0]]])
  }

  /** Adding b to a block of b and z that has room. */
  lemma OneMore<K>(xs: seq<KeyItem<K>>, k: Trap<K>, max: int, i: int)
    requires Losing(xs, k, max) && 0 <= i < max
    ensures Inserted(xs[1..i + 1] + [xs[0]], i, xs[i + 1]) == xs[1..i + 2] + [xs[0]]
    ensures i + 1 < max ==> Outcome(max, After(xs, max, i), xs[i + 1], i) == After(xs, max, i + 1)
  {
    var s := xs[1..i + 1] + [xs[0]];
    assert s[..i] == xs[1..i + 1] && s[i..] == [xs[0]];
    assert xs[1..i + 2] == xs[1..i + 1] + [xs[i + 1]];
    assert [s][0 := xs[1..i + 2] + [xs[0]]] == [xs[1..i + 2] + [xs[0]]];
  }

  lemma SettledTwo<K>(max: int, dir: seq<KeyItem<K>>, s: seq<KeyItem<K>>)
    requires max >= 4 && |dir| == 1 && |s| == max + 1
    ensures SettledDir(max, dir, [s], 0) == [dir[0], KeyItem(2, s[Half(max)].key)]
    ensures SettledLists(max, [s], 0) == [s[..Half(max)], s[Half(max)..]]
  {
  }

  /** The last b splits the block. */
  lemma Splits<K>(xs: seq<KeyItem<K>>, k: Trap<K>, max: int)
    requires Losing(xs, k, max)
    ensures Outcome(max, After(xs, max, max - 1), xs[max], max - 1) == After(xs, max, max)
  {
    hide Inserted, SettledDir, SettledLists;
    OneMore(xs, k, max, max - 1);
    var s, h := xs[1..max + 1] + [xs[0]], Half(max);
    assert [xs[1..max] + [xs[0]]][0 := s] == [s];
    SettledTwo(max, [KeyItem(1, xs[0].key)], s);
    assert s[..h] == xs[1..h + 1] && s[h..] == xs[h + 1..max + 1] + [xs[0]] && s[h] == xs[h + 1];
  }

  /** c goes into the first block, although the second begins with b. */
  lemma PastTheSplit<K>(xs: seq<KeyItem<K>>, k: Trap<K>, max: int)
    requires Losing(xs, k, max)
    ensures Outcome(max, After(xs, max, max), xs[max + 1], Half(max)) == After(xs, max, max + 1)
  {
    var h := Half(max);
    var b, u := xs[1..h + 1], xs[h + 1..max + 1] + [xs[0]];
    assert b[..h] == b && b[h..] == [];
    assert Inserted(b, h, xs[max + 1]) == b + [xs[max + 1]];
    assert [b, u][0 := b + [xs[max + 1]]] == [b + [xs[max + 1]], u];
  }

  /** The place of a b or a c among b and z is after the b. */
  lemma LetterPlace<K(!new)>(cmp: Compare<K>, refresh: (K, K) -> K, k: Trap<K>, s: seq<KeyItem<K>>, x: KeyItem<K>,
    p: int)
    requires Traps(cmp, refresh, k) && 0 <= p <= |s| && x.key in {k.b, k.c}
    requires forall j :: 0 <= j < p ==> s[j].key == k.b
    requires forall j :: p <= j < |s| ==> s[j].key == k.z
    ensures PlaceOf(cmp, s, x, p)
  {
    hide Traps;
    forall j | 0 <= j < |s| ensures if j < p then cmp(s[j], x) <= 0 else cmp(x, s[j]) < 0 {
      TrapOrder(cmp, refresh, k, s[j], x);
      TrapOrder(cmp, refresh, k, x, s[j]);
    }
  }

  /** Where the next item of the run belongs in the first list. */
  function NextPlace(max: int, i: int): int
    requires max >= 4
  {
    if i == max then Half(max) else i
  }

  lemma KeysInRun<K>(xs: seq<KeyItem<K>>, k: Trap<K>, max: int, i: int)
    requires Losing(xs, k, max) && 0 <= i <= max
    ensures After(xs, max, i).dir[0].key == k.z
    ensures xs[i + 1].key == if i == max then k.c else k.b
    ensures var s := After(xs, max, i).lists[0]; var p := NextPlace(max, i);
      && 0 <= p <= |s| && (forall j :: 0 <= j < p ==> s[j].key == k.b)
      && forall j :: p <= j < |s| ==> s[j].key == k.z
  {
  }

  /** In these lists all is at most level with the item before its place, and above it from there on. */
  lemma PlaceInRun<K(!new)>(cmp: Compare<K>, refresh: (K, K) -> K, xs: seq<KeyItem<K>>, k: Trap<K>, max: int, i: int)
    requires Traps(cmp, refresh, k) && Losing(xs, k, max) && 0 <= i <= max
    ensures PlaceOf(cmp, After(xs, max, i).lists[0], xs[i + 1], NextPlace(max, i))
    ensures cmp(xs[i + 1], After(xs, max, i).dir[0]) < 0
    ensures refresh(After(xs, max, i).dir[0].key, xs[i + 1].key) == After(xs, max, i).dir[0].key
  {
    TrapLeaves(cmp, refresh, k);
    hide Traps, PlaceOf, After, NextPlace;
    KeysInRun(xs, k, max, i);
    TrapOrder(cmp, refresh, k, xs[i + 1], After(xs, max, i).dir[0]);
    LetterPlace(cmp, refresh, k, After(xs, max, i).lists[0], xs[i + 1], NextPlace(max, i));
  }

  lemma TrapLeaves<K(!new)>(cmp: Compare<K>, refresh: (K, K) -> K, k: Trap<K>)
    requires Traps(cmp, refresh, k)
    ensures refresh(k.z, k.b) == k.z && refresh(k.z, k.c) == k.z && TotalPreorder(cmp)
  {
  }

  /** After the first item of the run. */
  lemma FirstOutcome<K(!new)>(cmp: Compare<K>, refresh: (K, K) -> K, max: int, x: KeyItem<K>, t: State<K>)
    ensures Run(cmp, refresh, max, [x], t) <==> t == State([KeyItem(1, x.key)], [[x]])
  {
    assert Front([x]) == [] && Back([x]) == x;
    if t == State([KeyItem(1, x.key)], [[x]]) {
      var s: State<K> := State([], []);
      assert Run(cmp, refresh, max, [], s) && Added(cmp, refresh, max, s, x, t);
    }
  }

  lemma NextOutcome<K(!new)>(cmp: Compare<K>, refresh: (K, K) -> K, max: int, xs: seq<KeyItem<K>>, x: KeyItem<K>,
    s: State<K>, t: State<K>, u: State<K>)
    requires forall r :: Run(cmp, refresh, max, xs, r) <==> r == s
    requires Added(cmp, refresh, max, s, x, t) <==> t == u
    ensures Run(cmp, refresh, max, xs + [x], t) <==> t == u
  {
    hide Added;
    assert Front(xs + [x]) == xs && Back(xs + [x]) == x;
    assert Run(cmp, refresh, max, xs, s);
  }

  /** Every step of the run has exactly one outcome. */
  lemma {:induction false} RunIs<K(!new)>(cmp: Compare<K>, refresh: (K, K) -> K, xs: seq<KeyItem<K>>, k: Trap<K>,
    max: int, i: int, t: State<K>)
    requires Traps(cmp, refresh, k) && Losing(xs, k, max) && 0 <= i < |xs|
    ensures Run(cmp, refresh, max, xs[..i + 1], t) <==> t == After(xs, max, i)
    decreases i
  {
    hide Run, Traps, Added, Outcome;
    if i == 0 {
      FirstOutcome(cmp, refresh, max, xs[0], t);
      assert xs[..1] == [xs[0]] && xs[1..1] + [xs[0]] == [xs[0]];
    } else {
      forall r ensures Run(cmp, refresh, max, xs[..i], r) <==> r == After(xs, max, i - 1) {
        RunIs(cmp, refresh, xs, k, max, i - 1, r);
      }
      StepIs(cmp, refresh, xs, k, max, i - 1, t);
      NextOutcome(cmp, refresh, max, xs[..i], xs[i], After(xs, max, i - 1), t, After(xs, max, i));
      assert xs[..i] + [xs[i]] == xs[..i + 1];
    }
  }

  lemma StepOutcome<K>(xs: seq<KeyItem<K>>, k: Trap<K>, max: int, i: int)
    requires Losing(xs, k, max) && 0 <= i <= max
    requires 0 <= NextPlace(max, i) <= |After(xs, max, i).lists[0]|
    ensures Outcome(max, After(xs, max, i), xs[i + 1], NextPlace(max, i)) == After(xs, max, i + 1)
  {
    hide Outcome, After;
    if i == max {
      PastTheSplit(xs, k, max);
    } else if i == max - 1 {
      Splits(xs, k, max);
    } else {
      OneMore(xs, k, max, i);
    }
  }

  lemma StepIs<K(!new)>(cmp: Compare<K>, refresh: (K, K) -> K, xs: seq<KeyItem<K>>, k: Trap<K>, max: int, i: int,
    t: State<K>)
    requires Traps(cmp, refresh, k) && Losing(xs, k, max) && 0 <= i <= max
    ensures Added(cmp, refresh, max, After(xs, max, i), xs[i + 1], t) <==> t == After(xs, max, i + 1)
  {
    TrapLeaves(cmp, refresh, k);
    hide TotalPreorder, Traps, Added, Outcome, After, NextPlace;
    PlaceInRun(cmp, refresh, xs, k, max, i);
    StepOutcome(xs, k, max, i);
    OneOutcome(cmp, refresh, max, After(xs, max, i), xs[i + 1], NextPlace(max, i), t);
  }

  /** Read block after block, c comes before a b: after this run the items are out of order, in every outcome. */
  lemma OrderLost<K(!new)>(cmp: Compare<K>, refresh: (K, K) -> K, xs: seq<KeyItem<K>>, k: Trap<K>, max: int,
    t: State<K>)
    requires Traps(cmp, refresh, k) && Losing(xs, k, max)
    ensures Run(cmp, refresh, max, xs, t) <==> t == After(xs, max, max + 1)
    ensures Run(cmp, refresh, max, xs, t) ==> !Sorted(cmp, Flatten(t.lists))
  {
    hide Run, Traps;
    RunIs(cmp, refresh, xs, k, max, max + 1, t);
    assert xs[..max + 2] == xs;
    if t == After(xs, max, max + 1) {
      NotSorted(cmp, refresh, xs, k, max, t);
    }
  }

  lemma NotSorted<K(!new)>(cmp: Compare<K>, refresh: (K, K) -> K, xs: seq<KeyItem<K>>, k: Trap<K>, max: int,
    t: State<K>)
    requires Traps(cmp, refresh, k) && Losing(xs, k, max) && t == After(xs, max, max + 1)
    ensures !Sorted(cmp, Flatten(t.lists))
  {
    hide Traps, Flatten;
    var h := Half(max);
    TwoLists(t.lists[0], t.lists[1]);
    assert t.lists == [t.lists[0], t.lists[1]];
    var out := Flatten(t.lists);
    assert out[h] == xs[max + 1] && out[h + 1] == xs[h + 1];
    TrapOrder(cmp, refresh, k, out[h + 1], out[h]);
  }

  lemma TwoLists<T>(a: seq<T>, b: seq<T>)
    ensures Flatten([a, b]) == a + b
  {
    FlattenSnoc([a], b);
    FlattenSnoc([], a);
    assert [a] + [b] == [a, b] && [] + [a] == [a];
  }
}
