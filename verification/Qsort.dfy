/** bqsort: quicksort with an explicit stack down to small ranges, then one insertion sort over everything. */
module Qsort {
  import opened Arith
  import opened Order
  import opened Partition

  const MAX_THRESH := 12
  /** Eight slots a byte of a four-byte long; with eight-byte longs there is only more room. */
  const STACK_SIZE := 32

  datatype StackNode = StackNode(lo: int, hi: int)

  function Size(r: StackNode): int { r.hi - r.lo + 1 }

  /**
   What every pending range satisfies once the first `cut` elements are known to be at most all the
   others: it lies to the right of them, or it is exactly them.
   */
  ghost predicate Pending(r: StackNode, n: int, cut: int) {
    && 0 <= r.lo && r.hi < n && r.lo + MAX_THRESH <= r.hi
    && (r.lo >= cut || (r.lo == 0 && r.hi + 1 == cut))
  }

  /** The first cut elements are at most all the others. */
  ghost predicate CutAt<T>(cmp: (T, T) -> int, s: seq<T>, cut: int)
  {
    1 <= cut <= |s| && forall i, j :: 0 <= i < cut <= j < |s| ==> cmp(s[i], s[j]) <= 0
  }

  /** The k-th range from the bottom is so small that 2^k of its size still fit in n. */
  ghost predicate Halving(r: StackNode, k: nat, n: int) {
    Pow(2, k) * Size(r) <= n
  }

  /** The ranges still to be partitioned, bottom first, the current one last. */
  ghost predicate Plan(todo: seq<StackNode>, n: int, cut: int)
  {
    && (forall k :: 0 <= k < |todo| ==> Pending(todo[k], n, cut))
    && (forall k :: 0 <= k < |todo| ==> Halving(todo[k], k, n))
    && (cut <= MAX_THRESH + 1 || exists k :: 0 <= k < |todo| && todo[k] == StackNode(0, cut - 1))
    && OneFirst(todo)
  }

  /** At most one pending range starts at the first element. */
  ghost predicate OneFirst(todo: seq<StackNode>) {
    forall j, k :: 0 <= j < k < |todo| ==> todo[j].lo != 0 || todo[k].lo != 0
  }

  /** Work left: every partition step makes it smaller. */
  function Work(todo: seq<StackNode>): int {
    if todo == [] then 0 else Work(todo[..|todo| - 1]) + 2 * Size(todo[|todo| - 1]) - 1
  }

  lemma WorkSnoc(todo: seq<StackNode>, r: StackNode)
    ensures Work(todo + [r]) == Work(todo) + 2 * Size(r) - 1
  {
    assert (todo + [r])[..|todo|] == todo;
  }

  lemma {:induction false} WorkNonneg(todo: seq<StackNode>, n: int, cut: int)
    requires forall k :: 0 <= k < |todo| ==> Pending(todo[k], n, cut)
    ensures Work(todo) >= 0
  {
    if todo != [] {
      WorkNonneg(todo[..|todo| - 1], n, cut);
    }
  }

  /** Which ranges replace the current one: the smaller part on top, small parts dropped. */
  function Replace(lo: int, hi: int, left: int, right: int): (r: seq<StackNode>)
  {
    if right - lo <= MAX_THRESH then
      if hi - left <= MAX_THRESH then [] else [StackNode(left, hi)]
    else if hi - left <= MAX_THRESH then [StackNode(lo, right)]
    else if right - lo > hi - left then [StackNode(lo, right), StackNode(left, hi)]
    else [StackNode(left, hi), StackNode(lo, right)]
  }

  /** A range as small as 2^k-th of n can only be that deep. */
  lemma DepthBound(r: StackNode, k: nat, n: int)
    requires Halving(r, k, n) && Size(r) > MAX_THRESH && n < 0x8000_0000
    ensures k < 28
  {
    if k >= 28 {
      AtLeastTwoTo28(k);
      MulMono(0x1000_0000, Pow(2, k), 13, Size(r));
      assert false;
    }
  }

  lemma AtLeastTwoTo28(k: nat)
    requires k >= 28
    ensures Pow(2, k) >= 0x1000_0000
  {
    assert Pow(2, 7) == 128;
    PowAdd(2, 7, 7);
    PowAdd(2, 14, 14);
    PowAdd(2, 28, k - 28);
    PowPositive(2, k - 28);
    MulMono(0x1000_0000, 0x1000_0000, 1, Pow(2, k - 28));
  }

  /** The smaller of two parts is at most half. */
  lemma HalvingDeeper(r: StackNode, small: StackNode, large: StackNode, k: nat, n: int)
    requires Halving(r, k, n) && 0 <= Size(small) <= Size(large) && Size(small) + Size(large) <= Size(r)
    ensures Halving(large, k, n) && Halving(small, k + 1, n)
  {
    PowPositive(2, k);
    MulMono(Pow(2, k), Pow(2, k), Size(large), Size(r));
    MulMono(Pow(2, k), Pow(2, k), 2 * Size(small), Size(r));
    MulAssoc(Pow(2, k), 2, Size(small));
  }

  lemma HalvingPart(r: StackNode, part: StackNode, k: nat, n: int)
    requires Halving(r, k, n) && 0 <= Size(part) <= Size(r)
    ensures Halving(part, k, n)
  {
    PowPositive(2, k);
    MulMono(Pow(2, k), Pow(2, k), Size(part), Size(r));
  }

  /** How the cut moves when the range r is parted. */
  function NextCut(r: StackNode, right: int, cut: int): int {
    if r.lo == 0 && r.hi + 1 == cut then right + 1 else cut
  }

  /** Partitioning the current range: the rest of the plan stays, its parts replace it. */
  lemma PlanStep(rest: seq<StackNode>, r: StackNode, n: int, cut: int, left: int, right: int)
    requires Plan(rest + [r], n, cut) && r.lo <= right < left <= r.hi && left <= right + 2 && cut >= 1
    ensures Plan(rest + Replace(r.lo, r.hi, left, right), n, NextCut(r, right, cut))
    ensures 0 <= Work(rest + Replace(r.lo, r.hi, left, right)) < Work(rest + [r])
  {
    var parts, cut' := Replace(r.lo, r.hi, left, right), NextCut(r, right, cut);
    var todo := rest + parts;
    assert (rest + [r])[|rest|] == r;
    assert forall k :: 0 <= k < |rest| ==> (rest + [r])[k] == rest[k];
    PartsPending(rest, r, n, cut, left, right);
    PartsHalving(rest, r, n, cut, left, right);
    PartsCut(rest, r, n, cut, left, right);
    PartsFirst(rest, r, left, right);
    WorkNonneg(todo, n, cut');
    WorkSnoc(rest, r);
    if |parts| == 1 {
      WorkSnoc(rest, parts[0]);
    } else if |parts| == 2 {
      WorkSnoc(rest, parts[0]);
      WorkSnoc(rest + [parts[0]], parts[1]);
      assert todo == rest + [parts[0]] + [parts[1]];
    } else {
      assert todo == rest;
    }
  }

  lemma PartsFirst(rest: seq<StackNode>, r: StackNode, left: int, right: int)
    requires OneFirst(rest + [r]) && 0 <= r.lo <= right < left
    ensures OneFirst(rest + Replace(r.lo, r.hi, left, right))
  {
    var todo := rest + Replace(r.lo, r.hi, left, right);
    forall j, k | 0 <= j < k < |todo| ensures todo[j].lo != 0 || todo[k].lo != 0 {
      if j < |rest| {
        assert (rest + [r])[j] == rest[j] && (rest + [r])[|rest|] == r;
        if k < |rest| {
          assert (rest + [r])[k] == rest[k];
        }
      }
    }
  }

  lemma PartsPending(rest: seq<StackNode>, r: StackNode, n: int, cut: int, left: int, right: int)
    requires Plan(rest + [r], n, cut) && r.lo <= right < left <= r.hi && cut >= 1
    ensures var todo := rest + Replace(r.lo, r.hi, left, right);
      forall k :: 0 <= k < |todo| ==> Pending(todo[k], n, NextCut(r, right, cut))
  {
    var todo, cut' := rest + Replace(r.lo, r.hi, left, right), NextCut(r, right, cut);
    assert (rest + [r])[|rest|] == r && Pending(r, n, cut);
    forall k | 0 <= k < |todo| ensures Pending(todo[k], n, cut') {
      if k < |rest| {
        assert (rest + [r])[k] == rest[k] && Pending(rest[k], n, cut);
      }
    }
  }

  lemma PartsHalving(rest: seq<StackNode>, r: StackNode, n: int, cut: int, left: int, right: int)
    requires Plan(rest + [r], n, cut) && r.lo <= right < left <= r.hi
    ensures var todo := rest + Replace(r.lo, r.hi, left, right);
      forall k :: 0 <= k < |todo| ==> Halving(todo[k], k, n)
  {
    hide Halving;
    var todo := rest + Replace(r.lo, r.hi, left, right);
    var a, b := StackNode(r.lo, right), StackNode(left, r.hi);
    assert Halving((rest + [r])[|rest|], |rest|, n);
    HalvingPart(r, a, |rest|, n);
    HalvingPart(r, b, |rest|, n);
    if Size(a) > Size(b) {
      HalvingDeeper(r, b, a, |rest|, n);
    } else {
      HalvingDeeper(r, a, b, |rest|, n);
    }
    forall k | 0 <= k < |todo| ensures Halving(todo[k], k, n) {
      if k < |rest| {
        assert Halving((rest + [r])[k], k, n);
      }
    }
  }

  lemma PartsCut(rest: seq<StackNode>, r: StackNode, n: int, cut: int, left: int, right: int)
    requires Plan(rest + [r], n, cut) && r.lo <= right < left <= r.hi
    ensures var todo, cut' := rest + Replace(r.lo, r.hi, left, right), NextCut(r, right, cut);
      cut' <= MAX_THRESH + 1 || exists k :: 0 <= k < |todo| && todo[k] == StackNode(0, cut' - 1)
  {
    var parts, cut' := Replace(r.lo, r.hi, left, right), NextCut(r, right, cut);
    var todo := rest + parts;
    if r == StackNode(0, cut - 1) {
      if cut' > MAX_THRESH + 1 {
        var i := if parts[0] == StackNode(0, right) then 0 else 1;
        assert todo[|rest| + i] == StackNode(0, cut' - 1);
      }
    } else if cut > MAX_THRESH + 1 {
      var k :| 0 <= k < |rest + [r]| && (rest + [r])[k] == StackNode(0, cut - 1);
      assert todo[k] == StackNode(0, cut' - 1);
    }
  }

  /** Parting a pending range moves the cut with it. */
  lemma CutStep<T(!new)>(cmp: (T, T) -> int, s: seq<T>, t: seq<T>, r: StackNode, left: int, right: int, cut: int)
    requires TotalPreorder(cmp) && CutAt(cmp, s, cut) && Pending(r, |s|, cut)
    requires Rearranged(s, t, r.lo, r.hi + 1) && Parted(cmp, t, r.lo, r.hi, left, right)
    ensures CutAt(cmp, t, NextCut(r, right, cut))
  {
    hide TotalPreorder;
    var cut' := NextCut(r, right, cut);
    forall i, j | 0 <= i < cut' <= j < |t| ensures cmp(t[i], t[j]) <= 0 {
      var i' := Origin(s, t, r.lo, r.hi + 1, i);
      var j' := Origin(s, t, r.lo, r.hi + 1, j);
      if cut' == cut || j > r.hi {
        assert i' < cut <= j';
      }
    }
  }

  /** Where the element at k was before the stretch was rearranged. */
  lemma Origin<T>(s: seq<T>, t: seq<T>, lo: int, hi: int, k: int) returns (j: int)
    requires Rearranged(s, t, lo, hi) && 0 <= k < |t|
    ensures 0 <= j < |s| && t[k] == s[j]
    ensures if lo <= k < hi then lo <= j < hi else j == k
  {
    if lo <= k < hi {
      j := ComesFrom(s, t, lo, hi, k);
    } else {
      j := k;
      assert k < lo ==> t[k] == t[..lo][k] && s[k] == s[..lo][k];
      assert k >= hi ==> t[k] == t[hi..][k - hi] && s[k] == s[hi..][k - hi];
    }
  }

  /** The pending ranges the stack and the current bounds stand for; slot 0 is never one of them. */
  ghost function Todo(stack: seq<StackNode>, top: int, lo: int, hi: int): seq<StackNode>
    requires top <= |stack|
  {
    if top <= 0 then [] else stack[1..top] + [StackNode(lo, hi)]
  }

  /** Choose the next range: drop small parts, push the larger of two, pop when both are small. */
  method Advance(stack: array<StackNode>, top: int, lo: int, hi: int, left: int, right: int)
    returns (top': int, lo': int, hi': int)
    requires 1 <= top < stack.Length
    modifies stack
    ensures 0 <= top' <= stack.Length
    ensures Todo(stack[..], top', lo', hi') == old(stack[1..top]) + Replace(lo, hi, left, right)
  {
    top', lo', hi' := top, lo, hi;
    if right - lo <= MAX_THRESH {
      if hi - left <= MAX_THRESH {
        top' := top - 1;
        lo', hi' := stack[top'].lo, stack[top'].hi;
      } else {
        lo' := left;
      }
    } else if hi - left <= MAX_THRESH {
      hi' := right;
    } else if right - lo > hi - left {
      stack[top] := StackNode(lo, right);
      top' := top + 1;
      lo' := left;
    } else {
      stack[top] := StackNode(left, hi);
      top' := top + 1;
      hi' := right;
    }
  }

  /** The partition phase: afterwards some elements at the front, at most MAX_THRESH + 1, are at most all others. */
  method PartitionPhase<T(!new)>(a: array<T>, cmp: (T, T) -> int) returns (ghost cut: int)
    requires TotalPreorder(cmp) && MAX_THRESH < a.Length < 0x8000_0000
    modifies a
    ensures multiset(a[..]) == multiset(old(a[..]))
    ensures CutAt(cmp, a[..], cut) && cut <= MAX_THRESH + 1
  {
    hide TotalPreorder, Plan, Work, Replace, CutAt, Rearranged, Parted, NextCut;
    var lo, hi := 0, a.Length - 1;
    var stack := new StackNode[STACK_SIZE];
    var top := 1;
    cut := a.Length;
    ghost var todo := Todo(stack[..], top, lo, hi);
    assert todo == [StackNode(0, a.Length - 1)];
    PlanStart(cmp, a[..]);
    while 0 < top
      invariant 0 <= top < STACK_SIZE && todo == Todo(stack[..], top, lo, hi)
      invariant Plan(todo, a.Length, cut) && CutAt(cmp, a[..], cut) && Work(todo) >= 0
      invariant multiset(a[..]) == multiset(old(a[..]))
      decreases Work(todo)
    {
      ghost var s, rest, r := a[..], stack[1..top], StackNode(lo, hi);
      CurrentPending(rest, r, a.Length, cut);
      var left, right := PartitionRange(a, lo, hi, cmp);
      RearrangedIsPermutation(s, a[..], lo, hi + 1);
      PartedBounds(cmp, a[..], lo, hi, left, right);
      CutStep(cmp, s, a[..], r, left, right, cut);
      CutBounds(cmp, s, cut);
      PlanStep(rest, r, a.Length, cut, left, right);
      top, lo, hi := Advance(stack, top, lo, hi, left, right);
      cut := NextCut(r, right, cut);
      todo := Todo(stack[..], top, lo, hi);
      PlanDepth(todo, a.Length, cut);
    }
    PlanDone(a.Length, cut);
  }

  lemma PlanStart<T>(cmp: (T, T) -> int, s: seq<T>)
    requires |s| > MAX_THRESH
    ensures Plan([StackNode(0, |s| - 1)], |s|, |s|) && CutAt(cmp, s, |s|) && Work([StackNode(0, |s| - 1)]) >= 0
  {
    var todo := [StackNode(0, |s| - 1)];
    assert todo[0] == StackNode(0, |s| - 1);
    assert Pow(2, 0) == 1;
    WorkNonneg(todo, |s|, |s|);
  }

  lemma PlanDone(n: int, cut: int)
    requires Plan([], n, cut)
    ensures cut <= MAX_THRESH + 1
  {
  }

  /** The stack never overflows: no plan holds more than 28 ranges. */
  lemma PlanDepth(todo: seq<StackNode>, n: int, cut: int)
    requires Plan(todo, n, cut) && n < 0x8000_0000
    ensures |todo| <= 28
  {
    if todo != [] {
      var k := |todo| - 1;
      assert Pending(todo[k], n, cut) && Halving(todo[k], k, n);
      DepthBound(todo[k], k, n);
    }
  }

  lemma CurrentPending(rest: seq<StackNode>, r: StackNode, n: int, cut: int)
    requires Plan(rest + [r], n, cut)
    ensures Pending(r, n, cut)
  {
    assert (rest + [r])[|rest|] == r;
  }

  lemma PartedBounds<T>(cmp: (T, T) -> int, s: seq<T>, lo: int, hi: int, left: int, right: int)
    requires Parted(cmp, s, lo, hi, left, right)
    ensures lo <= right < left <= hi && left <= right + 2
  {
  }

  lemma CutBounds<T>(cmp: (T, T) -> int, s: seq<T>, cut: int)
    requires CutAt(cmp, s, cut)
    ensures 1 <= cut <= |s|
  {
  }
}
