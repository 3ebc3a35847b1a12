/**
 * The two list shufflers of list_shuffler.py: the in-place Fisher–Yates
 * shuffle and the slot-placement shuffle that builds a new list.
 */
module ListShuffler {
  import opened Wrappers
  import opened Draws

  // ---------------------------------------------------------------------
  // fisher_yates_shuffle
  // ---------------------------------------------------------------------

  /** `s` with the elements at `i` and `j` exchanged, as `a[i], a[j] = a[j], a[i]` does. */
  function Swap<T>(s: seq<T>, i: int, j: int): (r: seq<T>)
    requires 0 <= i < |s| && 0 <= j < |s|
    ensures |r| == |s|
  {
    s[i := s[j]][j := s[i]]
  }

  /**
   * The list after the first `|d|` iterations of the Fisher–Yates loop,
   * iteration `k` swapping position `|s| - 1 - k` with the draw `d[k]`.
   */
  function Shuffled<T>(s: seq<T>, d: seq<int>): (r: seq<T>)
    requires DescendingPrefix(|s|, d)
    ensures |r| == |s|
    decreases |d|
  {
    if d == [] then s
    else
      var k := |d| - 1;
      Swap(Shuffled(s, d[..k]), |s| - 1 - k, d[k])
  }

  /** Fisher–Yates only reorders: the result is a permutation of the input. */
  lemma {:induction false} ShuffledIsPermutation<T>(s: seq<T>, d: seq<int>)
    requires DescendingPrefix(|s|, d)
    ensures multiset(Shuffled(s, d)) == multiset(s)
    decreases |d|
  {
    if d != [] {
      ShuffledIsPermutation(s, d[..|d| - 1]);
    }
  }

  /** Any prefix of valid draws is itself a valid prefix. */
  lemma PrefixOfDescending(n: int, d: seq<int>, j: nat)
    requires DescendingPrefix(n, d) && j <= |d|
    ensures DescendingPrefix(n, d[..j])
  {
  }

  /** The last iteration so far leaves every position after its own alone. */
  lemma {:induction false} ShuffledLastStepKeeps<T>(s: seq<T>, d: seq<int>, p: int)
    requires DescendingPrefix(|s|, d) && d != []
    requires |s| - |d| < p < |s|
    ensures Shuffled(s, d)[p] == Shuffled(s, d[..|d| - 1])[p]
  {
    PrefixOfDescending(|s|, d, |d| - 1);
  }

  /**
   * Once iteration `k` has finished (it handled position `|s| - 1 - k`), the
   * positions from `|s| - 1 - k` to the end are never written again.
   */
  lemma {:induction false} ShuffledSettlesSuffix<T>(s: seq<T>, d: seq<int>, k: nat, p: int)
    requires DescendingPrefix(|s|, d)
    requires k < |d| && |s| - 1 - k <= p < |s|
    ensures Shuffled(s, d)[p] == Shuffled(s, d[..k + 1])[p]
    decreases |d|
  {
    PrefixOfDescending(|s|, d, k + 1);
    if k + 1 < |d| {
      var m := |d| - 1;
      PrefixOfDescending(|s|, d, m);
      ShuffledLastStepKeeps(s, d, p);
      assert d[..m][..k + 1] == d[..k + 1];
      ShuffledSettlesSuffix(s, d[..m], k, p);
    } else {
      assert d[..k + 1] == d;
    }
  }

  /** One more iteration of the loop is one more swap. */
  lemma {:induction false} ShuffledStep<T>(s: seq<T>, d: seq<int>, k: nat)
    requires Descending(|s|, d) && k < |d|
    ensures DescendingPrefix(|s|, d[..k]) && DescendingPrefix(|s|, d[..k + 1])
    ensures Shuffled(s, d[..k + 1]) == Swap(Shuffled(s, d[..k]), |s| - 1 - k, d[k])
  {
    PrefixOfDescending(|s|, d, k);
    PrefixOfDescending(|s|, d, k + 1);
    var e := d[..k + 1];
    assert |e| - 1 == k && e[..k] == d[..k] && e[k] == d[k];
    assert Shuffled(s, e) == Swap(Shuffled(s, e[..k]), |s| - 1 - k, e[k]);
  }

  /**
   * fisher_yates_shuffle: swaps `arr[i]` with `arr[j]`, `j` drawn from
   * `[0, i]`, for `i` from `len(arr) - 1` down to 1, and returns the array
   * it was given. `draws[k]` is the draw of the `k`-th iteration.
   */
  method FisherYatesShuffle<T>(arr: array<T>, draws: seq<int>) returns (r: array<T>)
    requires Descending(arr.Length, draws)
    modifies arr
    ensures r == arr
    ensures arr[..] == Shuffled(old(arr[..]), draws)
    ensures multiset(arr[..]) == multiset(old(arr[..]))
    ensures arr.Length <= 1 ==> arr[..] == old(arr[..])
  {
    ghost var input := arr[..];
    var n := arr.Length;
    var i := n - 1;
    assert draws[..0] == [];
    while i > 0
      invariant n == 0 ==> i == -1
      invariant n > 0 ==> 0 <= i < n
      invariant arr[..] == Shuffled(input, draws[..n - 1 - i])
    {
      var j := draws[n - 1 - i];
      ghost var before := arr[..];
      ShuffledStep(input, draws, n - 1 - i);
      arr[i], arr[j] := arr[j], arr[i];
      assert arr[..] == Swap(before, i, j);
      i := i - 1;
    }
    assert draws[..n - 1 - i] == draws;
    ShuffledIsPermutation(input, draws);
    r := arr;
  }

  // ---------------------------------------------------------------------
  // shuffle_list
  // ---------------------------------------------------------------------

  /** `len_arg` empty slots, as `[None for i in range(len_arg)]` builds. */
  function Empty<T>(n: nat): (r: seq<Option<T>>)
    ensures |r| == n
  {
    seq(n, _ => None)
  }

  /**
   * The slot the fallback loop stops at: the lowest index whose entry is
   * `None`, or `None` when the loop ends without a `break`.
   */
  function FirstFree<T>(s: seq<Option<T>>): (r: Option<nat>)
    ensures r.Some? ==> r.value < |s| && s[r.value].None?
    ensures r.Some? ==> forall q :: 0 <= q < r.value ==> s[q].Some?
    ensures r.None? ==> forall q :: 0 <= q < |s| ==> s[q].Some?
  {
    if s == [] then None
    else if s[0].None? then Some(0)
    else match FirstFree(s[1..])
      case None => None
      case Some(q) => Some(q + 1)
  }

  /** The two lists `shuffle_list` builds: `new_list` and `numbers_used`. */
  datatype Placement<T> = Placement(slots: seq<Option<T>>, used: seq<int>)

  /**
   * One iteration of the outer loop: `elem` goes to the drawn slot `pos`
   * unless `pos` was drawn or filled before, in which case it goes to the
   * first empty slot (and is dropped if there is none).
   */
  function Place<T>(st: Placement<T>, elem: Option<T>, pos: int): (r: Placement<T>)
    requires 0 <= pos < |st.slots|
    ensures |r.slots| == |st.slots|
  {
    if pos in st.used then
      match FirstFree(st.slots)
      case Some(q) => Placement(st.slots[q := elem], st.used + [q])
      case None => st
    else Placement(st.slots[pos := elem], st.used + [pos])
  }

  /**
   * One outer iteration either writes `elem` into exactly one slot and
   * appends that slot to `numbers_used` (the drawn slot when it was not
   * used before), or, only when a collision finds every slot filled,
   * changes nothing.
   */
  lemma PlaceWritesOneSlot<T>(st: Placement<T>, elem: Option<T>, pos: int) returns (q: int)
    requires 0 <= pos < |st.slots|
    ensures Place(st, elem, pos) == st || (
      && 0 <= q < |st.slots|
      && Place(st, elem, pos) == Placement(st.slots[q := elem], st.used + [q]))
    ensures Place(st, elem, pos) == st ==> pos in st.used && FirstFree(st.slots).None?
    ensures pos !in st.used ==> q == pos
  {
    if pos !in st.used {
      q := pos;
      assert Place(st, elem, pos) != st by {
        assert |Place(st, elem, pos).used| != |st.used|;
      }
    } else if FirstFree(st.slots).Some? {
      q := FirstFree(st.slots).value;
      assert |Place(st, elem, pos).used| != |st.used|;
    } else {
      q := pos;
    }
  }

  /**
   * The two lists once the elements `elems` have been placed into `n`
   * slots, `elems[k]` with the draw `d[k]`.
   */
  function Placed<T>(n: nat, elems: seq<Option<T>>, d: seq<int>): (r: Placement<T>)
    requires Slots(n, |elems|, d)
    ensures |r.slots| == n
    decreases |elems|
  {
    if elems == [] then Placement(Empty(n), [])
    else
      var k := |elems| - 1;
      Place(Placed(n, elems[..k], d[..k]), elems[k], d[k])
  }

  /** Every recorded index is one of the `n` slots. */
  ghost predicate InSlots(n: nat, used: seq<int>) {
    forall k :: 0 <= k < |used| ==> 0 <= used[k] < n
  }

  /** Every filled slot is recorded in `numbers_used`. */
  ghost predicate Recorded<T>(slots: seq<Option<T>>, used: seq<int>) {
    forall q :: 0 <= q < |slots| && slots[q].Some? ==> q in used
  }

  /** The slots hold exactly the placed elements plus one `None` per slot still owed. */
  ghost predicate Counted<T>(n: nat, slots: seq<Option<T>>, placed: seq<Option<T>>)
    requires |placed| <= n
  {
    multiset(slots) == multiset(placed) + multiset(Empty<T>(n - |placed|))
  }

  /** What holds after the elements `placed` have gone into `n` slots. */
  ghost predicate Consistent<T>(n: nat, st: Placement<T>, placed: seq<Option<T>>) {
    && |st.slots| == n
    && |placed| <= n
    && InSlots(n, st.used)
    && Recorded(st.slots, st.used)
    && Counted(n, st.slots, placed)
  }

  /** `numbers_used` holds no index twice. */
  ghost predicate Distinct(used: seq<int>) {
    forall a, b :: 0 <= a < b < |used| ==> used[a] != used[b]
  }

  /** `numbers_used` records only filled slots. */
  ghost predicate OnlyFilled<T>(slots: seq<Option<T>>, used: seq<int>) {
    forall k :: 0 <= k < |used| ==> 0 <= used[k] < |slots| && slots[used[k]].Some?
  }

  /**
   * `numbers_used` lists exactly the filled slots, each once. This is kept
   * while only non-`None` elements are placed.
   */
  ghost predicate Exact<T>(st: Placement<T>) {
    Distinct(st.used) && OnlyFilled(st.slots, st.used) && Recorded(st.slots, st.used)
  }

  /** No element of `s` is `None`. */
  predicate AllPresent<T>(s: seq<Option<T>>) {
    forall q :: 0 <= q < |s| ==> s[q].Some?
  }

  lemma EmptyShrinks<T>(m: nat)
    requires m > 0
    ensures multiset(Empty<T>(m)) == multiset(Empty<T>(m - 1)) + multiset{None}
  {
    assert Empty<T>(m) == Empty<T>(m - 1) + [None];
  }

  /** While a slot is still owed, some slot is empty, so the fallback loop breaks. */
  lemma FallbackFindsSlot<T>(n: nat, st: Placement<T>, placed: seq<Option<T>>)
    requires Consistent(n, st, placed) && |placed| < n
    ensures FirstFree(st.slots).Some?
  {
    EmptyShrinks<T>(n - |placed|);
    assert None in multiset(st.slots);
    var q :| 0 <= q < |st.slots| && st.slots[q] == None;
  }

  /**
   * One outer iteration writes `elem` to a single empty slot and records
   * that slot: the drawn one if it is new, else the first empty one.
   */
  lemma PlaceFillsEmptySlot<T>(n: nat, st: Placement<T>, placed: seq<Option<T>>, elem: Option<T>, pos: int)
    returns (slot: nat)
    requires Consistent(n, st, placed) && |placed| < n && 0 <= pos < n
    ensures slot < n && st.slots[slot].None?
    ensures pos !in st.used ==> slot == pos
    ensures pos in st.used ==> FirstFree(st.slots) == Some(slot)
    ensures Place(st, elem, pos) == Placement(st.slots[slot := elem], st.used + [slot])
  {
    if pos in st.used {
      FallbackFindsSlot(n, st, placed);
      slot := FirstFree(st.slots).value;
    } else {
      slot := pos;
    }
  }

  /** Filling an empty slot trades one owed `None` for the placed element. */
  lemma FillKeepsCounted<T>(n: nat, slots: seq<Option<T>>, placed: seq<Option<T>>, elem: Option<T>, slot: nat)
    requires |placed| < n && slot < |slots| && slots[slot].None?
    requires Counted(n, slots, placed)
    ensures Counted(n, slots[slot := elem], placed + [elem])
  {
    var m := n - |placed|;
    EmptyShrinks<T>(m);
    assert multiset(placed + [elem]) == multiset(placed) + multiset{elem};
    calc {
      multiset(slots[slot := elem]);
      multiset(slots) - multiset{None} + multiset{elem};
      multiset(placed) + multiset(Empty<T>(m - 1)) + multiset{elem};
      multiset(placed + [elem]) + multiset(Empty<T>(m - 1));
    }
  }

  /** Filling a slot and recording it keeps every filled slot recorded. */
  lemma FillKeepsRecorded<T>(slots: seq<Option<T>>, used: seq<int>, elem: Option<T>, slot: nat)
    requires slot < |slots| && Recorded(slots, used)
    ensures Recorded(slots[slot := elem], used + [slot])
  {
    var r := slots[slot := elem];
    forall q | 0 <= q < |r| && r[q].Some? ensures q in used + [slot] {
      if q != slot {
        assert q in used;
      } else {
        assert (used + [slot])[|used|] == slot;
      }
    }
  }

  /** Placing a present element into an empty slot keeps `numbers_used` exact. */
  lemma FillKeepsExact<T>(st: Placement<T>, elem: Option<T>, slot: nat)
    requires slot < |st.slots| && st.slots[slot].None? && elem.Some?
    requires Exact(st)
    ensures Exact(Placement(st.slots[slot := elem], st.used + [slot]))
  {
    var used := st.used + [slot];
    FillKeepsRecorded(st.slots, st.used, elem, slot);
    assert slot !in st.used;
    forall a, b | 0 <= a < b < |used| ensures used[a] != used[b] {
      if b == |st.used| {
        assert used[a] in st.used;
      } else {
        assert used[a] == st.used[a] && used[b] == st.used[b];
      }
    }
    forall k | 0 <= k < |used| ensures 0 <= used[k] < |st.slots| && st.slots[slot := elem][used[k]].Some? {
      if k < |st.used| {
        assert used[k] == st.used[k];
      }
    }
  }

  /**
   * One outer iteration never overwrites a filled slot: while fewer than
   * `n` elements have been placed, a collision always finds an empty slot
   * and a fresh draw always names an empty one.
   */
  lemma PlaceNeverOverwrites<T>(n: nat, st: Placement<T>, placed: seq<Option<T>>, elem: Option<T>, pos: int)
    requires Consistent(n, st, placed) && |placed| < n && 0 <= pos < n
    ensures pos in st.used ==> FirstFree(st.slots).Some?
    ensures pos !in st.used ==> st.slots[pos].None?
    ensures forall q :: 0 <= q < n && st.slots[q].Some? ==> Place(st, elem, pos).slots[q] == st.slots[q]
  {
    var slot := PlaceFillsEmptySlot(n, st, placed, elem, pos);
  }

  /**
   * On a collision the element lands in the lowest-indexed empty slot, and
   * that slot is the one recorded in `numbers_used`.
   */
  lemma CollisionTakesLowestFree<T>(n: nat, st: Placement<T>, placed: seq<Option<T>>, elem: Option<T>, pos: int)
    returns (q: nat)
    requires Consistent(n, st, placed) && |placed| < n && 0 <= pos < n && pos in st.used
    ensures q < n && st.slots[q].None?
    ensures forall p :: 0 <= p < q ==> st.slots[p].Some?
    ensures Place(st, elem, pos) == Placement(st.slots[q := elem], st.used + [q])
  {
    PlaceNeverOverwrites(n, st, placed, elem, pos);
    q := FirstFree(st.slots).value;
  }

  /** One outer iteration keeps `Consistent` and records exactly one index. */
  lemma PlaceKeepsConsistent<T>(n: nat, st: Placement<T>, placed: seq<Option<T>>, elem: Option<T>, pos: int)
    requires Consistent(n, st, placed) && |placed| < n && 0 <= pos < n
    ensures |Place(st, elem, pos).used| == |st.used| + 1
    ensures Consistent(n, Place(st, elem, pos), placed + [elem])
  {
    var slot := PlaceFillsEmptySlot(n, st, placed, elem, pos);
    FillKeepsCounted(n, st.slots, placed, elem, slot);
    FillKeepsRecorded(st.slots, st.used, elem, slot);
    forall x | 0 <= x < |st.used| + 1 ensures 0 <= (st.used + [slot])[x] < n {
      if x < |st.used| {
        assert (st.used + [slot])[x] == st.used[x];
      }
    }
  }

  /** Placing an element that is not `None` keeps `numbers_used` exact. */
  lemma PlaceKeepsExact<T>(n: nat, st: Placement<T>, placed: seq<Option<T>>, elem: Option<T>, pos: int)
    requires Consistent(n, st, placed) && |placed| < n && 0 <= pos < n
    requires Exact(st) && elem.Some?
    ensures Exact(Place(st, elem, pos))
  {
    var slot := PlaceFillsEmptySlot(n, st, placed, elem, pos);
    FillKeepsExact(st, elem, slot);
  }

  /** Placing a whole list keeps `Consistent`, recording one index per element. */
  lemma {:induction false} PlacedIsConsistent<T>(n: nat, elems: seq<Option<T>>, d: seq<int>)
    requires Slots(n, |elems|, d) && |elems| <= n
    ensures Consistent(n, Placed(n, elems, d), elems)
    ensures |Placed(n, elems, d).used| == |elems|
    decreases |elems|
  {
    if elems == [] {
      assert multiset(Empty<T>(n)) == multiset([]) + multiset(Empty<T>(n - 0));
    } else {
      var k := |elems| - 1;
      PlacedIsConsistent(n, elems[..k], d[..k]);
      PlaceKeepsConsistent(n, Placed(n, elems[..k], d[..k]), elems[..k], elems[k], d[k]);
      assert elems[..k] + [elems[k]] == elems;
    }
  }

  /** Placing a list with no `None` in it keeps `numbers_used` exact. */
  lemma {:induction false} PlacedIsExact<T>(n: nat, elems: seq<Option<T>>, d: seq<int>)
    requires Slots(n, |elems|, d) && |elems| <= n && AllPresent(elems)
    ensures Exact(Placed(n, elems, d))
    decreases |elems|
  {
    if elems != [] {
      var k := |elems| - 1;
      PlacedIsExact(n, elems[..k], d[..k]);
      PlacedIsConsistent(n, elems[..k], d[..k]);
      PlaceKeepsExact(n, Placed(n, elems[..k], d[..k]), elems[..k], elems[k], d[k]);
    }
  }

  /** Placing one more element is one more outer iteration. */
  lemma PlacedStep<T>(n: nat, elems: seq<Option<T>>, d: seq<int>, k: nat)
    requires Slots(n, |elems|, d) && k < |elems|
    ensures Placed(n, elems[..k + 1], d[..k + 1]) == Place(Placed(n, elems[..k], d[..k]), elems[k], d[k])
  {
    assert elems[..k + 1][..k] == elems[..k] && d[..k + 1][..k] == d[..k];
  }

  lemma PresentCarriesOver<T>(a: seq<Option<T>>, b: seq<Option<T>>)
    requires multiset(a) == multiset(b) && AllPresent(b)
    ensures AllPresent(a)
  {
    forall q | 0 <= q < |a| ensures a[q].Some? {
      assert a[q] in multiset(b);
    }
  }

  /**
   * shuffle_list's result is a permutation of its input, `None` entries
   * included; when the input holds no `None`, every slot is filled and
   * `numbers_used` lists each slot exactly once.
   */
  lemma PlacedIsPermutation<T>(elems: seq<Option<T>>, d: seq<int>)
    requires Slots(|elems|, |elems|, d)
    ensures multiset(Placed(|elems|, elems, d).slots) == multiset(elems)
    ensures AllPresent(elems) ==> AllPresent(Placed(|elems|, elems, d).slots)
    ensures AllPresent(elems) ==> Exact(Placed(|elems|, elems, d))
  {
    var r := Placed(|elems|, elems, d);
    PlacedIsConsistent(|elems|, elems, d);
    assert Empty<T>(0) == [];
    assert multiset(r.slots) == multiset(elems);
    if AllPresent(elems) {
      PresentCarriesOver(r.slots, elems);
      PlacedIsExact(|elems|, elems, d);
    }
  }

  /**
   * shuffle_list: for each element of `list_arg` draw a slot; if the slot
   * is in `numbers_used`, put the element in the first slot still holding
   * `None` instead; record the slot used. `draws[k]` is the `k`-th draw
   * of `randint(0, len_arg - 1)`. The input array is only read.
   */
  method ShuffleList<T>(listArg: array<Option<T>>, draws: seq<int>) returns (newList: array<Option<T>>)
    requires Slots(listArg.Length, listArg.Length, draws)
    ensures newList.Length == listArg.Length
    ensures newList[..] == Placed(listArg.Length, listArg[..], draws).slots
    ensures multiset(newList[..]) == multiset(listArg[..])
    ensures AllPresent(listArg[..]) ==> AllPresent(newList[..])
  {
    var lenArg := listArg.Length;
    newList := new Option<T>[lenArg](_ => None);
    var numbersUsed: seq<int> := [];
    assert newList[..] == Empty(lenArg);
    assert listArg[..0] == [] && draws[..0] == [];
    ghost var input := listArg[..];
    var k := 0;
    while k < lenArg
      invariant 0 <= k <= lenArg && newList.Length == lenArg
      invariant Placement(newList[..], numbersUsed) == Placed(lenArg, input[..k], draws[..k])
    {
      var elem := listArg[k];
      var newPos := draws[k];
      ghost var before := Placement(newList[..], numbersUsed);
      if newPos in numbersUsed {
        var ind := 0;
        while ind < lenArg
          invariant 0 <= ind <= lenArg
          invariant forall q :: 0 <= q < ind ==> newList[q].Some?
          invariant Placement(newList[..], numbersUsed) == before
        {
          if newList[ind].None? {
            assert FirstFree(before.slots) == Some(ind);
            newList[ind] := elem;
            numbersUsed := numbersUsed + [ind];
            break;
          }
          ind := ind + 1;
        }
      } else {
        newList[newPos] := elem;
        numbersUsed := numbersUsed + [newPos];
      }
      assert Placement(newList[..], numbersUsed) == Place(before, elem, newPos);
      PlacedStep(lenArg, input, draws, k);
      k := k + 1;
    }
    assert input[..k] == input && draws[..k] == draws;
    PlacedIsPermutation(input, draws);
  }
}
