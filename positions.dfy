/**
 * Key positions: the set of character offsets of a keyword that take part in
 * the hash.  A `Positions` object keeps its entries in a fixed array of
 * MAX_SIZE slots; the first `size` slots are kept in strictly descending
 * order, and the end-of-word marker LASTCHAR (-1) sorts below every real
 * position.
 */
module KeyPositions {

  /** Denotes the last character of a keyword, whatever its length. */
  const LASTCHAR: int := -1
  /** Real key positions are 0 .. MAX_KEY_POS - 1. */
  const MAX_KEY_POS: int := 255
  /** Capacity of the position array: every real position plus LASTCHAR. */
  const MAX_SIZE: int := MAX_KEY_POS + 1

  /** What `Add` and `Remove` report; the three errors end the process in the source. */
  datatype Status = Ok | Overflow | Duplicate | NotFound

  // ---------------------------------------------------------------------
  // Specification of the contents as a sequence
  // ---------------------------------------------------------------------

  /** Strictly descending: the order the position array is kept in. */
  ghost predicate Descending(s: seq<int>) {
    forall i, j :: 0 <= i < j < |s| ==> s[i] > s[j]
  }

  /** Descending, duplicates allowed: the order a sort establishes. */
  ghost predicate NonIncreasing(s: seq<int>) {
    forall i, j :: 0 <= i < j < |s| ==> s[i] >= s[j]
  }

  /** No value occurs twice. */
  ghost predicate DuplicateFree(s: seq<int>) {
    forall i, j :: 0 <= i < j < |s| ==> s[i] != s[j]
  }

  /** Every entry is a real position or LASTCHAR (nothing below LASTCHAR). */
  ghost predicate InDomain(s: seq<int>) {
    forall i :: 0 <= i < |s| ==> LASTCHAR <= s[i] < MAX_KEY_POS
  }

  /**
   * `s` with `pos` placed where a walk from the smallest end stops:
   * in front of the first entry (from the back) that exceeds `pos`.
   */
  ghost function Insert(s: seq<int>, pos: int): (r: seq<int>)
    ensures |r| == |s| + 1
    decreases |s|
  {
    if |s| == 0 || s[|s| - 1] > pos then s + [pos]
    else Insert(s[..|s| - 1], pos) + [s[|s| - 1]]
  }

  /** `s` with the last occurrence of `pos` taken out. */
  ghost function Delete(s: seq<int>, pos: int): seq<int>
    decreases |s|
  {
    if |s| == 0 then []
    else if s[|s| - 1] == pos then s[..|s| - 1]
    else Delete(s[..|s| - 1], pos) + [s[|s| - 1]]
  }

  /** The positions MAX_KEY_POS - 1, ..., 1, 0: the explicit form of "use all". */
  ghost function AllPositions(): (r: seq<int>)
    ensures |r| == MAX_KEY_POS
  {
    seq(MAX_KEY_POS, k => MAX_KEY_POS - 1 - k)
  }

  /** A descending sequence with `x` appended stays descending iff `x` is below all of it. */
  lemma DescendingSnoc(s: seq<int>, x: int)
    requires Descending(s)
    requires forall i :: 0 <= i < |s| ==> s[i] > x
    ensures Descending(s + [x])
  {
  }

  lemma NonIncreasingSnoc(s: seq<int>, x: int)
    requires NonIncreasing(s)
    requires forall i :: 0 <= i < |s| ==> s[i] >= x
    ensures NonIncreasing(s + [x])
  {
  }

  /** `Insert` adds exactly `pos` to the elements. */
  lemma {:induction false} InsertElements(s: seq<int>, pos: int)
    ensures multiset(Insert(s, pos)) == multiset(s) + multiset{pos}
    decreases |s|
  {
    if |s| > 0 && s[|s| - 1] <= pos {
      var init := s[..|s| - 1];
      assert s == init + [s[|s| - 1]];
      InsertElements(init, pos);
    }
  }

  /** Inserting a new position keeps the order and adds exactly that position. */
  lemma {:induction false} InsertKeepsOrder(s: seq<int>, pos: int)
    requires Descending(s) && pos !in s
    ensures Descending(Insert(s, pos))
    ensures multiset(Insert(s, pos)) == multiset(s) + multiset{pos}
    decreases |s|
  {
    InsertElements(s, pos);
    if |s| == 0 || s[|s| - 1] > pos {
      DescendingSnoc(s, pos);
    } else {
      var init, last := s[..|s| - 1], s[|s| - 1];
      assert s == init + [last];
      InsertKeepsOrder(init, pos);
      var r := Insert(init, pos);
      forall i | 0 <= i < |r| ensures r[i] > last {
        assert r[i] in multiset(r);
        if r[i] != pos {
          assert r[i] in multiset(init);
          var j :| 0 <= j < |init| && init[j] == r[i];
          assert s[j] > s[|s| - 1];
        }
      }
      DescendingSnoc(r, last);
    }
  }

  /** `Delete` leaves a sequence without `pos` alone, and otherwise shortens it by one. */
  lemma {:induction false} DeleteLength(s: seq<int>, pos: int)
    ensures pos in s ==> |Delete(s, pos)| == |s| - 1
    ensures pos !in s ==> Delete(s, pos) == s
    decreases |s|
  {
    if |s| > 0 {
      var init, last := s[..|s| - 1], s[|s| - 1];
      assert s == init + [last];
      if last != pos {
        DeleteLength(init, pos);
        assert pos in s <==> pos in init;
      }
    }
  }

  /** `Delete` removes one occurrence of `pos` when there is one, and nothing else. */
  lemma {:induction false} DeleteElements(s: seq<int>, pos: int)
    ensures multiset(Delete(s, pos)) == multiset(s) - multiset{pos}
    decreases |s|
  {
    if |s| > 0 {
      var init, last := s[..|s| - 1], s[|s| - 1];
      assert s == init + [last];
      assert multiset(s) == multiset(init) + multiset{last};
      if last != pos {
        DeleteElements(init, pos);
        assert Delete(s, pos) == Delete(init, pos) + [last];
      }
    }
  }

  /** Deleting keeps the order. */
  lemma DeleteKeepsOrder(s: seq<int>, pos: int)
    requires Descending(s)
    ensures Descending(Delete(s, pos))
  {
    DeleteLength(s, pos);
    if pos in s {
      var k :| 0 <= k < |s| && s[k] == pos;
      DeleteSplit(s, pos, k);
      DescendingWithout(s, k);
    }
  }

  /** Leaving out one entry of a descending sequence keeps it descending. */
  lemma DescendingWithout(s: seq<int>, k: nat)
    requires Descending(s) && k < |s|
    ensures Descending(s[..k] + s[k + 1..])
  {
    var t := s[..k] + s[k + 1..];
    forall a, b | 0 <= a < b < |t| ensures t[a] > t[b] {
      var a', b' := if a < k then a else a + 1, if b < k then b else b + 1;
      assert t[a] == s[a'] && t[b] == s[b'];
    }
  }

  /** What the shifting loop of `Add` builds equals `Insert`. */
  lemma {:induction false} InsertSplit(s: seq<int>, pos: int, k: nat)
    requires k <= |s|
    requires k == 0 || s[k - 1] > pos
    requires forall i :: k <= i < |s| ==> s[i] < pos
    ensures Insert(s, pos) == s[..k] + [pos] + s[k..]
    decreases |s|
  {
    if |s| == k {
      assert s[..k] == s;
    } else {
      var init := s[..|s| - 1];
      InsertSplit(init, pos, k);
      assert init[..k] == s[..k];
      assert init[k..] + [s[|s| - 1]] == s[k..];
    }
  }

  /** What the rotating loop of `Remove` builds equals `Delete`. */
  lemma {:induction false} DeleteSplit(s: seq<int>, pos: int, k: nat)
    requires k < |s| && s[k] == pos
    requires forall i :: k < i < |s| ==> s[i] != pos
    ensures Delete(s, pos) == s[..k] + s[k + 1..]
    decreases |s|
  {
    if |s| - 1 == k {
      assert s[..k] == s[..|s| - 1];
    } else {
      var init := s[..|s| - 1];
      DeleteSplit(init, pos, k);
      assert init[..k] == s[..k];
      assert init[k + 1..] + [s[|s| - 1]] == s[k + 1..];
    }
  }

  /** `Add(p)` followed by `Remove(p)` restores the contents. */
  lemma {:induction false} DeleteInsert(s: seq<int>, pos: int)
    requires pos !in s
    ensures Delete(Insert(s, pos), pos) == s
    decreases |s|
  {
    if |s| == 0 || s[|s| - 1] > pos {
      assert (s + [pos])[..|s|] == s;
    } else {
      var init := s[..|s| - 1];
      DeleteInsert(init, pos);
      var r := Insert(init, pos) + [s[|s| - 1]];
      assert r[..|r| - 1] == Insert(init, pos);
      assert init + [s[|s| - 1]] == s;
    }
  }

  /** `Remove(p)` followed by `Add(p)` restores the contents. */
  lemma InsertDelete(s: seq<int>, pos: int)
    requires Descending(s) && pos in s
    ensures Insert(Delete(s, pos), pos) == s
  {
    var k :| 0 <= k < |s| && s[k] == pos;
    InsertDeleteAt(s, pos, k);
  }

  /** `InsertDelete` for `pos` at index `k`, larger entries before it and smaller ones after. */
  lemma {:induction false} InsertDeleteAt(s: seq<int>, pos: int, k: nat)
    requires k < |s| && s[k] == pos
    requires forall i :: 0 <= i < k ==> s[i] > pos
    requires forall i :: k < i < |s| ==> s[i] < pos
    ensures Insert(Delete(s, pos), pos) == s
    decreases |s|
  {
    var init, last := s[..|s| - 1], s[|s| - 1];
    assert s == init + [last];
    if k == |s| - 1 {
      assert |init| == 0 || init[|init| - 1] > pos;
    } else {
      InsertDeleteAt(init, pos, k);
      var d := Delete(init, pos) + [last];
      assert d[..|d| - 1] == Delete(init, pos);
    }
  }

  /** The first entry of a descending sequence is its largest. */
  lemma HeadIsLargest(s: seq<int>, x: int)
    requires Descending(s) && x in s
    ensures x <= s[0]
  {
  }

  /** A strictly descending sequence is determined by its elements. */
  lemma {:induction false} DescendingUnique(s: seq<int>, t: seq<int>)
    requires Descending(s) && Descending(t)
    requires multiset(s) == multiset(t)
    ensures s == t
    decreases |s|
  {
    if |s| == 0 {
      assert |t| == |multiset(t)| == |multiset(s)| == 0;
    } else {
      assert s[0] in multiset(t);
      assert t[0] in multiset(s);
      HeadIsLargest(s, t[0]);
      HeadIsLargest(t, s[0]);
      var s', t' := s[1..], t[1..];
      assert s == [s[0]] + s';
      assert t == [t[0]] + t';
      assert multiset(s') == multiset(s) - multiset{s[0]};
      assert multiset(t') == multiset(t) - multiset{t[0]};
      DescendingUnique(s', t');
    }
  }

  /** The "use all" contents are strictly descending and are exactly 0 .. MAX_KEY_POS - 1. */
  lemma AllPositionsShape()
    ensures Descending(AllPositions()) && InDomain(AllPositions())
    ensures forall p :: p in AllPositions() <==> 0 <= p < MAX_KEY_POS
  {
    var a := AllPositions();
    forall p | 0 <= p < MAX_KEY_POS ensures p in a {
      assert a[MAX_KEY_POS - 1 - p] == p;
    }
  }

  // ---------------------------------------------------------------------
  // Sorting, as the option layer needs it after filling the array
  // ---------------------------------------------------------------------

  /** Descending insertion-sort: the order `sort` leaves the array in. */
  ghost function SortDescending(s: seq<int>): (r: seq<int>)
    ensures |r| == |s|
    decreases |s|
  {
    if |s| == 0 then [] else Insert(SortDescending(s[..|s| - 1]), s[|s| - 1])
  }

  lemma {:induction false} InsertNonIncreasing(s: seq<int>, pos: int)
    requires NonIncreasing(s)
    ensures NonIncreasing(Insert(s, pos))
    ensures multiset(Insert(s, pos)) == multiset(s) + multiset{pos}
    decreases |s|
  {
    if |s| == 0 || s[|s| - 1] > pos {
      NonIncreasingSnoc(s, pos);
    } else {
      var init, last := s[..|s| - 1], s[|s| - 1];
      assert s == init + [last];
      InsertNonIncreasing(init, pos);
      var r := Insert(init, pos);
      forall i | 0 <= i < |r| ensures r[i] >= last {
        assert r[i] in multiset(r);
        assert r[i] in multiset(init) || r[i] == pos;
      }
      NonIncreasingSnoc(r, last);
    }
  }

  /** `SortDescending` is a non-increasing permutation of its input. */
  lemma {:induction false} SortDescendingSpec(s: seq<int>)
    ensures NonIncreasing(SortDescending(s))
    ensures multiset(SortDescending(s)) == multiset(s)
    decreases |s|
  {
    if |s| > 0 {
      SortDescendingSpec(s[..|s| - 1]);
      InsertNonIncreasing(SortDescending(s[..|s| - 1]), s[|s| - 1]);
      assert s == s[..|s| - 1] + [s[|s| - 1]];
    }
  }

  /** Two sequences with the same elements are duplicate free together. */
  lemma {:induction false} DuplicateFreeMultiset(s: seq<int>)
    ensures DuplicateFree(s) <==> forall x :: multiset(s)[x] <= 1
    decreases |s|
  {
    if |s| > 0 {
      var init, last := s[..|s| - 1], s[|s| - 1];
      assert s == init + [last];
      DuplicateFreeMultiset(init);
      if DuplicateFree(s) {
        assert DuplicateFree(init);
        assert last !in init;
      }
      if forall x :: multiset(s)[x] <= 1 {
        forall x ensures multiset(init)[x] <= 1 {
          assert multiset(s)[x] == multiset(init)[x] + (if x == last then 1 else 0);
        }
        assert multiset(init)[last] == 0 by {
          assert multiset(s)[last] == multiset(init)[last] + 1;
        }
        forall i, j | 0 <= i < j < |s| ensures s[i] != s[j] {
          if j == |s| - 1 {
            assert init[i] in multiset(init);
          }
        }
      }
    }
  }

  /** The sort succeeds (result strictly descending) iff the input is duplicate free. */
  lemma SortDescendingStrict(s: seq<int>)
    ensures Descending(SortDescending(s)) <==> DuplicateFree(s)
  {
    var t := SortDescending(s);
    SortDescendingSpec(s);
    DuplicateFreeMultiset(s);
    DuplicateFreeMultiset(t);
    assert Descending(t) <==> DuplicateFree(t);
  }

  /** A strictly descending sequence of values in [lo, hi) has at most hi - lo entries. */
  lemma {:induction false} DescendingBound(t: seq<int>, lo: int, hi: int)
    requires lo <= hi && Descending(t)
    requires forall i :: 0 <= i < |t| ==> lo <= t[i] < hi
    ensures |t| <= hi - lo
    decreases |t|
  {
    if |t| > 0 {
      var rest := t[1..];
      assert lo <= t[0] < hi;
      forall i | 0 <= i < |rest| ensures lo <= rest[i] < t[0] {
        assert rest[i] == t[i + 1];
      }
      DescendingBound(rest, lo, t[0]);
    }
  }

  /**
   * Pigeonhole: a duplicate-free sequence of real positions and LASTCHAR
   * has at most MAX_SIZE entries, so a longer one repeats a position.
   */
  lemma DuplicateFreeBound(s: seq<int>)
    requires InDomain(s) && DuplicateFree(s)
    ensures |s| <= MAX_SIZE
  {
    var t := SortDescending(s);
    SortDescendingStrict(s);
    SortDescendingSpec(s);
    forall i | 0 <= i < |t| ensures LASTCHAR <= t[i] < MAX_KEY_POS {
      assert t[i] in multiset(s);
    }
    DescendingBound(t, LASTCHAR, MAX_KEY_POS);
  }

  /** A scan that stops at an entry above `pos`, having seen only smaller ones, proves `pos` absent. */
  lemma AbsentBetween(s: seq<int>, pos: int, k: nat)
    requires Descending(s) && k <= |s|
    requires k == 0 || s[k - 1] > pos
    requires forall i :: k <= i < |s| ==> s[i] != pos
    ensures pos !in s
  {
    forall i | 0 <= i < k ensures s[i] != pos {
      assert s[i] >= s[k - 1];
    }
  }

  /** A sequence that agrees with `s` before `k`, holds `x` at `k` and `s` shifted up by one after it. */
  lemma SpliceIn(a: seq<int>, s: seq<int>, k: nat, x: int)
    requires k <= |s| && |a| == |s| + 1 && a[k] == x
    requires forall i :: 0 <= i < k ==> a[i] == s[i]
    requires forall i :: k < i < |a| ==> a[i] == s[i - 1]
    ensures a == s[..k] + [x] + s[k..]
  {
  }

  /** A sequence that agrees with `s` before `k` and with `s` shifted by one after it. */
  lemma SpliceOut(a: seq<int>, s: seq<int>, k: nat)
    requires k < |s| && |a| == |s| - 1
    requires forall i :: 0 <= i < k ==> a[i] == s[i]
    requires forall i :: k <= i < |a| ==> a[i] == s[i + 1]
    ensures a == s[..k] + s[k + 1..]
  {
  }

  /** Taking out the entry at `k` of a descending sequence is `Delete` and keeps the order. */
  lemma RemovedAt(s: seq<int>, pos: int, k: nat)
    requires Descending(s) && k < |s| && s[k] == pos
    ensures Delete(s, pos) == s[..k] + s[k + 1..]
    ensures Descending(Delete(s, pos))
  {
    DeleteSplit(s, pos, k);
    DeleteKeepsOrder(s, pos);
  }

  // ---------------------------------------------------------------------
  // The printed form: 1-based positions, runs of consecutive positions
  // written as "low-high", separated by ',', with "$" for LASTCHAR last
  // ---------------------------------------------------------------------

  function DigitChar(d: nat): (c: char)
    requires d < 10
    ensures '0' <= c <= '9' && c as int - '0' as int == d
  {
    ('0' as int + d) as char
  }

  /** Decimal digits of `n`, most significant first, without leading zeros. */
  function NatString(n: nat): (r: string)
    ensures 0 < |r|
  {
    if n < 10 then [DigitChar(n)] else NatString(n / 10) + [DigitChar(n % 10)]
  }

  /** The value a decimal digit string denotes, read left to right. */
  function DigitsValue(r: string): int {
    if |r| == 0 then 0
    else 10 * DigitsValue(r[..|r| - 1]) + (r[|r| - 1] as int - '0' as int)
  }

  /** The text written for `n` is all digits, with no leading zero unless `n` is 0. */
  lemma {:induction false} NatStringDigits(n: nat)
    ensures forall i :: 0 <= i < |NatString(n)| ==> '0' <= NatString(n)[i] <= '9'
    ensures NatString(n)[0] == '0' ==> n == 0
  {
    if n >= 10 {
      NatStringDigits(n / 10);
      assert NatString(n)[0] == NatString(n / 10)[0];
    }
  }

  /** Reading back the digits written for `n` gives `n`. */
  lemma {:induction false} NatStringValue(n: nat)
    ensures DigitsValue(NatString(n)) == n
  {
    if n >= 10 {
      var r := NatString(n);
      assert r[..|r| - 1] == NatString(n / 10);
      NatStringValue(n / 10);
    }
  }

  /** Decimal text of an integer, with a leading '-' when it is negative. */
  function DecimalString(n: int): (r: string)
    ensures 0 < |r|
  {
    if n < 0 then "-" + NatString(-n) else NatString(n)
  }

  /**
   * Where the run of consecutive values that ends at index `i` (reading
   * towards the front, each entry one above its successor) begins.
   */
  ghost function RunStart(s: seq<int>, i: nat): (e: nat)
    requires i < |s|
    ensures e <= i && s[e] == s[i] + (i - e)
    ensures e == 0 || s[e - 1] != s[e] + 1
  {
    if i > 0 && s[i - 1] == s[i] + 1 then RunStart(s, i - 1) else i
  }

  /**
   * The ranges printed for the prefix `s[..count]`, processed from its
   * last (smallest) entry; each range is (low, high), 0-based.
   */
  ghost function Runs(s: seq<int>, count: nat): seq<(int, int)>
    requires count <= |s|
  {
    if count == 0 then []
    else if s[count - 1] == LASTCHAR then Runs(s, count - 1)
    else
      var e := RunStart(s, count - 1);
      [(s[count - 1], s[e])] + Runs(s, e)
  }

  /** Whether printing the prefix `s[..count]` meets LASTCHAR. */
  ghost function SeenLast(s: seq<int>, count: nat): bool
    requires count <= |s|
  {
    if count == 0 then false
    else if s[count - 1] == LASTCHAR then true
    else SeenLast(s, RunStart(s, count - 1))
  }

  /** One range in 1-based text. */
  function RangeText(r: (int, int)): string {
    if r.0 == r.1 then DecimalString(r.0 + 1)
    else DecimalString(r.0 + 1) + "-" + DecimalString(r.1 + 1)
  }

  /** The ranges in order, separated by ','. */
  function RangesText(rs: seq<(int, int)>): string {
    if |rs| == 0 then ""
    else if |rs| == 1 then RangeText(rs[0])
    else RangesText(rs[..|rs| - 1]) + "," + RangeText(rs[|rs| - 1])
  }

  /** Appends the "$" for LASTCHAR, after a ',' when something precedes it. */
  function WithDollar(out: string, first: bool, seen: bool): string {
    if !seen then out else (if first then out else out + ",") + "$"
  }

  /** What `Print` writes for a position set (`s` is its contents, largest first). */
  ghost function Rendering(useall: bool, s: seq<int>): string {
    if useall then "*"
    else
      var rs := Runs(s, |s|);
      WithDollar(RangesText(rs), |rs| == 0, SeenLast(s, |s|))
  }

  /** The values a range stands for, ascending. */
  ghost function Span(r: (int, int)): seq<int>
    decreases r.1 - r.0
  {
    if r.0 > r.1 then [] else [r.0] + Span((r.0 + 1, r.1))
  }


  ghost function Flatten(rs: seq<(int, int)>): seq<int> {
    if |rs| == 0 then [] else Span(rs[0]) + Flatten(rs[1..])
  }

  /** Every range is non-empty and separated from the next by a gap. */
  ghost predicate Separated(rs: seq<(int, int)>) {
    (forall k :: 0 <= k < |rs| ==> rs[k].0 <= rs[k].1) &&
    (forall k :: 0 <= k < |rs| - 1 ==> rs[k].1 + 1 < rs[k + 1].0)
  }

  /** The entries of `s[..count]` other than LASTCHAR, smallest (last) first. */
  ghost function Listed(s: seq<int>, count: nat): seq<int>
    requires count <= |s|
  {
    if count == 0 then []
    else if s[count - 1] == LASTCHAR then Listed(s, count - 1)
    else [s[count - 1]] + Listed(s, count - 1)
  }

  /** `Listed` holds exactly the entries other than LASTCHAR. */
  lemma {:induction false} ListedMembers(s: seq<int>, count: nat)
    requires count <= |s|
    ensures forall x :: x in Listed(s, count) <==> x in s[..count] && x != LASTCHAR
  {
    if count > 0 {
      ListedMembers(s, count - 1);
      assert s[..count] == s[..count - 1] + [s[count - 1]];
    }
  }

  /** Listing a descending sequence from the back is ascending. */
  lemma {:induction false} ListedAscending(s: seq<int>, count: nat)
    requires Descending(s) && count <= |s|
    ensures Descending(Reverse(Listed(s, count)))
  {
    if count > 0 {
      ListedAscending(s, count - 1);
      var l := Listed(s, count - 1);
      if s[count - 1] != LASTCHAR {
        assert Reverse([s[count - 1]] + l) == Reverse(l) + [s[count - 1]] by {
          ReverseCons(s[count - 1], l);
        }
        var r := Reverse(l);
        forall i | 0 <= i < |r| ensures r[i] > s[count - 1] {
          ReverseMembers(l);
          ListedMembers(s, count - 1);
          assert r[i] in r;
          var j :| 0 <= j < count - 1 && s[j] == r[i];
        }
        DescendingSnoc(Reverse(l), s[count - 1]);
      }
    }
  }

  ghost function Reverse(s: seq<int>): (r: seq<int>)
    ensures |r| == |s|
  {
    if |s| == 0 then [] else Reverse(s[1..]) + [s[0]]
  }

  lemma ReverseCons(x: int, s: seq<int>)
    ensures Reverse([x] + s) == Reverse(s) + [x]
  {
    assert ([x] + s)[1..] == s;
  }

  lemma {:induction false} ReverseMembers(s: seq<int>)
    ensures forall x :: x in Reverse(s) <==> x in s
  {
    if |s| > 0 {
      ReverseMembers(s[1..]);
      assert s == [s[0]] + s[1..];
    }
  }

  /** A run read from the back lists the same values as its range. */
  lemma {:induction false} ListedRun(s: seq<int>, i: nat)
    requires InDomain(s) && i < |s| && s[i] != LASTCHAR
    ensures Listed(s, i + 1) == Span((s[i], s[RunStart(s, i)])) + Listed(s, RunStart(s, i))
  {
    var e := RunStart(s, i);
    assert Listed(s, i + 1) == [s[i]] + Listed(s, i);
    if i > 0 && s[i - 1] == s[i] + 1 {
      assert e == RunStart(s, i - 1);
      ListedRun(s, i - 1);
      calc {
        Listed(s, i + 1);
        [s[i]] + (Span((s[i - 1], s[e])) + Listed(s, e));
        ([s[i]] + Span((s[i] + 1, s[e]))) + Listed(s, e);
        Span((s[i], s[e])) + Listed(s, e);
      }
    } else {
      assert Span((s[i], s[i])) == [s[i]];
    }
  }

  /** Inside a run the entries step down by one. */
  lemma {:induction false} RunValues(s: seq<int>, i: nat, j: nat)
    requires i < |s| && RunStart(s, i) <= j <= i
    ensures s[j] == s[i] + (i - j)
  {
    if j < i {
      RunValues(s, i - 1, j);
    }
  }

  /** The entries of a run ending at a real position are real positions. */
  lemma RunReal(s: seq<int>, i: nat)
    requires i < |s| && s[i] >= 0
    ensures forall j :: RunStart(s, i) <= j <= i ==> s[j] >= 0
  {
    forall j | RunStart(s, i) <= j <= i ensures s[j] >= 0 {
      RunValues(s, i, j);
    }
  }

  /** The printed ranges enumerate the real positions of `s[..count]`, smallest first. */
  lemma {:induction false} RunsFlatten(s: seq<int>, count: nat)
    requires InDomain(s) && count <= |s|
    ensures Flatten(Runs(s, count)) == Listed(s, count)
  {
    if count > 0 {
      if s[count - 1] == LASTCHAR {
        RunsFlatten(s, count - 1);
      } else {
        var e := RunStart(s, count - 1);
        RunsFlatten(s, e);
        ListedRun(s, count - 1);
        assert Runs(s, count)[1..] == Runs(s, e);
      }
    }
  }

  lemma SeparatedCons(r: (int, int), rs: seq<(int, int)>)
    requires Separated(rs) && r.0 <= r.1
    requires |rs| > 0 ==> r.1 + 1 < rs[0].0
    ensures Separated([r] + rs)
  {
    var t := [r] + rs;
    assert forall k :: 0 < k < |t| ==> t[k] == rs[k - 1];
  }

  /** The first range printed for `s[..e]` starts at `s[e - 1]`. */
  lemma RunsHead(s: seq<int>, e: nat)
    requires e <= |s| && (e > 0 ==> s[e - 1] != LASTCHAR)
    ensures |Runs(s, e)| > 0 ==> e > 0 && Runs(s, e)[0].0 == s[e - 1]
  {
  }

  /** The printed ranges are maximal: each is non-empty and a gap separates neighbours. */
  lemma {:induction false} RunsSeparated(s: seq<int>, count: nat)
    requires Descending(s) && InDomain(s) && count <= |s|
    ensures Separated(Runs(s, count))
  {
    if count > 0 {
      if s[count - 1] == LASTCHAR {
        RunsSeparated(s, count - 1);
      } else {
        var e := RunStart(s, count - 1);
        RunsSeparated(s, e);
        assert e > 0 ==> s[e - 1] > s[e] >= 0;
        RunsHead(s, e);
        SeparatedCons((s[count - 1], s[e]), Runs(s, e));
      }
    }
  }

  /** "$" is printed iff LASTCHAR is among the entries. */
  lemma {:induction false} SeenLastMember(s: seq<int>, count: nat)
    requires InDomain(s) && count <= |s|
    ensures SeenLast(s, count) <==> LASTCHAR in s[..count]
  {
    if count > 0 {
      if s[count - 1] == LASTCHAR {
        assert s[..count][count - 1] == LASTCHAR;
      } else {
        var e := RunStart(s, count - 1);
        SeenLastMember(s, e);
        RunReal(s, count - 1);
        if LASTCHAR in s[..count] {
          var j :| 0 <= j < count && s[..count][j] == LASTCHAR;
          assert s[..e][j] == LASTCHAR;
        }
        if LASTCHAR in s[..e] {
          var j :| 0 <= j < e && s[..e][j] == LASTCHAR;
          assert s[..count][j] == LASTCHAR;
        }
      }
    }
  }


  /**
   * For a well-formed position set, the printed ranges list exactly its
   * real positions in increasing order, as maximal runs, and "$" appears
   * iff LASTCHAR is a member.
   */
  lemma RenderingDescribes(s: seq<int>)
    requires Descending(s) && InDomain(s)
    ensures Flatten(Runs(s, |s|)) == Listed(s, |s|)
    ensures Descending(Reverse(Listed(s, |s|)))
    ensures Separated(Runs(s, |s|))
    ensures SeenLast(s, |s|) <==> LASTCHAR in s
  {
    RunsFlatten(s, |s|);
    RunsSeparated(s, |s|);
    SeenLastMember(s, |s|);
    ListedAscending(s, |s|);
    assert s[..|s|] == s;
  }

  /** One step of printing: an entry other than LASTCHAR opens the next range. */
  lemma RunsStep(s: seq<int>, c: nat)
    requires c < |s| && s[c] != LASTCHAR
    ensures Runs(s, c + 1) == [(s[c], s[RunStart(s, c)])] + Runs(s, RunStart(s, c))
    ensures SeenLast(s, c + 1) == SeenLast(s, RunStart(s, c))
  {
  }

  /** One step of the loop of `Print`: the range from entry `c` back to entry `e` is the next one printed. */
  lemma PrintStep(s: seq<int>, c: nat, e: nat, done: seq<(int, int)>)
    requires c < |s| && s[c] != LASTCHAR && e == RunStart(s, c)
    ensures done + Runs(s, c + 1) == (done + [(s[c], s[e])]) + Runs(s, e)
  {
    var r := (s[c], s[e]);
    RunsStep(s, c);
    assert done + Runs(s, c + 1) == done + ([r] + Runs(s, e));
  }

  lemma RangesTextSnoc(rs: seq<(int, int)>, r: (int, int))
    ensures |rs| == 0 ==> RangesText(rs + [r]) == RangeText(r)
    ensures |rs| > 0 ==> RangesText(rs + [r]) == RangesText(rs) + "," + RangeText(r)
  {
    assert (rs + [r])[..|rs|] == rs;
  }

  // ---------------------------------------------------------------------
  // The transcribed printing loop, which never steps back after an entry
  // ---------------------------------------------------------------------

  /** The inner `loop` of the transcription: step `p` and `count` down while the run continues. */
  ghost function WalkAsWritten(s: seq<int>, count: nat, p: nat): (r: (nat, nat))
    requires 0 < count <= p < |s|
    ensures r.0 < count && r.0 <= r.1 < p
  {
    if count - 1 > 0 && s[p - 2] == s[p - 1] + 1 then WalkAsWritten(s, count - 1, p - 1)
    else (count - 1, p - 1)
  }

  /**
   * The outer loop of the transcription: `count` entries remain and `p` is
   * the slot read.  Only the inner loop moves `p`.
   */
  ghost function LoopAsWritten(s: seq<int>, count: nat, p: nat, first: bool, seen: bool, out: string): string
    requires count <= p + 1 <= |s|
    decreases count
  {
    if count == 0 then WithDollar(out, first, seen)
    else
      var c := count - 1;
      if s[p] == LASTCHAR then LoopAsWritten(s, c, p, first, true, out)
      else
        var out1 := (if first then out else out + ",") + DecimalString(s[p] + 1);
        if c > 0 && s[p - 1] == s[p] + 1 then
          var w := WalkAsWritten(s, c, p);
          LoopAsWritten(s, w.0, w.1, false, seen, out1 + "-" + DecimalString(s[w.1] + 1))
        else LoopAsWritten(s, c, p, false, seen, out1)
  }

  ghost function PrintAsWritten(useall: bool, s: seq<int>): string {
    if useall then "*"
    else if |s| == 0 then ""
    else LoopAsWritten(s, |s|, |s| - 1, true, false, "")
  }

  /** The set {0, 2} prints as "1,1" as transcribed, where "1,3" is meant. */
  lemma PrintAsWrittenRepeats()
    ensures Descending([2, 0]) && InDomain([2, 0])
    ensures PrintAsWritten(false, [2, 0]) == "1,1"
    ensures Rendering(false, [2, 0]) == "1,3"
  {
    var s := [2, 0];
    assert DecimalString(1) == "1" && DecimalString(3) == "3";
    assert LoopAsWritten(s, 0, 1, false, false, "1,1") == "1,1";
    assert LoopAsWritten(s, 1, 1, false, false, "1") == "1,1";
    assert RunStart(s, 1) == 1 && RunStart(s, 0) == 0;
    assert Runs(s, 0) == [];
    assert Runs(s, 1) == [(2, 2)];
    assert Runs(s, 2) == [(0, 0), (2, 2)];
    assert !SeenLast(s, 2);
    var rs := Runs(s, 2);
    assert rs[..1] == [(0, 0)];
    assert RangesText(rs[..1]) == "1";
    assert RangesText(rs) == "1" + "," + "3";
  }

  // ---------------------------------------------------------------------
  // The "use all" fill as transcribed
  // ---------------------------------------------------------------------

  /**
   * The transcribed fill loop runs MAX_KEY_POS + 1 times and only ever
   * increments the first slot; the slots themselves are never assigned.
   */
  ghost function FillAsWritten(a: seq<int>, i: int): (r: seq<int>)
    requires |a| == MAX_SIZE && -1 <= i
    ensures r == a[0 := a[0] + i + 1]
    decreases i + 1
  {
    if i < 0 then a else FillAsWritten(a[0 := a[0] + 1], i - 1)
  }

  /** Starting from a zeroed array, the transcribed fill does not describe every position. */
  lemma FillAsWrittenWrong()
    ensures var r := FillAsWritten(seq(MAX_SIZE, _ => 0), MAX_KEY_POS);
      !Descending(r[..MAX_KEY_POS]) && r[..MAX_KEY_POS] != AllPositions()
  {
    var r := FillAsWritten(seq(MAX_SIZE, _ => 0), MAX_KEY_POS);
    assert r[1] == 0 && r[2] == 0;
    assert r[..MAX_KEY_POS][1] == r[..MAX_KEY_POS][2];
  }

  /**
   * The fill with `ptr` advanced and `*ptr = i` stored, but keeping the
   * transcribed start `i = MAX_KEY_POS`: slot `k` receives `i`, and the
   * loop runs while `i >= 0`.
   */
  ghost function FillFromMaxKeyPos(a: seq<int>, k: nat, i: int): (r: seq<int>)
    requires |a| == MAX_SIZE && -1 <= i && k + i + 1 == MAX_SIZE
    ensures |r| == MAX_SIZE
    ensures forall m :: 0 <= m < k ==> r[m] == a[m]
    ensures forall m :: k <= m < MAX_SIZE ==> r[m] == i - (m - k)
    decreases i + 1
  {
    if i < 0 then a else FillFromMaxKeyPos(a[k := i], k + 1, i - 1)
  }

  /**
   * Moving the pointer alone does not repair the fill: the first
   * MAX_KEY_POS slots then hold MAX_KEY_POS down to 1, which stores
   * MAX_KEY_POS (not a position) and leaves out position 0.
   */
  lemma {:induction false} FillFromMaxKeyPosWrong()
    ensures var r := FillFromMaxKeyPos(seq(MAX_SIZE, _ => 0), 0, MAX_KEY_POS)[..MAX_KEY_POS];
      r == seq(MAX_KEY_POS, m => MAX_KEY_POS - m)
      && !InDomain(r) && 0 !in r && r != AllPositions()
  {
    var r := FillFromMaxKeyPos(seq(MAX_SIZE, _ => 0), 0, MAX_KEY_POS)[..MAX_KEY_POS];
    assert r[0] == MAX_KEY_POS;
    assert forall m :: 0 <= m < MAX_KEY_POS ==> r[m] >= 1;
  }

  // ---------------------------------------------------------------------
  // The container
  // ---------------------------------------------------------------------

  class Positions {
    /** The fixed storage; the first `size` slots hold the set. */
    const positions: array<int>
    var size: nat
    /** Every position up to the keyword length participates. */
    var useall: bool

    /** The storage has its fixed capacity and the count fits into it. */
    ghost predicate Wellformed()
      reads this
    {
      positions.Length == MAX_SIZE && size <= MAX_SIZE
    }

    /** The object invariant: the first `size` slots are strictly descending. */
    ghost predicate Valid()
      reads this, positions
    {
      Wellformed() && Descending(positions[..size])
    }

    /** The set as a sequence, largest first. */
    ghost function Contents(): seq<int>
      reads this, positions
      requires Wellformed()
    {
      positions[..size]
    }

    constructor ()
      ensures Valid() && fresh(positions)
      ensures Contents() == [] && !useall
    {
      positions := new int[MAX_SIZE];
      size := 0;
      useall := false;
    }

    function IsUseall(): (b: bool)
      reads this
      ensures b == useall
    {
      useall
    }

    /** The number of positions held. */
    function GetSize(): (n: nat)
      reads this, positions
      requires Wellformed()
      ensures n == |Contents()|
    {
      size
    }

    /** The raw storage, which the option layer fills directly. */
    function Pointer(): (a: array<int>)
      reads this
      ensures a == positions
    {
      positions
    }

    method SetSize(n: nat)
      requires Wellformed() && n <= MAX_SIZE
      modifies this
      ensures Wellformed() && size == n && useall == old(useall)
    {
      size := n;
    }

    /**
     * Switches "use all" on or off.  Switching it on stores the positions
     * MAX_KEY_POS - 1 down to 0; switching it off only clears the flag.
     */
    method SetUseall(flag: bool)
      requires Wellformed()
      modifies this, positions
      ensures Wellformed() && useall == flag
      ensures flag ==> size == MAX_KEY_POS && Contents() == AllPositions()
      ensures !flag ==> size == old(size) && positions[..] == old(positions[..])
    {
      useall := flag;
      if flag {
        size := MAX_KEY_POS;
        var k := 0;
        var i := MAX_KEY_POS - 1;
        while i >= 0
          modifies positions
          invariant -1 <= i < MAX_KEY_POS && k == MAX_KEY_POS - 1 - i
          invariant forall m :: 0 <= m < k ==> positions[m] == MAX_KEY_POS - 1 - m
        {
          positions[k] := i;
          k := k + 1;
          i := i - 1;
        }
        assert positions[..size] == AllPositions();
      }
    }

    /** Membership, scanning from the smallest entry and stopping at the first larger one. */
    method Contains(pos: int) returns (found: bool)
      requires Valid()
      ensures found <==> pos in Contents()
    {
      var count: nat := size;
      while count > 0
        invariant count <= size
        invariant forall i :: count <= i < size ==> positions[i] < pos
      {
        if positions[count - 1] == pos {
          return true;
        }
        if positions[count - 1] > pos {
          break;
        }
        count := count - 1;
      }
      return false;
    }

    /** Inserts `pos` at its place by shifting the smaller entries one slot up. */
    method Add(pos: int) returns (st: Status)
      requires Valid()
      modifies this, positions
      ensures Wellformed() && !useall
      ensures st == Overflow <==> old(size) == MAX_SIZE
      ensures st == Duplicate <==> old(size) < MAX_SIZE && pos in old(Contents())
      ensures st != NotFound
      ensures st == Overflow ==> positions[..] == old(positions[..]) && size == old(size)
      ensures st == Duplicate ==> size == old(size)
      ensures st == Ok ==> Valid() && Contents() == Insert(old(Contents()), pos)
      ensures st == Ok ==> size == old(size) + 1
    {
      SetUseall(false);
      ghost var s := positions[..size];
      if size == MAX_SIZE {
        return Overflow;
      }
      var dup, k := ShiftUp(pos, s);
      if dup {
        return Duplicate;
      }
      AbsentBetween(s, pos, k);
      positions[k] := pos;
      size := size + 1;
      SpliceIn(positions[..size], s, k, pos);
      InsertSplit(s, pos, k);
      InsertKeepsOrder(s, pos);
      return Ok;
    }

    /**
     * The loop of `Add`: walks down from the smallest entry, shifting each
     * entry below `pos` one slot up, and stops at a larger entry or at
     * `pos` itself.  `k` is the slot left open for `pos`.
     */
    method ShiftUp(pos: int, ghost s: seq<int>) returns (dup: bool, k: nat)
      requires Wellformed() && size < MAX_SIZE && s == positions[..size]
      modifies positions
      ensures k <= |s|
      ensures dup ==> k < |s| && s[k] == pos
      ensures !dup ==> (k == 0 || s[k - 1] > pos) && (forall i :: k <= i < |s| ==> s[i] < pos)
      ensures !dup ==> (forall i :: 0 <= i < k ==> positions[i] == s[i])
      ensures !dup ==> (forall i :: k < i <= |s| ==> positions[i] == s[i - 1])
    {
      var count: nat := size;
      while count > 0
        invariant count <= size
        invariant forall i {:trigger positions[i]} :: 0 <= i < count ==> positions[i] == s[i]
        invariant forall i {:trigger positions[i]} :: count < i <= size ==> positions[i] == s[i - 1]
        invariant forall i :: count <= i < size ==> s[i] < pos
      {
        if positions[count - 1] == pos {
          return true, count - 1;
        }
        if positions[count - 1] > pos {
          break;
        }
        positions[count] := positions[count - 1];
        count := count - 1;
      }
      return false, count;
    }

    /** Removes `pos` by rotating the smaller entries one slot down. */
    method Remove(pos: int) returns (st: Status)
      requires Valid()
      modifies this, positions
      ensures Wellformed() && !useall
      ensures st == Ok || st == NotFound
      ensures st == NotFound <==> pos !in old(Contents())
      ensures st == NotFound ==> size == old(size)
      ensures st == Ok ==> Valid() && Contents() == Delete(old(Contents()), pos)
      ensures st == Ok ==> size == old(size) - 1
    {
      SetUseall(false);
      ghost var s := positions[..size];
      assert s == old(Contents());
      if size > 0 {
        if positions[size - 1] == pos {
          size := size - 1;
          assert Contents() == Delete(s, pos) && Descending(Contents()) by { RemovedAt(s, pos, |s| - 1); }
          return Ok;
        }
        if positions[size - 1] < pos {
          var found, k := RotateOut(pos, s);
          if found {
            size := size - 1;
            assert Contents() == Delete(s, pos) && Descending(Contents()) by {
              RemovedAt(s, pos, k);
            }
            return Ok;
          }
          AbsentBetween(s, pos, k);
        } else {
          AbsentBetween(s, pos, size);
        }
      }
      return NotFound;
    }

    /**
     * The backward walk of `Remove` once the last entry is known to be
     * below `pos`: each entry passed is moved one slot down, so that when
     * `pos` is met it is overwritten and the tail has closed the gap.
     */
    method RotateOut(pos: int, ghost s: seq<int>) returns (found: bool, k: nat)
      requires Wellformed() && 0 < size && s == positions[..size]
      requires s[size - 1] < pos
      modifies positions
      ensures k < |s|
      ensures found ==> s[k] == pos && positions[..size - 1] == s[..k] + s[k + 1..]
      ensures !found ==> (k == 0 || s[k - 1] > pos) && forall i :: k <= i < |s| ==> s[i] != pos
    {
      var count, prev := ShiftDown(pos, s);
      // The scan stopped in front of slot `count - 1`: the front, an entry above `pos`, or `pos` itself.
      k := count - 1;
      if k > 0 && positions[k - 1] == pos {
        positions[k - 1] := prev;
        k := k - 1;
        SpliceOut(positions[..size - 1], s, k);
        return true, k;
      }
      return false, k;
    }

    /**
     * The loop of `RotateOut`: walking towards the front, moves each entry
     * below `pos` one slot back, keeping the last one taken out in `prev`.
     */
    method ShiftDown(pos: int, ghost s: seq<int>) returns (count: nat, prev: int)
      requires Wellformed() && 0 < size && s == positions[..size]
      requires s[size - 1] < pos
      modifies positions
      ensures 1 <= count <= size == |s|
      ensures prev == s[count - 1]
      ensures forall i {:trigger positions[i]} :: 0 <= i < count - 1 ==> positions[i] == s[i]
      ensures forall i {:trigger positions[i]} :: count - 1 <= i < size - 1 ==> positions[i] == s[i + 1]
      ensures forall i :: count - 1 <= i < size ==> s[i] < pos
      ensures count == 1 || positions[count - 2] >= pos
    {
      count := size;
      prev := positions[count - 1];
      while true
        invariant 1 <= count <= size == |s|
        invariant prev == s[count - 1]
        invariant forall i {:trigger positions[i]} :: 0 <= i < count - 1 ==> positions[i] == s[i]
        invariant forall i {:trigger positions[i]} :: count - 1 <= i < size - 1 ==> positions[i] == s[i + 1]
        invariant forall i :: count - 1 <= i < size ==> s[i] < pos
        decreases count
      {
        if count == 1 || positions[count - 2] >= pos {
          break;
        }
        var curr := positions[count - 2];
        positions[count - 2] := prev;
        prev := curr;
        count := count - 1;
      }
    }

    /**
     * Sorts the first `size` entries into descending order and reports
     * whether they were free of duplicates; with "use all" set it does
     * nothing and succeeds.
     */
    method Sort() returns (ok: bool)
      requires Wellformed()
      modifies positions
      ensures Wellformed()
      ensures useall ==> ok && positions[..] == old(positions[..])
      ensures !useall ==> Contents() == SortDescending(old(Contents()))
      ensures !useall ==> (ok <==> DuplicateFree(old(Contents())))
      ensures !useall && ok ==> Valid()
      ensures positions[size..] == old(positions[size..])
    {
      if useall {
        return true;
      }
      ghost var s := positions[..size];
      var sorted := SortedCopy(positions[..size]);
      var k := 0;
      while k < size
        modifies positions
        invariant k <= size
        invariant forall m :: 0 <= m < k ==> positions[m] == sorted[m]
        invariant positions[size..] == old(positions[size..])
      {
        positions[k] := sorted[k];
        k := k + 1;
      }
      assert positions[..size] == sorted;
      ok := NeighboursDistinct(sorted);
      SortDescendingStrict(s);
      SortDescendingSpec(s);
      StrictIffNeighbours(sorted);
    }

    /**
     * The text form of the set: "*" for "use all"; otherwise the entries
     * from the smallest up, 1-based, a run of consecutive positions as
     * "low-high", ',' between items and "$" at the end for LASTCHAR.
     */
    method Print() returns (out: string)
      requires Wellformed()
      ensures out == Rendering(useall, Contents())
    {
      if useall {
        return "*";
      }
      var first, seenLastchar;
      out, first, seenLastchar := PrintRanges();
      if seenLastchar {
        if !first {
          out := out + ",";
        }
        out := out + "$";
      }
    }

    /**
     * The loop of `Print`: walks the entries from the smallest, writing one
     * item per run and noting LASTCHAR instead of writing it.
     */
    method PrintRanges() returns (out: string, first: bool, seenLastchar: bool)
      requires Wellformed()
      ensures out == RangesText(Runs(Contents(), size))
      ensures first <==> |Runs(Contents(), size)| == 0
      ensures seenLastchar == SeenLast(Contents(), size)
    {
      ghost var s := positions[..size];
      first := true;
      seenLastchar := false;
      var count: nat := size;
      ghost var done: seq<(int, int)> := [];
      out := "";
      while count > 0
        invariant count <= size
        invariant Runs(s, size) == done + Runs(s, count)
        invariant out == RangesText(done)
        invariant first <==> |done| == 0
        invariant SeenLast(s, size) <==> seenLastchar || SeenLast(s, count)
      {
        count, out, first, seenLastchar, done := PrintItem(count, out, first, seenLastchar, s, done);
      }
      assert Runs(s, 0) == [] && !SeenLast(s, 0);
      assert s == Contents() && done == Runs(s, size);
    }

    /** One turn of the loop of `PrintRanges`: skips LASTCHAR or prints the run ending at slot `count - 1`. */
    method PrintItem(count: nat, out: string, first: bool, seenLastchar: bool, ghost s: seq<int>, ghost done: seq<(int, int)>)
      returns (count': nat, out': string, first': bool, seen': bool, ghost done': seq<(int, int)>)
      requires Wellformed() && 0 < count <= size && s == Contents()
      requires out == RangesText(done) && (first <==> |done| == 0)
      ensures count' < count
      ensures done + Runs(s, count) == done' + Runs(s, count')
      ensures out' == RangesText(done') && (first' <==> |done'| == 0)
      ensures seenLastchar || SeenLast(s, count) <==> seen' || SeenLast(s, count')
    {
      var top := count - 1;
      assert positions[top] == s[top];
      if positions[top] == LASTCHAR {
        assert Runs(s, count) == Runs(s, top) && SeenLast(s, count);
        count', out', first', seen', done' := top, out, first, true, done;
      } else {
        out', count' := PrintRun(top, out, first, s, done);
        PrintStep(s, top, count', done);
        RunsStep(s, top);
        done' := done + [(s[top], s[count'])];
        first' := false;
        seen' := seenLastchar;
      }
    }

    /**
     * Prints one item of `Print` starting at slot `count`: the entry, and
     * when the entries in front of it continue it by ones, a '-' and the
     * last of them.  Returns the slot the run ends at.
     */
    method PrintRun(count: nat, out: string, first: bool, ghost s: seq<int>, ghost done: seq<(int, int)>)
      returns (out': string, start: nat)
      requires Wellformed() && count < size && s == Contents()
      requires out == RangesText(done) && (first <==> |done| == 0)
      ensures start == RunStart(s, count)
      ensures out' == RangesText(done + [(s[count], s[start])])
    {
      start := RunFrom(count);
      var low, high := positions[count], positions[start];
      assert low == s[count] && high == s[start];
      var item := RangeText((low, high));
      RangesTextSnoc(done, (s[count], s[start]));
      if first {
        out' := item;
      } else {
        out' := out + "," + item;
      }
    }

    /** Walks from slot `count` towards the front while each entry is one above the next. */
    method RunFrom(count: nat) returns (start: nat)
      requires Wellformed() && count < size
      ensures start == RunStart(Contents(), count)
    {
      ghost var s := positions[..size];
      start := count;
      if start > 0 && positions[start - 1] == positions[start] + 1 {
        while true
          invariant 0 < start <= count
          invariant positions[start - 1] == positions[start] + 1
          invariant positions[start] == positions[count] + (count - start)
          invariant RunStart(s, count) == RunStart(s, start)
          decreases start
        {
          start := start - 1;
          if !(start > 0 && positions[start - 1] == positions[start] + 1) {
            break;
          }
        }
      }
    }
  }

  /** Scans neighbours for an equal pair. */
  method NeighboursDistinct(t: seq<int>) returns (ok: bool)
    ensures ok <==> forall m :: 0 < m < |t| ==> t[m - 1] != t[m]
  {
    ok := true;
    var i := 1;
    while i < |t|
      invariant 1 <= i || |t| == 0
      invariant ok <==> forall m :: 0 < m < i && m < |t| ==> t[m - 1] != t[m]
    {
      if t[i - 1] == t[i] {
        ok := false;
      }
      i := i + 1;
    }
  }

  /** A non-increasing sequence is strictly descending exactly when no two neighbours are equal. */
  lemma StrictIffNeighbours(t: seq<int>)
    requires NonIncreasing(t)
    ensures Descending(t) <==> forall m :: 0 < m < |t| ==> t[m - 1] != t[m]
  {
    if forall m :: 0 < m < |t| ==> t[m - 1] != t[m] {
      forall a, b | 0 <= a < b < |t| ensures t[a] > t[b] {
        AdjacentDistinct(t, a, b);
      }
    }
  }

  /** In a non-increasing sequence without equal neighbours, earlier entries are larger. */
  lemma {:induction false} AdjacentDistinct(t: seq<int>, a: nat, b: nat)
    requires NonIncreasing(t) && a < b < |t|
    requires forall m :: 0 < m < |t| ==> t[m - 1] != t[m]
    ensures t[a] > t[b]
    decreases b - a
  {
    if b > a + 1 {
      AdjacentDistinct(t, a + 1, b);
    }
  }

  /** Computes `SortDescending(s)` by inserting each entry, walking from the smallest end. */
  method SortedCopy(s: seq<int>) returns (r: seq<int>)
    ensures r == SortDescending(s)
  {
    r := [];
    var n := 0;
    while n < |s|
      invariant n <= |s|
      invariant r == SortDescending(s[..n])
    {
      assert s[..n + 1][..n] == s[..n];
      r := InsertCopy(r, s[n]);
      n := n + 1;
    }
    assert s[..n] == s;
  }

  method InsertCopy(s: seq<int>, pos: int) returns (r: seq<int>)
    ensures r == Insert(s, pos)
  {
    var count: nat := |s|;
    var tail: seq<int> := [];
    assert s[..count] == s;
    while count > 0 && s[count - 1] <= pos
      invariant count <= |s|
      invariant tail == s[count..]
      invariant Insert(s, pos) == Insert(s[..count], pos) + tail
      decreases count
    {
      assert s[..count][..count - 1] == s[..count - 1];
      tail := [s[count - 1]] + tail;
      count := count - 1;
    }
    r := s[..count] + [pos] + tail;
  }
}
