/**
 * Keywords and their selected characters.  A keyword's key signature is
 * the sequence of characters found at the key positions, each optionally
 * shifted by a per-position increment and mapped through a unification
 * table; the multiset variant sorts that sequence ascending.
 */
module Keywords {
  import opened Wrappers
  import KeyPositions

  /** A byte of keyword text. */
  type byte = x: int | 0 <= x < 256

  /** Character values are `u32`; the increment wraps modulo 2^32. */
  const U32_MODULUS: int := 0x1_0000_0000

  // ---------------------------------------------------------------------
  // Insertion sort of a character buffer
  // ---------------------------------------------------------------------

  ghost predicate Ascending(s: seq<int>) {
    forall i, j :: 0 <= i < j < |s| ==> s[i] <= s[j]
  }

  /** `s` with `x` placed after the last entry (from the back) that is not above it. */
  ghost function InsertAscending(s: seq<int>, x: int): (r: seq<int>)
    ensures |r| == |s| + 1
  {
    if |s| == 0 || s[|s| - 1] <= x then s + [x]
    else InsertAscending(s[..|s| - 1], x) + [s[|s| - 1]]
  }

  /** Insertion sort: each entry in turn inserted into the sorted prefix. */
  ghost function SortAscending(s: seq<int>): (r: seq<int>)
    ensures |r| == |s|
  {
    if |s| == 0 then [] else InsertAscending(SortAscending(s[..|s| - 1]), s[|s| - 1])
  }

  lemma AscendingSnoc(s: seq<int>, x: int)
    requires Ascending(s)
    requires forall i :: 0 <= i < |s| ==> s[i] <= x
    ensures Ascending(s + [x])
  {
  }

  /** Inserting into an ascending sequence keeps it ascending and adds exactly `x`. */
  lemma {:induction false} InsertAscendingSpec(s: seq<int>, x: int)
    requires Ascending(s)
    ensures Ascending(InsertAscending(s, x))
    ensures multiset(InsertAscending(s, x)) == multiset(s) + multiset{x}
  {
    if |s| > 0 && s[|s| - 1] > x {
      var init := s[..|s| - 1];
      var last := s[|s| - 1];
      assert s == init + [last];
      InsertAscendingSpec(init, x);
      var r := InsertAscending(init, x);
      forall i | 0 <= i < |r| ensures r[i] <= last {
        assert r[i] in multiset(r);
        if r[i] != x {
          assert r[i] in multiset(init);
          var j :| 0 <= j < |init| && init[j] == r[i];
          assert s[j] <= s[|s| - 1];
        }
      }
      AscendingSnoc(r, last);
    }
  }

  /** The sort yields an ascending permutation of its input. */
  lemma {:induction false} SortAscendingSpec(s: seq<int>)
    ensures Ascending(SortAscending(s))
    ensures multiset(SortAscending(s)) == multiset(s)
  {
    if |s| > 0 {
      var init := s[..|s| - 1];
      assert s == init + [s[|s| - 1]];
      SortAscendingSpec(init);
      InsertAscendingSpec(SortAscending(init), s[|s| - 1]);
    }
  }

  /** The entries get `x` in front exactly where the walk from the back stops. */
  lemma {:induction false} InsertAscendingSplit(s: seq<int>, x: int, j: nat)
    requires j <= |s|
    requires j == 0 || s[j - 1] <= x
    requires forall k :: j <= k < |s| ==> x < s[k]
    ensures InsertAscending(s, x) == s[..j] + [x] + s[j..]
    decreases |s|
  {
    if |s| > 0 && s[|s| - 1] > x {
      var init := s[..|s| - 1];
      assert j < |s|;
      InsertAscendingSplit(init, x, j);
      assert init[..j] == s[..j];
      assert init[j..] + [s[|s| - 1]] == s[j..];
    } else {
      assert j == |s|;
    }
  }

  /**
   * Sorts `base[..len]` ascending in place by insertion, shifting larger
   * entries one slot up.  Nothing beyond `len` is touched.
   */
  method SortCharSet(base: array<int>, len: int)
    requires 0 <= len <= base.Length
    modifies base
    ensures base[..len] == SortAscending(old(base[..len]))
    ensures Ascending(base[..len]) && multiset(base[..len]) == multiset(old(base[..len]))
    ensures base[len..] == old(base[len..])
  {
    ghost var s := base[..len];
    if len > 0 {
      assert SortAscending(s[..1]) == [s[0]];
      var i := 1;
      while i < len
        invariant 1 <= i <= len
        invariant base[..i] == SortAscending(s[..i])
        invariant base[i..] == old(base[i..])
      {
        assert s[..i + 1][..i] == s[..i];
        InsertLast(base, i);
        i := i + 1;
      }
      assert s[..len] == s;
    }
    SortAscendingSpec(s);
  }

  /** One pass of `SortCharSet`: inserts `base[i]` into the sorted `base[..i]`. */
  method InsertLast(base: array<int>, i: int)
    requires 0 <= i < base.Length
    modifies base
    ensures base[..i + 1] == InsertAscending(old(base[..i]), old(base[i]))
    ensures base[i + 1..] == old(base[i + 1..])
  {
    ghost var p := base[..i];
    var j := i;
    var tmp := base[j];
    while j > 0 && tmp < base[j - 1]
      invariant 0 <= j <= i
      invariant forall k {:trigger base[k]} :: 0 <= k < j ==> base[k] == p[k]
      invariant forall k {:trigger base[k]} :: j < k <= i ==> base[k] == p[k - 1]
      invariant forall k :: j <= k < i ==> tmp < p[k]
      invariant base[i + 1..] == old(base[i + 1..])
    {
      base[j] := base[j - 1];
      j := j - 1;
    }
    base[j] := tmp;
    InsertAscendingSplit(p, tmp, j);
    forall k | 0 <= k <= i ensures base[k] == (p[..j] + [tmp] + p[j..])[k] {
    }
    assert base[..i + 1] == p[..j] + [tmp] + p[j..];
  }

  // ---------------------------------------------------------------------
  // Selected characters
  // ---------------------------------------------------------------------

  /** A yielded position the extraction can read: LASTCHAR or an index of the keyword. */
  ghost predicate Readable(allchars: seq<byte>, i: int) {
    i == KeyPositions.LASTCHAR || 0 <= i < |allchars|
  }

  /** The character a readable position selects, before unification. */
  ghost function RawChar(allchars: seq<byte>, i: int, inc: Option<seq<int>>): int
    requires Readable(allchars, i) && |allchars| > 0
    requires inc.Some? && 0 <= i ==> i < |inc.value|
  {
    if i == KeyPositions.LASTCHAR then allchars[|allchars| - 1]
    else if inc.Some? then (allchars[i] + inc.value[i]) % U32_MODULUS
    else allchars[i]
  }

  ghost function Unified(unify: Option<seq<int>>, c: int): int
    requires unify.Some? ==> 0 <= c < |unify.value|
  {
    if unify.Some? then unify.value[c] else c
  }

  /**
   * What the source demands of its callers: the positions are LASTCHAR or
   * natural numbers, a keyword read at LASTCHAR is not empty, and the
   * increment and unification tables cover every readable position and
   * every character produced.
   */
  ghost predicate Extractable(allchars: seq<byte>, ps: seq<int>, unify: Option<seq<int>>, inc: Option<seq<int>>) {
    (forall k :: 0 <= k < |ps| ==> ps[k] == KeyPositions.LASTCHAR || 0 <= ps[k]) &&
    (KeyPositions.LASTCHAR in ps ==> |allchars| > 0) &&
    (inc.Some? ==> forall k :: 0 <= k < |ps| && 0 <= ps[k] < |allchars| ==> ps[k] < |inc.value|) &&
    (unify.Some? ==> forall k :: 0 <= k < |ps| && Readable(allchars, ps[k]) ==>
       0 <= RawChar(allchars, ps[k], inc) < |unify.value|)
  }

  /** Some yielded position lies at or beyond the keyword's end: the extraction aborts there. */
  ghost predicate Aborts(allchars: seq<byte>, ps: seq<int>) {
    exists k :: 0 <= k < |ps| && ps[k] >= |allchars|
  }

  /** The selected characters, one per yielded position, in iterator order. */
  ghost function Selected(allchars: seq<byte>, ps: seq<int>, unify: Option<seq<int>>, inc: Option<seq<int>>): seq<int>
    requires Extractable(allchars, ps, unify, inc) && !Aborts(allchars, ps)
  {
    if |ps| == 0 then []
    else
      var init := ps[..|ps| - 1];
      assert !Aborts(allchars, init) by {
        forall k | 0 <= k < |init| ensures init[k] < |allchars| {
          assert init[k] == ps[k];
        }
      }
      assert KeyPositions.LASTCHAR in init ==> KeyPositions.LASTCHAR in ps;
      Selected(allchars, init, unify, inc) + [Unified(unify, RawChar(allchars, ps[|ps| - 1], inc))]
  }

  /**
   * One entry per position: LASTCHAR selects the last byte, position `i`
   * selects byte `i` plus its increment, and a unify table maps each.
   */
  lemma {:induction false} SelectedAt(allchars: seq<byte>, ps: seq<int>, unify: Option<seq<int>>, inc: Option<seq<int>>)
    requires Extractable(allchars, ps, unify, inc) && !Aborts(allchars, ps)
    ensures |Selected(allchars, ps, unify, inc)| == |ps|
    ensures forall k :: 0 <= k < |ps| ==>
      Selected(allchars, ps, unify, inc)[k] == Unified(unify, RawChar(allchars, ps[k], inc))
  {
    if |ps| > 0 {
      var init := ps[..|ps| - 1];
      assert KeyPositions.LASTCHAR in init ==> KeyPositions.LASTCHAR in ps;
      assert !Aborts(allchars, init) by {
        forall k | 0 <= k < |init| ensures init[k] < |allchars| {
          assert init[k] == ps[k];
        }
      }
      SelectedAt(allchars, init, unify, inc);
    }
  }

  /** With a unify table, every selected character is one of the table's values. */
  lemma SelectedUnified(allchars: seq<byte>, ps: seq<int>, unify: Option<seq<int>>, inc: Option<seq<int>>)
    requires Extractable(allchars, ps, unify, inc) && !Aborts(allchars, ps) && unify.Some?
    ensures forall c :: c in Selected(allchars, ps, unify, inc) ==> c in unify.value
  {
    SelectedAt(allchars, ps, unify, inc);
    forall c | c in Selected(allchars, ps, unify, inc) ensures c in unify.value {
      var r := Selected(allchars, ps, unify, inc);
      var k :| 0 <= k < |r| && r[k] == c;
      assert unify.value[RawChar(allchars, ps[k], inc)] == c;
    }
  }

  /** Without tables, the signature is the keyword's bytes at the positions. */
  lemma SelectedPlain(allchars: seq<byte>, ps: seq<int>)
    requires Extractable(allchars, ps, None, None) && !Aborts(allchars, ps)
    ensures |Selected(allchars, ps, None, None)| == |ps|
    ensures forall k :: 0 <= k < |ps| ==>
      Selected(allchars, ps, None, None)[k] ==
        (if ps[k] == KeyPositions.LASTCHAR then allchars[|allchars| - 1] else allchars[ps[k]])
  {
    SelectedAt(allchars, ps, None, None);
  }

  // ---------------------------------------------------------------------
  // The keyword with its selected characters
  // ---------------------------------------------------------------------

  class KeywordExt {
    /** The keyword's text, as bytes. */
    const allchars: seq<byte>
    /** The selected characters; the first `selcharsLength` are the signature. */
    var selchars: array<int>
    var selcharsLength: int

    /** The signature is within its buffer. */
    ghost predicate Ready()
      reads this
    {
      0 <= selcharsLength <= selchars.Length
    }

    ghost function Signature(): seq<int>
      reads this, selchars
      requires Ready()
    {
      selchars[..selcharsLength]
    }

    constructor (allchars: seq<byte>)
      ensures this.allchars == allchars
      ensures Ready() && Signature() == []
    {
      this.allchars := allchars;
      selchars := new int[0];
      selcharsLength := 0;
    }

    /**
     * Reads one character per yielded position into a fresh buffer and
     * makes it the signature.  A position beyond the keyword aborts.
     */
    method InitSelcharsLow(ps: seq<int>, unify: Option<seq<int>>, inc: Option<seq<int>>)
      returns (keySet: array<int>, aborted: bool)
      requires Extractable(allchars, ps, unify, inc)
      modifies this
      ensures aborted <==> Aborts(allchars, ps)
      ensures aborted ==> selchars == old(selchars) && selcharsLength == old(selcharsLength)
      ensures !aborted ==> fresh(keySet) && keySet.Length == |ps| && selchars == keySet && Ready()
      ensures !aborted ==> selcharsLength == |ps| && keySet[..] == Selected(allchars, ps, unify, inc)
    {
      keySet, aborted := Collect(ps, unify, inc);
      if !aborted {
        selchars := keySet;
        selcharsLength := |ps|;
      }
    }

    /** The loop of `InitSelcharsLow`: one character per position into a fresh buffer. */
    method Collect(ps: seq<int>, unify: Option<seq<int>>, inc: Option<seq<int>>)
      returns (keySet: array<int>, aborted: bool)
      requires Extractable(allchars, ps, unify, inc)
      ensures fresh(keySet) && keySet.Length == |ps|
      ensures aborted <==> Aborts(allchars, ps)
      ensures !aborted ==> keySet[..] == Selected(allchars, ps, unify, inc)
    {
      keySet := new int[|ps|];
      var k := 0;
      while k < |ps|
        modifies keySet
        invariant k <= |ps|
        invariant forall j :: 0 <= j < k ==> ps[j] < |allchars|
        invariant forall j :: 0 <= j < k ==> keySet[j] == Unified(unify, RawChar(allchars, ps[j], inc))
      {
        var i := ps[k];
        var c: int;
        if i == KeyPositions.LASTCHAR {
          c := allchars[|allchars| - 1];
        } else if i < |allchars| {
          c := allchars[i];
          if inc.Some? {
            c := (c + inc.value[i]) % U32_MODULUS;
          }
        } else {
          assert ps[k] >= |allchars|;
          return keySet, true;
        }
        assert c == RawChar(allchars, i, inc);
        if unify.Some? {
          c := unify.value[c];
        }
        keySet[k] := c;
        k := k + 1;
      }
      SelectedAt(allchars, ps, unify, inc);
      assert keySet[..] == Selected(allchars, ps, unify, inc);
      return keySet, false;
    }

    /** The signature for a tuple of positions: no increments. */
    method InitSelcharsTuple(ps: seq<int>, unify: Option<seq<int>>) returns (aborted: bool)
      requires Extractable(allchars, ps, unify, None)
      modifies this
      ensures aborted <==> Aborts(allchars, ps)
      ensures !aborted ==> Ready() && fresh(selchars) && Signature() == Selected(allchars, ps, unify, None)
    {
      var keySet;
      keySet, aborted := InitSelcharsLow(ps, unify, None);
    }

    /** The signature for a multiset of positions: the selected characters sorted ascending. */
    method InitSelcharsMultiset(ps: seq<int>, unify: Option<seq<int>>, inc: Option<seq<int>>) returns (aborted: bool)
      requires Extractable(allchars, ps, unify, inc)
      modifies this
      ensures aborted <==> Aborts(allchars, ps)
      ensures !aborted ==> Ready() && fresh(selchars)
      ensures !aborted ==> Signature() == SortAscending(Selected(allchars, ps, unify, inc))
      ensures !aborted ==> Ascending(Signature()) && multiset(Signature()) == multiset(Selected(allchars, ps, unify, inc))
    {
      var keySet;
      keySet, aborted := InitSelcharsLow(ps, unify, inc);
      if !aborted {
        assert keySet[..selcharsLength] == keySet[..];
        SortCharSet(keySet, selcharsLength);
        assert keySet[..selcharsLength] == keySet[..];
      }
    }
  }
}
