/**
 * The signature hash table: a power-of-two array of keyword slots filled
 * by double hashing.  Two keywords collide when their key signatures are
 * equal (and, unless lengths are ignored, so are their lengths).
 */
module HashTables {
  import opened Keywords

  /** The table has room for ten times the number of keywords. */
  const SIZE_FACTOR: int := 10
  const U32_LIMIT: int := 0x1_0000_0000

  function Pow2(n: nat): (r: nat)
    ensures r >= 1
  {
    if n == 0 then 1 else 2 * Pow2(n - 1)
  }

  // ---------------------------------------------------------------------
  // Arithmetic facts
  // ---------------------------------------------------------------------

  lemma MulAtLeast(a: int, n: int)
    requires a >= 1 && n > 0
    ensures a * n >= n
  {
  }

  lemma MulLe(a: int, b: int, c: int)
    requires 0 <= a <= b && c >= 0
    ensures a * c <= b * c
  {
  }

  /** Quotient and remainder are unique. */
  lemma ModUnique(m: int, k: int, n: int, r: int)
    requires n > 0 && 0 <= r < n && m == k * n + r
    ensures m % n == r && m / n == k
  {
    var q, s := m / n, m % n;
    assert m == q * n + s;
    assert (k - q) * n == s - r;
    if k > q {
      assert (k - q) * n >= n by { MulAtLeast(k - q, n); }
    } else if k < q {
      assert (q - k) * n >= n by { MulAtLeast(q - k, n); }
    }
  }

  lemma ModAdd(a: int, b: int, n: int)
    requires n > 0
    ensures (a % n + b) % n == (a + b) % n
  {
    var r := (a % n + b) % n;
    var q := (a % n + b) / n;
    assert a % n + b == q * n + r;
    assert a == (a / n) * n + a % n;
    assert a + b == (a / n + q) * n + r;
    ModUnique(a + b, a / n + q, n, r);
  }

  /** Reducing modulo a multiple of `a` first does not change the remainder modulo `a`. */
  lemma ModMod(x: int, a: int, b: int)
    requires a > 0 && b > 0
    ensures x % (a * b) % a == x % a
  {
    var q, r := x / (a * b), x % (a * b);
    var s, t := r / a, r % a;
    assert x == q * (a * b) + r;
    assert r == s * a + t;
    assert x == (q * b + s) * a + t;
    ModUnique(x, q * b + s, a, t);
  }

  lemma DivDiv(x: int, p: int, q: int)
    requires x >= 0 && p > 0 && q > 0
    ensures x / p / q == x / (p * q)
  {
    var a, r1 := x / p, x % p;
    var b, r2 := a / q, a % q;
    assert x == a * p + r1;
    assert a == b * q + r2;
    assert a * p == b * (p * q) + r2 * p;
    assert r2 * p <= (q - 1) * p by { MulLe(r2, q - 1, p); }
    assert (q - 1) * p == p * q - p;
    ModUnique(x, b, p * q, r2 * p + r1);
  }

  lemma DivBelow(x: int, p: int, bound: int)
    requires 0 <= x < p * bound && p > 0 && bound > 0
    ensures x / p < bound
  {
    if x / p >= bound {
      MulLe(bound, x / p, p);
    }
  }

  lemma DivMod(x: int, p: int)
    requires p > 0
    ensures x == (x / p) * p + x % p && 0 <= x % p < p
  {
  }

  lemma DivNonneg(h: int, p: int)
    requires h >= 0 && p > 0
    ensures h / p >= 0
  {
    DivMod(h, p);
  }

  lemma Pow2Add(a: nat, b: nat)
    ensures Pow2(a + b) == Pow2(a) * Pow2(b)
  {
    if a > 0 {
      Pow2Add(a - 1, b);
    }
  }

  lemma Pow2Word()
    ensures Pow2(16) == 65536 && Pow2(32) == U32_LIMIT
  {
    assert Pow2(2) == 4;
    Pow2Add(2, 2);
    Pow2Add(4, 4);
    Pow2Add(8, 8);
    Pow2Add(16, 16);
  }

  /** An odd factor does not help a power of two divide a product. */
  lemma {:induction false} OddFactor(k: nat, d: int, c: int)
    requires c % 2 == 1 && (d * c) % Pow2(k) == 0
    ensures d % Pow2(k) == 0
  {
    if k > 0 {
      var p := Pow2(k - 1);
      assert Pow2(k) == 2 * p;
      var q := (d * c) / Pow2(k);
      assert d * c == q * (2 * p);
      assert d % 2 == 0 by {
        if d % 2 == 1 {
          var dd, cc := d / 2, c / 2;
          assert d == 2 * dd + 1 && c == 2 * cc + 1;
          assert d * c == (2 * dd * cc + dd + cc) * 2 + 1;
          ModUnique(d * c, 2 * dd * cc + dd + cc, 2, 1);
          ModUnique(d * c, q * p, 2, 0);
        }
      }
      var e := d / 2;
      assert d == 2 * e;
      assert e * c == q * p;
      ModUnique(e * c, q, p, 0);
      OddFactor(k - 1, e, c);
      var f := e / p;
      assert e == f * p;
      ModUnique(d, f, Pow2(k), 0);
    }
  }

  // ---------------------------------------------------------------------
  // 32-bit words
  // ---------------------------------------------------------------------

  /** Bitwise exclusive or of two naturals, bit by bit from the lowest. */
  function Xor(a: nat, b: nat): nat
    decreases a + b
  {
    if a == 0 && b == 0 then 0 else 2 * Xor(a / 2, b / 2) + (a % 2 + b % 2) % 2
  }

  /** A right shift by `log` bits. */
  function Shr(h: nat, log: nat): nat
  {
    DivNonneg(h, Pow2(log));
    h / Pow2(log)
  }

  /** Shifting a 32-bit word one bit left and adding one gives an odd number. */
  lemma ShiftOneOdd(x: nat)
    ensures ((2 * x) % U32_LIMIT + 1) % 2 == 1
  {
    var q := (2 * x) / U32_LIMIT;
    assert 2 * x == q * U32_LIMIT + (2 * x) % U32_LIMIT;
    var h := x - q * (U32_LIMIT / 2);
    assert (2 * x) % U32_LIMIT == 2 * h;
    ModUnique(2 * h + 1, h, 2, 1);
  }

  // ---------------------------------------------------------------------
  // The table size: the highest set bit of 10 * n
  // ---------------------------------------------------------------------

  /**
   * The shift cascade of the constructor: shifts `v` right by 16, 8, 4, 2
   * and 1 bits whenever something is left, counting the bits shifted out.
   */
  method HighestBit(v0: int) returns (shift: nat)
    requires 0 <= v0 < U32_LIMIT
    ensures shift < 32
    ensures v0 == 0 ==> shift == 0
    ensures v0 > 0 ==> Pow2(shift) <= v0 < 2 * Pow2(shift)
  {
    Pow2Word();
    var v := v0;
    shift := 0;
    v, shift := CascadeStep(v0, v, shift, 16);
    v, shift := CascadeStep(v0, v, shift, 8);
    v, shift := CascadeStep(v0, v, shift, 4);
    v, shift := CascadeStep(v0, v, shift, 2);
    v, shift := CascadeStep(v0, v, shift, 1);
    if v0 > 0 {
      var p := Pow2(shift);
      assert v0 / p == 1;
      DivMod(v0, p);
      Pow2Add(1, shift);
    }
  }

  /** One step of the cascade: shifts right by `b` bits when that leaves something, keeping `v == v0 >> shift`. */
  method CascadeStep(ghost v0: int, v: int, shift: nat, b: nat)
    returns (v': int, shift': nat)
    requires b > 0 && 0 <= v0 && v == v0 / Pow2(shift) && v < Pow2(2 * b) && (v0 > 0 ==> v > 0)
    ensures v' == v0 / Pow2(shift') && v' < Pow2(b) && (v0 > 0 ==> v' > 0)
    ensures v0 == 0 ==> shift' == shift
    ensures shift' == shift || shift' == shift + b
  {
    v', shift' := v, shift;
    Pow2Add(b, b);
    if v / Pow2(b) > 0 {
      v' := v / Pow2(b);
      shift' := shift + b;
      DivDiv(v0, Pow2(shift), Pow2(b));
      Pow2Add(shift, b);
      DivBelow(v, Pow2(b), Pow2(b));
    }
  }

  // ---------------------------------------------------------------------
  // The probe sequence
  // ---------------------------------------------------------------------

  /** The slot visited after `k` steps of `inc` from `start` in a table of `n` slots. */
  ghost function Probe(start: int, inc: int, n: int, k: nat): int
    requires n > 0
  {
    (start + k * inc) % n
  }

  lemma ProbeStep(start: int, inc: int, n: int, k: nat)
    requires n > 0
    ensures (Probe(start, inc, n, k) + inc) % n == Probe(start, inc, n, k + 1)
  {
    ModAdd(start + k * inc, inc, n);
    assert start + k * inc + inc == start + (k + 1) * inc;
  }

  /** An odd step on a power-of-two table never revisits a slot within one round. */
  lemma ProbeInjective(start: int, inc: int, log: nat, j1: nat, j2: nat)
    requires inc % 2 == 1 && j1 < j2 < Pow2(log)
    ensures Probe(start, inc, Pow2(log), j1) != Probe(start, inc, Pow2(log), j2)
  {
    var n := Pow2(log);
    var a1, a2 := start + j1 * inc, start + j2 * inc;
    if a1 % n == a2 % n {
      var d := j2 - j1;
      assert a2 - a1 == d * inc;
      assert a1 == (a1 / n) * n + a1 % n && a2 == (a2 / n) * n + a2 % n;
      assert d * inc == (a2 / n - a1 / n) * n;
      ModUnique(d * inc, a2 / n - a1 / n, n, 0);
      OddFactor(log, d, inc);
      ModUnique(d, 0, n, d);
    }
  }

  /** The slots visited in the first `k` steps. */
  ghost function Visited(start: int, inc: int, n: int, k: nat): set<int>
    requires n > 0
  {
    if k == 0 then {} else Visited(start, inc, n, k - 1) + {Probe(start, inc, n, k - 1)}
  }

  ghost function Range(n: nat): set<int> {
    if n == 0 then {} else Range(n - 1) + {n - 1}
  }

  lemma {:induction false} RangeSpec(n: nat)
    ensures |Range(n)| == n
    ensures forall x :: x in Range(n) <==> 0 <= x < n
  {
    if n > 0 {
      RangeSpec(n - 1);
    }
  }

  lemma {:induction false} VisitedSpec(start: int, inc: int, log: nat, k: nat)
    requires inc % 2 == 1 && k <= Pow2(log)
    ensures |Visited(start, inc, Pow2(log), k)| == k
    ensures Visited(start, inc, Pow2(log), k) <= Range(Pow2(log))
    ensures forall x :: x in Visited(start, inc, Pow2(log), k) ==>
      exists j :: 0 <= j < k && Probe(start, inc, Pow2(log), j) == x
  {
    if k > 0 {
      VisitedSpec(start, inc, log, k - 1);
      RangeSpec(Pow2(log));
      var n := Pow2(log);
      var x := Probe(start, inc, n, k - 1);
      if x in Visited(start, inc, n, k - 1) {
        var j :| 0 <= j < k - 1 && Probe(start, inc, n, j) == x;
        ProbeInjective(start, inc, log, j, k - 1);
      }
    }
  }

  lemma SubsetCard(a: set<int>, b: set<int>)
    requires a <= b
    ensures |a| <= |b|
  {
    assert b == a + (b - a);
    assert a * (b - a) == {};
  }

  /** An odd step on a power-of-two table reaches every slot within one round. */
  lemma ProbeVisitsAll(start: int, inc: int, log: nat, e: int)
    requires inc % 2 == 1 && 0 <= e < Pow2(log)
    ensures exists j :: 0 <= j < Pow2(log) && Probe(start, inc, Pow2(log), j) == e
  {
    var n := Pow2(log);
    VisitedSpec(start, inc, log, n);
    RangeSpec(n);
    var v := Visited(start, inc, n, n);
    if e !in v {
      SubsetCard(v, Range(n) - {e});
    }
  }

  // ---------------------------------------------------------------------
  // The table
  // ---------------------------------------------------------------------

  type u32 = x: int | 0 <= x < U32_LIMIT

  class HashTable {
    const table: array<KeywordExt?>
    const size: nat
    const logSize: nat
    const ignoreLength: bool
    /** The hash of a key signature; its definition is not part of this model. */
    const hashpjw: seq<int> -> u32
    var collisions: nat

    ghost predicate Valid()
    {
      logSize < 32 && size == Pow2(logSize) && table.Length == size
    }

    /**
     * Room for `SIZE_FACTOR * n` keywords (the product taken as a 32-bit
     * word), narrowed to the power of two at its highest set bit.
     */
    constructor (n: u32, ignoreLength: bool, hashpjw: seq<int> -> u32)
      ensures Valid() && fresh(table) && collisions == 0
      ensures this.ignoreLength == ignoreLength && this.hashpjw == hashpjw
      ensures forall i :: 0 <= i < size ==> table[i] == null
      ensures var v := (n * SIZE_FACTOR) % U32_LIMIT;
        (v == 0 ==> size == 1) && (v > 0 ==> size <= v < 2 * size)
    {
      var v := (n * SIZE_FACTOR) % U32_LIMIT;
      var shift := HighestBit(v);
      logSize := shift;
      size := Pow2(shift);
      this.ignoreLength := ignoreLength;
      this.hashpjw := hashpjw;
      table := new KeywordExt?[Pow2(shift)](_ => null);
      collisions := 0;
    }

    /** Equal signatures, and equal lengths unless lengths are ignored. */
    ghost predicate Same(a: KeywordExt, b: KeywordExt)
      reads a, b, a.selchars, b.selchars
      requires a.Ready() && b.Ready()
    {
      a.Signature() == b.Signature() && (ignoreLength || |a.allchars| == |b.allchars|)
    }

    /** Compares signature lengths, then the selected characters one by one, then keyword lengths. */
    method Equal(a: KeywordExt, b: KeywordExt) returns (eq: bool)
      requires a.Ready() && b.Ready()
      ensures eq <==> Same(a, b)
    {
      if a.selcharsLength != b.selcharsLength {
        return false;
      }
      var i := 0;
      while i < b.selcharsLength
        invariant 0 <= i <= b.selcharsLength
        invariant forall j :: 0 <= j < i ==> a.selchars[j] == b.selchars[j]
      {
        if a.selchars[i] != b.selchars[i] {
          assert a.Signature()[i] != b.Signature()[i];
          return false;
        }
        i := i + 1;
      }
      assert a.Signature() == b.Signature();
      if !ignoreLength && |a.allchars| != |b.allchars| {
        return false;
      }
      return true;
    }

    /** `Same` is an equivalence relation on keywords. */
    lemma SameEquivalence(a: KeywordExt, b: KeywordExt, c: KeywordExt)
      requires a.Ready() && b.Ready() && c.Ready()
      ensures Same(a, a)
      ensures Same(a, b) <==> Same(b, a)
      ensures Same(a, b) && Same(b, c) ==> Same(a, c)
    {
    }

    /** The keyword length as mixed into the step; zero when lengths are ignored. */
    ghost function LengthBits(item: KeywordExt): nat
    {
      if ignoreLength then 0 else |item.allchars| % U32_LIMIT
    }

    /** The first slot tried: the hash masked to the table size. */
    ghost function Start(item: KeywordExt): int
      reads item, item.selchars
      requires Valid() && item.Ready()
    {
      hashpjw(item.Signature()) % size
    }

    /** The step: the upper hash bits mixed with the length, shifted left as a 32-bit word, plus one. */
    ghost function Increment(item: KeywordExt): int
      reads item, item.selchars
      requires Valid() && item.Ready()
    {
      (2 * Xor(Shr(hashpjw(item.Signature()), logSize), LengthBits(item))) % U32_LIMIT + 1
    }

    /** The step is always odd, so it is coprime to the table size. */
    lemma IncrementOdd(item: KeywordExt)
      requires Valid() && item.Ready()
      ensures Increment(item) % 2 == 1
    {
      ShiftOneOdd(Xor(Shr(hashpjw(item.Signature()), logSize), LengthBits(item)));
    }

    /** Keywords that are the same follow the same probe path. */
    lemma SamePath(a: KeywordExt, b: KeywordExt)
      requires Valid() && a.Ready() && b.Ready() && Same(a, b)
      ensures Start(a) == Start(b) && Increment(a) == Increment(b)
    {
    }

    /** Adding the step as a 32-bit word and masking is the step modulo the table size. */
    lemma WrappedStep(probe: int, increment: int)
      requires Valid() && probe >= 0 && increment >= 0
      ensures (probe + increment) % U32_LIMIT % size == (probe + increment) % size
    {
      Pow2Word();
      Pow2Add(logSize, 32 - logSize);
      ModMod(probe + increment, size, Pow2(32 - logSize));
    }

    /**
     * Probes from `Start(item)` in steps of `Increment(item)` until an empty
     * slot or an occupant that is the same as `item`.  That occupant is
     * returned and the table is left alone; otherwise `item` fills the empty
     * slot.  Each other occupant passed counts as a collision.  The probe
     * path reaches every slot, so the search stops exactly when the table
     * has an empty slot or an occupant the same as `item`; without either
     * the source's loop never ends.
     */
    method Insert(item: KeywordExt) returns (r: KeywordExt?)
      requires Valid() && item.Ready()
      requires forall i :: 0 <= i < size && table[i] != null ==> table[i].Ready()
      requires exists i :: 0 <= i < size && (table[i] == null || Same(table[i], item))
      modifies this, table
      ensures Valid() && collisions >= old(collisions)
      ensures var k := collisions - old(collisions);
        var p := Probe(Start(item), Increment(item), size, k);
        0 <= k < size &&
        (forall j :: 0 <= j < k ==>
          var q := Probe(Start(item), Increment(item), size, j);
          old(table[q]) != null && !Same(old(table[q]), item)) &&
        (r != null ==> r == old(table[p]) && Same(r, item) && table[..] == old(table[..])) &&
        (r == null ==> old(table[p]) == null && table[..] == old(table[..])[p := item])
    {
      var hashVal := hashpjw(item.selchars[..item.selcharsLength]);
      var probe := hashVal % size;
      var lengthBits := if ignoreLength then 0 else |item.allchars| % U32_LIMIT;
      var increment := (2 * Xor(Shr(hashVal, logSize), lengthBits)) % U32_LIMIT + 1;
      assert increment == Increment(item) && probe == Start(item);
      IncrementOdd(item);
      var found;
      probe, found := Search(item, probe, increment);
      if found {
        return table[probe];
      }
      table[probe] := item;
      return null;
    }

    /**
     * Inserting a keyword and then one that is the same: the second call
     * finds the first (or the occupant the first call found) and changes
     * nothing, so no further slot is occupied, even on a table the first
     * call filled.
     */
    method InsertSameTwice(a: KeywordExt, b: KeywordExt) returns (r1: KeywordExt?, r2: KeywordExt?)
      requires Valid() && a.Ready() && b.Ready() && Same(a, b)
      requires forall i :: 0 <= i < size && table[i] != null ==> table[i].Ready()
      requires exists i :: 0 <= i < size && (table[i] == null || Same(table[i], a))
      modifies this, table
      ensures r1 == null ==> r2 == a
      ensures r1 != null ==> r2 == r1 && table[..] == old(table[..])
      ensures r1 == null ==> exists p :: 0 <= p < size && old(table[p]) == null && table[..] == old(table[..])[p := a]
    {
      ghost var c0 := collisions;
      ghost var t0 := table[..];
      r1 := Insert(a);
      ghost var p1 := Probe(Start(a), Increment(a), size, collisions - c0);
      ghost var t1 := table[..];
      ghost var c1 := collisions;
      SamePath(a, b);
      assert t1[p1] != null && Same(t1[p1], b);
      r2 := Insert(b);
      ghost var k1, k2 := c1 - c0, collisions - c1;
      assert k1 == k2;
      if r1 == null {
        assert 0 <= p1 < size && t0[p1] == null && table[..] == t0[p1 := a];
      }
    }

    /** The probe loop of `Insert`: the slot where the search stops, and whether an equal keyword sits there. */
    method Search(item: KeywordExt, start: int, increment: int) returns (probe: int, found: bool)
      requires Valid() && item.Ready() && 0 <= start < size && increment >= 0 && increment % 2 == 1
      requires forall i :: 0 <= i < size && table[i] != null ==> table[i].Ready()
      requires exists i :: 0 <= i < size && (table[i] == null || Same(table[i], item))
      modifies this
      ensures collisions >= old(collisions)
      ensures var k := collisions - old(collisions);
        k < size && probe == Probe(start, increment, size, k) &&
        forall j :: 0 <= j < k ==>
          table[Probe(start, increment, size, j)] != null &&
          !Same(table[Probe(start, increment, size, j)], item)
      ensures 0 <= probe < size
      ensures found ==> table[probe] != null && Same(table[probe], item)
      ensures !found ==> table[probe] == null
    {
      probe := start;
      ghost var k: nat := 0;
      ghost var c0 := collisions;
      ghost var e :| 0 <= e < size && (table[e] == null || Same(table[e], item));
      ModUnique(start, 0, size, start);
      while table[probe] != null
        invariant k < size && collisions == c0 + k
        invariant 0 <= probe == Probe(start, increment, size, k)
        invariant forall j :: 0 <= j < k ==>
          table[Probe(start, increment, size, j)] != null &&
          !old(Same(table[Probe(start, increment, size, j)], item))
        decreases size - k
      {
        var eq := Equal(table[probe], item);
        if eq {
          return probe, true;
        }
        collisions := collisions + 1;
        ProbeStep(start, increment, size, k);
        WrappedStep(probe, increment);
        probe := (probe + increment) % U32_LIMIT % size;
        assert probe == Probe(start, increment, size, k + 1);
        k := k + 1;
        if k == size {
          ProbeVisitsAll(start, increment, logSize, e);
          assert false;
        }
      }
      return probe, false;
    }
  }
}
