/**
 The bit set of page numbers 1..size in its three forms: a bitmap for small sizes, a hash table of the
 members while there are few, and a node that spreads the numbers over smaller bit sets.
 */
module Bitvec {
  import opened SlotRing

  /** The room left in a node of 512 bytes holds 496 bytes of bitmap, 124 hash slots or 62 pointers. */
  const NELEM: nat := 496
  const NBIT: nat := 3968
  const NINT: nat := 124
  const MXHASH: nat := 62
  const NPTR: nat := 62
  const U32: nat := 0x1_0000_0000
  const MAX_SIZE: nat := U32 - NPTR

  datatype Sub = Absent | Present(v: Vec)

  /** The zero of a hash slot stands for an empty one. */
  datatype Vec =
    | Bitmap(size: nat, bytes: seq<bv8>)
    | Hash(size: nat, nSet: nat, slots: seq<nat>)
    | Node(size: nat, divisor: nat, subs: seq<Sub>)

  function Mask(k: nat): bv8
    requires k < 8
  {
    if k == 0 then 1 else if k == 1 then 2 else if k == 2 then 4 else if k == 3 then 8
    else if k == 4 then 16 else if k == 5 then 32 else if k == 6 then 64 else 128
  }

  predicate Bit(b: bv8, k: nat)
    requires k < 8
  {
    b & Mask(k) != 0
  }

  function WithBit(b: bv8, k: nat): bv8
    requires k < 8
  {
    b | Mask(k)
  }

  function WithoutBit(b: bv8, k: nat): bv8
    requires k < 8
  {
    b & !Mask(k)
  }

  /** Setting and clearing a bit of a byte changes that bit only. */
  lemma BitChanged(b: bv8, k: nat, m: nat)
    requires k < 8 && m < 8
    ensures Bit(WithBit(b, k), m) <==> Bit(b, m) || k == m
    ensures Bit(WithoutBit(b, k), m) <==> Bit(b, m) && k != m
    ensures !Bit(0, k)
  {
  }

  predicate BitAt(bytes: seq<bv8>, x: nat)
    requires x < 8 * |bytes|
  {
    Bit(bytes[x / 8], x % 8)
  }

  function HashOf(i: nat): nat
    requires i > 0
  {
    (i - 1) % NINT
  }

  /** The slots before p on the probe of h are taken. */
  ghost predicate PathFull(s: seq<nat>, h: nat, p: nat)
    requires h < |s| && p < |s|
  {
    forall q: nat :: q < |s| && q != p && OnPath(h, q, p, |s|) ==> s[q] != 0
  }

  /** Every number is met by its probe, stands in one slot only, and n slots are taken, but not all. */
  ghost predicate HashOk(s: seq<nat>, n: nat) {
    && |s| == NINT && n < NINT && multiset(s)[0] == NINT - n
    && (forall v :: v > 0 ==> multiset(s)[v] <= 1)
    && forall p :: 0 <= p < |s| && s[p] != 0 ==> PathFull(s, HashOf(s[p]), p)
  }

  /** How many numbers each part of a node keeps, in 32-bit arithmetic. */
  function Divisor(size: nat): (d: nat)
    ensures size <= MAX_SIZE ==> size <= NPTR * d && (size > NBIT ==> 0 < d < size)
  {
    (size + NPTR - 1) % U32 / NPTR
  }

  /** The parts of a node keep all numbers just when the rounding up does not wrap around. */
  lemma CoversIff(size: nat)
    requires size < U32
    ensures size <= NPTR * Divisor(size) <==> size <= MAX_SIZE
  {
  }

  ghost predicate Ok(v: Vec) {
    match v
    case Bitmap(size, bytes) => size <= NBIT && |bytes| == NELEM
    case Hash(size, nSet, slots) =>
      NBIT < size <= MAX_SIZE && HashOk(slots, nSet) && forall p :: 0 <= p < |slots| ==> slots[p] <= size
    case Node(size, divisor, subs) =>
      && NBIT < size <= MAX_SIZE && divisor == Divisor(size) && |subs| == NPTR
      && forall k :: 0 <= k < |subs| && subs[k].Present? ==> Ok(subs[k].v) && subs[k].v.size == divisor
  }

  lemma BinBound(i: nat, d: nat, size: nat)
    requires 0 < i <= size <= NPTR * d
    ensures d > 0 && Bin(i, d) < NPTR
  {
  }

  lemma SamePlace(x: nat, y: nat, d: nat)
    requires d > 0 && x / d == y / d && x % d == y % d
    ensures x == y
  {
  }

  /** Where a node keeps number i. */
  function Bin(i: nat, d: nat): nat
    requires i > 0 && d > 0
  {
    (i - 1) / d
  }

  function Within(i: nat, d: nat): (r: nat)
    requires i > 0 && d > 0
    ensures 0 < r <= d
  {
    (i - 1) % d + 1
  }

  /** Number i is in the set. */
  ghost predicate Has(v: Vec, i: nat) {
    && 0 < i <= v.size
    && match v
       case Bitmap(size, bytes) => i <= 8 * |bytes| && BitAt(bytes, i - 1)
       case Hash(size, nSet, slots) => i in slots
       case Node(size, divisor, subs) =>
         && divisor > 0 && Bin(i, divisor) < |subs| && subs[Bin(i, divisor)].Present?
         && Has(subs[Bin(i, divisor)].v, Within(i, divisor))
  }

  lemma {:induction false} AllZero(s: seq<nat>)
    requires forall p :: 0 <= p < |s| ==> s[p] == 0
    ensures multiset(s)[0] == |s| && forall v :: v > 0 ==> multiset(s)[v] == 0
  {
    if s != [] {
      AllZero(s[..|s| - 1]);
      assert s == s[..|s| - 1] + [s[|s| - 1]];
    }
  }

  function EmptySlots(): (s: seq<nat>)
    ensures HashOk(s, 0) && |s| == NINT && forall p :: 0 <= p < |s| ==> s[p] == 0
  {
    var s := seq(NINT, _ => 0);
    AllZero(s);
    s
  }

  lemma EmptyBitmap(v: Vec)
    requires v.Bitmap? && forall b :: 0 <= b < |v.bytes| ==> v.bytes[b] == 0
    ensures forall i :: !Has(v, i)
  {
  }

  function Create(size: nat): (v: Vec)
    requires size <= MAX_SIZE
    ensures Ok(v) && v.size == size && forall i :: !Has(v, i)
  {
    if size <= NBIT then
      var v := Bitmap(size, seq(NELEM, _ => 0));
      EmptyBitmap(v);
      v
    else Hash(size, 0, EmptySlots())
  }

  /** Probes for number i: ends at its slot or at an empty one. */
  method Probe(s: seq<nat>, i: nat, n: nat) returns (h: nat)
    requires i > 0 && HashOk(s, n)
    ensures h < NINT && PathFull(s, HashOf(i), h)
    ensures s[h] == i || (s[h] == 0 && i !in s)
  {
    assert 0 in multiset(s);
    ghost var z: nat :| z < |s| && s[z] == 0;
    ghost var h0 := HashOf(i);
    h := HashOf(i);
    while s[h] != 0
      invariant h < NINT && OnPath(h0, h, z, NINT)
      invariant forall q: nat :: q < NINT && q != h && OnPath(h0, q, h, NINT) ==> s[q] != 0 && s[q] != i
      decreases Dist(h, z, NINT)
    {
      if s[h] == i {
        return;
      }
      StepsAreModular(h, NINT);
      h := (h + 1) % NINT;
    }
    NotThere(s, i, n, h);
  }

  lemma NotThere(s: seq<nat>, i: nat, n: nat, h: nat)
    requires i > 0 && HashOk(s, n) && h < NINT && s[h] == 0
    requires forall q: nat :: q < NINT && q != h && OnPath(HashOf(i), q, h, NINT) ==> s[q] != i
    ensures i !in s
  {
  }

  /** Putting a number into the empty slot its probe ends at. */
  lemma PutKeepsHash(s: seq<nat>, i: nat, n: nat, h: nat)
    requires i > 0 && HashOk(s, n) && n + 1 < NINT && h < NINT && s[h] == 0 && i !in s && PathFull(s, HashOf(i), h)
    ensures HashOk(s[h := i], n + 1)
    ensures forall x :: x > 0 ==> (x in s[h := i] <==> x in s || x == i)
  {
    var t := s[h := i];
    assert multiset(t) == multiset(s) - multiset{0} + multiset{i};
    assert multiset(s)[i] == 0;
    forall p | 0 <= p < |t| && t[p] != 0 ensures PathFull(t, HashOf(t[p]), p) {
      if p != h {
        assert PathFull(s, HashOf(s[p]), p);
      }
    }
    forall x | x > 0 ensures x in t <==> x in multiset(s) || x == i {
      assert x in t <==> x in multiset(t);
    }
  }

  /** Changing the sub-set that keeps number i changes number i only. */
  lemma SubChanged(v: Vec, i: nat, sub: Vec, on: bool)
    requires Ok(v) && v.Node? && 0 < i <= v.size && Bin(i, v.divisor) < |v.subs|
    requires Ok(sub) && sub.size == v.divisor
    requires var k, r := Bin(i, v.divisor), Within(i, v.divisor);
             forall x :: Has(sub, x) <==> if x == r then on else v.subs[k].Present? && Has(v.subs[k].v, x)
    ensures var r := v.(subs := v.subs[Bin(i, v.divisor) := Present(sub)]);
            && Ok(r) && (forall x :: Has(r, x) <==> if x == i then on else Has(v, x))
  {
    var d := v.divisor;
    var r := v.(subs := v.subs[Bin(i, d) := Present(sub)]);
    forall x: nat ensures Has(r, x) <==> if x == i then on else Has(v, x) {
      if 0 < x <= v.size && Bin(x, d) == Bin(i, d) && x != i {
        if Within(x, d) == Within(i, d) {
          SamePlace(x - 1, i - 1, d);
        }
      }
    }
  }

  /** A sub-set that gains at most number i leaves a set that gains at most number i. */
  lemma SubGains(v: Vec, i: nat, sub: Vec)
    requires Ok(v) && v.Node? && 0 < i <= v.size && Bin(i, v.divisor) < |v.subs|
    requires Ok(sub) && sub.size == v.divisor
    requires var k, r := Bin(i, v.divisor), Within(i, v.divisor);
             forall x :: Has(sub, x) ==> x == r || (v.subs[k].Present? && Has(v.subs[k].v, x))
    ensures var r := v.(subs := v.subs[Bin(i, v.divisor) := Present(sub)]);
            && Ok(r) && (forall x :: Has(r, x) ==> x == i || Has(v, x))
  {
    var d := v.divisor;
    var r := v.(subs := v.subs[Bin(i, d) := Present(sub)]);
    forall x: nat | Has(r, x) ensures x == i || Has(v, x) {
      if Bin(x, d) == Bin(i, d) {
        assert Has(sub, Within(x, d));
        if Within(x, d) == Within(i, d) {
          SamePlace(x - 1, i - 1, d);
        }
      }
    }
  }

  /** What a change that may run out of memory leaves: the set changed, or no number that was not there. */
  ghost predicate Changed(was: Vec, now: Vec, i: nat, on: bool, ok: bool) {
    && (ok ==> forall x :: Has(now, x) <==> if x == i then on else Has(was, x))
    && (!ok ==> forall x :: Has(now, x) ==> x == i || Has(was, x))
  }

  /** Setting and clearing a bit of a bitmap. */
  method PutBit(bytes: seq<bv8>, size: nat, i: nat, on: bool) returns (r: seq<bv8>)
    requires Ok(Bitmap(size, bytes)) && 0 < i <= size
    ensures Ok(Bitmap(size, r))
    ensures forall x :: Has(Bitmap(size, r), x) <==> if x == i then on else Has(Bitmap(size, bytes), x)
  {
    hide Bit, Mask, WithBit, WithoutBit;
    var b, k := (i - 1) / 8, (i - 1) % 8;
    r := bytes[b := if on then WithBit(bytes[b], k) else WithoutBit(bytes[b], k)];
    forall x: nat | 0 < x <= size
      ensures Has(Bitmap(size, r), x) <==> if x == i then on else Has(Bitmap(size, bytes), x)
    {
      BitChanged(bytes[b], k, (x - 1) % 8);
    }
  }

  /** A number goes into the slot its probe ended at. */
  lemma AddToHash(size: nat, nSet: nat, slots: seq<nat>, i: nat, h: nat)
    requires Ok(Hash(size, nSet, slots)) && nSet + 1 < NINT && 0 < i <= size
    requires h < NINT && slots[h] == 0 && i !in slots && PathFull(slots, HashOf(i), h)
    ensures Ok(Hash(size, nSet + 1, slots[h := i]))
    ensures Changed(Hash(size, nSet, slots), Hash(size, nSet + 1, slots[h := i]), i, true, true)
  {
    PutKeepsHash(slots, i, nSet, h);
    forall x: nat ensures Has(Hash(size, nSet + 1, slots[h := i]), x) <==> Has(Hash(size, nSet, slots), x) || x == i {
      assert x > 0 ==> (x in slots[h := i] <==> x in slots || x == i);
    }
  }

  /** The numbers before slot j are each in the hash table once. */
  lemma LaterIsNew(s: seq<nat>, n: nat, j: nat)
    requires HashOk(s, n) && j < NINT && s[j] != 0
    ensures s[j] !in s[..j]
  {
    var t := s[j := 0];
    assert multiset(t) == multiset(s) - multiset{s[j]} + multiset{0};
    assert multiset(s)[s[j]] <= 1;
    assert s[j] !in multiset(t);
    forall k | 0 <= k < j ensures s[k] != s[j] {
      assert t[k] in multiset(t);
    }
  }

  lemma OneMore(s: seq<nat>, j: nat)
    requires j < |s|
    ensures forall x :: x in s[..j + 1] <==> x in s[..j] || x == s[j]
    ensures multiset(s[..j + 1])[0] == multiset(s[..j])[0] + if s[j] == 0 then 1 else 0
  {
    assert s[..j + 1] == s[..j] + [s[j]];
  }

  /** Takes the number of slot j over into the new table, unless it is the one to clear. */
  method Reinsert(was: seq<nat>, ghost n: nat, j: nat, i: nat, slots: seq<nat>, nSet: nat)
    returns (nSet': nat, slots': seq<nat>)
    requires HashOk(was, n) && |was| == NINT && j < NINT
    requires HashOk(slots, nSet) && |slots| == NINT && nSet + multiset(was[..j])[0] <= j
    requires forall x :: x > 0 ==> (x in slots <==> x in was[..j] && x != i)
    ensures HashOk(slots', nSet') && |slots'| == NINT && nSet' + multiset(was[..j + 1])[0] <= j + 1
    ensures forall x :: x > 0 ==> (x in slots' <==> x in was[..j + 1] && x != i)
  {
    hide HashOk, PathFull;
    nSet', slots' := nSet, slots;
    OneMore(was, j);
    if was[j] != 0 && was[j] != i {
      LaterIsNew(was, n, j);
      if j == NINT - 1 {
        ZeroBefore(was, n);
      }
      var h := Probe(slots, was[j], nSet);
      PutKeepsHash(slots, was[j], nSet, h);
      nSet', slots' := nSet + 1, slots[h := was[j]];
      forall x | x > 0 ensures x in slots' <==> x in was[..j + 1] && x != i {
        assert x in slots' <==> x in slots || x == was[j];
      }
    } else {
      forall x | x > 0 ensures x in slots' <==> x in was[..j + 1] && x != i {
        assert x in was[..j + 1] <==> x in was[..j] || x == was[j];
      }
    }
  }

  method RebuiltHash(was: seq<nat>, ghost n: nat, i: nat) returns (nSet: nat, slots: seq<nat>)
    requires HashOk(was, n) && |was| == NINT
    ensures HashOk(slots, nSet) && |slots| == NINT && forall x :: x > 0 ==> (x in slots <==> x in was && x != i)
  {
    hide HashOk, EmptySlots;
    nSet, slots := 0, EmptySlots();
    assert was[..0] == [];
    for j := 0 to NINT
      invariant HashOk(slots, nSet) && |slots| == NINT && nSet + multiset(was[..j])[0] <= j
      invariant forall x :: x > 0 ==> (x in slots <==> x in was[..j] && x != i)
    {
      nSet, slots := Reinsert(was, n, j, i, slots, nSet);
    }
    assert was[..NINT] == was;
  }

  /** One slot is empty; when it is not the last, it is before. */
  lemma ZeroBefore(s: seq<nat>, n: nat)
    requires HashOk(s, n) && s[NINT - 1] != 0
    ensures multiset(s[..NINT - 1])[0] > 0
  {
  }

  /** What clearing leaves of a hash table. */
  lemma ClearedHash(size: nat, nSet: nat, slots: seq<nat>, nSet': nat, slots': seq<nat>, i: nat)
    requires Ok(Hash(size, nSet, slots)) && HashOk(slots', nSet')
    requires forall x :: x > 0 ==> (x in slots' <==> x in slots && x != i)
    ensures Ok(Hash(size, nSet', slots'))
    ensures forall x :: Has(Hash(size, nSet', slots'), x) <==> Has(Hash(size, nSet, slots), x) && x != i
  {
    assert forall p :: 0 <= p < NINT && slots'[p] > 0 ==> slots'[p] in slots;
  }

  /** A node of the bit set, with the set it stands for. */
  class BitNode {
    const iSize: nat
    var nSet: nat
    var iDivisor: nat
    var aBitmap: seq<bv8>
    var aHash: seq<nat>
    var apSub: seq<BitNode?>
    ghost var tree: Vec
    ghost var Repr: set<object>

    ghost predicate Valid()
      reads this, Repr
      ensures Valid() ==> this in Repr
      decreases Repr
    {
      && this in Repr && Ok(tree) && tree.size == iSize
      && match tree
         case Bitmap(_, bytes) => iDivisor == 0 && aBitmap == bytes
         case Hash(_, n, slots) => iDivisor == 0 && nSet == n && aHash == slots
         case Node(_, d, subs) => iDivisor == d && |apSub| == NPTR && Apart() && forall k | 0 <= k < NPTR :: Keeps(k)
    }

    /** Part k is a valid node of its own that stands for its part of the set. */
    ghost predicate Keeps(k: nat)
      requires this in Repr && tree.Node? && |tree.subs| == |apSub| == NPTR && k < NPTR
      reads this, Repr
      decreases Repr, k
    {
      if apSub[k] == null then tree.subs[k].Absent?
      else
        var sub := apSub[k];
        && sub in Repr && sub.Repr <= Repr && this !in sub.Repr && sub.Valid()
        && tree.subs[k] == Present(sub.tree)
    }

    /** No two parts share a node. */
    ghost predicate Apart()
      requires this in Repr
      reads this, Repr
    {
      forall j, k |
        0 <= j < k < |apSub| && apSub[j] != null && apSub[k] != null && apSub[j] in Repr && apSub[k] in Repr ::
        apSub[j].Repr !! apSub[k].Repr
    }

    constructor (size: nat)
      requires size <= MAX_SIZE
      ensures Valid() && fresh(Repr) && iSize == size && forall x :: !Has(tree, x)
    {
      iSize, nSet, iDivisor, apSub := size, 0, 0, [];
      aBitmap, aHash := seq(NELEM, _ => 0), EmptySlots();
      tree, Repr := Create(size), {this};
    }

    /** What a valid node of each form has in its fields. */
    lemma Parts()
      requires Valid()
      ensures Ok(tree) && tree.size == iSize && (iSize <= NBIT <==> tree.Bitmap?) && (iDivisor != 0 <==> tree.Node?)
      ensures tree.Bitmap? ==> tree == Bitmap(iSize, aBitmap)
      ensures tree.Hash? ==> tree == Hash(iSize, nSet, aHash)
      ensures tree.Node? ==>
                && tree.divisor == iDivisor == Divisor(iSize) && |tree.subs| == |apSub| == NPTR
                && 0 < iDivisor < iSize <= NPTR * iDivisor
    {
    }

    /** Part k of a node. */
    lemma Part(k: nat)
      requires Valid() && tree.Node? && k < NPTR
      ensures |apSub| == |tree.subs| == NPTR
      ensures apSub[k] == null ==> tree.subs[k].Absent?
      ensures apSub[k] != null ==>
                apSub[k].Valid() && tree.subs[k] == Present(apSub[k].tree) && apSub[k].iSize == iDivisor
      ensures apSub[k] != null ==> apSub[k] in Repr && apSub[k].Repr <= Repr && this !in apSub[k].Repr
    {
      assert Keeps(k);
    }

    method Test(i0: nat) returns (r: bool)
      requires Valid()
      ensures r <==> Has(tree, i0)
    {
      Parts();
      if i0 == 0 || i0 > iSize {
        return false;
      }
      hide Divisor, Bin, Within, Ok, Valid;
      var p: BitNode := this;
      var i := i0;
      while p.iDivisor != 0
        invariant p.Valid() && 0 < i <= p.iSize && (Has(p.tree, i) <==> Has(tree, i0))
        decreases p.iSize
      {
        p.Parts();
        BinBound(i, p.iDivisor, p.iSize);
        var bin := Bin(i, p.iDivisor);
        p.Part(bin);
        WithinRange(i, p.iDivisor);
        i := Within(i, p.iDivisor);
        if p.apSub[bin] == null {
          return false;
        }
        p := p.apSub[bin];
      }
      p.Parts();
      if p.iSize <= NBIT {
        BitmapLong(p.tree);
        r := BitAt(p.aBitmap, i - 1);
      } else {
        HashFormed(p.tree);
        var h := Probe(p.aHash, i, p.nSet);
        r := p.aHash[h] == i;
      }
    }

    /** Gives part k a node of its own, when there is memory for it. */
    method AddPart(k: nat)
      requires Valid() && tree.Node? && k < NPTR && apSub[k] == null
      modifies this
      ensures Valid() && tree.Node? && |apSub| == NPTR && apSub[k] != null && fresh(Repr - old(Repr))
      ensures forall x :: Has(tree, x) <==> Has(old(tree), x)
    {
      Parts();
      AllParts();
      ghost var was, all := apSub, Repr;
      var sub := new BitNode(iDivisor);
      EmptyPart(tree, k, sub.tree);
      hide Has, Ok;
      apSub := apSub[k := sub];
      tree := tree.(subs := tree.subs[k := Present(sub.tree)]);
      Repr := Repr + sub.Repr;
      forall j | 0 <= j < NPTR ensures Keeps(j) {
        if j == k {
          assert Keeps(k);
        } else if apSub[j] != null {
          assert apSub[j] == was[j];
          assert this !in was[j].Repr;
          assert was[j].Valid();
          assert Keeps(j);
        } else {
          assert Keeps(j);
        }
      }
      forall j, l | 0 <= j < l < NPTR && apSub[j] != null && apSub[l] != null ensures apSub[j].Repr !! apSub[l].Repr {
        if j != k && l != k {
          assert was[j].Repr !! was[l].Repr;
        }
      }
    }

    /** The parts of a node, all at once. */
    lemma AllParts()
      requires Valid() && tree.Node?
      ensures |apSub| == |tree.subs| == NPTR
      ensures forall k | 0 <= k < NPTR && apSub[k] != null ::
                apSub[k].Valid() && apSub[k] in Repr && apSub[k].Repr <= Repr && this !in apSub[k].Repr
      ensures forall k | 0 <= k < NPTR :: tree.subs[k] == if apSub[k] == null then Absent else Present(apSub[k].tree)
      ensures forall j, k | 0 <= j < k < NPTR && apSub[j] != null && apSub[k] != null :: apSub[j].Repr !! apSub[k].Repr
    {
      forall k | 0 <= k < NPTR
        ensures tree.subs[k] == if apSub[k] == null then Absent else Present(apSub[k].tree)
        ensures apSub[k] != null ==>
                  apSub[k].Valid() && apSub[k] in Repr && apSub[k].Repr <= Repr && this !in apSub[k].Repr
      {
        Part(k);
      }
    }

    /** Sets or clears a number. */
    method Change(i: nat, on: bool, plenty: bool) returns (ok: bool)
      requires Valid() && 0 < i <= iSize
      modifies Repr
      ensures Valid() && fresh(Repr - old(Repr)) && Changed(old(tree), tree, i, on, ok) && (plenty || !on ==> ok)
      decreases iSize, 2, 0
    {
      if on {
        ok := Set(i, plenty);
      } else {
        Clear(i);
        ok := true;
      }
    }

    /** The set a node stands for follows a change in its part k. */
    ghost method Adopt(k: nat)
      requires this in Repr && Ok(tree) && tree.Node? && tree.size == iSize && tree.divisor == iDivisor
      requires |apSub| == |tree.subs| == NPTR
      requires k < NPTR && apSub[k] != null && apSub[k].Valid() && this !in apSub[k].Repr && Ok(apSub[k].tree)
      requires apSub[k].tree.size == iDivisor
      requires forall j | 0 <= j < NPTR && j != k :: Keeps(j)
      requires forall j, l | 0 <= j < l < NPTR && apSub[j] != null && apSub[l] != null :: apSub[j].Repr !! apSub[l].Repr
      modifies this`tree, this`Repr
      ensures Valid() && tree == old(tree).(subs := old(tree).subs[k := Present(apSub[k].tree)])
      ensures Repr == old(Repr) + apSub[k].Repr
    {
      var sub, was := apSub[k], tree;
      assert sub.Valid();
      forall j | 0 <= j < NPTR && j != k
        ensures was.subs[j] == if apSub[j] == null then Absent else Present(apSub[j].tree)
        ensures apSub[j] != null ==>
                  apSub[j].Valid() && apSub[j] in Repr && apSub[j].Repr <= Repr && this !in apSub[j].Repr
      {
        assert Keeps(j);
      }
      hide Has;
      tree := tree.(subs := tree.subs[k := Present(sub.tree)]);
      Repr := Repr + sub.Repr;
      forall j | 0 <= j < NPTR ensures Keeps(j) {
        assert apSub[j] != null ==> apSub[j].Valid();
        assert Keeps(j);
      }
    }

    /** Sets or clears number r of part k. */
    method ChangePart(k: nat, r: nat, on: bool, plenty: bool) returns (ok: bool, ghost sub': Vec)
      requires Valid() && tree.Node? && k < NPTR && apSub[k] != null && 0 < r <= iDivisor
      modifies Repr
      ensures Valid() && fresh(Repr - old(Repr)) && tree == old(tree).(subs := old(tree).subs[k := Present(sub')])
      ensures old(tree).subs[k].Present? && Ok(sub') && sub'.size == old(tree).divisor
      ensures Changed(old(tree).subs[k].v, sub', r, on, ok) && (plenty || !on ==> ok)
      decreases iSize, 0, 0
    {
      Parts();
      AllParts();
      Part(k);
      hide Has, Ok;
      var sub := apSub[k];
      ghost var was, own := apSub, sub.Repr;
      ok := sub.Change(r, on, plenty);
      sub.Parts();
      sub' := sub.tree;
      forall j | 0 <= j < NPTR && j != k ensures Keeps(j) {
        if apSub[j] != null {
          assert was[j].Repr !! own;
          assert was[j].Valid();
        }
        assert Keeps(j);
      }
      forall j, l | 0 <= j < l < NPTR && apSub[j] != null && apSub[l] != null ensures apSub[j].Repr !! apSub[l].Repr {
        assert old(was[j].Repr) !! old(was[l].Repr);
      }
      Adopt(k);
    }

    /** Sets a number in the part that keeps it. */
    method SetInNode(i: nat, plenty: bool) returns (ok: bool)
      requires Valid() && tree.Node? && 0 < i <= iSize
      modifies Repr
      ensures Valid() && tree.Node? && fresh(Repr - old(Repr)) && Changed(old(tree), tree, i, true, ok)
      ensures (plenty ==> ok)
      decreases iSize, 0, 1
    {
      hide Divisor, Bin, Within, Valid;
      Parts();
      BinBound(i, iDivisor, iSize);
      WithinRange(i, iDivisor);
      var bin := Bin(i, iDivisor);
      if apSub[bin] == null {
        var memory: bool := *;
        if !memory && !plenty {
          return false;
        }
        AddPart(bin);
      }
      Parts();
      Part(bin);
      ghost var was, sub := tree, tree;
      ok, sub := ChangePart(bin, Within(i, iDivisor), true, plenty);
      if ok {
        SubChanged(was, i, sub, true);
      } else {
        SubGains(was, i, sub);
      }
    }

    /**
     Sets a number, or tells that memory ran out, which it does not when there is plenty of it. Then no number
     is in the set that was not there or is not the one to be set; a conversion that ran out of memory can lose
     numbers.
     */
    method Set(i: nat, plenty: bool) returns (ok: bool)
      requires Valid() && 0 < i <= iSize
      modifies Repr
      ensures Valid() && fresh(Repr - old(Repr)) && Changed(old(tree), tree, i, true, ok) && (plenty ==> ok)
      decreases iSize, 1, 0
    {
      Parts();
      if iSize <= NBIT {
        aBitmap := PutBit(aBitmap, iSize, i, true);
        tree := Bitmap(iSize, aBitmap);
        ok := true;
      } else if iDivisor != 0 {
        ok := SetInNode(i, plenty);
      } else {
        ok := SetInHash(i, plenty);
      }
    }

    method SetInHash(i: nat, plenty: bool) returns (ok: bool)
      requires Valid() && tree.Hash? && 0 < i <= iSize
      modifies Repr
      ensures Valid() && fresh(Repr - old(Repr)) && Changed(old(tree), tree, i, true, ok) && (plenty ==> ok)
      decreases iSize, 0, 3
    {
      hide Has, Ok, HashOk, PathFull, Changed;
      Parts();
      HashFormed(tree);
      var h := HashOf(i);
      if aHash[h] == 0 {
        StartVacant(aHash, i, nSet);
        if nSet >= NINT - 1 {
          ok := Spread(i, plenty);
          return;
        }
      } else {
        h := Probe(aHash, i, nSet);
        if aHash[h] == i {
          AlreadyThere(iSize, nSet, aHash, i, h);
          return true;
        }
        if nSet >= MXHASH {
          ok := Spread(i, plenty);
          return;
        }
      }
      AddToHash(iSize, nSet, aHash, i, h);
      nSet, aHash := nSet + 1, aHash[h := i];
      tree := Hash(iSize, nSet, aHash);
      ok := true;
    }

    /** A hash table that is too full becomes a node, and its numbers are set again one by one. */
    method Spread(i: nat, plenty: bool) returns (ok: bool)
      requires Valid() && tree.Hash? && 0 < i <= iSize
      modifies Repr
      ensures Valid() && fresh(Repr - old(Repr)) && Changed(old(tree), tree, i, true, ok) && (plenty ==> ok)
      decreases iSize, 0, 2
    {
      var memory: bool := *;
      if !memory && !plenty {
        return false;
      }
      Parts();
      HashFormed(tree);
      var values := aHash;
      iDivisor, apSub := Divisor(iSize), seq(NPTR, _ => null);
      tree, Repr := Node(iSize, iDivisor, seq(NPTR, _ => Absent)), {this};
      ok := SetInNode(i, plenty);
      for j := 0 to NINT
        invariant Valid() && tree.Node? && fresh(Repr - old(Repr))
        invariant forall x :: Has(tree, x) ==> x == i || (0 < x && x in values[..j])
        invariant plenty ==> ok
        invariant ok ==> forall x :: x == i || (0 < x && x in values[..j]) ==> Has(tree, x)
      {
        if values[j] != 0 {
          var rc := SetInNode(values[j], plenty);
          ok := ok && rc;
        }
        assert values[..j + 1] == values[..j] + [values[j]];
      }
      assert values[..NINT] == values;
    }

    method Clear(i: nat)
      requires Valid() && 0 < i <= iSize
      modifies Repr
      ensures Valid() && fresh(Repr - old(Repr)) && forall x :: Has(tree, x) <==> Has(old(tree), x) && x != i
      decreases iSize, 1, 0
    {
      Parts();
      if iSize <= NBIT {
        aBitmap := PutBit(aBitmap, iSize, i, false);
        tree := Bitmap(iSize, aBitmap);
      } else if iDivisor != 0 {
        ClearInNode(i);
      } else {
        HashFormed(tree);
        var n, slots := RebuiltHash(aHash, nSet, i);
        ClearedHash(iSize, nSet, aHash, n, slots, i);
        nSet, aHash := n, slots;
        tree := Hash(iSize, nSet, aHash);
      }
    }

    method ClearInNode(i: nat)
      requires Valid() && tree.Node? && 0 < i <= iSize
      modifies Repr
      ensures Valid() && fresh(Repr - old(Repr)) && forall x :: Has(tree, x) <==> Has(old(tree), x) && x != i
      decreases iSize, 0, 1
    {
      hide Divisor, Bin, Within, Valid;
      Parts();
      BinBound(i, iDivisor, iSize);
      WithinRange(i, iDivisor);
      var bin := Bin(i, iDivisor);
      Part(bin);
      if apSub[bin] == null {
        return;
      }
      ghost var was, sub := tree, tree;
      var ok;
      ok, sub := ChangePart(bin, Within(i, iDivisor), false, true);
      SubChanged(was, i, sub, false);
    }
  }

  /** An empty part changes nothing. */
  lemma EmptyPart(v: Vec, k: nat, sub: Vec)
    requires Ok(v) && v.Node? && k < NPTR && v.subs[k].Absent? && Ok(sub) && sub.size == v.divisor
    requires forall x :: !Has(sub, x)
    ensures Ok(v.(subs := v.subs[k := Present(sub)]))
    ensures forall x :: Has(v.(subs := v.subs[k := Present(sub)]), x) <==> Has(v, x)
  {
  }

  /** A number whose hash slot is empty is not in the table. */
  lemma StartVacant(s: seq<nat>, i: nat, n: nat)
    requires i > 0 && HashOk(s, n) && s[HashOf(i)] == 0
    ensures i !in s && PathFull(s, HashOf(i), HashOf(i))
  {
    NotThere(s, i, n, HashOf(i));
  }

  lemma AlreadyThere(size: nat, nSet: nat, slots: seq<nat>, i: nat, h: nat)
    requires 0 < i <= size && h < |slots| && slots[h] == i
    ensures Changed(Hash(size, nSet, slots), Hash(size, nSet, slots), i, true, true)
  {
  }

  lemma WithinRange(i: nat, d: nat)
    requires i > 0 && d > 0
    ensures 0 < Within(i, d) <= d
  {
  }

  lemma BitmapLong(v: Vec)
    requires Ok(v) && v.Bitmap?
    ensures 8 * |v.bytes| == NBIT
  {
  }

  lemma HashFormed(v: Vec)
    requires Ok(v) && v.Hash?
    ensures HashOk(v.slots, v.nSet) && |v.slots| == NINT
  {
  }

  datatype Op = DoSet(i: nat) | DoClear(i: nat) | DoTest(i: nat)

  /** What a plain set of integers is and answers after a list of operations. */
  function Members(ops: seq<Op>): set<nat> {
    if ops == [] then {}
    else
      var m := Members(ops[..|ops| - 1]);
      match ops[|ops| - 1]
      case DoSet(i) => m + {i}
      case DoClear(i) => m - {i}
      case DoTest(_) => m
  }

  function Answers(ops: seq<Op>): seq<bool> {
    if ops == [] then []
    else
      var before := ops[..|ops| - 1];
      match ops[|ops| - 1]
      case DoTest(i) => Answers(before) + [i in Members(before)]
      case _ => Answers(before)
  }

  /** Every list of operations is answered as a plain set answers it, until memory runs out. */
  method Perform(size: nat, ops: seq<Op>, plenty: bool) returns (done: nat, answers: seq<bool>)
    requires size <= MAX_SIZE && forall k | 0 <= k < |ops| :: ops[k].DoTest? || 0 < ops[k].i <= size
    ensures done <= |ops| && answers == Answers(ops[..done])
    ensures done < |ops| ==> ops[done].DoSet? && !plenty
  {
    hide BitNode.Valid, Has;
    var b := new BitNode(size);
    answers := [];
    for k := 0 to |ops|
      invariant b.Valid() && fresh(b.Repr) && b.iSize == size && answers == Answers(ops[..k])
      invariant forall x: nat :: Has(b.tree, x) <==> x in Members(ops[..k])
    {
      assert ops[..k + 1][..k] == ops[..k];
      match ops[k]
      case DoSet(i) =>
        var ok := b.Set(i, plenty);
        if !ok {
          return k, answers;
        }
      case DoClear(i) => b.Clear(i);
      case DoTest(i) =>
        var r := b.Test(i);
        answers := answers + [r];
    }
    done := |ops|;
    assert ops[..|ops|] == ops;
  }
}
