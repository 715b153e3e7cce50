/** core/dense_map.h: an open-addressing map whose slots are scanned a vector register at a time. The
    empty key is 0, so keys are stored as they are. */
module DenseMap {
  import opened Wrappers

  /** A vector register holds `vlen` keys of `width` bytes each. */
  datatype Shape = Shape(vlen: nat, width: nat, minBuckets: nat) {
    predicate Valid() {
      vlen > 0 && width > 0
    }

    /** The number of registers: one, or enough for the buckets asked for and a last, spill, one. */
    function NumVregs(): (n: nat)
      requires Valid()
      ensures n >= 1
    {
      if minBuckets <= vlen then 1
      else
        AtLeastOne(minBuckets + vlen + (vlen - 1), vlen);
        (minBuckets + vlen + (vlen - 1)) / vlen
    }

    predicate OneRegister()
      requires Valid()
    {
      NumVregs() == 1
    }

    function NumBuckets(): (n: nat)
      requires Valid()
      ensures n > 0
    {
      MulPositive(NumVregs(), vlen);
      NumVregs() * vlen
    }

    /** Where scanning ends: in front of the last register, unless there is only one. */
    function End(): (e: nat)
      requires Valid()
      ensures OneRegister() ==> e == vlen == NumBuckets()
      ensures !OneRegister() ==> e + vlen == NumBuckets()
    {
      if OneRegister() then vlen else (NumVregs() - 1) * vlen
    }

    function HashIndex(key: nat): (h: nat)
      requires Valid()
      ensures h < NumBuckets()
    {
      if OneRegister() then 0 else key % NumBuckets()
    }
  }

  lemma CeilDiv(x: nat, a: nat)
    requires a > 0
    ensures var n := (x + (a - 1)) / a; x <= n * a < x + a
  {
    var n := (x + (a - 1)) / a;
    assert x + (a - 1) == n * a + (x + (a - 1)) % a;
  }

  lemma OneLess(n: nat, a: nat)
    requires n > 0
    ensures (n - 1) * a == n * a - a
  {
  }

  /** With more registers than one, the hash index differs from the key by whole rounds of the buckets. */
  lemma HashIsCongruent(sh: Shape, key: nat) returns (rounds: nat)
    requires sh.Valid()
    ensures !sh.OneRegister() ==> key == rounds * sh.NumBuckets() + sh.HashIndex(key)
    ensures sh.OneRegister() ==> sh.HashIndex(key) == 0
  {
    rounds := key / sh.NumBuckets();
  }

  /** One register if the buckets asked for fit into it; otherwise the registers in front of the last one
      hold them, and with a register less they would not. */
  lemma ShapeFits(sh: Shape)
    requires sh.Valid()
    ensures sh.minBuckets <= sh.vlen ==> sh.NumBuckets() == sh.vlen && sh.HashIndex(sh.minBuckets) == 0
    ensures sh.minBuckets > sh.vlen ==> !sh.OneRegister() && sh.minBuckets <= sh.End() < sh.minBuckets + sh.vlen
  {
    if sh.minBuckets > sh.vlen {
      CeilDiv(sh.minBuckets + sh.vlen, sh.vlen);
      OneLess(sh.NumVregs(), sh.vlen);
    }
  }

  lemma AtLeastOne(x: nat, a: nat)
    requires a > 0 && x >= a
    ensures x / a >= 1
  {
  }

  lemma MulPositive(n: nat, a: nat)
    requires n > 0 && a > 0
    ensures n * a > 0
  {
  }

  // ----- one register: the mask of equal lanes -----

  function Pow2(n: nat): (p: nat)
    ensures p > 0
  {
    if n == 0 then 1 else 2 * Pow2(n - 1)
  }

  /** The comparison mask: `width` bits for every lane, set where the lane equals the key. */
  function MoveMask(window: seq<nat>, key: nat, width: nat): nat {
    if window == [] then 0
    else (if window[0] == key then Pow2(width) - 1 else 0) + Pow2(width) * MoveMask(window[1..], key, width)
  }

  /** One plus the position of the lowest bit that is set; zero if there is none. */
  function Ffs(m: nat): nat {
    if m == 0 then 0 else if m % 2 == 1 then 1 else 1 + Ffs(m / 2)
  }

  /** The first lane that equals the key. */
  function FirstLane(window: seq<nat>, key: nat): (k: nat)
    ensures k <= |window|
    ensures forall i :: 0 <= i < k ==> window[i] != key
    ensures k < |window| ==> window[k] == key
  {
    if window == [] || window[0] == key then 0 else 1 + FirstLane(window[1..], key)
  }

  lemma FfsDouble(m: nat)
    requires m > 0
    ensures Ffs(2 * m) == 1 + Ffs(m)
  {
  }

  lemma FfsOdd(m: nat)
    ensures Ffs(2 * m + 1) == 1
  {
  }

  lemma PowTimes(n: nat, m: nat)
    requires n > 0
    ensures Pow2(n) * m == 2 * (Pow2(n - 1) * m)
  {
  }

  lemma {:induction false} FfsShift(m: nat, n: nat)
    requires m > 0
    ensures Pow2(n) * m > 0 && Ffs(Pow2(n) * m) == n + Ffs(m)
  {
    if n > 0 {
      FfsShift(m, n - 1);
      PowTimes(n, m);
      FfsDouble(Pow2(n - 1) * m);
      hide Ffs, Pow2;
    }
  }

  lemma MulMonotone(a: nat, d: nat, q: nat)
    requires d <= q
    ensures a * d <= a * q
  {
  }

  lemma DivMultiple(a: nat, q: nat)
    requires a > 0
    ensures (a * q) / a == q
  {
    var d := (a * q) / a;
    assert a * d <= a * q < a * (d + 1);
    if d < q {
      MulMonotone(a, d + 1, q);
    }
  }

  lemma MaskHit(rest: nat, width: nat)
    requires width > 0
    ensures Ffs(Pow2(width) - 1 + Pow2(width) * rest) == 1
  {
    var half := Pow2(width - 1);
    PowTimes(width, rest);
    PowTimes(width, 1);
    assert half * 1 == half && Pow2(width) * 1 == Pow2(width);
    var x := half * rest;
    assert Pow2(width) - 1 + Pow2(width) * rest == 2 * (half + x - 1) + 1;
    FfsOdd(half + x - 1);
    hide Ffs, Pow2;
  }

  lemma MulNext(width: nat, k: nat)
    ensures width + (width * k + 1) == width * (k + 1) + 1
  {
  }

  lemma MaskMiss(rest: nat, width: nat, k: nat)
    requires width > 0 && rest > 0 && Ffs(rest) == width * k + 1
    ensures Pow2(width) * rest > 0
    ensures Ffs(Pow2(width) * rest) == width * (k + 1) + 1 && (width * (k + 1)) / width == k + 1
  {
    hide Ffs, Pow2;
    FfsShift(rest, width);
    MulNext(width, k);
    DivMultiple(width, k + 1);
  }

  /** The mask is zero exactly when no lane is equal; otherwise its lowest bit finds the first lane. */
  lemma {:induction false} MaskFindsFirstLane(window: seq<nat>, key: nat, width: nat)
    requires width > 0
    ensures var mask := MoveMask(window, key, width); var k := FirstLane(window, key);
            && (mask == 0 <==> k == |window|)
            && (mask != 0 ==> Ffs(mask) == width * k + 1 && (Ffs(mask) - 1) / width == k)
  {
    if window != [] {
      hide Ffs, Pow2;
      var rest := MoveMask(window[1..], key, width);
      if window[0] == key {
        MaskHit(rest, width);
        assert Ffs(0) == 0 by { FfsZero(); }
        assert width * 0 == 0;
      } else {
        MaskFindsFirstLane(window[1..], key, width);
        if rest != 0 {
          MaskMiss(rest, width, FirstLane(window[1..], key));
        } else {
          assert Pow2(width) * 0 == 0;
        }
      }
    }
  }

  lemma FfsZero()
    ensures Ffs(0) == 0
  {
  }

  // ----- finding and placing keys -----

  /** The windows from slot pp on: the key's slot, or nothing once a window has an empty slot or the
      end is reached. */
  function FindFrom(keys: seq<nat>, sh: Shape, pp: nat, key: nat): (r: Option<nat>)
    requires sh.Valid() && !sh.OneRegister() && |keys| == sh.NumBuckets()
    ensures r.Some? ==> pp <= r.value < |keys|
    decreases sh.End() - pp
  {
    if pp >= sh.End() then None
    else
      var window := keys[pp..pp + sh.vlen];
      var k := FirstLane(window, key);
      if k < sh.vlen then Some(pp + k)
      else if FirstLane(window, 0) < sh.vlen then None
      else FindFrom(keys, sh, pp + sh.vlen, key)
  }

  /** The scan does not go on behind a window with an empty slot. */
  lemma EmptySlotStops(keys: seq<nat>, sh: Shape, pp: nat, key: nat, i: nat)
    requires sh.Valid() && !sh.OneRegister() && |keys| == sh.NumBuckets() && pp < sh.End()
    requires pp <= i < pp + sh.vlen && keys[i] == 0
    requires forall j :: pp <= j < pp + sh.vlen ==> keys[j] != key
    ensures FindFrom(keys, sh, pp, key) == None
  {
    var window := keys[pp..pp + sh.vlen];
    assert window[i - pp] == 0;
    assert forall j :: 0 <= j < sh.vlen ==> window[j] == keys[pp + j];
  }

  function Find(keys: seq<nat>, sh: Shape, key: nat): (r: Option<nat>)
    requires sh.Valid() && |keys| == sh.NumBuckets()
    ensures r.Some? ==> r.value < |keys|
  {
    if sh.OneRegister() then
      var k := FirstLane(keys, key);
      if k < |keys| then Some(k) else None
    else FindFrom(keys, sh, sh.HashIndex(key), key)
  }

  /** The first empty slot at or behind a slot. */
  function FirstEmpty(keys: seq<nat>, from: nat): (r: Option<nat>)
    requires from <= |keys|
    ensures r.Some? ==>
              && from <= r.value < |keys| && keys[r.value] == 0
              && forall i :: from <= i < r.value ==> keys[i] != 0
    ensures r.None? ==> forall i :: from <= i < |keys| ==> keys[i] != 0
    decreases |keys| - from
  {
    if from == |keys| then None else if keys[from] == 0 then Some(from) else FirstEmpty(keys, from + 1)
  }

  /** The slot behind the last window that is scanned from slot pp. */
  function ScanEnd(sh: Shape, pp: nat): (e: nat)
    requires sh.Valid()
    ensures e >= pp
    decreases sh.End() - pp
  {
    if pp >= sh.End() then pp else ScanEnd(sh, pp + sh.vlen)
  }

  ghost predicate NoKeyTwice(keys: seq<nat>) {
    forall i, j :: 0 <= i < |keys| && 0 <= j < |keys| && keys[i] != 0 && keys[i] == keys[j] ==> i == j
  }

  /** Every key sits in one slot, inside the span that is scanned for it, behind no empty slot. */
  ghost predicate WellPlaced(keys: seq<nat>, sh: Shape) {
    && sh.Valid() && |keys| == sh.NumBuckets()
    && NoKeyTwice(keys)
    && (forall j :: 0 <= j < |keys| && keys[j] != 0 ==> Reached(keys, sh, sh.HashIndex(keys[j]), j))
  }

  /** A scan that begins at slot h comes to slot j. */
  ghost predicate Reached(keys: seq<nat>, sh: Shape, h: nat, j: nat)
    requires sh.Valid() && |keys| == sh.NumBuckets() && j < |keys|
  {
    h <= j < ScanEnd(sh, h) && forall i :: h <= i < j ==> keys[i] != 0
  }

  lemma {:induction false} FindFromFinds(keys: seq<nat>, sh: Shape, pp: nat, key: nat, j: nat)
    requires sh.Valid() && !sh.OneRegister() && |keys| == sh.NumBuckets() && key != 0
    requires j < |keys| && keys[j] == key && Reached(keys, sh, pp, j)
    requires forall i :: 0 <= i < |keys| && keys[i] == key ==> i == j
    ensures FindFrom(keys, sh, pp, key) == Some(j)
    decreases sh.End() - pp
  {
    var window := keys[pp..pp + sh.vlen];
    assert forall i :: 0 <= i < sh.vlen ==> window[i] == keys[pp + i];
    if j < pp + sh.vlen {
      assert window[j - pp] == key;
      var k := FirstLane(window, key);
      assert keys[pp + k] == key;
    } else {
      FindFromFinds(keys, sh, pp + sh.vlen, key, j);
    }
  }

  lemma {:induction false} FindFromSound(keys: seq<nat>, sh: Shape, pp: nat, key: nat)
    requires sh.Valid() && !sh.OneRegister() && |keys| == sh.NumBuckets()
    ensures var r := FindFrom(keys, sh, pp, key); r.Some? ==> keys[r.value] == key && r.value < ScanEnd(sh, pp)
    decreases sh.End() - pp
  {
    if pp < sh.End() {
      FindFromSound(keys, sh, pp + sh.vlen, key);
    }
  }

  /** On well-placed keys, scanning by windows with early exit finds exactly the keys that are there,
      each in its slot. */
  lemma FindIsExact(keys: seq<nat>, sh: Shape, key: nat)
    requires WellPlaced(keys, sh) && key != 0
    ensures forall j :: 0 <= j < |keys| ==> (Find(keys, sh, key) == Some(j) <==> keys[j] == key)
  {
    forall j | 0 <= j < |keys|
      ensures Find(keys, sh, key) == Some(j) <==> keys[j] == key
    {
      if !sh.OneRegister() {
        FindFromSound(keys, sh, sh.HashIndex(key), key);
        if keys[j] == key {
          FindFromFinds(keys, sh, sh.HashIndex(key), key, j);
        }
      }
    }
  }

  /** A slot that is found holds the key, wherever the keys are. */
  lemma FindSound(keys: seq<nat>, sh: Shape, key: nat)
    requires sh.Valid() && |keys| == sh.NumBuckets()
    ensures Find(keys, sh, key).Some? ==> keys[Find(keys, sh, key).value] == key
  {
    if !sh.OneRegister() {
      FindFromSound(keys, sh, sh.HashIndex(key), key);
    }
  }

  /** What `insert` does: the slot and whether the key is new, or nothing if it throws. */
  function Insert(keys: seq<nat>, sh: Shape, key: nat): (r: Option<(nat, bool)>)
    requires sh.Valid() && |keys| == sh.NumBuckets()
    ensures r.Some? ==> r.value.0 < |keys| && (r.value.1 ==> keys[r.value.0] == 0)
  {
    match Find(keys, sh, key)
    case Some(ix) => Some((ix, false))
    case None =>
      match FirstEmpty(keys, sh.HashIndex(key))
      case Some(ix) => Some((ix, true))
      case None => None
  }

  /** A new key's free slot lies in the span that is scanned for the key. */
  predicate InSpan(keys: seq<nat>, sh: Shape, key: nat)
    requires sh.Valid() && |keys| == sh.NumBuckets()
  {
    var r := FirstEmpty(keys, sh.HashIndex(key));
    r.Some? && r.value < ScanEnd(sh, sh.HashIndex(key))
  }

  lemma {:induction false} ScanEndOneRegister(sh: Shape)
    requires sh.Valid() && sh.OneRegister()
    ensures ScanEnd(sh, 0) == sh.vlen
  {
    assert ScanEnd(sh, sh.vlen) == sh.vlen;
  }

  /** Inserting an absent key keeps the keys well placed if and only if its free slot lies in the span
      that is scanned for it. */
  lemma InsertIsWellPlacedIff(keys: seq<nat>, sh: Shape, key: nat)
    requires WellPlaced(keys, sh) && key != 0 && key !in keys
    requires FirstEmpty(keys, sh.HashIndex(key)).Some?
    ensures var ix := FirstEmpty(keys, sh.HashIndex(key)).value;
            && Insert(keys, sh, key) == Some((ix, true))
            && (WellPlaced(keys[ix := key], sh) <==> InSpan(keys, sh, key))
  {
    FindIsExact(keys, sh, key);
    var h := sh.HashIndex(key);
    var ix := FirstEmpty(keys, h).value;
    var after := keys[ix := key];
    forall j | 0 <= j < |keys| && keys[j] != 0
      ensures Reached(after, sh, sh.HashIndex(after[j]), j)
    {
      assert Reached(keys, sh, sh.HashIndex(keys[j]), j);
    }
    assert Reached(after, sh, h, ix) <==> InSpan(keys, sh, key);
    if WellPlaced(after, sh) {
      assert after[ix] == key;
    }
  }

  /** An inserted key is found afterwards if and only if its slot lies in that span. Otherwise inserting
      it again fills a second slot, if there is one. */
  lemma InsertedIsFoundIff(keys: seq<nat>, sh: Shape, key: nat)
    requires WellPlaced(keys, sh) && key != 0 && key !in keys
    requires FirstEmpty(keys, sh.HashIndex(key)).Some?
    ensures var ix := FirstEmpty(keys, sh.HashIndex(key)).value;
            var after := keys[ix := key];
            && (Find(after, sh, key) == Some(ix) <==> InSpan(keys, sh, key))
            && (!InSpan(keys, sh, key) ==>
                  && Find(after, sh, key) == None
                  && match Insert(after, sh, key)
                     case None => FirstEmpty(after, sh.HashIndex(key)) == None
                     case Some((j, isNew)) => isNew && ix < j)
  {
    var h := sh.HashIndex(key);
    var ix := FirstEmpty(keys, h).value;
    var after := keys[ix := key];
    InsertIsWellPlacedIff(keys, sh, key);
    if InSpan(keys, sh, key) {
      FindIsExact(after, sh, key);
    } else if sh.OneRegister() {
      ScanEndOneRegister(sh);
    } else {
      FindFromSound(after, sh, h, key);
    }
  }

  /** With 40 slots of 8 to a register, the key 33 is not found even when it comes first. */
  lemma SpillKeyIsLost()
    ensures var sh := Shape(8, 4, 32); var keys := seq(40, i => 0);
            && sh.NumBuckets() == |keys| && sh.HashIndex(33) == 33 && sh.End() == 32
            && Insert(keys, sh, 33) == Some((33, true))
            && Find(keys[33 := 33], sh, 33) == None
            && Insert(keys[33 := 33], sh, 33) == Some((34, true))
  {
    var sh := Shape(8, 4, 32);
    var keys := seq(40, i => 0);
    assert FirstEmpty(keys, 33) == Some(33) && FirstEmpty(keys[33 := 33], 33) == Some(34);
  }

  // ----- the index and the map as objects -----

  /** The keys that are stored. */
  function KeySet(keys: seq<nat>): set<nat> {
    set j | 0 <= j < |keys| && keys[j] != 0 :: keys[j]
  }

  lemma FindIsMembership(keys: seq<nat>, sh: Shape, key: nat)
    requires WellPlaced(keys, sh) && key != 0
    ensures Find(keys, sh, key).Some? <==> key in KeySet(keys)
    ensures Find(keys, sh, key).Some? ==> keys[Find(keys, sh, key).value] == key
  {
    FindIsExact(keys, sh, key);
    if Find(keys, sh, key).Some? {
      var j := Find(keys, sh, key).value;
      assert keys[j] == key;
    }
  }

  /** How many of the first n slots are full. */
  function FullSlots(keys: seq<nat>, n: nat): nat
    requires n <= |keys|
  {
    if n == 0 then 0 else FullSlots(keys, n - 1) + if keys[n - 1] != 0 then 1 else 0
  }

  lemma KeySetNext(keys: seq<nat>, n: nat)
    requires 0 < n <= |keys|
    ensures KeySet(keys[..n]) == KeySet(keys[..n - 1]) + if keys[n - 1] != 0 then {keys[n - 1]} else {}
  {
    var before, now := keys[..n - 1], keys[..n];
    assert now == before + [keys[n - 1]];
    forall k
      ensures k in KeySet(now) <==> k in KeySet(before) || (k == keys[n - 1] && k != 0)
    {
      if k in KeySet(before) {
        var j :| 0 <= j < |before| && before[j] == k;
        assert now[j] == k;
      }
      if k == keys[n - 1] && k != 0 {
        assert now[n - 1] == k;
      }
    }
  }

  lemma NextKeyIsNew(keys: seq<nat>, n: nat)
    requires 0 < n <= |keys| && NoKeyTwice(keys) && keys[n - 1] != 0
    ensures keys[n - 1] !in KeySet(keys[..n - 1])
  {
  }

  /** Since no key sits in two slots, the full slots are as many as the keys. */
  lemma {:induction false} FullSlotsAreKeys(keys: seq<nat>, n: nat)
    requires n <= |keys| && NoKeyTwice(keys)
    ensures FullSlots(keys, n) == |KeySet(keys[..n])|
  {
    if n > 0 {
      FullSlotsAreKeys(keys, n - 1);
      KeySetNext(keys, n);
      if keys[n - 1] != 0 {
        NextKeyIsNew(keys, n);
      }
      hide KeySet, NoKeyTwice;
    } else {
      assert KeySet(keys[..0]) == {};
    }
  }

  // ----- any run of inserts -----

  /** The keys after an insert. */
  function Placed(keys: seq<nat>, sh: Shape, key: nat): (r: seq<nat>)
    requires sh.Valid() && |keys| == sh.NumBuckets()
    ensures |r| == |keys|
  {
    match Insert(keys, sh, key)
    case Some((ix, true)) => keys[ix := key]
    case _ => keys
  }

  function PlacedAll(keys: seq<nat>, sh: Shape, run: seq<nat>): (r: seq<nat>)
    requires sh.Valid() && |keys| == sh.NumBuckets()
    ensures |r| == |keys|
    decreases |run|
  {
    if run == [] then keys else PlacedAll(Placed(keys, sh, run[0]), sh, run[1..])
  }

  /** Every key of the run is new with a free slot in its span, or is there already. */
  predicate SpansHold(keys: seq<nat>, sh: Shape, run: seq<nat>)
    requires sh.Valid() && |keys| == sh.NumBuckets()
    decreases |run|
  {
    run != [] ==>
      && run[0] != 0
      && (run[0] in keys || InSpan(keys, sh, run[0]))
      && SpansHold(Placed(keys, sh, run[0]), sh, run[1..])
  }

  lemma PlacedKeeps(keys: seq<nat>, sh: Shape, key: nat)
    requires WellPlaced(keys, sh) && key != 0 && (key in keys || InSpan(keys, sh, key))
    ensures WellPlaced(Placed(keys, sh, key), sh)
    ensures KeySet(Placed(keys, sh, key)) == KeySet(keys) + {key}
  {
    FindIsMembership(keys, sh, key);
    if key in keys {
      var j :| 0 <= j < |keys| && keys[j] == key;
    } else {
      InsertIsWellPlacedIff(keys, sh, key);
      var ix := FirstEmpty(keys, sh.HashIndex(key)).value;
      var after := keys[ix := key];
      assert after[ix] == key;
      assert forall j :: 0 <= j < |keys| && j != ix ==> after[j] == keys[j];
    }
  }

  lemma {:induction false} RunKeepsWellPlaced(keys: seq<nat>, sh: Shape, run: seq<nat>)
    requires WellPlaced(keys, sh) && SpansHold(keys, sh, run)
    ensures var after := PlacedAll(keys, sh, run);
            WellPlaced(after, sh) && KeySet(after) == KeySet(keys) + (set k | k in run)
    decreases |run|
  {
    if run != [] {
      PlacedKeeps(keys, sh, run[0]);
      RunKeepsWellPlaced(Placed(keys, sh, run[0]), sh, run[1..]);
      assert (set k | k in run) == {run[0]} + (set k | k in run[1..]);
      hide WellPlaced, KeySet, Placed;
    }
  }

  /** After any run of inserts that meets the span condition, each key sits in one slot, behind no empty
      one; exactly the keys of the run are found, each in its slot; and the full slots are as many as
      the distinct keys. */
  lemma InsertsRefineSet(keys: seq<nat>, sh: Shape, run: seq<nat>)
    requires WellPlaced(keys, sh) && SpansHold(keys, sh, run)
    ensures var after := PlacedAll(keys, sh, run);
            && WellPlaced(after, sh)
            && KeySet(after) == KeySet(keys) + (set k | k in run)
            && FullSlots(after, |after|) == |KeySet(after)|
            && forall key :: key > 0 ==>
                 && (Find(after, sh, key).Some? <==> key in KeySet(keys) || key in run)
                 && (Find(after, sh, key).Some? ==> after[Find(after, sh, key).value] == key)
  {
    RunKeepsWellPlaced(keys, sh, run);
    var after := PlacedAll(keys, sh, run);
    hide PlacedAll, SpansHold;
    FullSlotsAreKeys(after, |after|);
    assert after[..|after|] == after;
    forall key: nat | key != 0
      ensures Find(after, sh, key).Some? <==> key in KeySet(after)
      ensures Find(after, sh, key).Some? ==> after[Find(after, sh, key).value] == key
    {
      FindIsMembership(after, sh, key);
    }
  }

  // ----- what is lost stays lost -----

  /** The whole span that is scanned for the key is full of other keys. */
  ghost predicate SpanIsTaken(keys: seq<nat>, sh: Shape, key: nat)
    requires sh.Valid() && |keys| == sh.NumBuckets()
  {
    forall i :: sh.HashIndex(key) <= i < ScanEnd(sh, sh.HashIndex(key)) && i < |keys| ==> keys[i] != 0 && keys[i] != key
  }

  lemma TakenIsNotFound(keys: seq<nat>, sh: Shape, key: nat)
    requires sh.Valid() && |keys| == sh.NumBuckets() && SpanIsTaken(keys, sh, key)
    ensures Find(keys, sh, key) == None
  {
    if sh.OneRegister() {
      ScanEndOneRegister(sh);
    } else {
      FindFromSound(keys, sh, sh.HashIndex(key), key);
    }
  }

  lemma OutsideIsTaken(keys: seq<nat>, sh: Shape, key: nat)
    requires WellPlaced(keys, sh) && key != 0 && key !in keys && !InSpan(keys, sh, key)
    ensures SpanIsTaken(Placed(keys, sh, key), sh, key)
  {
    FindIsMembership(keys, sh, key);
    hide WellPlaced, Find, ScanEnd;
  }

  /** Slots that are full never change. */
  lemma {:induction false} TakenStays(keys: seq<nat>, sh: Shape, key: nat, run: seq<nat>)
    requires sh.Valid() && |keys| == sh.NumBuckets() && SpanIsTaken(keys, sh, key)
    ensures SpanIsTaken(PlacedAll(keys, sh, run), sh, key)
    decreases |run|
  {
    if run != [] {
      hide Find, FirstEmpty, ScanEnd;
      TakenStays(Placed(keys, sh, run[0]), sh, key, run[1..]);
    }
  }

  lemma SameLane(window: seq<nat>, after: seq<nat>, key: nat)
    requires |after| == |window|
    requires forall i :: 0 <= i < |window| ==> (after[i] == key <==> window[i] == key)
    ensures FirstLane(after, key) == FirstLane(window, key)
  {
  }

  /** A window changes neither where it holds a key nor whether it is full when another key is put into an
      empty slot. */
  lemma WindowStays(keys: seq<nat>, from: nat, to: nat, key: nat, ix: nat, other: nat)
    requires from <= to <= |keys| && key != 0
    requires ix < |keys| && keys[ix] == 0 && other != 0 && other != key
    ensures var window, after := keys[from..to], keys[ix := other][from..to];
            && FirstLane(after, key) == FirstLane(window, key)
            && (FirstLane(window, 0) == |window| ==> FirstLane(after, 0) == |window|)
  {
    var window, after := keys[from..to], keys[ix := other][from..to];
    assert forall i :: 0 <= i < |window| ==> window[i] == keys[from + i] && after[i] == keys[ix := other][from + i];
    SameLane(window, after, key);
    if FirstLane(window, 0) == |window| {
      SameLane(window, after, 0);
    }
  }

  lemma {:induction false} FindFromStays(keys: seq<nat>, sh: Shape, pp: nat, key: nat, ix: nat, other: nat)
    requires sh.Valid() && !sh.OneRegister() && |keys| == sh.NumBuckets() && key != 0
    requires ix < |keys| && keys[ix] == 0 && other != 0 && other != key
    requires FindFrom(keys, sh, pp, key).Some?
    ensures FindFrom(keys[ix := other], sh, pp, key) == FindFrom(keys, sh, pp, key)
    decreases sh.End() - pp
  {
    hide FirstLane, Shape.NumBuckets, Shape.NumVregs, Shape.HashIndex;
    WindowStays(keys, pp, pp + sh.vlen, key, ix, other);
    if FirstLane(keys[pp..pp + sh.vlen], key) == sh.vlen {
      FindFromStays(keys, sh, pp + sh.vlen, key, ix, other);
    }
  }

  /** Inserting another key leaves a found key where it is. */
  lemma FoundStays(keys: seq<nat>, sh: Shape, key: nat, other: nat)
    requires sh.Valid() && |keys| == sh.NumBuckets() && key != 0 && other != 0 && Find(keys, sh, key).Some?
    ensures Find(Placed(keys, sh, other), sh, key) == Find(keys, sh, key)
  {
    var r := Insert(keys, sh, other);
    if r.Some? && r.value.1 {
      if sh.OneRegister() {
        SameLane(keys, keys[r.value.0 := other], key);
      } else {
        FindFromStays(keys, sh, sh.HashIndex(key), key, r.value.0, other);
      }
    }
  }

  lemma {:induction false} FoundStaysAll(keys: seq<nat>, sh: Shape, key: nat, run: seq<nat>)
    requires sh.Valid() && |keys| == sh.NumBuckets() && key != 0 && Find(keys, sh, key).Some?
    requires forall i :: 0 <= i < |run| ==> run[i] != 0
    ensures Find(PlacedAll(keys, sh, run), sh, key) == Find(keys, sh, key)
    decreases |run|
  {
    if run != [] {
      FoundStays(keys, sh, key, run[0]);
      hide Find, Placed;
      FoundStaysAll(Placed(keys, sh, run[0]), sh, key, run[1..]);
    }
  }

  /** Whatever is inserted later, a new key is found for good if its free slot lies in the span that is
      scanned for it, and never otherwise. */
  lemma InsertIsForGoodIff(keys: seq<nat>, sh: Shape, key: nat, run: seq<nat>)
    requires WellPlaced(keys, sh) && key != 0 && key !in keys
    requires forall i :: 0 <= i < |run| ==> run[i] != 0
    ensures Find(PlacedAll(Placed(keys, sh, key), sh, run), sh, key).Some? <==> InSpan(keys, sh, key)
  {
    if InSpan(keys, sh, key) {
      InsertedIsFoundIff(keys, sh, key);
      FindIsMembership(keys, sh, key);
      FoundStaysAll(Placed(keys, sh, key), sh, key, run);
    } else {
      OutsideIsTaken(keys, sh, key);
      TakenStays(Placed(keys, sh, key), sh, key, run);
      TakenIsNotFound(PlacedAll(Placed(keys, sh, key), sh, run), sh, key);
    }
  }

  /** After any run of inserts every key of the run is found if and only if the run meets the span
      condition. */
  lemma {:induction false} RunIsFoundIff(keys: seq<nat>, sh: Shape, run: seq<nat>)
    requires WellPlaced(keys, sh) && forall i :: 0 <= i < |run| ==> run[i] != 0
    ensures (forall i :: 0 <= i < |run| ==> Find(PlacedAll(keys, sh, run), sh, run[i]).Some?) <==>
            SpansHold(keys, sh, run)
    decreases |run|
  {
    assert sh.Valid() && |keys| == sh.NumBuckets();
    hide WellPlaced, Find, Placed, InSpan, KeySet;
    if run != [] {
      var after := PlacedAll(keys, sh, run);
      if run[0] in keys || InSpan(keys, sh, run[0]) {
        PlacedKeeps(keys, sh, run[0]);
        RunIsFoundIff(Placed(keys, sh, run[0]), sh, run[1..]);
        assert forall i :: 0 < i < |run| ==> run[i] == run[1..][i - 1];
        if SpansHold(keys, sh, run) {
          InsertsRefineSet(keys, sh, run);
        }
      } else {
        InsertIsForGoodIff(keys, sh, run[0], run[1..]);
      }
    }
  }

  class DenseIndex {
    const shape: Shape
    const keys: array<nat>

    ghost predicate Sound()
      reads this
    {
      shape.Valid() && keys.Length == shape.NumBuckets()
    }

    ghost predicate Valid()
      reads this, keys
    {
      Sound() && WellPlaced(keys[..], shape)
    }

    constructor (shape: Shape)
      requires shape.Valid()
      ensures Valid() && this.shape == shape && fresh(keys)
      ensures keys[..] == seq(keys.Length, i => 0)
    {
      this.shape := shape;
      keys := new nat[shape.NumBuckets()](_ => 0);
    }

    /** Scans window by window. The result is the slot of the first window that holds the key and the
        mask of its equal lanes; a zero mask means that the key was not found. */
    method OffsetAndMaskFind(key: nat) returns (offset: nat, mask: nat)
      requires Sound()
      ensures match Find(keys[..], shape, key)
              case None => mask == 0
              case Some(ix) => mask != 0 && offset + (Ffs(mask) - 1) / shape.width == ix
    {
      if shape.OneRegister() {
        MaskFindsFirstLane(keys[..], key, shape.width);
        return 0, MoveMask(keys[..], key, shape.width);
      }
      var pp := shape.HashIndex(key);
      while pp < shape.End()
        invariant Find(keys[..], shape, key) == FindFrom(keys[..], shape, pp, key)
        decreases shape.End() - pp
      {
        var window := keys[pp..pp + shape.vlen];
        assert window == keys[..][pp..pp + shape.vlen];
        MaskFindsFirstLane(window, key, shape.width);
        MaskFindsFirstLane(window, 0, shape.width);
        var hit := MoveMask(window, key, shape.width);
        if hit != 0 {
          return pp, hit;
        }
        if MoveMask(window, 0, shape.width) != 0 {
          break;
        }
        pp := pp + shape.vlen;
      }
      return 0, 0;
    }

    /** The key's slot; the number of buckets stands for NOT_FOUND. */
    method FindIx(key: nat) returns (ix: nat)
      requires Sound()
      ensures ix == match Find(keys[..], shape, key) { case None => shape.NumBuckets() case Some(j) => j }
      ensures Valid() && key != 0 ==> (ix < keys.Length <==> key in keys[..])
      ensures Valid() && key != 0 && ix < keys.Length ==> keys[ix] == key
    {
      var offset, mask := OffsetAndMaskFind(key);
      ix := if mask == 0 then shape.NumBuckets() else offset + (Ffs(mask) - 1) / shape.width;
      if Valid() && key != 0 {
        FindIsExact(keys[..], shape, key);
        if key in keys[..] {
          var j :| 0 <= j < keys.Length && keys[j] == key;
          assert Find(keys[..], shape, key) == Some(j);
        }
      }
    }

    /** Puts a new key into the first empty slot from its hash index on; `!ok` is the exception thrown
        when there is none. */
    method InsertKey(key: nat) returns (ok: bool, ix: nat, isNew: bool)
      requires Sound() && key != 0
      modifies keys
      ensures match old(Insert(keys[..], shape, key))
              case None => !ok && !isNew && keys[..] == old(keys[..])
              case Some((j, b)) =>
                && ok && ix == j < keys.Length && isNew == b && keys[ix] == key
                && keys[..] == if b then old(keys[..])[j := key] else old(keys[..])
      ensures old(Valid()) && ok && (isNew ==> old(InSpan(keys[..], shape, key))) ==> Valid()
    {
      isNew := false;
      ix := FindIx(key);
      FindSound(keys[..], shape, key);
      if ix != shape.NumBuckets() {
        return true, ix, false;
      }
      ghost var was := keys[..];
      ix := shape.HashIndex(key);
      while ix < keys.Length
        invariant shape.HashIndex(key) <= ix <= keys.Length
        invariant FirstEmpty(was, shape.HashIndex(key)) == FirstEmpty(was, ix)
        invariant keys[..] == was
        decreases keys.Length - ix
      {
        if keys[ix] == 0 {
          keys[ix] := key;
          if WellPlaced(was, shape) {
            FindIsMembership(was, shape, key);
            InsertIsWellPlacedIff(was, shape, key);
          }
          return true, ix, true;
        }
        ix := ix + 1;
      }
      return false, 0, false;
    }

    /** Counts the keys by a pass over all slots. */
    method ScanNumberOfKeys() returns (n: nat)
      requires Sound()
      ensures n == FullSlots(keys[..], keys.Length)
      ensures Valid() ==> n == |KeySet(keys[..])|
    {
      n := 0;
      for ii := 0 to keys.Length
        invariant n == FullSlots(keys[..], ii)
      {
        if keys[ii] != 0 {
          n := n + 1;
        }
      }
      if Valid() {
        FullSlotsAreKeys(keys[..], keys.Length);
        assert keys[..][..keys.Length] == keys[..];
      }
    }
  }

  /** The finite map that keys and values stand for. */
  ghost function MapOf<V>(keys: seq<nat>, values: seq<V>, sh: Shape): (m: map<nat, V>)
    requires WellPlaced(keys, sh) && |values| == |keys|
    ensures m.Keys == KeySet(keys)
  {
    map key | key in KeySet(keys) :: values[SlotOf(keys, sh, key)]
  }

  ghost function SlotOf(keys: seq<nat>, sh: Shape, key: nat): (j: nat)
    requires WellPlaced(keys, sh) && key in KeySet(keys)
    ensures j < |keys| && keys[j] == key
  {
    FindIsMembership(keys, sh, key);
    Find(keys, sh, key).value
  }

  lemma MapOfAt<V>(keys: seq<nat>, values: seq<V>, sh: Shape, ix: nat)
    requires WellPlaced(keys, sh) && |values| == |keys| && ix < |keys| && keys[ix] != 0
    ensures keys[ix] in MapOf(keys, values, sh) && MapOf(keys, values, sh)[keys[ix]] == values[ix]
  {
    assert keys[SlotOf(keys, sh, keys[ix])] == keys[ix];
  }

  lemma MapOfInsert<V>(keys: seq<nat>, values: seq<V>, sh: Shape, key: nat, ix: nat, value: V)
    requires WellPlaced(keys, sh) && |values| == |keys| && key != 0 && key !in KeySet(keys)
    requires ix < |keys| && keys[ix] == 0 && WellPlaced(keys[ix := key], sh)
    ensures MapOf(keys[ix := key], values[ix := value], sh) == MapOf(keys, values, sh)[key := value]
  {
    var after, m := keys[ix := key], MapOf(keys, values, sh);
    assert KeySet(after) == KeySet(keys) + {key} by {
      assert after[ix] == key;
      assert forall j :: 0 <= j < |keys| && j != ix ==> after[j] == keys[j];
    }
    var m' := MapOf(after, values[ix := value], sh);
    forall k | k in KeySet(after)
      ensures m'[k] == m[key := value][k]
    {
      var j := SlotOf(after, sh, k);
      if k == key {
        assert after[ix] == after[j];
      } else {
        assert after[j] == keys[j] == keys[SlotOf(keys, sh, k)];
      }
    }
  }

  /** What an insert does to the finite map. */
  lemma EmplaceIs<V>(keys: seq<nat>, values: seq<V>, sh: Shape, key: nat, value: V)
    requires WellPlaced(keys, sh) && |values| == |keys| && key != 0
    ensures match Insert(keys, sh, key)
            case None => key !in KeySet(keys)
            case Some((ix, false)) => key in KeySet(keys)
            case Some((ix, true)) =>
              && key !in KeySet(keys)
              && (WellPlaced(keys[ix := key], sh) <==> InSpan(keys, sh, key))
              && (if InSpan(keys, sh, key)
                  then MapOf(keys[ix := key], values[ix := value], sh) == MapOf(keys, values, sh)[key := value]
                  else Find(keys[ix := key], sh, key) == None)
  {
    FindIsMembership(keys, sh, key);
    if Insert(keys, sh, key).Some? && Insert(keys, sh, key).value.1 {
      var ix := Insert(keys, sh, key).value.0;
      assert key in keys ==> key in KeySet(keys);
      InsertIsWellPlacedIff(keys, sh, key);
      InsertedIsFoundIff(keys, sh, key);
      hide WellPlaced, KeySet, Find, FirstEmpty, InSpan;
      if InSpan(keys, sh, key) {
        MapOfInsert(keys, values, sh, key, ix, value);
      }
    }
  }

  class DenseMap<V> {
    const index: DenseIndex
    const values: array<V>

    ghost predicate Sound()
      reads this, index
    {
      index.Sound() && values.Length == index.keys.Length && values as object != index.keys
    }

    ghost predicate Valid()
      reads this, index, index.keys
    {
      Sound() && index.Valid()
    }

    ghost function Contents(): map<nat, V>
      requires Valid()
      reads this, index, index.keys, values
    {
      MapOf(index.keys[..], values[..], index.shape)
    }

    /** `blank` fills the storage of slots that hold no value yet. */
    constructor (shape: Shape, blank: V)
      requires shape.Valid()
      ensures Valid() && Contents() == map[] && fresh(index) && fresh(index.keys) && fresh(values)
      ensures index.shape == shape
    {
      var ix := new DenseIndex(shape);
      index := ix;
      values := new V[shape.NumBuckets()](_ => blank);
      new;
      assert forall j :: 0 <= j < |index.keys[..]| ==> index.keys[..][j] == 0;
    }

    method LookupPtr(key: nat) returns (value: Option<V>)
      requires Sound()
      ensures value == match Find(index.keys[..], index.shape, key)
                       case None => None
                       case Some(j) => Some(values[j])
      ensures Valid() && key != 0 ==> value == if key in Contents() then Some(Contents()[key]) else None
    {
      var ix := index.FindIx(key);
      if Valid() && key != 0 {
        FindIsMembership(index.keys[..], index.shape, key);
      }
      value := if ix == index.shape.NumBuckets() then None else Some(values[ix]);
    }

    /** Adds a key with its value; an existing key keeps its own; `!ok` is the exception thrown when there
        is no slot. What was a finite map is one afterwards if and only if the key was there already or its
        slot lies in the span that is scanned for it; otherwise the key is not found afterwards. */
    method Emplace(key: nat, value: V) returns (ok: bool, ix: nat, isNew: bool)
      requires Sound() && key != 0
      modifies index.keys, values
      ensures match old(Insert(index.keys[..], index.shape, key))
              case None => !ok && !isNew && index.keys[..] == old(index.keys[..]) && values[..] == old(values[..])
              case Some((j, b)) =>
                && ok && ix == j && isNew == b
                && index.keys[..] == (if b then old(index.keys[..])[j := key] else old(index.keys[..]))
                && values[..] == (if b then old(values[..])[j := value] else old(values[..]))
      ensures old(Valid()) && ok ==> (isNew <==> key !in old(Contents()))
      ensures old(Valid()) && ok ==>
                (Valid() <==> key in old(Contents()) || old(InSpan(index.keys[..], index.shape, key)))
      ensures old(Valid()) && ok && Valid() ==>
                Contents() == if isNew then old(Contents())[key := value] else old(Contents())
      ensures ok ==> ix < values.Length && index.keys[ix] == key && (isNew ==> values[ix] == value)
      ensures old(Valid()) && ok && Valid() ==> key in Contents() && values[ix] == Contents()[key]
      ensures old(Valid()) && ok && !Valid() ==> Find(index.keys[..], index.shape, key) == None
    {
      hide Find, FirstEmpty, Insert, InSpan, KeySet, MapOf, WellPlaced;
      ghost var was, wasValues, wasValid := index.keys[..], values[..], Valid();
      ok, ix, isNew := index.InsertKey(key);
      if isNew {
        values[ix] := value;
      }
      assert values[..] == if isNew then wasValues[ix := value] else wasValues;
      if wasValid {
        EmplaceIs(was, wasValues, index.shape, key, value);
      }
      if ok && Valid() {
        MapOfAt(index.keys[..], values[..], index.shape, ix);
      }
    }

    method Size() returns (n: nat)
      requires Sound()
      ensures n == FullSlots(index.keys[..], index.keys.Length)
      ensures Valid() ==> n == |Contents()|
    {
      n := index.ScanNumberOfKeys();
      assert Valid() ==> |Contents()| == |Contents().Keys|;
    }
  }
}
