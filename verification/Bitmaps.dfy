/** Allocation bitmaps: arrays of bytes scanned bit by bit.
    The memory manager numbers the bits of a byte from the most significant end,
    the file system from the least significant end. */
module Bitmaps {
  import opened Options

  datatype Order = Msb | Lsb

  // ---------- one byte ----------

  function Mask(o: Order, k: nat): bv8
    requires k < 8
  {
    match o
    case Msb => (128 as bv8) >> k
    case Lsb => (1 as bv8) << k
  }

  predicate GetBit(o: Order, b: bv8, k: nat)
    requires k < 8
  {
    b & Mask(o, k) != 0
  }

  // Two masks are the same single bit or share none.
  lemma MasksDisjoint(o: Order, k: nat, j: nat)
    requires k < 8 && j < 8
    ensures Mask(o, k) != 0
    ensures k != j ==> Mask(o, k) & Mask(o, j) == 0
  {
  }

  lemma OrMask(b: bv8, m: bv8, n: bv8)
    ensures (b | m) & n == (b & n) | (m & n)
    ensures m & n == 0 ==> b & !m & n == b & n
    ensures b & !m & m == 0
    ensures (b & m) | (m & m) == m
  {
  }

  lemma ByteSet(o: Order, b: bv8, k: nat, j: nat)
    requires k < 8 && j < 8
    ensures GetBit(o, b | Mask(o, k), j) == (j == k || GetBit(o, b, j))
  {
    MasksDisjoint(o, k, j);
    OrMask(b, Mask(o, k), Mask(o, j));
  }

  lemma ByteClear(o: Order, b: bv8, k: nat, j: nat)
    requires k < 8 && j < 8
    ensures GetBit(o, b & !Mask(o, k), j) == (j != k && GetBit(o, b, j))
  {
    MasksDisjoint(o, k, j);
    OrMask(b, Mask(o, k), Mask(o, j));
  }

  // ---------- a whole bitmap ----------

  function Bits(o: Order, bytes: seq<bv8>): (bits: seq<bool>)
    ensures |bits| == 8 * |bytes|
  {
    seq(8 * |bytes|, i requires 0 <= i < 8 * |bytes| => GetBit(o, bytes[i / 8], i % 8))
  }

  lemma BitsSet(o: Order, bytes: seq<bv8>, i: nat)
    requires i < 8 * |bytes|
    ensures Bits(o, bytes[i / 8 := bytes[i / 8] | Mask(o, i % 8)]) == Bits(o, bytes)[i := true]
  {
    hide GetBit, Mask;
    var bytes' := bytes[i / 8 := bytes[i / 8] | Mask(o, i % 8)];
    forall j | 0 <= j < 8 * |bytes|
      ensures Bits(o, bytes')[j] == Bits(o, bytes)[i := true][j]
    {
      if j / 8 == i / 8 {
        ByteSet(o, bytes[i / 8], i % 8, j % 8);
      }
    }
  }

  lemma BitsClear(o: Order, bytes: seq<bv8>, i: nat)
    requires i < 8 * |bytes|
    ensures Bits(o, bytes[i / 8 := bytes[i / 8] & !Mask(o, i % 8)]) == Bits(o, bytes)[i := false]
  {
    hide GetBit, Mask;
    var bytes' := bytes[i / 8 := bytes[i / 8] & !Mask(o, i % 8)];
    forall j | 0 <= j < 8 * |bytes|
      ensures Bits(o, bytes')[j] == Bits(o, bytes)[i := false][j]
    {
      if j / 8 == i / 8 {
        ByteClear(o, bytes[i / 8], i % 8, j % 8);
      }
    }
  }

  method Get(o: Order, a: array<bv8>, i: nat) returns (bit: bool)
    requires i < 8 * a.Length
    ensures bit == Bits(o, a[..])[i]
  {
    bit := GetBit(o, a[i / 8], i % 8);
  }

  // The mask loop of unset_bit_at_index: it compares its counter with the index in
  // the whole bitmap, where the position inside the byte was meant.
  method ClearAsWritten(a: array<bv8>, index: nat)
    requires index < 8 * a.Length
    modifies a
    ensures Bits(Msb, a[..]) == if index < 8 then old(Bits(Msb, a[..]))[index := false] else old(Bits(Msb, a[..]))
  {
    hide Bits, Mask, MaskUpTo;
    ghost var bytes := a[..];
    var mask := MaskAsWritten(index);
    ClearedAsWritten(bytes, index);
    a[index / 8] := a[index / 8] & mask;
    assert a[..] == bytes[index / 8 := bytes[index / 8] & mask];
  }

  lemma ClearedAsWritten(bytes: seq<bv8>, index: nat)
    requires index < 8 * |bytes|
    ensures Bits(Msb, bytes[index / 8 := bytes[index / 8] & MaskUpTo(8, index)]) ==
            if index < 8 then Bits(Msb, bytes)[index := false] else Bits(Msb, bytes)
  {
    hide Bits, Mask, MaskUpTo;
    MaskedByte(bytes[index / 8], index);
    if index < 8 {
      BitsClear(Msb, bytes, index);
    } else {
      assert bytes[index / 8 := bytes[index / 8]] == bytes;
    }
  }

  method MaskAsWritten(index: nat) returns (mask: bv8)
    ensures mask == MaskUpTo(8, index)
  {
    hide MaskUpTo;
    mask := 0;
    MaskStep(0, index);
    var i := 0;
    while i < 8
      invariant i <= 8 && mask == MaskUpTo(i, index)
    {
      MaskStep(i, index);
      mask := (mask << 1) | (if i == index then 0 else 1);
      i := i + 1;
    }
  }

  lemma MaskedByte(b: bv8, index: nat)
    ensures b & MaskUpTo(8, index) == if index < 8 then b & !Mask(Msb, index) else b
  {
    MaskValue(index);
    hide MaskUpTo, Mask;
  }

  function MaskUpTo(i: nat, index: nat): bv8 {
    if i == 0 then 0 else (MaskUpTo(i - 1, index) << 1) | (if i - 1 == index then 0 else 1)
  }

  lemma MaskStep(i: nat, index: nat)
    ensures MaskUpTo(0, index) == 0
    ensures MaskUpTo(i + 1, index) == (MaskUpTo(i, index) << 1) | (if i == index then 0 else 1)
  {
  }

  lemma MaskValue(index: nat)
    ensures MaskUpTo(8, index) == if index < 8 then !Mask(Msb, index) else 255
  {
    if index == 0 {} else if index == 1 {} else if index == 2 {} else if index == 3 {}
    else if index == 4 {} else if index == 5 {} else if index == 6 {} else if index == 7 {}
    else {
      assert MaskUpTo(1, index) == 1;
      assert MaskUpTo(2, index) == 3;
      assert MaskUpTo(3, index) == 7;
      assert MaskUpTo(4, index) == 15;
      assert MaskUpTo(5, index) == 31;
      assert MaskUpTo(6, index) == 63;
      assert MaskUpTo(7, index) == 127;
    }
  }

  // unset_bit_at_index clears the bit it was asked to clear exactly when that bit
  // lies in the first byte, or was clear already.
  lemma ClearAsWrittenCondition(bits: seq<bool>, index: nat)
    requires index < |bits|
    ensures (if index < 8 then bits[index := false] else bits) == bits[index := false] <==> index < 8 || !bits[index]
  {
    assert bits[index := false][index] == false;
    if !bits[index] {
      assert bits[index := false] == bits;
    }
  }

  method Set(o: Order, a: array<bv8>, i: nat)
    requires i < 8 * a.Length
    modifies a
    ensures Bits(o, a[..]) == old(Bits(o, a[..]))[i := true]
  {
    BitsSet(o, a[..], i);
    ghost var bytes := a[..];
    a[i / 8] := a[i / 8] | Mask(o, i % 8);
    assert a[..] == bytes[i / 8 := bytes[i / 8] | Mask(o, i % 8)];
  }

  method Clear(o: Order, a: array<bv8>, i: nat)
    requires i < 8 * a.Length
    modifies a
    ensures Bits(o, a[..]) == old(Bits(o, a[..]))[i := false]
  {
    BitsClear(o, a[..], i);
    ghost var bytes := a[..];
    a[i / 8] := a[i / 8] & !Mask(o, i % 8);
    assert a[..] == bytes[i / 8 := bytes[i / 8] & !Mask(o, i % 8)];
  }

  method NewBitmap(n: nat) returns (a: array<bv8>)
    ensures fresh(a) && a.Length == n && forall i :: 0 <= i < n ==> a[i] == 0
  {
    a := new bv8[n](_ => 0);
  }

  // ---------- searching ----------

  // The positions of the clear bits, in ascending order.
  function Frees(bits: seq<bool>): (frees: seq<int>)
    ensures |frees| <= |bits|
  {
    if bits == [] then []
    else
      var rest := Frees(bits[..|bits| - 1]);
      if bits[|bits| - 1] then rest else rest + [|bits| - 1]
  }

  // They are exactly the clear bits, in ascending order.
  lemma FreesExact(bits: seq<bool>)
    ensures forall i: nat :: i in Frees(bits) <==> i < |bits| && !bits[i]
    ensures forall i, j :: 0 <= i < j < |Frees(bits)| ==> Frees(bits)[i] < Frees(bits)[j]
    ensures forall k :: 0 <= k < |Frees(bits)| ==> 0 <= Frees(bits)[k] < |bits| && !bits[Frees(bits)[k]]
  {
    hide Frees;
    forall k | 0 <= k < |Frees(bits)| ensures 0 <= Frees(bits)[k] < |bits| && !bits[Frees(bits)[k]] {
      FreesAreClear(bits, k);
    }
    forall i: nat ensures i in Frees(bits) <==> i < |bits| && !bits[i] {
      if i < |bits| && !bits[i] {
        ClearIsFree(bits, i);
      }
    }
    forall i, j | 0 <= i < j < |Frees(bits)| ensures Frees(bits)[i] < Frees(bits)[j] {
      FreesAscend(bits, i, j);
    }
  }

  lemma {:induction false} FreesAreClear(bits: seq<bool>, k: nat)
    requires k < |Frees(bits)|
    ensures 0 <= Frees(bits)[k] < |bits| && !bits[Frees(bits)[k]]
  {
    var last := |bits| - 1;
    if k < |Frees(bits[..last])| {
      FreesAreClear(bits[..last], k);
    }
  }

  lemma {:induction false} ClearIsFree(bits: seq<bool>, i: nat)
    requires i < |bits| && !bits[i]
    ensures i in Frees(bits)
  {
    var last := |bits| - 1;
    if i < last {
      ClearIsFree(bits[..last], i);
    } else {
      assert Frees(bits)[|Frees(bits)| - 1] == i;
    }
  }

  lemma {:induction false} FreesAscend(bits: seq<bool>, i: nat, j: nat)
    requires i < j < |Frees(bits)|
    ensures Frees(bits)[i] < Frees(bits)[j]
  {
    var last := |bits| - 1;
    if j < |Frees(bits[..last])| {
      FreesAscend(bits[..last], i, j);
    } else {
      FreesAreClear(bits[..last], i);
    }
  }

  lemma {:induction false} FreesPrefix(bits: seq<bool>, p: nat)
    requires p <= |bits|
    ensures |FreesBelow(bits, p)| <= |Frees(bits)|
    ensures Frees(bits)[..|FreesBelow(bits, p)|] == FreesBelow(bits, p)
  {
    if p < |bits| {
      FreesPrefix(bits[..|bits| - 1], p);
      assert bits[..|bits| - 1][..p] == bits[..p];
    } else {
      assert bits[..p] == bits;
    }
  }

  ghost function FreesBelow(bits: seq<bool>, p: nat): seq<int>
    requires p <= |bits|
  {
    Frees(bits[..p])
  }

  lemma FreesNext(bits: seq<bool>, p: nat)
    requires p < |bits|
    ensures FreesBelow(bits, p + 1) == FreesBelow(bits, p) + if bits[p] then [] else [p]
  {
    assert bits[..p + 1][..p] == bits[..p];
  }

  lemma FreesEnds(bits: seq<bool>)
    ensures FreesBelow(bits, 0) == [] && FreesBelow(bits, |bits|) == Frees(bits)
  {
    assert bits[..|bits|] == bits;
  }

  // Taking a free bit removes one position from the list.
  lemma {:induction false} FreesTake(bits: seq<bool>, i: nat)
    requires i < |bits| && !bits[i]
    ensures |Frees(bits[i := true])| == |Frees(bits)| - 1
  {
    var last := |bits| - 1;
    if i == last {
      assert bits[i := true][..last] == bits[..last];
    } else {
      FreesTake(bits[..last], i);
      assert bits[i := true][..last] == bits[..last][i := true];
    }
  }

  predicate FreeRun(bits: seq<bool>, s: nat, n: nat) {
    s + n <= |bits| && forall k :: s <= k < s + n ==> !bits[k]
  }

  ghost predicate FirstRun(bits: seq<bool>, n: nat, r: Option<nat>) {
    match r
    case Some(s) => FreeRun(bits, s, n) && forall e: nat :: e < s ==> !FreeRun(bits, e, n)
    case None => forall e: nat :: !FreeRun(bits, e, n)
  }

  // The run length the scan of get_next_avail really asks for: one page is
  // only found when the page after it is free too.
  function RunLength(n: nat): nat {
    if n < 2 then 2 else n
  }

  // In full: with one page asked for the run covers two, otherwise exactly the pages; a
  // run starts at s if all its bits are clear and every earlier start meets a set bit or
  // the end.
  lemma FirstRunMeans(bits: seq<bool>, n: nat, r: Option<nat>)
    requires n >= 1
    ensures var m := if n == 1 then 2 else n;
            FirstRun(bits, RunLength(n), r) <==>
              (r.Some? ==> r.value + m <= |bits| && forall k :: r.value <= k < r.value + m ==> !bits[k])
              && forall e: nat :: e + m <= |bits| && (r.Some? ==> e < r.value) ==> Blocked(bits, e, m)
  {
    var m := RunLength(n);
    forall e: nat ensures FreeRun(bits, e, m) <==> e + m <= |bits| && !Blocked(bits, e, m) {
    }
  }

  // Some bit of the stretch is set.
  ghost predicate Blocked(bits: seq<bool>, e: nat, m: nat) {
    exists k :: e <= k < e + m && k < |bits| && bits[k]
  }

  // The lowest clear bit, or the length.
  function FirstClear(bits: seq<bool>): (r: nat)
    ensures r <= |bits| && (r < |bits| ==> !bits[r])
    ensures forall k :: 0 <= k < r ==> bits[k]
  {
    if bits == [] || !bits[0] then 0 else 1 + FirstClear(bits[1..])
  }

  // Set the lowest clear bit below n and report it.
  method TakeFirst(o: Order, a: array<bv8>, n: nat) returns (r: Option<nat>)
    requires n <= 8 * a.Length
    modifies a
    ensures r == if FirstClear(old(Bits(o, a[..]))) < n then Some(FirstClear(old(Bits(o, a[..])))) else None
    ensures r.None? ==> Bits(o, a[..]) == old(Bits(o, a[..]))
    ensures r.Some? ==> r.value < n && Bits(o, a[..]) == old(Bits(o, a[..]))[r.value := true]
  {
    hide Bits;
    ghost var bits := Bits(o, a[..]);
    var i := 0;
    while i < n
      invariant i <= n
      invariant Bits(o, a[..]) == bits
      invariant forall k :: 0 <= k < i ==> bits[k]
    {
      var bit := Get(o, a, i);
      if !bit {
        Set(o, a, i);
        return Some(i);
      }
      i := i + 1;
    }
    return None;
  }

  // The n lowest clear bits in order, or nothing when there are fewer or n is zero.
  method FreeList(a: array<bv8>, n: nat) returns (r: Option<seq<int>>)
    ensures r.Some? <==> n >= 1 && |Frees(Bits(Msb, a[..]))| >= n
    ensures r.Some? ==> r.value == Frees(Bits(Msb, a[..]))[..n]
  {
    hide Bits, FreesBelow, Frees;
    ghost var bits := Bits(Msb, a[..]);
    var found: seq<int> := [];
    FreesEnds(bits);
    var i := 0;
    while i < a.Length
      invariant i <= a.Length
      invariant Listed(bits, 8 * i, found, n)
    {
      var j := 0;
      while j < 8
        invariant j <= 8
        invariant Listed(bits, 8 * i + j, found, n)
      {
        var bit := Get(Msb, a, 8 * i + j);
        ListStep(bits, 8 * i + j, found, n);
        if !bit {
          found := found + [8 * i + j];
          if |found| == n {
            return Some(found);
          }
        }
        j := j + 1;
      }
      i := i + 1;
    }
    return None;
  }

  ghost predicate Listed(bits: seq<bool>, p: nat, found: seq<int>, n: nat) {
    p <= |bits| && found == FreesBelow(bits, p) && (n == 0 || |found| < n)
  }

  lemma ListStep(bits: seq<bool>, p: nat, found: seq<int>, n: nat)
    requires p < |bits| && Listed(bits, p, found, n)
    ensures bits[p] ==> Listed(bits, p + 1, found, n)
    ensures !bits[p] && |found| + 1 != n ==> Listed(bits, p + 1, found + [p], n)
    ensures !bits[p] && |found| + 1 == n ==> |Frees(bits)| >= n && Frees(bits)[..n] == found + [p]
  {
    FreesNext(bits, p);
    FreesPrefix(bits, p + 1);
  }

  // The start of the first run of clear bits long enough for n pages.
  method FirstFit(a: array<bv8>, n: nat) returns (r: Option<nat>)
    ensures n == 0 ==> r.None?
    ensures n >= 1 ==> FirstRun(Bits(Msb, a[..]), RunLength(n), r)
  {
    hide Bits;
    ghost var bits := Bits(Msb, a[..]);
    var count: nat, start: nat := 0, 0;
    var i := 0;
    while i < a.Length
      invariant i <= a.Length
      invariant ScanState(bits, 8 * i, n, count, start)
    {
      var j := 0;
      while j < 8
        invariant j <= 8
        invariant ScanState(bits, 8 * i + j, n, count, start)
      {
        ghost var p := 8 * i + j;
        var bit := Get(Msb, a, 8 * i + j);
        ScanStep(bits, p, n, count, start);
        if !bit {
          if count == 0 {
            start := 8 * i + j;
          } else if count == n - 1 || count == n {
            return Some(start);
          }
          count := count + 1;
        } else {
          count := 0;
        }
        j := j + 1;
      }
      i := i + 1;
    }
    return None;
  }

  // After looking at the first p bits: count clear bits end there, starting at
  // start, and no long enough run is contained in those p bits.
  ghost predicate ScanState(bits: seq<bool>, p: nat, n: nat, count: nat, start: nat) {
    && count <= p <= |bits|
    && (count > 0 ==> start == p - count)
    && (forall k :: p - count <= k < p ==> !bits[k])
    && (count < p ==> bits[p - count - 1])
    && (n >= 1 ==> count < RunLength(n))
    && (n >= 1 ==> forall e: nat :: e + RunLength(n) <= p ==> !FreeRun(bits, e, RunLength(n)))
  }

  lemma ScanStep(bits: seq<bool>, p: nat, n: nat, count: nat, start: nat)
    requires p < |bits| && ScanState(bits, p, n, count, start)
    ensures bits[p] ==> ScanState(bits, p + 1, n, 0, start)
    ensures !bits[p] && count == 0 ==> ScanState(bits, p + 1, n, 1, p)
    ensures !bits[p] && count > 0 && (count == n - 1 || count == n) ==> n >= 1 && FirstRun(bits, RunLength(n), Some(start))
    ensures !bits[p] && count > 0 && count != n - 1 && count != n ==> ScanState(bits, p + 1, n, count + 1, start)
  {
    forall e: nat | n >= 1 && bits[p] && e + RunLength(n) == p + 1
      ensures !FreeRun(bits, e, RunLength(n))
    {
      assert e <= p < e + RunLength(n);
    }
    forall e: nat | n >= 1 && e + RunLength(n) == p + 1 && count + 1 < RunLength(n)
      ensures !FreeRun(bits, e, RunLength(n))
    {
      assert bits[p - count - 1] && e <= p - count - 1;
    }
    if !bits[p] && count > 0 && (count == n - 1 || count == n) {
      assert FreeRun(bits, start, RunLength(n));
    }
  }
}
