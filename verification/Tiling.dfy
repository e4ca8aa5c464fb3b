/** How the device is divided up. */
module Tiling {
  import opened Keys
  import opened Location

  const SUPERBLOCK_SIZE := 0x1_0000
  const FIRST_GAP := 0x10_0000

  function SuperBlockOffset(i: nat): (r: nat)
    ensures r % BLOCK_SIZE == 0 && (i > 0 ==> r >= FIRST_GAP)
  {
    if i == 0 then 0 else if i == 1 then FIRST_GAP else 16 * SuperBlockOffset(i - 1)
  }

  /** Each gap has room for a superblock, and the next is far beyond. */
  lemma SuperBlockGap(i: nat)
    ensures SuperBlockOffset(i) + SUPERBLOCK_SIZE < SuperBlockOffset(i + 1)
    ensures i > 0 ==> SuperBlockOffset(i + 1) == 16 * SuperBlockOffset(i)
  {
  }

  lemma {:induction false} SuperBlockOrder(i: nat, j: nat)
    requires i < j
    ensures SuperBlockOffset(i) + SUPERBLOCK_SIZE < SuperBlockOffset(j)
    decreases j
  {
    SuperBlockGap(j - 1);
    if i < j - 1 {
      SuperBlockOrder(i, j - 1);
    }
  }

  /** How many superblocks start below `s`, for a device of `s` bytes. */
  ghost predicate SuperBlockCount(s: nat, n: nat) {
    if s == 0 then n == 0 else n > 0 && SuperBlockOffset(n - 1) <= s < SuperBlockOffset(n)
  }

  method CalculateNumberOfSuperBlocks(s: nat) returns (n: nat)
    ensures SuperBlockCount(s, n)
  {
    if s == 0 {
      return 0;
    }
    n := 1;
    while s >= SuperBlockOffset(n)
      invariant n > 0 && SuperBlockOffset(n - 1) <= s
      decreases s - SuperBlockOffset(n)
    {
      SuperBlockGap(n);
      n := n + 1;
    }
  }

  lemma CountUnique(s: nat, m: nat, n: nat)
    requires SuperBlockCount(s, m) && SuperBlockCount(s, n)
    ensures m == n
  {
    if s > 0 && m < n {
      if m < n - 1 {
        SuperBlockOrder(m, n - 1);
      }
    } else if s > 0 && n < m {
      if n < m - 1 {
        SuperBlockOrder(n, m - 1);
      }
    }
  }

  // ----- tilings

  predicate Apart(a: LocationEntry, b: LocationEntry) {
    a.offset + a.size <= b.offset || b.offset + b.size <= a.offset
  }

  predicate Covers(e: LocationEntry, p: nat) {
    e.offset <= p < e.offset + e.size
  }

  ghost predicate Within(xs: set<LocationEntry>, p: nat) {
    exists e :: e in xs && Covers(e, p)
  }

  /** Every byte below `total` is in exactly one of the places, which are not
      empty and hold no other byte. */
  ghost predicate Tiles(xs: set<LocationEntry>, total: nat) {
    && (forall e :: e in xs ==> e.size > 0 && e.offset + e.size <= total)
    && (forall a, b :: a in xs && b in xs && a != b ==> Apart(a, b))
    && (forall p: nat :: p < total ==> Within(xs, p))
  }

  lemma TilesOnce(xs: set<LocationEntry>, total: nat, p: nat, a: LocationEntry, b: LocationEntry)
    requires Tiles(xs, total) && a in xs && b in xs && Covers(a, p) && Covers(b, p)
    ensures a == b
  {
  }

  /** Cutting a place in two. */
  lemma TilesSplit(xs: set<LocationEntry>, total: nat, e: LocationEntry, n: nat)
    requires Tiles(xs, total) && e in xs && 0 < n < e.size
    ensures var a, b := LocationEntry(e.offset, n), LocationEntry(e.offset + n, e.size - n);
            Tiles(xs - {e} + {a, b}, total) && a !in xs && b !in xs && a != b
  {
    var a, b := LocationEntry(e.offset, n), LocationEntry(e.offset + n, e.size - n);
    var ys := xs - {e} + {a, b};
    forall p: nat | p < total ensures Within(ys, p) {
      assert Within(xs, p);
      var x :| x in xs && Covers(x, p);
      if x == e {
        assert Covers(a, p) || Covers(b, p);
      } else {
        assert x in ys;
      }
    }
    assert Apart(a, b);
    forall x, y | x in ys && y in ys && x != y ensures Apart(x, y) {
      if x in xs - {e} {
        assert Apart(x, e);
      }
      if y in xs - {e} {
        assert Apart(y, e);
      }
    }
  }

  /** Adding a place at the end. */
  lemma TilesAppend(xs: set<LocationEntry>, total: nat, n: nat)
    requires Tiles(xs, total) && n > 0
    ensures LocationEntry(total, n) !in xs && Tiles(xs + {LocationEntry(total, n)}, total + n)
  {
    var e := LocationEntry(total, n);
    var ys := xs + {e};
    forall p: nat | p < total + n ensures Within(ys, p) {
      if p < total {
        assert Within(xs, p);
        var x :| x in xs && Covers(x, p);
        assert x in ys;
      } else {
        assert Covers(e, p);
      }
    }
  }

  /** The places of the first `n` superblocks. */
  ghost function SuperBlocks(n: nat): set<LocationEntry> {
    set i | 0 <= i < n :: LocationEntry(SuperBlockOffset(i), SUPERBLOCK_SIZE)
  }

  lemma SuperBlocksNext(n: nat)
    ensures SuperBlocks(n + 1) == SuperBlocks(n) + {LocationEntry(SuperBlockOffset(n), SUPERBLOCK_SIZE)}
  {
  }

  // ----- sums of sizes

  ghost function TotalSize(xs: set<LocationEntry>): nat {
    if xs == {} then 0 else
    var x :| x in xs;
    x.size + TotalSize(xs - {x})
  }

  lemma {:induction false} TotalSizeSplit(xs: set<LocationEntry>, x: LocationEntry)
    requires x in xs
    ensures TotalSize(xs) == x.size + TotalSize(xs - {x})
    decreases xs
  {
    var y :| y in xs && TotalSize(xs) == y.size + TotalSize(xs - {y});
    if y != x {
      TotalSizeSplit(xs - {y}, x);
      TotalSizeSplit(xs - {x}, y);
      assert xs - {y} - {x} == xs - {x} - {y};
    }
  }

  lemma TotalSizeAdd(xs: set<LocationEntry>, x: LocationEntry)
    requires x !in xs
    ensures TotalSize(xs + {x}) == TotalSize(xs) + x.size
  {
    TotalSizeSplit(xs + {x}, x);
    assert xs + {x} - {x} == xs;
  }
}
