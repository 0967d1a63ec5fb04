/** The sizes reported for a mounted partition, in the 64-bit arithmetic of the code. */
module SpaceInfo {
  import opened Base

  const TWO64 := 0x1_0000_0000_0000_0000

  /** What statfs fills in. */
  datatype StatFs = StatFs(fBlocks: nat, fBavail: nat, fBsize: nat)

  datatype Space = Space(driveSize: nat, usedSize: nat, freeSize: nat, usedRate: nat)

  function Mul64(a: nat, b: nat): nat {
    (a * b) % TWO64
  }

  /** Size in KiB, dividing last. */
  function KiB(blocks: nat, bsize: nat): nat {
    Mul64(blocks, bsize) / 1024
  }

  function Percent(used: nat, drive: nat): nat
    requires drive != 0
  {
    Mul64(used, 100) / drive
  }

  /** The reported sizes; before is what the structure held, since usedSize is not always written. */
  function Computed(fs: StatFs, before: Space): Space {
    var drive := KiB(fs.fBlocks, fs.fBsize);
    var free := KiB(fs.fBavail, fs.fBsize);
    var used := if drive > free then drive - free else before.usedSize;
    var rate := if drive != 0 then Percent(used, drive) else before.usedRate;
    Space(drive, used, free, rate)
  }

  /** calculateSpaceInfo; fs is None when statfs failed. */
  method CalculateSpaceInfo(fs: Option<StatFs>, before: Space) returns (ok: bool, info: Space)
    ensures ok <==> fs.Some?
    ensures info == if fs.Some? then Computed(fs.value, before) else before
  {
    info := before;
    if fs.None? {
      return false, info;
    }
    var blockSize := fs.value.fBsize;
    info := info.(driveSize := KiB(fs.value.fBlocks, blockSize));
    info := info.(freeSize := KiB(fs.value.fBavail, blockSize));
    if info.driveSize > info.freeSize {
      info := info.(usedSize := info.driveSize - info.freeSize);
    }
    if info.driveSize != 0 {
      info := info.(usedRate := Percent(info.usedSize, info.driveSize));
    }
    ok := true;
  }

  const ZEROED := Space(0, 0, 0, 0)

  /** Both products fit in 64 bits. */
  predicate Fits(fs: StatFs) {
    fs.fBlocks * fs.fBsize < TWO64 && fs.fBavail * fs.fBsize < TWO64
  }

  lemma SmallMod(x: nat)
    requires x < TWO64
    ensures x % TWO64 == x
  {
  }

  lemma MulMono(a: nat, b: nat, c: nat)
    requires a <= b
    ensures a * c <= b * c
  {
  }

  lemma DivMono(a: nat, b: nat, d: nat)
    requires a <= b && d > 0
    ensures a / d <= b / d
  {
    var qa, qb := a / d, b / d;
    assert a == qa * d + a % d && b == qb * d + b % d;
    assert (qb + 1) * d == qb * d + d;
    if qa > qb {
      MulMono(qb + 1, qa, d);
      assert false;
    }
  }

  /**
   * From a zeroed structure, when the products fit: the multiplication by 100 never wraps, used
   * and free add up to the drive unless free exceeds it, the rate is a percentage, and used is
   * within 1 KiB of the exact value.
   */
  lemma SpaceIsConsistent(fs: StatFs)
    requires Fits(fs)
    ensures var r := Computed(fs, ZEROED);
      && r.usedSize * 100 < TWO64
      && (r.freeSize <= r.driveSize ==> r.usedSize + r.freeSize == r.driveSize)
      && (r.freeSize > r.driveSize ==> r.usedSize == 0)
      && 0 <= r.usedRate <= 100
      && (fs.fBavail <= fs.fBlocks ==>
           -1024 < r.usedSize * 1024 - (fs.fBlocks - fs.fBavail) * fs.fBsize < 1024)
  {
    var r := Computed(fs, ZEROED);
    SmallMod(fs.fBlocks * fs.fBsize);
    SmallMod(fs.fBavail * fs.fBsize);
    assert r.usedSize <= r.driveSize;
    SmallMod(r.usedSize * 100);
    if r.driveSize != 0 {
      RateBound(r.usedSize, r.driveSize);
    }
    if fs.fBavail <= fs.fBlocks {
      MulMono(fs.fBavail, fs.fBlocks, fs.fBsize);
      DivMono(fs.fBavail * fs.fBsize, fs.fBlocks * fs.fBsize, 1024);
      assert (fs.fBlocks - fs.fBavail) * fs.fBsize == fs.fBlocks * fs.fBsize - fs.fBavail * fs.fBsize;
    }
  }

  lemma RateBound(used: nat, drive: nat)
    requires used <= drive && drive > 0
    ensures used * 100 / drive <= 100
  {
    var rate := used * 100 / drive;
    assert used * 100 == rate * drive + used * 100 % drive;
    if rate > 100 {
      MulMono(101, rate, drive);
      assert false;
    }
  }

  /** r is x / d rounded down. */
  ghost predicate IsFloor(r: nat, x: nat, d: nat) {
    r * d <= x < (r + 1) * d
  }

  lemma DivIsFloor(x: nat, d: nat)
    requires d > 0
    ensures IsFloor(x / d, x, d)
  {
    assert x == x / d * d + x % d && (x / d + 1) * d == x / d * d + d;
  }

  /**
   * What is reported, whatever the structure held before: drive and free in whole KiB, rounded
   * down; the used size their difference where there is one, and otherwise left alone; and the
   * used rate in whole percent of the drive, rounded down, except that it is left alone for a
   * drive below one KiB.
   */
  lemma ReportedExactly(fs: StatFs, before: Space)
    requires Fits(fs)
    ensures var r := Computed(fs, before);
      && IsFloor(r.driveSize, fs.fBlocks * fs.fBsize, 1024)
      && IsFloor(r.freeSize, fs.fBavail * fs.fBsize, 1024)
      && (r.driveSize > r.freeSize ==> r.usedSize + r.freeSize == r.driveSize)
      && (r.driveSize <= r.freeSize ==> r.usedSize == before.usedSize)
      && (r.driveSize == 0 ==> r.usedRate == before.usedRate)
      && (r.driveSize > 0 && r.usedSize * 100 < TWO64 ==> IsFloor(r.usedRate, r.usedSize * 100, r.driveSize))
  {
    var r := Computed(fs, before);
    SmallMod(fs.fBlocks * fs.fBsize);
    SmallMod(fs.fBavail * fs.fBsize);
    DivIsFloor(fs.fBlocks * fs.fBsize, 1024);
    DivIsFloor(fs.fBavail * fs.fBsize, 1024);
    if r.driveSize > 0 && r.usedSize * 100 < TWO64 {
      SmallMod(r.usedSize * 100);
      DivIsFloor(r.usedSize * 100, r.driveSize);
    }
  }

  /** With less space available, neither the used size nor the used rate goes down. */
  lemma UsedGrowsAsAvailableFalls(fs: StatFs, less: nat)
    requires Fits(fs) && less <= fs.fBavail
    ensures var a, b := Computed(fs, ZEROED), Computed(fs.(fBavail := less), ZEROED);
      a.usedSize <= b.usedSize && a.usedRate <= b.usedRate
  {
    var fs' := fs.(fBavail := less);
    MulMono(less, fs.fBavail, fs.fBsize);
    SmallMod(fs.fBlocks * fs.fBsize);
    SmallMod(fs.fBavail * fs.fBsize);
    SmallMod(less * fs.fBsize);
    DivMono(less * fs.fBsize, fs.fBavail * fs.fBsize, 1024);
    var a, b := Computed(fs, ZEROED), Computed(fs', ZEROED);
    assert a.usedSize <= b.usedSize <= b.driveSize;
    SmallMod(a.usedSize * 100);
    SmallMod(b.usedSize * 100);
    if a.driveSize != 0 {
      DivMono(a.usedSize * 100, b.usedSize * 100, a.driveSize);
    }
  }

  // ---------------------------------------------------------------- dividing first, as the bus service does

  function KiBDivideFirst(blocks: nat, bsize: nat): nat {
    blocks * (bsize / 1024)
  }

  /**
   * Dividing last is never below dividing first, and the two agree exactly if what the block
   * sizes lose to truncation, taken over all blocks, is less than one KiB.
   */
  lemma DivideLastAgainstFirst(blocks: nat, bsize: nat)
    requires blocks * bsize < TWO64
    ensures KiB(blocks, bsize) >= KiBDivideFirst(blocks, bsize)
    ensures KiB(blocks, bsize) == KiBDivideFirst(blocks, bsize) <==> blocks * (bsize % 1024) < 1024
    ensures bsize % 1024 == 0 ==> KiB(blocks, bsize) == KiBDivideFirst(blocks, bsize)
  {
    var q, m := bsize / 1024, bsize % 1024;
    assert bsize == 1024 * q + m;
    assert blocks * bsize == 1024 * (blocks * q) + blocks * m by {
      assert blocks * (1024 * q + m) == blocks * (1024 * q) + blocks * m;
      assert blocks * (1024 * q) == 1024 * (blocks * q);
    }
    SmallMod(blocks * bsize);
    SplitDiv(blocks * q, blocks * m);
    if m == 0 { assert blocks * m == 0; }
  }

  /** With blocks of 512 bytes dividing first reports nothing at all, dividing last half the blocks. */
  lemma HalfKiBBlocksVanish(blocks: nat)
    requires blocks * 512 < TWO64
    ensures KiBDivideFirst(blocks, 512) == 0 && KiB(blocks, 512) == blocks / 2
  {
    SmallMod(blocks * 512);
  }

  lemma SplitDiv(a: nat, b: nat)
    ensures (1024 * a + b) / 1024 == a + b / 1024
    ensures b / 1024 == 0 <==> b < 1024
  {
  }
}
