/** Files on which the scan of src/file_scan.c does not do what its comments promise, with the program's buffer. */
module ScanExamples {
  import opened Grid
  import opened Layout
  import opened ScanSpec
  import opened ScanEnd
  import opened GridDigest

  /**
   * 6000 bytes in one 4 KiB extent and a hole, with blocks preallocated past the end of the file
   * (fallocate -n): hole_run_length() measures the trailing hole to that record as if it were an interior
   * one, and the scan ends past the file size.
   */
  lemma SwallowedTail() returns (j: Job)
    ensures j.Valid() && j.GridMode() && j.Size() == 6000 && j.bs == 4096 && j.buf == 0x10_0000
    ensures j.Final(0, []).0 == 12288
  {
    j := Job(Zeroes(6000), [Rec(0, 4096, 4096, false, false), Rec(12288, 8192, 4096, false, true)],
             4096, 0x10_0000, true, false, false);
    RoundUpIsDivision(4096, 4096);
    RoundDownIsDivision(12288, 4096);
    hide RoundUp, RoundDown;
    assert j.GridMode();
    TailOvershoots(j, 1);
  }

  /**
   * The same off the grid, with no block boundary between the data and the end of the file: 96 KiB blocks, not
   * hashed, and a buffer that ends where the data does. From there a whole block seems to be hole.
   */
  lemma SwallowedOffGrid() returns (j: Job)
    ensures j.Valid() && !j.GridMode() && j.Size() == 0x10_1000 && j.bs == 0x1_8000 && j.buf == 0x10_0000
    ensures j.Final(0, []).0 != j.Size()
  {
    j := Job(Zeroes(0x10_1000), [Rec(0, 4096, 0x10_0000, false, false), Rec(0x12_0000, 8192, 4096, false, true)],
             0x1_8000, 0x10_0000, false, false, false);
    RoundUpIsDivision(0x10_0000, 0x1_8000);
    RoundDownIsDivision(0x10_0000, 0x1_8000);
    RoundDownIsDivision(0x12_0000, 0x1_8000);
    OffGrid(j);
    hide RoundUp, RoundDown, Aligned;
    assert j.NextHole(0) == 0x10_1000;
    assert !Ignored(j.recs, 0, j.FakeLen()) by { assert Overlaps(j.recs[0], 0, j.FakeLen()); }
    assert Pos(j, -1, 0) == 0 && Pos(j, -1, 1) == 0x10_0000;
    assert FitsAt(j, -1, 0);
    assert WholeRun(j, -1, 1);
    assert StopsBefore(j, Pos(j, -1, 1), 1);
    assert Start(j, -1);
    assert Overshoots(j, 1);
    ScanEnds(j);
  }

  lemma OffGrid(j: Job)
    requires j.Valid() && j.bs == 0x1_8000 && j.buf == 0x10_0000 && !j.blockHash
    ensures !j.GridMode()
  {
    RoundDownIsDivision(0x10_0000, 0x1_8000);
    if j.GridMode() {
      RoundDownAligned(0x10_0000, 0x1_8000);
    }
  }

  /**
   * One preallocated block and a hole, 1 MiB in all: the whole buffer is taken as zeroes, and the hole is not
   * described. The same file with its first block written has another digest.
   */
  lemma HoleTaken() returns (j: Job, k: Job)
    ensures j == Job(Zeroes(0x10_0000), [Rec(0, 4096, 4096, false, true)], 4096, 0x10_0000, true, false, false)
    ensures k == j.(recs := [Rec(0, 4096, 4096, false, false)])
    ensures j.Valid() && k.Valid() && j.GridMode() && ReadsZero(j)
    ensures j.Final(0, []).1 != k.Final(0, []).1
  {
    j := HoleBehind(4096, 0x10_0000);
    RoundDownIsDivision(0x10_0000, 4096);
    HoleFaked(4096, 0x10_0000);
    k := j.(recs := Written(j.recs));
  }
}
