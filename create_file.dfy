/**
 * `create_file` of tugas-ets/create-file.py: writes a test file of a whole
 * number of MiB in chunks of at most 1 MiB, logging progress every 10 MiB
 * for files of 50 MiB or more. The random content (`os.urandom`) is not
 * modelled: a chunk is its size. The file name only names the output.
 */
module CreateFile {

  const MiB: int := 1024 * 1024

  /** The total of the chunk sizes written. */
  function Sum(chunks: seq<int>): int
  {
    if chunks == [] then 0 else Sum(chunks[..|chunks| - 1]) + chunks[|chunks| - 1]
  }

  /**
   * The progress values logged once `done` MiB of a `sizeInMb` file are
   * written: one entry after each MiB whose remaining size is a multiple of
   * 10 MiB.
   */
  function Marks(sizeInMb: int, done: nat): (marks: seq<nat>)
    ensures |marks| <= done
  {
    if done == 0 then []
    else Marks(sizeInMb, done - 1) + (if (sizeInMb - done) % 10 == 0 then [done] else [])
  }

  /** Appending a chunk adds its size to the total. */
  lemma SumAppend(chunks: seq<int>, size: int)
    ensures Sum(chunks + [size]) == Sum(chunks) + size
  {
    assert (chunks + [size])[..|chunks|] == chunks;
  }

  /** All progress values logged while creating a file of `sizeInMb` MiB. */
  function Progress(sizeInMb: int): (progress: seq<nat>)
    ensures |progress| <= if sizeInMb < 0 then 0 else sizeInMb
  {
    if sizeInMb >= 50 then Marks(sizeInMb, sizeInMb) else []
  }

  /** A whole number of MiB left is a multiple of 10 MiB exactly when the number of MiB is a multiple of 10. */
  lemma TenMiBBoundary(mb: nat)
    ensures (mb * MiB) % (10 * MiB) == 0 <==> mb % 10 == 0
  {
    var q, r := mb / 10, mb % 10;
    assert mb * MiB == q * (10 * MiB) + r * MiB;
    assert 0 <= r * MiB < 10 * MiB;
  }

  /** The arithmetic of one turn of the loop, once `n` MiB are written. */
  lemma ChunkStep(sizeInMb: int, n: nat)
    requires n <= sizeInMb
    ensures ((sizeInMb - n) * MiB) % (10 * MiB) == 0 <==> (sizeInMb - n) % 10 == 0
    ensures (sizeInMb * MiB - (sizeInMb - n) * MiB) / MiB == n
  {
    TenMiBBoundary(sizeInMb - n);
    assert sizeInMb * MiB - (sizeInMb - n) * MiB == n * MiB;
  }

  /**
   * `create_file`: the sizes of the chunks written, in order, and the MiB
   * counts of the progress lines logged. The file holds exactly the requested
   * number of bytes in chunks of 1 MiB; a size of zero or less writes nothing.
   */
  method CreateFile(sizeInMb: int) returns (chunks: seq<int>, progress: seq<nat>)
    ensures |chunks| == (if sizeInMb > 0 then sizeInMb else 0)
    ensures forall k :: 0 <= k < |chunks| ==> chunks[k] == MiB
    ensures Sum(chunks) == (if sizeInMb > 0 then sizeInMb * MiB else 0)
    ensures progress == Progress(sizeInMb)
  {
    var sizeInBytes := sizeInMb * MiB;
    var chunkSize := MiB;
    chunks, progress := [], [];
    var remaining := sizeInBytes;
    while remaining > 0
      invariant sizeInMb <= 0 ==> chunks == [] && remaining <= 0
      invariant sizeInMb > 0 ==> |chunks| <= sizeInMb
      invariant remaining == (sizeInMb - |chunks|) * MiB
      invariant forall k :: 0 <= k < |chunks| ==> chunks[k] == MiB
      invariant Sum(chunks) == |chunks| * MiB
      invariant progress == (if sizeInMb >= 50 then Marks(sizeInMb, |chunks|) else [])
      decreases remaining
    {
      var currentChunkSize := if chunkSize <= remaining then chunkSize else remaining;
      assert currentChunkSize == MiB;
      SumAppend(chunks, currentChunkSize);
      chunks := chunks + [currentChunkSize];
      remaining := remaining - currentChunkSize;
      assert remaining == (sizeInMb - |chunks|) * MiB;
      assert remaining % (10 * MiB) == 0 <==> (sizeInMb - |chunks|) % 10 == 0 by {
        ChunkStep(sizeInMb, |chunks|);
      }
      if sizeInMb >= 50 && remaining % (10 * MiB) == 0 {
        var mbDone := (sizeInBytes - remaining) / MiB;
        assert mbDone == |chunks| by {
          ChunkStep(sizeInMb, |chunks|);
        }
        progress := progress + [mbDone];
      }
    }
  }

  /**
   * The progress values are exactly the MiB counts from 1 to `done` that
   * leave a multiple of 10 MiB to write, in increasing order.
   */
  lemma {:induction false} MarksAreBoundaries(sizeInMb: int, done: nat)
    ensures forall m :: m in Marks(sizeInMb, done) <==> 1 <= m <= done && (sizeInMb - m) % 10 == 0
    ensures forall i, j :: 0 <= i < j < |Marks(sizeInMb, done)| ==> Marks(sizeInMb, done)[i] < Marks(sizeInMb, done)[j]
  {
    if done > 0 {
      var init := Marks(sizeInMb, done - 1);
      MarksAreBoundaries(sizeInMb, done - 1);
      assert forall i :: 0 <= i < |init| ==> init[i] in init;
      assert forall i :: 0 <= i < |init| ==> init[i] < done;
    }
  }

  /**
   * For a file of 50 MiB or more, progress is logged every 10 MiB and the last
   * line reports the whole file.
   */
  lemma LastProgressIsWholeFile(sizeInMb: int)
    requires sizeInMb >= 50
    ensures Progress(sizeInMb) != []
    ensures Progress(sizeInMb)[|Progress(sizeInMb)| - 1] == sizeInMb
    ensures forall m :: m in Progress(sizeInMb) <==> 1 <= m <= sizeInMb && (sizeInMb - m) % 10 == 0
  {
    MarksAreBoundaries(sizeInMb, sizeInMb);
  }

  /** Progress is logged for a file exactly when it has 50 MiB or more. */
  lemma ProgressOnlyForLargeFiles(sizeInMb: int)
    ensures Progress(sizeInMb) != [] <==> sizeInMb >= 50
  {
    if sizeInMb >= 50 {
      LastProgressIsWholeFile(sizeInMb);
    }
  }
}
