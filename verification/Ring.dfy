/**
 The circular buffer shared by the two directions of the JTAG UART driver.

 A ring is described by the whole history of its bytes: everything ever put in
 ("put") and everything ever taken out ("got").  Slot i % BUF_LEN holds byte i
 of the history for every byte that is in but not yet out, and the driver's two
 indices are the history lengths modulo BUF_LEN.
 */
module Ring {

  const BUF_LEN: nat := 2048

  type Byte = x: int | 0 <= x < 256

  ghost predicate IsRing(buf: seq<Byte>, inn: nat, out: nat, put: seq<Byte>, got: seq<Byte>) {
    && |buf| == BUF_LEN
    && |got| <= |put| < |got| + BUF_LEN
    && got == put[..|got|]
    && inn == |put| % BUF_LEN
    && out == |got| % BUF_LEN
    && forall i :: |got| <= i < |put| ==> buf[i % BUF_LEN] == put[i]
  }

  /** Two history positions less than a buffer apart never share a slot. */
  lemma SlotsDiffer(i: nat, j: nat)
    requires i < j < i + BUF_LEN
    ensures i % BUF_LEN != j % BUF_LEN
  {
  }

  /** Adding to an index and wrapping is the same as wrapping the longer history. */
  lemma WrapAdd(total: nat, n: nat)
    ensures (total % BUF_LEN + n) % BUF_LEN == (total + n) % BUF_LEN
  {
  }

  /** Where the byte k places after an index lives, when that run does not wrap. */
  lemma RunSlot(total: nat, k: nat)
    requires total % BUF_LEN + k < BUF_LEN
    ensures (total + k) % BUF_LEN == total % BUF_LEN + k
  {
  }

  /** The index comparisons of the driver decide exactly "empty" and "full". */
  lemma EmptyAndFull(buf: seq<Byte>, inn: nat, out: nat, put: seq<Byte>, got: seq<Byte>)
    requires IsRing(buf, inn, out, put, got)
    ensures inn == out <==> put == got
    ensures (inn + 1) % BUF_LEN == out <==> |put| - |got| == BUF_LEN - 1
  {
    Used(buf, inn, out, put, got);
  }

  /** How many bytes the writer may copy without wrapping or overtaking the reader. */
  function FreeRun(inn: nat, out: nat): int {
    if inn < out then out - 1 - inn
    else if out > 0 then BUF_LEN - inn
    else BUF_LEN - 1 - inn
  }

  /** How many bytes the reader may copy without wrapping. */
  function FilledRun(inn: nat, out: nat): int {
    if inn >= out then inn - out else BUF_LEN - out
  }

  /**
   The run the writer computes fits before the wrap and keeps one slot free;
   it is empty exactly when the ring is full.
   */
  lemma FreeRunFits(buf: seq<Byte>, inn: nat, out: nat, put: seq<Byte>, got: seq<Byte>)
    requires IsRing(buf, inn, out, put, got)
    ensures 0 <= FreeRun(inn, out)
    ensures inn + FreeRun(inn, out) <= BUF_LEN
    ensures |put| + FreeRun(inn, out) < |got| + BUF_LEN
    ensures FreeRun(inn, out) == 0 <==> |put| - |got| == BUF_LEN - 1
  {
    Used(buf, inn, out, put, got);
  }

  /**
   The run the reader computes lies inside the unread bytes and before the wrap;
   it is empty exactly when there is nothing to read.
   */
  lemma FilledRunFits(buf: seq<Byte>, inn: nat, out: nat, put: seq<Byte>, got: seq<Byte>)
    requires IsRing(buf, inn, out, put, got)
    ensures 0 <= FilledRun(inn, out)
    ensures out + FilledRun(inn, out) <= BUF_LEN
    ensures |got| + FilledRun(inn, out) <= |put|
    ensures FilledRun(inn, out) == 0 <==> put == got
  {
    Used(buf, inn, out, put, got);
  }

  /** Occupancy as the two indices show it. */
  lemma Used(buf: seq<Byte>, inn: nat, out: nat, put: seq<Byte>, got: seq<Byte>)
    requires IsRing(buf, inn, out, put, got)
    ensures |put| - |got| == if inn >= out then inn - out else inn + BUF_LEN - out
  {
  }

  /** Storing bytes in free slots and advancing the write index appends them. */
  lemma Publish(buf: seq<Byte>, inn: nat, out: nat, put: seq<Byte>, got: seq<Byte>,
                buf': seq<Byte>, bytes: seq<Byte>)
    requires IsRing(buf, inn, out, put, got)
    requires |buf'| == BUF_LEN
    requires inn + |bytes| <= BUF_LEN && |put| + |bytes| < |got| + BUF_LEN
    requires forall k :: 0 <= k < |bytes| ==> buf'[inn + k] == bytes[k]
    requires forall s :: 0 <= s < BUF_LEN && !(inn <= s < inn + |bytes|) ==> buf'[s] == buf[s]
    ensures IsRing(buf', (inn + |bytes|) % BUF_LEN, out, put + bytes, got)
  {
    WrapAdd(|put|, |bytes|);
    assert (put + bytes)[..|got|] == put[..|got|];
    forall i | |got| <= i < |put + bytes|
      ensures buf'[i % BUF_LEN] == (put + bytes)[i]
    {
      if i < |put| {
        var s := i % BUF_LEN;
        if inn <= s < inn + |bytes| {
          RunSlot(|put|, s - inn);
          SlotsDiffer(i, |put| + (s - inn));
          assert false;
        }
      } else {
        RunSlot(|put|, i - |put|);
      }
    }
  }

  /** Copying a run out and advancing the read index takes the oldest bytes, in order. */
  lemma Take(buf: seq<Byte>, inn: nat, out: nat, put: seq<Byte>, got: seq<Byte>, n: nat)
    requires IsRing(buf, inn, out, put, got)
    requires out + n <= BUF_LEN && |got| + n <= |put|
    ensures buf[out..out + n] == put[|got|..|got| + n]
    ensures IsRing(buf, inn, (out + n) % BUF_LEN, put, put[..|got| + n])
  {
    WrapAdd(|got|, n);
    var run, due := buf[out..out + n], put[|got|..|got| + n];
    forall k | 0 <= k < n
      ensures run[k] == due[k]
    {
      RunSlot(|got|, k);
      assert buf[(|got| + k) % BUF_LEN] == put[|got| + k];
    }
  }
}
