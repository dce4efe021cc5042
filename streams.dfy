/**
 * The stream-copy loops of Utils.cs over in-memory streams. An input
 * stream is its bytes and a read position; `Read` returns as many bytes as
 * were asked for or as remain, whichever is fewer, and 0 at the end. An
 * output stream is the bytes written to it so far.
 */
module Streams {
  import opened Base

  class InputStream {
    var data: seq<byte>
    var pos: nat

    ghost predicate Valid()
      reads this
    {
      pos <= |data|
    }

    constructor (data: seq<byte>)
      ensures Valid() && this.data == data && pos == 0
    {
      this.data, pos := data, 0;
    }

    /** The bytes not read yet. */
    function Remaining(): seq<byte>
      reads this
      requires Valid()
    {
      data[pos..]
    }

    /** `Read(buffer, offset, count)`: copies up to `count` bytes into `buffer` at `offset`. */
    method Read(buffer: array<byte>, offset: nat, count: nat) returns (read: nat)
      requires Valid() && offset + count <= buffer.Length
      modifies this`pos, buffer
      ensures Valid() && data == old(data)
      ensures read == Min(count, |old(Remaining())|)
      ensures pos == old(pos) + read
      ensures buffer[offset..offset + read] == old(Remaining())[..read]
      ensures forall i :: 0 <= i < buffer.Length && !(offset <= i < offset + read) ==> buffer[i] == old(buffer[i])
    {
      read := Min(count, |data| - pos);
      forall i | 0 <= i < read {
        buffer[offset + i] := data[pos + i];
      }
      pos := pos + read;
    }
  }

  class OutputStream {
    var written: seq<byte>

    constructor ()
      ensures written == []
    {
      written := [];
    }

    /** `Write(buffer, offset, count)`: appends `buffer[offset..offset + count]`. */
    method Write(buffer: array<byte>, offset: nat, count: nat)
      requires offset + count <= buffer.Length
      modifies this
      ensures written == old(written) + buffer[offset..offset + count]
    {
      written := written + buffer[offset..offset + count];
    }

    /** Appends a whole byte sequence (`CopyTo` from a stream over it). */
    method WriteAll(bytes: seq<byte>)
      modifies this
      ensures written == old(written) + bytes
    {
      written := written + bytes;
    }
  }

  /** The buffer size of `CopyToWithStatus` (64 KiB). */
  const StatusBufferSize: nat := 1024 * 64

  /** One `Status(status, Percent.FactoryPutInRange(totalRead, maxSize))` report. */
  datatype Progress = Progress(totalRead: nat, maxSize: int)

  /**
   * Reference definition of the reports a copy emits: one per non-empty
   * chunk of at most `chunk` bytes, carrying the running total.
   */
  function ProgressReports(totalRead: nat, remaining: nat, chunk: nat, maxSize: int): seq<Progress>
    requires chunk > 0
    decreases remaining
  {
    if remaining == 0 then []
    else
      var n := Min(chunk, remaining);
      [Progress(totalRead + n, maxSize)] + ProgressReports(totalRead + n, remaining - n, chunk, maxSize)
  }

  /** One report per chunk: every report but the last stands for a full chunk of `chunk` bytes. */
  lemma {:induction false} ProgressReportsCount(totalRead: nat, remaining: nat, chunk: nat, maxSize: int)
    requires chunk > 0
    ensures var k := |ProgressReports(totalRead, remaining, chunk, maxSize)|;
      && (remaining == 0 <==> k == 0)
      && (remaining > 0 ==> (k - 1) * chunk < remaining <= k * chunk)
    decreases remaining
  {
    if remaining > chunk {
      ProgressReportsCount(totalRead + chunk, remaining - chunk, chunk, maxSize);
      var k := |ProgressReports(totalRead, remaining, chunk, maxSize)|;
      assert k * chunk == (k - 1) * chunk + chunk;
      assert (k - 1) * chunk == (k - 2) * chunk + chunk;
    }
  }

  /**
   * The reported totals count up strictly, stay within the bytes copied,
   * all carry the same `maxSize`, and the last one is the full total.
   */
  lemma {:induction false} ProgressReportsIncrease(totalRead: nat, remaining: nat, chunk: nat, maxSize: int)
    requires chunk > 0
    ensures var rs := ProgressReports(totalRead, remaining, chunk, maxSize);
      && (forall i :: 0 <= i < |rs| ==> totalRead < rs[i].totalRead <= totalRead + remaining && rs[i].maxSize == maxSize)
      && (forall i, j :: 0 <= i < j < |rs| ==> rs[i].totalRead < rs[j].totalRead)
      && (remaining > 0 ==> |rs| > 0 && rs[|rs| - 1].totalRead == totalRead + remaining)
    decreases remaining
  {
    if remaining > 0 {
      var n := Min(chunk, remaining);
      ProgressReportsIncrease(totalRead + n, remaining - n, chunk, maxSize);
      var rest := ProgressReports(totalRead + n, remaining - n, chunk, maxSize);
      var rs := ProgressReports(totalRead, remaining, chunk, maxSize);
      assert rs == [Progress(totalRead + n, maxSize)] + rest;
      assert forall i :: 1 <= i < |rs| ==> rs[i] == rest[i - 1];
    }
  }

  /** The report after chunk `i` of a copy of `total` bytes: the running total, capped at `total`. */
  function ReportAt(i: nat, total: nat, maxSize: int): Progress
  {
    Progress(Min((i + 1) * StatusBufferSize, total), maxSize)
  }

  /** The first `k` reports of a copy of `total` bytes, in closed form. */
  function ReportsUpTo(k: nat, total: nat, maxSize: int): (r: seq<Progress>)
    ensures |r| == k
  {
    if k == 0 then [] else ReportsUpTo(k - 1, total, maxSize) + [ReportAt(k - 1, total, maxSize)]
  }

  lemma {:induction false} ReportsUpToAt(k: nat, total: nat, maxSize: int)
    ensures forall i :: 0 <= i < k ==> ReportsUpTo(k, total, maxSize)[i] == ReportAt(i, total, maxSize)
  {
    if k > 0 {
      ReportsUpToAt(k - 1, total, maxSize);
    }
  }

  /** The `i`-th report carries the total after `i + 1` full chunks, or the whole length for the last one. */
  lemma {:induction false} ProgressReportsClosedForm(totalRead: nat, remaining: nat, maxSize: int)
    ensures forall i :: 0 <= i < |ProgressReports(totalRead, remaining, StatusBufferSize, maxSize)| ==>
      ProgressReports(totalRead, remaining, StatusBufferSize, maxSize)[i] == Progress(totalRead + Min((i + 1) * StatusBufferSize, remaining), maxSize)
    decreases remaining
  {
    if remaining > 0 {
      var n := Min(StatusBufferSize, remaining);
      ProgressReportsClosedForm(totalRead + n, remaining - n, maxSize);
      var rest := ProgressReports(totalRead + n, remaining - n, StatusBufferSize, maxSize);
      var rs := ProgressReports(totalRead, remaining, StatusBufferSize, maxSize);
      assert rs == [Progress(totalRead + n, maxSize)] + rest;
      if remaining <= StatusBufferSize {
        assert rest == [];
      } else {
        assert n == StatusBufferSize;
        forall i | 1 <= i < |rs|
          ensures rs[i] == Progress(totalRead + Min((i + 1) * StatusBufferSize, remaining), maxSize)
        {
          assert rs[i] == rest[i - 1];
          var j := i - 1;
          assert 0 <= j < |rest|;
          assert rest[j] == Progress(totalRead + n + Min((j + 1) * StatusBufferSize, remaining - n), maxSize);
          assert (i + 1) * StatusBufferSize == i * StatusBufferSize + StatusBufferSize;
          assert Min(i * StatusBufferSize, remaining - n) + n == Min((i + 1) * StatusBufferSize, remaining);
        }
      }
    }
  }

  /**
   * Reports given in closed form, as many as there are chunks, are the
   * reference reports.
   */
  lemma ReportsInClosedForm(k: nat, total: nat, maxSize: int)
    requires total <= k * StatusBufferSize
    requires k == 0 || (k - 1) * StatusBufferSize < total
    ensures ReportsUpTo(k, total, maxSize) == ProgressReports(0, total, StatusBufferSize, maxSize)
  {
    var rs := ProgressReports(0, total, StatusBufferSize, maxSize);
    ProgressReportsCount(0, total, StatusBufferSize, maxSize);
    ProgressReportsClosedForm(0, total, maxSize);
    ReportsUpToAt(k, total, maxSize);
    assert k == |rs|;
  }

  /**
   * One pass of a copy loop: `Read(buffer, 0, count)` from `istream`, then,
   * unless the read returned 0, `Write(buffer, 0, read)` to `ostream`.
   */
  method CopyChunk(istream: InputStream, ostream: OutputStream, buffer: array<byte>, count: nat) returns (read: nat)
    requires istream.Valid() && count <= buffer.Length
    modifies istream`pos, ostream, buffer
    ensures istream.Valid() && istream.data == old(istream.data)
    ensures read == Min(count, |istream.data| - old(istream.pos))
    ensures istream.pos == old(istream.pos) + read
    ensures ostream.written == old(ostream.written) + istream.data[old(istream.pos)..istream.pos]
  {
    read := istream.Read(buffer, 0, count);
    if read > 0 {
      ostream.Write(buffer, 0, read);
    }
  }

  /**
   * `CopyToWithStatus`: copies the whole rest of `istream` to `ostream` through
   * a 64 KiB buffer, reporting the running total after every chunk against
   * `maxSize` (taken as 1 when it is 0). The reports are returned.
   */
  method CopyToWithStatus(istream: InputStream, maxSize: int, ostream: OutputStream) returns (reports: seq<Progress>)
    requires istream.Valid()
    modifies istream, ostream
    ensures istream.Valid() && istream.data == old(istream.data) && istream.Remaining() == []
    ensures ostream.written == old(ostream.written) + old(istream.Remaining())
    ensures reports == ProgressReports(0, |old(istream.Remaining())|, StatusBufferSize, if maxSize == 0 then 1 else maxSize)
  {
    var buffer := new byte[StatusBufferSize];
    var max := if maxSize == 0 then 1 else maxSize;
    var totalRead: nat := 0;
    reports := [];
    ghost var data, start := istream.data, istream.pos;
    ghost var total := |data| - start;
    while true
      invariant istream.Valid() && istream.data == data && istream.pos == start + totalRead
      invariant ostream.written == old(ostream.written) + data[start..istream.pos]
      invariant reports == ReportsUpTo(|reports|, total, max)
      invariant totalRead == Min(|reports| * StatusBufferSize, total)
      invariant |reports| == 0 || (|reports| - 1) * StatusBufferSize < total
      decreases total - totalRead
    {
      var read := CopyChunk(istream, ostream, buffer, buffer.Length);
      if read == 0 {
        break;
      }
      assert data[start..istream.pos] == data[start..istream.pos - read] + data[istream.pos - read..istream.pos];
      assert totalRead == |reports| * StatusBufferSize;
      assert (|reports| + 1) * StatusBufferSize == totalRead + StatusBufferSize;
      totalRead := totalRead + read;
      reports := reports + [Progress(totalRead, max)];
    }
    ReportsInClosedForm(|reports|, total, max);
  }

  /** The buffer size of `CopyToLimitAsync` (1 KiB). */
  const LimitBufferSize: nat := 1024

  // ---- CopyToLimitAsync as written: `while (limit > 0)` with no exit on a read of 0 ----

  /** The state of the source loop: bytes left in the input, bytes written, and `limit`. */
  datatype LimitLoop = LimitLoop(remaining: seq<byte>, copied: seq<byte>, limit: int)

  /** One iteration of the source loop: read `min(buffer, limit)` bytes, write what was read, subtract it. */
  function LimitStep(st: LimitLoop): (r: LimitLoop)
    requires st.limit > 0
    ensures r.copied + r.remaining == st.copied + st.remaining
    ensures st.copied <= r.copied
    ensures r.limit - |r.remaining| == st.limit - |st.remaining|
    ensures 0 <= r.limit && st.limit - LimitBufferSize <= r.limit <= st.limit
    ensures r.limit == st.limit <==> st.remaining == []
  {
    var toRead := Min(LimitBufferSize, st.limit);
    var read := Min(toRead, |st.remaining|);
    LimitLoop(st.remaining[read..], st.copied + st.remaining[..read], st.limit - read)
  }

  /** The state after `n` iterations, or the state in which the loop condition failed. */
  function LimitSteps(st: LimitLoop, n: nat): LimitLoop
    decreases n
  {
    if n == 0 || st.limit <= 0 then st else LimitSteps(LimitStep(st), n - 1)
  }

  /**
   * With fewer bytes left than `limit`, the source loop never exits: after
   * any number of iterations `limit` is still positive (an empty stream with
   * a limit of 1 already shows it, each read returning 0).
   */
  lemma {:induction false} CopyToLimitAsWrittenNeverExits(st: LimitLoop, n: nat)
    requires |st.remaining| < st.limit
    ensures LimitSteps(st, n).limit > 0
    ensures LimitSteps(st, n).limit - |LimitSteps(st, n).remaining| == st.limit - |st.remaining|
    decreases n
  {
    if n > 0 {
      CopyToLimitAsWrittenNeverExits(LimitStep(st), n - 1);
    }
  }

  /** With enough input, the source loop does exit, having copied exactly the first `limit` bytes. */
  lemma {:induction false} CopyToLimitAsWrittenWithEnoughInput(st: LimitLoop) returns (n: nat)
    requires 0 < st.limit <= |st.remaining|
    ensures LimitSteps(st, n).limit == 0
    ensures LimitSteps(st, n).copied == st.copied + st.remaining[..st.limit]
    decreases st.limit
  {
    var next := LimitStep(st);
    var read := Min(LimitBufferSize, st.limit);
    if next.limit == 0 {
      n := 1;
      assert LimitSteps(next, 0) == next;
    } else {
      var m := CopyToLimitAsWrittenWithEnoughInput(next);
      n := m + 1;
      assert st.remaining[..st.limit] == st.remaining[..read] + next.remaining[..next.limit];
    }
  }

  /**
   * `CopyToLimitAsync` corrected: copy at most `limit` bytes in chunks of at
   * most 1 KiB, stopping when `limit` is used up or the input ends. It copies
   * exactly `min(limit, bytes left)` bytes (none when `limit <= 0`).
   */
  method CopyToLimit(frm: InputStream, tw: OutputStream, limit: int)
    requires frm.Valid()
    modifies frm, tw
    ensures frm.Valid() && frm.data == old(frm.data)
    ensures var n := if limit <= 0 then 0 else Min(limit, |old(frm.Remaining())|);
      && tw.written == old(tw.written) + old(frm.Remaining())[..n]
      && frm.Remaining() == old(frm.Remaining())[n..]
  {
    var buff := new byte[LimitBufferSize];
    var left := limit;
    ghost var input := frm.Remaining();
    ghost var copied: nat := 0;
    while left > 0
      invariant frm.Valid() && frm.data == old(frm.data)
      invariant copied <= |input| && input == old(frm.Remaining())
      invariant frm.Remaining() == input[copied..]
      invariant tw.written == old(tw.written) + input[..copied]
      invariant left == limit - copied
      invariant limit > 0 ==> left >= 0
      invariant limit <= 0 ==> copied == 0
      decreases left
    {
      var toRead := Min(buff.Length, left);
      var read := frm.Read(buff, 0, toRead);
      if read == 0 {
        break;
      }
      tw.Write(buff, 0, read);
      assert input[..copied + read] == input[..copied] + input[copied..][..read];
      copied := copied + read;
      left := left - read;
    }
    assert copied == (if limit <= 0 then 0 else Min(limit, |input|));
  }
}
