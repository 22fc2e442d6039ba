/** read_frames: serving capture requests of any size from fixed-size driver periods, with the
    unread rest of a period carried over to the next request. */
module CaptureStream {
  import opened Arith
  import opened Bytes

  const ENODEV: int := 19

  /** What one pcm_read does: fill the period buffer, or fail. */
  datatype PcmResult = Period(samples: seq<int>) | Fault(status: int)

  type Driver = nat -> PcmResult

  /** The samples of periods from..to, one after the other. */
  function Stream(driver: Driver, from: nat, to: nat): seq<int>
    requires from <= to && forall k :: from <= k < to ==> driver(k).Period?
  {
    if from == to then [] else Stream(driver, from, to - 1) + driver(to - 1).samples
  }

  lemma {:induction false} StreamSplits(driver: Driver, a: nat, b: nat, c: nat)
    requires a <= b <= c && forall k :: a <= k < c ==> driver(k).Period?
    ensures Stream(driver, a, c) == Stream(driver, a, b) + Stream(driver, b, c)
    decreases c
  {
    if b == c {
    } else {
      StreamSplits(driver, a, b, c - 1);
    }
  }

  /** One period is delivered as the driver filled it. */
  lemma OnePeriod(driver: Driver, k: nat)
    requires driver(k).Period?
    ensures Stream(driver, k, k + 1) == driver(k).samples && Stream(driver, k, k) == []
  {
  }

  /** The periods a request for `frames` frames needs beyond the `left` frames carried over. */
  function PeriodsNeeded(frames: int, left: nat, periodSize: nat): nat
    requires 0 < periodSize
  {
    if frames <= left then 0 else (frames - left + periodSize - 1) / periodSize
  }

  /** That is the least number of periods with which the request can be met. */
  lemma PeriodsNeededIsLeast(frames: int, left: nat, periodSize: nat, n: nat)
    requires 0 < periodSize
    ensures frames <= left + n * periodSize <==> PeriodsNeeded(frames, left, periodSize) <= n
  {
    MulMonotone(0, n, periodSize);
    if frames > left {
      var need := PeriodsNeeded(frames, left, periodSize);
      Quotient(frames - left + periodSize - 1, periodSize);
      if need <= n {
        MulMonotone(need, n, periodSize);
      } else {
        MulStrict(n, need, periodSize);
      }
    }
  }

  /** n whole periods on top of what was left, none of them superfluous. */
  lemma PeriodsCounted(frames: int, left: nat, n: nat, rest: nat, periodSize: nat)
    requires 0 < periodSize && 0 < frames
    requires frames + rest == left + n * periodSize && (n > 0 ==> rest < periodSize)
    ensures n == PeriodsNeeded(frames, left, periodSize)
  {
    if n > 0 {
      MulMonotone(1, n, periodSize);
      DivUnique(frames - left + periodSize - 1, periodSize, n, periodSize - 1 - rest);
    }
  }

  /** After n whole periods the request still wants more. */
  lemma MorePeriodsNeeded(frames: int, left: nat, n: nat, periodSize: nat)
    requires 0 < periodSize && left + n * periodSize < frames
    ensures n < PeriodsNeeded(frames, left, periodSize)
  {
    MulMonotone(0, n, periodSize);
    DivAtLeast(frames - left + periodSize - 1, periodSize, n + 1);
  }

  /** Frames are conserved: delivered or carried over, they come from before or from n periods. */
  predicate Counted(done: int, rest: nat, left: nat, n: int, periodSize: nat) {
    done + rest == left + n * periodSize && (n > 0 ==> rest < periodSize)
  }

  lemma CountGoesOn(done: int, rest: nat, count: nat, rest': nat, left: nat, n: nat, n': nat, periodSize: nat)
    requires Counted(done, rest, left, n, periodSize) && 0 < count
    requires (n' == n && count + rest' == rest) || (n' == n + 1 && rest == 0 && count + rest' == periodSize)
    ensures Counted(done + count, rest', left, n', periodSize)
  {
  }

  /** What was delivered, then what is carried over, is what was carried over at the start, then
      the periods read since. */
  ghost predicate Flow(driver: Driver, delivered: seq<int>, pending: seq<int>, carried: seq<int>, from: nat, to: nat) {
    && from <= to && (forall k :: from <= k < to ==> driver(k).Period?)
    && delivered + pending == carried + Stream(driver, from, to)
  }

  lemma FlowGoesOn(driver: Driver, done: seq<int>, pending: seq<int>, carried: seq<int>, from: nat, mid: nat, to: nat,
                   done': seq<int>, pending': seq<int>)
    requires Flow(driver, done, pending, carried, from, mid) && mid <= to
    requires forall k :: mid <= k < to ==> driver(k).Period?
    requires done' + pending' == done + (pending + Stream(driver, mid, to))
    ensures Flow(driver, done', pending', carried, from, to)
  {
    StreamSplits(driver, from, mid, to);
    var s1, s2 := Stream(driver, from, mid), Stream(driver, mid, to);
    assert done + (pending + s2) == (done + pending) + s2;
    assert (carried + s1) + s2 == carried + (s1 + s2);
  }

  /** A period the driver could not deliver was needed. */
  lemma Unserved(driver: Driver, frames: int, done: nat, left: nat, from: nat, mid: nat, periodSize: nat)
    requires 0 < periodSize && done < frames && from <= mid
    requires (done == 0 && mid == from) || Counted(done, 0, left, mid - from, periodSize)
    ensures (done > 0 || left == 0) ==> mid - from < PeriodsNeeded(frames, left, periodSize)
  {
    if done > 0 || left == 0 {
      MorePeriodsNeeded(frames, left, mid - from, periodSize);
    }
  }

  // ---- Sequences of requests ---------------------------------------------------------------

  /** Between two requests: the samples carried over and the pcm_read calls made. */
  datatype Position = Position(pending: seq<int>, served: nat)

  function Flatten(outs: seq<seq<int>>): seq<int> {
    if outs == [] then [] else Flatten(outs[..|outs| - 1]) + outs[|outs| - 1]
  }

  /** Each request took the stream from one position to the next, as a successful ReadFrames does. */
  ghost predicate Served(driver: Driver, outs: seq<seq<int>>, at: seq<Position>) {
    && |at| == |outs| + 1
    && forall k :: 0 <= k < |outs| ==>
         Flow(driver, outs[k], at[k + 1].pending, at[k].pending, at[k].served, at[k + 1].served)
  }

  /** Whatever the sizes of the requests, their results put together are the driver's periods put
      together: no sample is lost, repeated or moved. */
  lemma {:induction false} RequestsDeliverTheStream(driver: Driver, outs: seq<seq<int>>, at: seq<Position>)
    requires Served(driver, outs, at)
    ensures Flow(driver, Flatten(outs), at[|outs|].pending, at[0].pending, at[0].served, at[|outs|].served)
  {
    var n := |outs|;
    if n == 0 {
      assert [] + at[0].pending == at[0].pending + [];
    } else {
      RequestsDeliverTheStream(driver, outs[..n - 1], at[..n]);
      var p, q, s2 := at[n - 1], at[n], Stream(driver, at[n - 1].served, at[n].served);
      assert Flow(driver, outs[n - 1], q.pending, p.pending, p.served, q.served);
      var done := Flatten(outs[..n - 1]);
      assert (done + outs[n - 1]) + q.pending == done + (outs[n - 1] + q.pending);
      FlowGoesOn(driver, done, p.pending, at[0].pending, at[0].served, p.served, q.served, done + outs[n - 1], q.pending);
    }
  }

  /** The samples a reader has received depend on how many there are, not on how it asked. */
  lemma ChunkingDoesNotMatter(driver: Driver, outs: seq<seq<int>>, at: seq<Position>, outs': seq<seq<int>>, at': seq<Position>)
    requires Served(driver, outs, at) && Served(driver, outs', at') && at[0] == at'[0]
    requires |Flatten(outs)| == |Flatten(outs')|
    ensures Flatten(outs) == Flatten(outs')
    decreases at[|outs|].served > at'[|outs'|].served
  {
    var n, n' := |outs|, |outs'|;
    if at[n].served > at'[n'].served {
      ChunkingDoesNotMatter(driver, outs', at', outs, at);
    } else {
      RequestsDeliverTheStream(driver, outs, at);
      RequestsDeliverTheStream(driver, outs', at');
      StreamSplits(driver, at[0].served, at[n].served, at'[n'].served);
      var whole := at[0].pending + Stream(driver, at[0].served, at'[n'].served);
      assert Flatten(outs) <= Flatten(outs) + at[n].pending <= whole;
      assert Flatten(outs') <= whole;
    }
  }

  /** n samples copied behind the first `to`, seen from both sides. */
  lemma SamplesMoved(was: seq<int>, out: seq<int>, to: nat, buffer: seq<int>, offset: nat, n: nat)
    requires to + n <= |out| == |was| && offset + n <= |buffer|
    requires forall p :: to <= p < to + n ==> out[p] == buffer[p - to + offset]
    requires forall p :: 0 <= p < to ==> out[p] == was[p]
    ensures out[..to + n] + buffer[offset + n..] == was[..to] + buffer[offset..]
  {
    assert out[..to + n] == was[..to] + buffer[offset..offset + n];
    assert buffer[offset..] == buffer[offset..offset + n] + buffer[offset + n..];
  }

  class StreamIn {
    const driver: Driver

    const channels: nat           // config.channels; a frame is that many 16-bit samples

    const periodSize: nat         // config.period_size, in frames

    const buffer: array<int>
    var standby: bool
    var pcmOpen: bool             // pcm != NULL
    var framesIn: nat
    var readStatus: int
    var served: nat               // pcm_read calls so far

    ghost predicate Valid()
      reads this
    {
      && 0 < channels && 0 < periodSize && buffer.Length == periodSize * channels
      && framesIn <= periodSize && readStatus <= 0 && (standby ==> !pcmOpen)
      && ((standby || pcmOpen) && framesIn > 0 ==> readStatus == 0)
      && (forall k :: driver(k).Period? ==> |driver(k).samples| == buffer.Length)
      && (forall k :: driver(k).Fault? ==> driver(k).status < 0)
    }

    function Offset(): (o: nat)
      requires framesIn <= periodSize
      reads this
      ensures buffer.Length == periodSize * channels ==> o + framesIn * channels == buffer.Length
    {
      MulMonotone(0, periodSize - framesIn, channels);
      (periodSize - framesIn) * channels
    }

    /** The samples read from the driver and not yet delivered. */
    ghost function Pending(): (s: seq<int>)
      requires Valid()
      reads this, buffer
      ensures |s| == framesIn * channels
    {
      MulMonotone(0, framesIn, channels);
      buffer[Offset()..]
    }

    constructor (driver: Driver, channels: nat, periodSize: nat)
      requires 0 < channels && 0 < periodSize
      requires forall k :: driver(k).Period? ==> |driver(k).samples| == periodSize * channels
      requires forall k :: driver(k).Fault? ==> driver(k).status < 0
      ensures Valid() && framesIn == 0 && Pending() == [] && served == 0 && standby && readStatus == 0 && fresh(buffer)
      ensures this.driver == driver && this.channels == channels && this.periodSize == periodSize
    {
      this.driver, this.channels, this.periodSize := driver, channels, periodSize;
      MulMonotone(0, periodSize, channels);
      buffer := new int[periodSize * channels];
      standby, pcmOpen, framesIn, readStatus, served := true, false, 0, 0, 0;
    }

    /** pcm_read: the driver's next answer. */
    method PcmRead() returns (status: int)
      requires Valid()
      modifies this`served, buffer
      ensures served == old(served) + 1
      ensures var r := driver(old(served));
              if r.Period? then status == 0 && buffer[..] == r.samples else status == r.status
    {
      var r := driver(served);
      served := served + 1;
      if r.Fault? {
        return r.status;
      }
      forall i | 0 <= i < buffer.Length {
        buffer[i] := r.samples[i];
      }
      status := 0;
    }

    /** get_next_buffer hands out `count` frames at `offset` of the period buffer, reading the
        next period only when nothing is carried over; it hands out none when the stream is
        closed or the driver fails. */
    method GetNextBuffer(want: nat) returns (offset: nat, count: nat)
      requires Valid() && !standby && 0 < want
      modifies this`framesIn, this`readStatus, this`served, buffer
      ensures Valid()
      ensures count > 0 ==> count == (if want <= framesIn then want else framesIn) && offset == Offset()
      ensures !old(pcmOpen) ==>
                count == 0 && readStatus == -ENODEV && served == old(served) && framesIn == old(framesIn) && Pending() == old(Pending())
      ensures old(pcmOpen) && old(framesIn) > 0 ==>
                count > 0 && readStatus == 0 && served == old(served) && framesIn == old(framesIn) && Pending() == old(Pending())
      ensures old(pcmOpen) && old(framesIn) == 0 && driver(old(served)).Period? ==>
                count > 0 && readStatus == 0 && served == old(served) + 1 && framesIn == periodSize && Pending() == driver(old(served)).samples
      ensures old(pcmOpen) && old(framesIn) == 0 && driver(old(served)).Fault? ==>
                count == 0 && readStatus == driver(old(served)).status && served == old(served) + 1 && framesIn == 0
    {
      if !pcmOpen {
        readStatus := -ENODEV;
        return 0, 0;
      }
      if framesIn == 0 {
        readStatus := PcmRead();
        if readStatus != 0 {
          return 0, 0;
        }
        framesIn := periodSize;
      }
      count := if want > framesIn then framesIn else want;
      offset := Offset();
    }

    /** The memcpy of read_frames and release_buffer: `count` frames move from the period buffer
        to `out`, behind the `done` frames already there. */
    method MoveFrames(out: array<int>, done: nat, offset: nat, count: nat)
      requires Valid() && out != buffer && 0 < count <= framesIn && offset == Offset()
      requires 0 <= (done + count) * channels <= out.Length && 0 <= done * channels
      modifies this`framesIn, out
      ensures Valid() && framesIn == old(framesIn) - count
      ensures out[..(done + count) * channels] + Pending() == old(out[..done * channels]) + old(Pending())
    {
      var to, n := done * channels, count * channels;
      assert to + n == (done + count) * channels;
      MulMonotone(count, framesIn, channels);
      assert offset + n <= buffer.Length;
      Memcpy(out, to, buffer[..], offset, n);
      framesIn := framesIn - count;
      assert Offset() == offset + n;
      SamplesMoved(old(out[..]), out[..], to, buffer[..], offset, n);
    }

    /** The request can be met: the stream is open and the driver delivers every period it needs. */
    ghost predicate CanServe(frames: int)
      requires Valid()
      reads this
    {
      pcmOpen && forall k :: served <= k < served + PeriodsNeeded(frames, framesIn, periodSize) ==> driver(k).Period?
    }

    /** One turn of read_frames' loop: get_next_buffer, memcpy and release_buffer. A turn that fails
        has moved nothing. */
    method Turn(out: array<int>, done: nat, want: nat) returns (count: nat)
      requires Valid() && !standby && out != buffer && 0 < want
      requires 0 <= done * channels <= (done + want) * channels <= out.Length
      modifies this`framesIn, this`readStatus, this`served, buffer, out
      ensures Valid() && count <= want
      ensures old(served) <= served <= old(served) + 1 && (served > old(served) ==> old(framesIn) == 0)
      ensures readStatus == 0 <==>
                pcmOpen && (old(framesIn) == 0 ==> driver(old(served)).Period?)
      ensures readStatus == 0 ==>
                && 0 < count && (count == want || framesIn == 0)
                && (forall k :: old(served) <= k < served ==> driver(k).Period?)
                && (served > old(served) <==> old(framesIn) == 0)
                && count + framesIn == old(framesIn) + (if served > old(served) then periodSize else 0)
                && 0 <= (done + count) * channels <= out.Length
                && out[..(done + count) * channels] + Pending()
                   == old(out[..done * channels]) + (old(Pending()) + Stream(driver, old(served), served))
      ensures readStatus != 0 ==>
                && count == 0 && framesIn == old(framesIn)
                && out[..done * channels] == old(out[..done * channels]) && Pending() == old(Pending())
                && if pcmOpen then served == old(served) + 1 && driver(old(served)) == Fault(readStatus)
                   else served == old(served) && readStatus == -ENODEV
    {
      var offset;
      offset, count := GetNextBuffer(want);
      assert readStatus == 0 ==> Pending() == old(Pending()) + Stream(driver, old(served), served);
      if count > 0 {
        MulMonotone(0, done + count, channels);
        MulMonotone(done + count, done + want, channels);
        MoveFrames(out, done, offset, count);
      }
    }

    /** read_frames without a resampler. `moved` is how many frames it has put into `out`, which on
        failure the caller never learns of, and `mid` the pcm_read call it got to before any failure. */
    method ReadFrames(out: array<int>, frames: int) returns (ret: int, ghost moved: nat, ghost mid: nat)
      requires Valid() && !standby && out != buffer && (0 < frames ==> frames * channels <= out.Length)
      modifies this`framesIn, this`readStatus, this`served, buffer, out
      ensures Valid()
      ensures ret >= 0 <==> frames <= 0 || old(CanServe(frames))
      ensures 0 <= moved * channels <= out.Length
      ensures Flow(driver, out[..moved * channels], Pending(), old(Pending()), old(served), mid)
      ensures moved + framesIn == old(framesIn) + (mid - old(served)) * periodSize
      ensures ret >= 0 ==>
                && ret == moved == (if frames <= 0 then 0 else frames) && served == mid
                && (0 < frames ==> mid == old(served) + PeriodsNeeded(frames, old(framesIn), periodSize))
      ensures ret < 0 ==>
                && ret == readStatus
                && if pcmOpen then moved < frames && framesIn == 0 && served == mid + 1 && driver(mid) == Fault(ret)
                   else moved == 0 && served == mid == old(served) && ret == -ENODEV
    {
      ghost var left, from, carried := framesIn, served, Pending();
      moved, mid := 0, served;
      var framesWr := 0;
      assert Flow(driver, out[..0 * channels], Pending(), carried, from, served);
      while framesWr < frames
        invariant Valid() && 0 <= framesWr && (framesWr <= frames || framesWr == 0)
        invariant moved == framesWr && mid == served
        invariant from <= served
        invariant Counted(framesWr, framesIn, left, served - from, periodSize)
        invariant framesWr == 0 ==> served == from && readStatus == old(readStatus) && framesIn == left
        invariant framesWr > 0 ==> readStatus == 0 && pcmOpen
        invariant 0 < framesWr < frames ==> framesIn == 0
        invariant 0 <= framesWr * channels <= out.Length
        invariant Flow(driver, out[..framesWr * channels], Pending(), carried, from, served)
      {
        ghost var done, pending := out[..framesWr * channels], Pending();
        MulMonotone(framesWr, frames, channels);
        var count := Turn(out, framesWr, frames - framesWr);
        if readStatus != 0 {
          Unserved(driver, frames, framesWr, left, from, mid, periodSize);
          return readStatus, moved, mid;
        }
        FlowGoesOn(driver, done, pending, carried, from, mid, served, out[..(framesWr + count) * channels], Pending());
        CountGoesOn(framesWr, if served > mid then 0 else framesIn + count, count, framesIn, left, mid - from, served - from, periodSize);
        framesWr, moved, mid := framesWr + count, framesWr + count, served;
      }
      if 0 < frames {
        PeriodsCounted(frames, left, served - from, framesIn, periodSize);
      }
      ret := framesWr;
    }

    /** A client's sequence of requests, until one fails. */
    method Serve(sizes: seq<nat>) returns (outs: seq<seq<int>>, ret: int, ghost at: seq<Position>)
      requires Valid() && !standby
      modifies this`framesIn, this`readStatus, this`served, buffer
      ensures Valid() && |outs| <= |sizes| && (ret >= 0 <==> |outs| == |sizes|)
      ensures Served(driver, outs, at) && at[0] == Position(old(Pending()), old(served))
      ensures forall k :: 0 <= k < |outs| ==> |outs[k]| == sizes[k] * channels
      ensures ret >= 0 ==> Flow(driver, Flatten(outs), Pending(), old(Pending()), old(served), served)
    {
      outs, ret, at := [], 0, [Position(Pending(), served)];
      while |outs| < |sizes|
        invariant Valid() && |outs| <= |sizes| && Served(driver, outs, at) && at[0] == Position(old(Pending()), old(served))
        invariant forall k :: 0 <= k < |outs| ==> |outs[k]| == sizes[k] * channels
        invariant at[|outs|] == Position(Pending(), served) && ret >= 0
      {
        var frames := sizes[|outs|];
        MulMonotone(0, frames, channels);
        var out := new int[frames * channels];
        ghost var moved, mid;
        ret, moved, mid := ReadFrames(out, frames);
        if ret < 0 {
          return;
        }
        outs, at := outs + [out[..frames * channels]], at + [Position(Pending(), served)];
      }
      RequestsDeliverTheStream(driver, outs, at);
    }

    /** do_input_standby: the pcm is closed, the frames carried over stay. A running stream must have
        a pcm, which pcm_close is handed. */
    method Standby()
      requires Valid() && (!standby ==> pcmOpen)
      modifies this`standby, this`pcmOpen
      ensures Valid() && standby && !pcmOpen
    {
      if !standby {
        pcmOpen := false;
        standby := true;
      }
    }

    /** start_input_stream without a resampler: in a call it reports success without opening. */
    method StartInput(inCall: bool) returns (ret: int)
      requires Valid() && standby
      modifies this`standby, this`pcmOpen
      ensures Valid() && ret == 0 && !standby && pcmOpen == !inCall
    {
      standby := false;
      if inCall {
        return 0;
      }
      pcmOpen := true;
      ret := 0;
    }
  }
}
