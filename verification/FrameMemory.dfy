/** The state the camera threads share and the operations they run on it, each inside one
    critical section (mCaptureMutex or a queue's own mutex). Every operation is written twice:
    as a function on the value Memory, and as a method of V4L2CameraDevice that updates its
    fields in place and is proved to do what the function says. */
module FrameMemory {
  import opened Throttle
  import OsalQueue

  /** Size of the array mV4l2buf. */
  const NB_BUFFER: nat := 10

  /** The sizes the two OSAL queues are created with; they hold one element fewer. */
  const PREVIEW_ELEMS := NB_BUFFER

  const PICTURE_ELEMS := 4

  datatype TakePictureState = Null | Normal | Fast | Record | Continuous | ContinuousFast | Smart

  /** One slot of mV4l2buf; `frame` stands for the address, time-stamp and crop fields. */
  datatype FrameBuf = FrameBuf(refCnt: int, index: nat, frame: int)

  /** A picture-queue element points to a slot of mV4l2buf or to the separate mPicBuffer. */
  datatype PictureEntry = Slot(i: nat) | PicBuffer

  /** The V4L2 driver: the buffers it owns, those a failed VIDIOC_QBUF left stranded, and how
      often each buffer was dequeued and given back. */
  datatype Driver = Driver(owned: set<nat>, stranded: set<nat>, dequeued: seq<nat>, requeued: seq<nat>)

  datatype Memory = Memory(
    bufs: seq<FrameBuf>,
    avail: int,                  // mCurAvailBufferCnt
    rate: Rate,                  // mNeedHalfFrameRate, mStatisicsIndex
    take: TakePictureState,      // mTakePictureState
    isPicCopy: bool,             // mIsPicCopy
    picIndex: nat,               // mPicBuffer.index
    preview: seq<nat>,           // mQueueBufferPreview
    picture: seq<PictureEntry>,  // mQueueBufferPicture
    driver: Driver)

  /** The places where captureThread queues the new frame. */
  datatype Site = AtPreview | AtFast | AtSmart | AtContinuous

  predicate WellFormed(m: Memory) {
    && |m.bufs| == |m.driver.dequeued| == |m.driver.requeued| == NB_BUFFER
    && m.picIndex < NB_BUFFER
    && (forall i :: 0 <= i < NB_BUFFER ==> m.bufs[i].index < NB_BUFFER)
    && (forall k :: 0 <= k < |m.preview| ==> m.preview[k] < NB_BUFFER)
    && (forall k :: 0 <= k < |m.picture| && m.picture[k].Slot? ==> m.picture[k].i < NB_BUFFER)
  }

  /** VIDIOC_DQBUF returned buffer i: count it out, run the throttle, fill the slot. */
  function Fill(m: Memory, i: nat, frame: int): (m': Memory)
    requires WellFormed(m) && i < NB_BUFFER
    ensures WellFormed(m')
  {
    var d := m.driver;
    m.(avail := m.avail - 1,
       rate := Tick(m.rate, m.avail - 1),
       bufs := m.bufs[i := FrameBuf(1, i, frame)],
       driver := d.(owned := d.owned - {i}, dequeued := d.dequeued[i := d.dequeued[i] + 1]))
  }

  predicate QueueFull(m: Memory, site: Site) {
    if site == AtPreview then !OsalQueue.Accepts(m.preview, PREVIEW_ELEMS)
    else !OsalQueue.Accepts(m.picture, PICTURE_ELEMS)
  }

  /** OSAL_Queue of slot i at one of captureThread's sites. */
  function Queue(m: Memory, site: Site, i: nat): (m': Memory)
    requires WellFormed(m) && i < NB_BUFFER
    ensures WellFormed(m')
  {
    if site == AtPreview then m.(preview := OsalQueue.Step(m.preview, OsalQueue.Put(i), PREVIEW_ELEMS))
    else m.(picture := OsalQueue.Step(m.picture, OsalQueue.Put(Slot(i)), PICTURE_ELEMS))
  }

  /** The bookkeeping after a successful OSAL_Queue. */
  function AddReference(m: Memory, site: Site, i: nat): (m': Memory)
    requires WellFormed(m) && i < NB_BUFFER
    ensures WellFormed(m')
  {
    var b := m.bufs[i];
    var counted := m.(bufs := m.bufs[i := b.(refCnt := b.refCnt + 1)]);
    match site
    case AtPreview => counted
    case AtFast => counted.(take := Null, isPicCopy := false)
    case _ => counted.(isPicCopy := false)
  }

  /** TAKE_PICTURE_NORMAL: copy the frame to mPicBuffer and queue that. */
  function QueueCopy(m: Memory, i: nat): (m': Memory)
    requires WellFormed(m) && i < NB_BUFFER
    ensures WellFormed(m')
  {
    var copied := m.(picIndex := m.bufs[i].index);
    if QueueFull(m, AtFast) then copied else copied.(picture := m.picture + [PicBuffer])
  }

  /** The flags after a queued copy. */
  function FlagCopied(m: Memory): (m': Memory)
    requires WellFormed(m)
    ensures WellFormed(m')
  {
    m.(isPicCopy := true, take := Null)
  }

  /** releasePreviewFrame; `qbufOk` is the outcome of VIDIOC_QBUF if it is issued. */
  function Release(m: Memory, k: nat, qbufOk: bool): (m': Memory)
    requires WellFormed(m) && k < NB_BUFFER
    ensures WellFormed(m')
  {
    var b := m.bufs[k];
    if b.refCnt <= 0 then m
    else
      var dropped := m.(bufs := m.bufs[k := b.(refCnt := b.refCnt - 1)]);
      if b.refCnt > 1 then dropped
      else
        var d := m.driver.(requeued := m.driver.requeued[k := m.driver.requeued[k] + 1]);
        if qbufOk then dropped.(avail := m.avail + 1, driver := d.(owned := d.owned + {k}))
        else dropped.(driver := d.(stranded := d.stranded + {k}))
  }

  /** onNextFrameHW: the recorder takes its own reference. */
  function Share(m: Memory, i: nat): (m': Memory)
    requires WellFormed(m) && i < NB_BUFFER
    ensures WellFormed(m')
  {
    var b := m.bufs[i];
    m.(bufs := m.bufs[i := b.(refCnt := b.refCnt + 1)])
  }

  function FirstBuffers(n: nat): (s: set<nat>)
    ensures |s| == n && forall i: nat :: i in s <==> i < n
  {
    if n == 0 then {} else FirstBuffers(n - 1) + {n - 1}
  }

  /** Every buffer is in the driver, nothing is queued, and no picture is being taken. */
  function Started(bufferCnt: nat): (m: Memory)
    requires bufferCnt <= NB_BUFFER
    ensures WellFormed(m)
  {
    Memory(seq(NB_BUFFER, _ => FrameBuf(0, 0, 0)), bufferCnt, START, Null, false, 0, [], [],
           Driver(FirstBuffers(bufferCnt), {}, seq(NB_BUFFER, _ => 0), seq(NB_BUFFER, _ => 0)))
  }

  class V4L2CameraDevice {
    const mV4l2buf: array<FrameBuf>
    var mCurAvailBufferCnt: int
    var mNeedHalfFrameRate: bool
    var mStatisicsIndex: int
    var mTakePictureState: TakePictureState
    var mIsPicCopy: bool
    var mPicBufferIndex: nat
    var mQueueBufferPreview: seq<nat>
    var mQueueBufferPicture: seq<PictureEntry>
    ghost var driver: Driver

    /** The value these fields hold. */
    ghost function View(): Memory
      reads this, mV4l2buf
    {
      Memory(mV4l2buf[..], mCurAvailBufferCnt, Rate(mNeedHalfFrameRate, mStatisicsIndex),
             mTakePictureState, mIsPicCopy, mPicBufferIndex, mQueueBufferPreview, mQueueBufferPicture, driver)
    }

    /** A device that was just started with `bufferCnt` buffers, all queued in the driver. */
    constructor (bufferCnt: nat)
      requires bufferCnt <= NB_BUFFER
      ensures fresh(mV4l2buf)
      ensures View() == Started(bufferCnt)
    {
      mV4l2buf := new FrameBuf[NB_BUFFER](_ => FrameBuf(0, 0, 0));
      mCurAvailBufferCnt := bufferCnt;
      mNeedHalfFrameRate, mStatisicsIndex := false, 0;
      mTakePictureState, mIsPicCopy, mPicBufferIndex := Null, false, 0;
      mQueueBufferPreview, mQueueBufferPicture := [], [];
      driver := Started(bufferCnt).driver;
    }

    /** The part of captureThread between VIDIOC_DQBUF and the first OSAL_Queue. */
    method FillFrame(i: nat, frame: int)
      requires WellFormed(View()) && i < NB_BUFFER
      modifies this, mV4l2buf
      ensures View() == Fill(old(View()), i, frame)
    {
      mCurAvailBufferCnt := mCurAvailBufferCnt - 1;
      if mCurAvailBufferCnt <= 4 {
        mNeedHalfFrameRate := true;
        mStatisicsIndex := 0;
      } else if mNeedHalfFrameRate {
        mStatisicsIndex := mStatisicsIndex + 1;
        if mStatisicsIndex >= STATISTICS_CNT {
          mNeedHalfFrameRate := false;
        }
      }
      mV4l2buf[i] := FrameBuf(1, i, frame);
      driver := driver.(owned := driver.owned - {i}, dequeued := driver.dequeued[i := driver.dequeued[i] + 1]);
    }

    method QueueFrame(site: Site, i: nat) returns (ok: bool)
      requires WellFormed(View()) && i < NB_BUFFER
      modifies this
      ensures ok == !QueueFull(old(View()), site)
      ensures View() == Queue(old(View()), site, i)
    {
      if site == AtPreview {
        ok := OsalQueue.Accepts(mQueueBufferPreview, PREVIEW_ELEMS);
        if ok {
          mQueueBufferPreview := mQueueBufferPreview + [i];
        }
      } else {
        ok := OsalQueue.Accepts(mQueueBufferPicture, PICTURE_ELEMS);
        if ok {
          mQueueBufferPicture := mQueueBufferPicture + [Slot(i)];
        }
      }
    }

    method CountReference(site: Site, i: nat)
      requires WellFormed(View()) && i < NB_BUFFER
      modifies this, mV4l2buf
      ensures View() == AddReference(old(View()), site, i)
    {
      mV4l2buf[i] := mV4l2buf[i].(refCnt := mV4l2buf[i].refCnt + 1);
      if site == AtFast {
        mTakePictureState := Null;
      }
      if site != AtPreview {
        mIsPicCopy := false;
      }
    }

    method QueuePictureCopy(i: nat) returns (ok: bool)
      requires WellFormed(View()) && i < NB_BUFFER
      modifies this
      ensures ok == !QueueFull(old(View()), AtFast)
      ensures View() == QueueCopy(old(View()), i)
    {
      mPicBufferIndex := mV4l2buf[i].index;
      ok := OsalQueue.Accepts(mQueueBufferPicture, PICTURE_ELEMS);
      if ok {
        mQueueBufferPicture := mQueueBufferPicture + [PicBuffer];
      }
    }

    method FlagPictureCopy()
      requires WellFormed(View())
      modifies this
      ensures View() == FlagCopied(old(View()))
    {
      mIsPicCopy := true;
      mTakePictureState := Null;
    }

    method ReleasePreviewFrame(index: nat, qbufOk: bool)
      requires WellFormed(View()) && index < NB_BUFFER
      modifies this, mV4l2buf
      ensures View() == Release(old(View()), index, qbufOk)
    {
      if mV4l2buf[index].refCnt > 0 {
        mV4l2buf[index] := mV4l2buf[index].(refCnt := mV4l2buf[index].refCnt - 1);
        if mV4l2buf[index].refCnt == 0 {
          driver := driver.(requeued := driver.requeued[index := driver.requeued[index] + 1]);
          if qbufOk {
            mCurAvailBufferCnt := mCurAvailBufferCnt + 1;
            driver := driver.(owned := driver.owned + {index});
          } else {
            driver := driver.(stranded := driver.stranded + {index});
          }
        }
      }
    }

    method OnNextFrameHW(i: nat)
      requires WellFormed(View()) && i < NB_BUFFER
      modifies mV4l2buf
      ensures View() == Share(old(View()), i)
    {
      mV4l2buf[i] := mV4l2buf[i].(refCnt := mV4l2buf[i].refCnt + 1);
    }
  }

  // ---- The driver's account ------------------------------------------------------------

  /** Buffer i is owned by the driver, stranded, or referenced by somebody, and has been given
      back once for every time it was handed out, save for the current time. */
  predicate BufferAccount(m: Memory, bufferCnt: nat, i: nat)
    requires WellFormed(m) && i < NB_BUFFER
  {
    var b := m.bufs[i];
    && 0 <= b.refCnt
    && (b.refCnt > 0 <==> i < bufferCnt && i !in m.driver.owned && i !in m.driver.stranded)
    && (b.refCnt > 0 ==> b.index == i)
    && m.driver.dequeued[i] == m.driver.requeued[i] + (if b.refCnt > 0 then 1 else 0)
  }

  /** The account of all buffers; mCurAvailBufferCnt counts those the driver owns. */
  ghost predicate Accounting(m: Memory, bufferCnt: nat) {
    && WellFormed(m)
    && m.avail == |m.driver.owned|
    && m.driver.owned !! m.driver.stranded
    && m.driver.owned + m.driver.stranded <= FirstBuffers(bufferCnt)
    && forall i :: 0 <= i < NB_BUFFER ==> BufferAccount(m, bufferCnt, i)
  }

  /** The account only looks at the slots, the counter and the driver. */
  lemma AccountingFrame(m: Memory, bufferCnt: nat, m': Memory)
    requires Accounting(m, bufferCnt) && WellFormed(m')
    requires m'.bufs == m.bufs && m'.driver == m.driver && m'.avail == m.avail
    ensures Accounting(m', bufferCnt)
  {
    assert forall j :: 0 <= j < NB_BUFFER && BufferAccount(m, bufferCnt, j) ==> BufferAccount(m', bufferCnt, j);
  }

  lemma FillAccounts(m: Memory, bufferCnt: nat, i: nat, frame: int)
    requires Accounting(m, bufferCnt) && i < NB_BUFFER && i in m.driver.owned
    ensures Accounting(Fill(m, i, frame), bufferCnt)
  {
    var m' := Fill(m, i, frame);
    assert m'.driver.owned <= m.driver.owned;
    forall j | 0 <= j < NB_BUFFER ensures BufferAccount(m', bufferCnt, j) {
      assert BufferAccount(m, bufferCnt, j);
    }
  }

  /** Taking one more reference to a buffer somebody already references. */
  lemma CountAccounts(m: Memory, bufferCnt: nat, i: nat, m': Memory)
    requires Accounting(m, bufferCnt) && i < NB_BUFFER && m.bufs[i].refCnt > 0
    requires WellFormed(m') && m'.bufs == Share(m, i).bufs && m'.driver == m.driver && m'.avail == m.avail
    ensures Accounting(m', bufferCnt)
  {
    forall j | 0 <= j < NB_BUFFER ensures BufferAccount(m', bufferCnt, j) {
      assert BufferAccount(m, bufferCnt, j);
    }
  }

  lemma ReleaseAccounts(m: Memory, bufferCnt: nat, k: nat, qbufOk: bool)
    requires Accounting(m, bufferCnt) && k < NB_BUFFER
    ensures Accounting(Release(m, k, qbufOk), bufferCnt)
  {
    assert BufferAccount(m, bufferCnt, k);
    var m' := Release(m, k, qbufOk);
    if m.bufs[k].refCnt == 1 {
      assert k in FirstBuffers(bufferCnt);
      assert m'.avail == |m'.driver.owned|;
      assert m'.driver.owned !! m'.driver.stranded;
    }
    forall j | 0 <= j < NB_BUFFER ensures BufferAccount(m', bufferCnt, j) {
      assert BufferAccount(m, bufferCnt, j);
      if j != k {
        assert m'.bufs[j] == m.bufs[j];
      }
    }
  }

  /** Which slot a release can touch, and when it issues VIDIOC_QBUF. */
  lemma ReleaseEffect(m: Memory, k: nat, qbufOk: bool, i: nat)
    requires WellFormed(m) && k < NB_BUFFER && i < NB_BUFFER
    ensures var m' := Release(m, k, qbufOk);
            && m'.bufs[i].frame == m.bufs[i].frame && m'.bufs[i].index == m.bufs[i].index
            && (m'.driver.requeued[i] != m.driver.requeued[i] ==>
                  m'.bufs[i].refCnt == 0 && m'.driver.requeued[i] == m.driver.requeued[i] + 1)
  {
  }

  /** The buffers somebody references. */
  function Referenced(m: Memory): set<nat>
    requires WellFormed(m)
  {
    set i: nat | i < NB_BUFFER && m.bufs[i].refCnt > 0
  }

  lemma DisjointUnionSize<T>(a: set<T>, b: set<T>, c: set<T>, all: set<T>)
    requires a !! b !! c && a + b + c == all
    ensures |a| + |b| + |c| == |all|
  {
  }

  /** No buffer is lost: driver-owned, stranded and referenced buffers make up the whole. */
  lemma BuffersAreConserved(m: Memory, bufferCnt: nat)
    requires Accounting(m, bufferCnt) && bufferCnt <= NB_BUFFER
    ensures m.driver.owned + m.driver.stranded + Referenced(m) == FirstBuffers(bufferCnt)
    ensures m.avail + |m.driver.stranded| + |Referenced(m)| == bufferCnt
  {
    var owned, stranded, used, all := m.driver.owned, m.driver.stranded, Referenced(m), FirstBuffers(bufferCnt);
    forall i: nat
      ensures i in owned + stranded + used <==> i in all
      ensures !(i in owned + stranded && i in used)
    {
      if i < NB_BUFFER {
        assert BufferAccount(m, bufferCnt, i);
      }
    }
    DisjointUnionSize(owned, stranded, used, all);
  }
}
