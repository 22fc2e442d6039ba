/** The camera threads as a state machine: capture, preview, the three picture workers and the
    recorder, interleaved at the granularity of one mutex section or one unlocked access. */
module FrameProtocol {
  import opened FrameMemory
  import opened Throttle

  /** captureThread. In At and Queued it holds mCaptureMutex; Queued(site, i) is the gap between
      a successful OSAL_Queue and the reference count that pays for it; in Flagging the copy is
      queued but mIsPicCopy is not yet set. */
  datatype Capture = Idle | At(site: Site, i: nat) | Queued(site: Site, i: nat) | Flagging(i: nat) | Finishing(i: nat)

  /** previewThread: holding a dequeued frame, before and after the recorder was served. */
  datatype Preview = Waiting | Holding(i: nat) | Served(i: nat)

  /** A picture worker, before and after it decided to release its frame. */
  datatype Worker = Free | Taking(entry: PictureEntry) | Releasing(entry: PictureEntry)

  const PICTURE: nat := 0

  const SMART: nat := 1

  const CONTINUOUS: nat := 2

  datatype Device = Device(
    bufferCnt: nat,
    mem: Memory,
    delivering: bool,      // mCaptureThreadState is CAPTURE_STATE_STARTED
    capture: Capture,
    preview: Preview,
    workers: seq<Worker>,
    recorder: seq<nat>,    // how many references to each buffer the recorder holds
    availLog: seq<int>)    // mCurAvailBufferCnt at each captured frame so far

  datatype CaptureAction =
    | Dequeue(b: nat, frame: int)  // VIDIOC_DQBUF returns buffer b
    | EnqueueFrame                 // the site's OSAL_Queue, full or not
    | CountFrame                   // refCnt++ and the flags after it
    | PassSite                     // the site's condition does not hold
    | SkipReserved                 // fast-picture mode drops a reserved frame
    | EnqueueCopy | FlagCopy       // TAKE_PICTURE_NORMAL
    | Finish(ok: bool)             // the release at DEC_REF

  datatype PreviewAction = TakeFrame | ShareFrame | ReleaseFrame(ok: bool)

  datatype WorkerAction = TakePicture | Decide | ReleasePicture(ok: bool)

  datatype Action =
    | Capturing(c: CaptureAction)
    | Previewing(v: PreviewAction)
    | Working(w: nat, p: WorkerAction)
    | Recording(i: nat, ok: bool)          // the recorder releases buffer i
    | Requesting(state: TakePictureState)  // setTakePictureState, or a worker ending a series
    | Delivering(on: bool)                 // startDeliveringFrames, stopDeliveringFrames

  predicate Locked(c: Capture) {
    c.At? || c.Queued? || c.Flagging?
  }

  predicate SiteWanted(site: Site, take: TakePictureState) {
    match site
    case AtPreview => take != Normal
    case AtFast => take == Fast || take == Record
    case AtSmart => take == Smart
    case AtContinuous => take == Continuous || take == ContinuousFast
  }

  function NextSite(site: Site, i: nat): Capture {
    match site
    case AtPreview => At(AtFast, i)
    case AtFast => At(AtSmart, i)
    case AtSmart => At(AtContinuous, i)
    case AtContinuous => Finishing(i)
  }

  predicate Shape(s: Device) {
    && WellFormed(s.mem)
    && s.bufferCnt <= NB_BUFFER
    && |s.workers| == 3
    && |s.recorder| == NB_BUFFER
    && (s.capture.Idle? || s.capture.i < NB_BUFFER)
    && (s.preview.Waiting? || s.preview.i < NB_BUFFER)
    && (forall w :: 0 <= w < 3 ==> (!s.workers[w].Free? && s.workers[w].entry.Slot? ==> s.workers[w].entry.i < NB_BUFFER))
  }

  /** pbuf->index of a picture entry. */
  function EntryIndex(m: Memory, e: PictureEntry): nat
    requires WellFormed(m) && (e.Slot? ==> e.i < NB_BUFFER)
  {
    if e.Slot? then m.bufs[e.i].index else m.picIndex
  }

  predicate CaptureEnabled(s: Device, c: CaptureAction)
    requires Shape(s)
  {
    match c
    case Dequeue(b, _) => s.capture.Idle? && s.delivering && b < NB_BUFFER && b in s.mem.driver.owned
    case EnqueueFrame => s.capture.At? && SiteWanted(s.capture.site, s.mem.take)
    case CountFrame => s.capture.Queued?
    // isContinuousPictureTime may say no even when the state asks for a picture
    case PassSite =>
      && s.capture.At? && s.capture.site != AtPreview
      && (s.capture.site == AtContinuous || !SiteWanted(s.capture.site, s.mem.take))
    case SkipReserved => s.capture.At? && s.capture.site == AtFast && SiteWanted(AtFast, s.mem.take)
    case EnqueueCopy => s.capture.At? && s.capture.site == AtPreview && s.mem.take == Normal
    case FlagCopy => s.capture.Flagging?
    case Finish(_) => s.capture.Finishing?
  }

  function CaptureStep(s: Device, c: CaptureAction): (s': Device)
    requires Shape(s) && CaptureEnabled(s, c)
    ensures Shape(s')
  {
    if c.Dequeue? then
      s.(mem := Fill(s.mem, c.b, c.frame), capture := At(AtPreview, c.b), availLog := s.availLog + [s.mem.avail - 1])
    else
      var i := s.capture.i;
      match c
      case EnqueueFrame =>
        var site := s.capture.site;
        s.(mem := FrameMemory.Queue(s.mem, site, i),
           capture := if QueueFull(s.mem, site) then Finishing(i) else Queued(site, i))
      case CountFrame => s.(mem := AddReference(s.mem, s.capture.site, i), capture := NextSite(s.capture.site, i))
      case PassSite => s.(capture := NextSite(s.capture.site, i))
      case SkipReserved => s.(capture := Finishing(i))
      case EnqueueCopy =>
        s.(mem := QueueCopy(s.mem, i), capture := if QueueFull(s.mem, AtFast) then Finishing(i) else Flagging(i))
      case FlagCopy => s.(mem := FlagCopied(s.mem), delivering := false, capture := Finishing(i))
      case Finish(ok) => s.(mem := Release(s.mem, i, ok), capture := Idle)
  }

  predicate PreviewEnabled(s: Device, v: PreviewAction) {
    match v
    case TakeFrame => s.preview.Waiting? && s.mem.preview != []
    case ShareFrame => s.preview.Holding?
    case ReleaseFrame(_) => !s.preview.Waiting? && !Locked(s.capture)
  }

  function PreviewStep(s: Device, v: PreviewAction): (s': Device)
    requires Shape(s) && PreviewEnabled(s, v)
    ensures Shape(s')
  {
    match v
    case TakeFrame =>
      s.(mem := s.mem.(preview := s.mem.preview[1..]), preview := Holding(s.mem.preview[0]))
    case ShareFrame =>
      var i := s.preview.i;
      s.(mem := Share(s.mem, i), recorder := s.recorder[i := s.recorder[i] + 1], preview := Served(i))
    case ReleaseFrame(ok) =>
      s.(mem := Release(s.mem, s.mem.bufs[s.preview.i].index, ok), preview := Waiting)
  }

  predicate WorkerEnabled(s: Device, w: nat, p: WorkerAction)
    requires Shape(s)
  {
    && w < 3
    && match p
       case TakePicture => s.workers[w].Free? && s.mem.picture != []
       case Decide => s.workers[w].Taking?
       case ReleasePicture(_) => s.workers[w].Releasing? && !Locked(s.capture)
  }

  function WorkerStep(s: Device, w: nat, p: WorkerAction): (s': Device)
    requires Shape(s) && WorkerEnabled(s, w, p)
    ensures Shape(s')
  {
    match p
    case TakePicture =>
      s.(mem := s.mem.(picture := s.mem.picture[1..]), workers := s.workers[w := Taking(s.mem.picture[0])])
    case Decide =>
      // pictureThread and smartPictureThread keep the frame when mIsPicCopy is set
      var e := s.workers[w].entry;
      s.(workers := s.workers[w := if w != CONTINUOUS && s.mem.isPicCopy then Free else Releasing(e)])
    case ReleasePicture(ok) =>
      s.(mem := Release(s.mem, EntryIndex(s.mem, s.workers[w].entry), ok), workers := s.workers[w := Free])
  }

  predicate RecorderEnabled(s: Device, i: nat)
    requires Shape(s)
  {
    i < NB_BUFFER && s.recorder[i] > 0 && !Locked(s.capture)
  }

  /** The recorder gives up one of its references to buffer i. */
  function RecorderStep(s: Device, i: nat, ok: bool): (s': Device)
    requires Shape(s) && RecorderEnabled(s, i)
    ensures Shape(s')
  {
    s.(mem := Release(s.mem, i, ok), recorder := s.recorder[i := s.recorder[i] - 1])
  }

  predicate Enabled(s: Device, a: Action)
    requires Shape(s)
  {
    match a
    case Capturing(c) => CaptureEnabled(s, c)
    case Previewing(v) => PreviewEnabled(s, v)
    case Working(w, p) => WorkerEnabled(s, w, p)
    case Recording(i, _) => RecorderEnabled(s, i)
    case Requesting(_) => true
    case Delivering(_) => !Locked(s.capture)
  }

  function Apply(s: Device, a: Action): (s': Device)
    requires Shape(s) && Enabled(s, a)
    ensures Shape(s')
  {
    match a
    case Capturing(c) => CaptureStep(s, c)
    case Previewing(v) => PreviewStep(s, v)
    case Working(w, p) => WorkerStep(s, w, p)
    case Recording(i, ok) => RecorderStep(s, i, ok)
    case Requesting(state) => s.(mem := s.mem.(take := state))
    case Delivering(on) => s.(delivering := on)
  }

  // ---- Who holds a buffer ---------------------------------------------------------------

  function One(b: bool): nat { if b then 1 else 0 }

  function CaptureHolds(c: Capture, i: nat): nat { One(!c.Idle? && c.i == i) }

  function PreviewHolds(p: Preview, i: nat): nat { One(!p.Waiting? && p.i == i) }

  function WorkerHolds(w: Worker, i: nat): nat { One(!w.Free? && w.entry == Slot(i)) }

  function WorkersHold(ws: seq<Worker>, i: nat): nat
    requires |ws| == 3
  {
    WorkerHolds(ws[0], i) + WorkerHolds(ws[1], i) + WorkerHolds(ws[2], i)
  }

  /** Queue entries, threads and recorder references that stand for buffer i. */
  ghost function Holders(s: Device, i: nat): nat
    requires Shape(s) && i < NB_BUFFER
  {
    multiset(s.mem.preview)[i] + multiset(s.mem.picture)[Slot(i)]
    + CaptureHolds(s.capture, i) + PreviewHolds(s.preview, i) + WorkersHold(s.workers, i)
    + s.recorder[i]
  }

  /** The reference captureThread has queued but not yet counted. */
  function Pending(c: Capture, i: nat): nat { One(c.Queued? && c.i == i) }

  /** Buffer i's reference count is the number of its holders. */
  ghost predicate OwnedAt(s: Device, i: nat)
    requires Shape(s) && i < NB_BUFFER
  {
    s.mem.bufs[i].refCnt + Pending(s.capture, i) == Holders(s, i)
  }

  ghost predicate Ownership(s: Device)
    requires Shape(s)
  {
    forall i :: 0 <= i < NB_BUFFER ==> OwnedAt(s, i)
  }

  ghost predicate Inv(s: Device) {
    && Shape(s) && Ownership(s)
    && Accounting(s.mem, s.bufferCnt)
    && (Locked(s.capture) ==> s.mem.bufs[s.capture.i].refCnt > 0)
    && s.mem.rate == After(s.availLog)
  }

  /** The check each releasing worker would have to pass: pictureThread and smartPictureThread
      drop a frame of mV4l2buf only while mIsPicCopy is clear, and nobody releases mPicBuffer
      while the buffer it was copied from is still referenced. */
  predicate Balanced(s: Device, a: Action)
    requires Shape(s) && Enabled(s, a)
  {
    if !a.Working? then true
    else match a.p
      case TakePicture => true
      case Decide => a.w != CONTINUOUS && s.workers[a.w].entry.Slot? ==> !s.mem.isPicCopy
      case ReleasePicture(_) => s.workers[a.w].entry.PicBuffer? ==> s.mem.bufs[s.mem.picIndex].refCnt <= 0
  }

  // ---- Every step ------------------------------------------------------------------------

  lemma PushCounts<T>(q: seq<T>, x: T, y: T)
    ensures multiset(q + [x])[y] == multiset(q)[y] + One(x == y)
  {
  }

  lemma PopCounts<T>(q: seq<T>, y: T)
    requires q != []
    ensures multiset(q)[y] == multiset(q[1..])[y] + One(q[0] == y)
  {
    assert q == [q[0]] + q[1..];
  }

  lemma WorkerCounts(ws: seq<Worker>, w: nat, x: Worker, i: nat)
    requires |ws| == 3 && w < 3
    ensures WorkersHold(ws[w := x], i) + WorkerHolds(ws[w], i) == WorkersHold(ws, i) + WorkerHolds(x, i)
  {
  }

  /** Giving up one reference together with the hold it stands for. */
  lemma ReleaseOwnership(s: Device, k: nat, ok: bool, s': Device, i: nat)
    requires Inv(s) && Shape(s') && k < NB_BUFFER && i < NB_BUFFER && !Locked(s.capture)
    requires s'.mem == Release(s.mem, k, ok) && Pending(s'.capture, i) == 0
    requires s.mem.bufs[k].refCnt > 0 && Holders(s', i) == Holders(s, i) - One(i == k)
    ensures OwnedAt(s', i)
  {
    assert OwnedAt(s, i);
  }

  /** A buffer with a holder is referenced, even while one reference is still uncounted. */
  lemma HeldIsReferenced(s: Device, i: nat)
    requires Inv(s) && i < NB_BUFFER && Holders(s, i) > 0
    ensures s.mem.bufs[i].refCnt > 0 && s.mem.bufs[i].index == i && i !in s.mem.driver.owned
  {
    assert OwnedAt(s, i);
    assert BufferAccount(s.mem, s.bufferCnt, i);
  }

  lemma PreviewGrows(s: Device, i: nat)
    requires Inv(s) && CaptureEnabled(s, EnqueueFrame) && i < NB_BUFFER && OwnedAt(s, i)
    requires s.capture.site == AtPreview && !QueueFull(s.mem, AtPreview)
    ensures OwnedAt(CaptureStep(s, EnqueueFrame), i)
  {
    var m, m' := s.mem, CaptureStep(s, EnqueueFrame).mem;
    assert m'.picture == m.picture && m'.bufs == m.bufs;
    assert multiset(m'.preview)[i] == multiset(m.preview)[i] + One(s.capture.i == i) by {
      PushCounts(m.preview, s.capture.i, i);
    }
  }

  lemma PictureGrows(s: Device, i: nat)
    requires Inv(s) && CaptureEnabled(s, EnqueueFrame) && i < NB_BUFFER && OwnedAt(s, i)
    requires s.capture.site != AtPreview && !QueueFull(s.mem, s.capture.site)
    ensures OwnedAt(CaptureStep(s, EnqueueFrame), i)
  {
    var m, m' := s.mem, CaptureStep(s, EnqueueFrame).mem;
    assert m'.preview == m.preview && m'.bufs == m.bufs;
    assert multiset(m'.picture)[Slot(i)] == multiset(m.picture)[Slot(i)] + One(s.capture.i == i) by {
      PushCounts(m.picture, Slot(s.capture.i), Slot(i));
    }
  }

  lemma EnqueueOwnership(s: Device, i: nat)
    requires Inv(s) && CaptureEnabled(s, EnqueueFrame) && i < NB_BUFFER
    ensures OwnedAt(CaptureStep(s, EnqueueFrame), i)
  {
    assert OwnedAt(s, i);
    if QueueFull(s.mem, s.capture.site) {
    } else if s.capture.site == AtPreview {
      PreviewGrows(s, i);
    } else {
      PictureGrows(s, i);
    }
  }

  lemma CountOwnership(s: Device, i: nat)
    requires Inv(s) && CaptureEnabled(s, CountFrame) && i < NB_BUFFER
    ensures OwnedAt(CaptureStep(s, CountFrame), i)
  {
    assert OwnedAt(s, i);
    var m, m' := s.mem, AddReference(s.mem, s.capture.site, s.capture.i);
    assert m'.preview == m.preview && m'.picture == m.picture;
    assert m'.bufs[i].refCnt == m.bufs[i].refCnt + One(i == s.capture.i);
  }

  lemma DequeueOwnership(s: Device, b: nat, frame: int, i: nat)
    requires Inv(s) && CaptureEnabled(s, Dequeue(b, frame)) && i < NB_BUFFER
    ensures OwnedAt(CaptureStep(s, Dequeue(b, frame)), i)
  {
    assert OwnedAt(s, i);
    assert BufferAccount(s.mem, s.bufferCnt, b);
  }

  lemma CopyOwnership(s: Device, i: nat)
    requires Inv(s) && CaptureEnabled(s, EnqueueCopy) && i < NB_BUFFER
    ensures OwnedAt(CaptureStep(s, EnqueueCopy), i)
  {
    assert OwnedAt(s, i);
    var m, m' := s.mem, CaptureStep(s, EnqueueCopy).mem;
    assert m'.preview == m.preview && m'.bufs == m.bufs;
    assert multiset(m'.picture)[Slot(i)] == multiset(m.picture)[Slot(i)] by {
      PushCounts(m.picture, PicBuffer, Slot(i));
    }
  }

  lemma FinishOwnership(s: Device, ok: bool, i: nat)
    requires Inv(s) && CaptureEnabled(s, Finish(ok)) && i < NB_BUFFER
    ensures OwnedAt(CaptureStep(s, Finish(ok)), i)
  {
    var s' := CaptureStep(s, Finish(ok));
    HeldIsReferenced(s, s.capture.i);
    assert s'.mem.preview == s.mem.preview && s'.mem.picture == s.mem.picture;
    ReleaseOwnership(s, s.capture.i, ok, s', i);
  }

  lemma CaptureOwnership(s: Device, c: CaptureAction, i: nat)
    requires Inv(s) && CaptureEnabled(s, c) && i < NB_BUFFER
    ensures OwnedAt(CaptureStep(s, c), i)
  {
    match c
    case Dequeue(b, frame) => DequeueOwnership(s, b, frame, i);
    case EnqueueFrame => EnqueueOwnership(s, i);
    case CountFrame => CountOwnership(s, i);
    case EnqueueCopy => CopyOwnership(s, i);
    case Finish(ok) => FinishOwnership(s, ok, i);
    case _ => assert OwnedAt(s, i);
  }

  lemma PreviewReleaseOwnership(s: Device, ok: bool, i: nat)
    requires Inv(s) && PreviewEnabled(s, ReleaseFrame(ok)) && i < NB_BUFFER
    ensures OwnedAt(PreviewStep(s, ReleaseFrame(ok)), i)
  {
    var s' := PreviewStep(s, ReleaseFrame(ok));
    HeldIsReferenced(s, s.preview.i);
    assert s'.mem.preview == s.mem.preview && s'.mem.picture == s.mem.picture;
    ReleaseOwnership(s, s.preview.i, ok, s', i);
  }

  lemma PreviewOwnership(s: Device, v: PreviewAction, i: nat)
    requires Inv(s) && PreviewEnabled(s, v) && i < NB_BUFFER
    ensures OwnedAt(PreviewStep(s, v), i)
  {
    match v
    case TakeFrame =>
      assert OwnedAt(s, i);
      PopCounts(s.mem.preview, i);
    case ShareFrame => assert OwnedAt(s, i);
    case ReleaseFrame(ok) => PreviewReleaseOwnership(s, ok, i);
  }

  lemma PictureReleaseOwnership(s: Device, w: nat, ok: bool, i: nat)
    requires Inv(s) && WorkerEnabled(s, w, ReleasePicture(ok)) && i < NB_BUFFER
    requires Balanced(s, Working(w, ReleasePicture(ok)))
    ensures OwnedAt(WorkerStep(s, w, ReleasePicture(ok)), i)
  {
    var s' := WorkerStep(s, w, ReleasePicture(ok));
    var e := s.workers[w].entry;
    WorkerCounts(s.workers, w, Free, i);
    if e.Slot? {
      HeldIsReferenced(s, e.i);
      ReleaseOwnership(s, e.i, ok, s', i);
    } else {
      assert OwnedAt(s, i);
    }
  }

  lemma WorkerOwnership(s: Device, w: nat, p: WorkerAction, i: nat)
    requires Inv(s) && WorkerEnabled(s, w, p) && Balanced(s, Working(w, p)) && i < NB_BUFFER
    ensures OwnedAt(WorkerStep(s, w, p), i)
  {
    match p
    case TakePicture =>
      assert OwnedAt(s, i);
      PopCounts(s.mem.picture, Slot(i));
      WorkerCounts(s.workers, w, Taking(s.mem.picture[0]), i);
    case Decide =>
      assert OwnedAt(s, i);
      WorkerCounts(s.workers, w, WorkerStep(s, w, p).workers[w], i);
    case ReleasePicture(ok) => PictureReleaseOwnership(s, w, ok, i);
  }

  /** The buffer whose account an unbalanced worker breaks. */
  lemma UnbalancedBreaks(s: Device, w: nat, p: WorkerAction) returns (i: nat)
    requires Inv(s) && WorkerEnabled(s, w, p) && !Balanced(s, Working(w, p))
    ensures i < NB_BUFFER && !OwnedAt(WorkerStep(s, w, p), i)
  {
    i := if p.Decide? then s.workers[w].entry.i else s.mem.picIndex;
    assert OwnedAt(s, i);
    WorkerCounts(s.workers, w, Free, i);
  }

  lemma CaptureAccounts(s: Device, c: CaptureAction)
    requires Inv(s) && CaptureEnabled(s, c)
    ensures Accounting(CaptureStep(s, c).mem, s.bufferCnt)
  {
    match c
    case Dequeue(b, frame) => FillAccounts(s.mem, s.bufferCnt, b, frame);
    case CountFrame => CountAccounts(s.mem, s.bufferCnt, s.capture.i, CaptureStep(s, c).mem);
    case Finish(ok) => ReleaseAccounts(s.mem, s.bufferCnt, s.capture.i, ok);
    case _ => AccountingFrame(s.mem, s.bufferCnt, CaptureStep(s, c).mem);
  }

  lemma PreviewAccounts(s: Device, v: PreviewAction)
    requires Inv(s) && PreviewEnabled(s, v)
    ensures Accounting(PreviewStep(s, v).mem, s.bufferCnt)
  {
    match v
    case TakeFrame => AccountingFrame(s.mem, s.bufferCnt, PreviewStep(s, v).mem);
    case ShareFrame =>
      HeldIsReferenced(s, s.preview.i);
      CountAccounts(s.mem, s.bufferCnt, s.preview.i, PreviewStep(s, v).mem);
    case ReleaseFrame(ok) => ReleaseAccounts(s.mem, s.bufferCnt, s.mem.bufs[s.preview.i].index, ok);
  }

  lemma WorkerAccounts(s: Device, w: nat, p: WorkerAction)
    requires Inv(s) && WorkerEnabled(s, w, p)
    ensures Accounting(WorkerStep(s, w, p).mem, s.bufferCnt)
  {
    if p.ReleasePicture? {
      ReleaseAccounts(s.mem, s.bufferCnt, EntryIndex(s.mem, s.workers[w].entry), p.ok);
    } else {
      AccountingFrame(s.mem, s.bufferCnt, WorkerStep(s, w, p).mem);
    }
  }

  /** What every step, balanced or not, keeps of the driver's side. */
  lemma StepAccounts(s: Device, a: Action)
    requires Inv(s) && Enabled(s, a)
    ensures Accounting(Apply(s, a).mem, s.bufferCnt)
  {
    match a
    case Capturing(c) => CaptureAccounts(s, c);
    case Previewing(v) => PreviewAccounts(s, v);
    case Working(w, p) => WorkerAccounts(s, w, p);
    case Recording(i, ok) => ReleaseAccounts(s.mem, s.bufferCnt, i, ok);
    case Requesting(_) => AccountingFrame(s.mem, s.bufferCnt, Apply(s, a).mem);
    case Delivering(_) =>
  }

  lemma CaptureRateFollowsLog(s: Device, c: CaptureAction)
    requires Shape(s) && CaptureEnabled(s, c) && s.mem.rate == After(s.availLog)
    ensures CaptureStep(s, c).mem.rate == After(CaptureStep(s, c).availLog)
  {
    if c.Dequeue? {
      var log := CaptureStep(s, c).availLog;
      assert log[..|log| - 1] == s.availLog;
    }
  }

  /** No other thread touches the throttle. */
  lemma PreviewKeepsRate(s: Device, v: PreviewAction)
    requires Shape(s) && PreviewEnabled(s, v)
    ensures PreviewStep(s, v).mem.rate == s.mem.rate && PreviewStep(s, v).availLog == s.availLog
  {
  }

  lemma WorkerKeepsRate(s: Device, w: nat, p: WorkerAction)
    requires Shape(s) && WorkerEnabled(s, w, p)
    ensures WorkerStep(s, w, p).mem.rate == s.mem.rate && WorkerStep(s, w, p).availLog == s.availLog
  {
  }

  /** The throttle follows the captured frames in every state, whatever else is going on. */
  lemma RateFollowsLog(s: Device, a: Action)
    requires Shape(s) && Enabled(s, a) && s.mem.rate == After(s.availLog)
    ensures Apply(s, a).mem.rate == After(Apply(s, a).availLog)
  {
    match a
    case Capturing(c) => CaptureRateFollowsLog(s, c);
    case Previewing(v) => PreviewKeepsRate(s, v);
    case Working(w, p) => WorkerKeepsRate(s, w, p);
    case Recording(i, ok) =>
    case Requesting(_) =>
    case Delivering(_) =>
  }

  lemma CaptureStaysReferenced(s: Device, c: CaptureAction)
    requires Inv(s) && CaptureEnabled(s, c)
    ensures var s' := CaptureStep(s, c); Locked(s'.capture) ==> s'.mem.bufs[s'.capture.i].refCnt > 0
  {
    if c.CountFrame? {
      assert BufferAccount(s.mem, s.bufferCnt, s.capture.i);
    }
  }

  /** A locked capture keeps its buffer referenced: no release can run meanwhile. */
  lemma LockedStaysReferenced(s: Device, a: Action)
    requires Inv(s) && Enabled(s, a)
    ensures var s' := Apply(s, a); Locked(s'.capture) ==> s'.mem.bufs[s'.capture.i].refCnt > 0
  {
    match a
    case Capturing(c) => CaptureStaysReferenced(s, c);
    case _ =>
  }

  lemma RecordingOwnership(s: Device, k: nat, ok: bool, i: nat)
    requires Inv(s) && RecorderEnabled(s, k) && i < NB_BUFFER
    ensures OwnedAt(RecorderStep(s, k, ok), i)
  {
    HeldIsReferenced(s, k);
    ReleaseOwnership(s, k, ok, RecorderStep(s, k, ok), i);
  }

  lemma BalancedStepAt(s: Device, a: Action, i: nat)
    requires Inv(s) && Enabled(s, a) && Balanced(s, a) && i < NB_BUFFER
    ensures OwnedAt(Apply(s, a), i)
  {
    match a
    case Capturing(c) => CaptureOwnership(s, c, i);
    case Previewing(v) => PreviewOwnership(s, v, i);
    case Working(w, p) => WorkerOwnership(s, w, p, i);
    case Recording(k, ok) => RecordingOwnership(s, k, ok, i);
    case Requesting(_) => assert OwnedAt(s, i);
    case Delivering(_) => assert OwnedAt(s, i);
  }

  /** The exact condition under which a step keeps every reference count equal to the number
      of holders. */
  lemma StepKeepsOwnershipIff(s: Device, a: Action)
    requires Inv(s) && Enabled(s, a)
    ensures Ownership(Apply(s, a)) <==> Balanced(s, a)
  {
    if Balanced(s, a) {
      forall i | 0 <= i < NB_BUFFER ensures OwnedAt(Apply(s, a), i) {
        BalancedStepAt(s, a, i);
      }
    } else {
      var i := UnbalancedBreaks(s, a.w, a.p);
    }
  }

  lemma BufferCntStays(s: Device, a: Action)
    requires Shape(s) && Enabled(s, a)
    ensures Apply(s, a).bufferCnt == s.bufferCnt
  {
  }

  lemma InvHolds(s: Device)
    requires Shape(s) && Ownership(s) && Accounting(s.mem, s.bufferCnt) && s.mem.rate == After(s.availLog)
    requires Locked(s.capture) ==> s.mem.bufs[s.capture.i].refCnt > 0
    ensures Inv(s)
  {
  }

  lemma StepKeepsInv(s: Device, a: Action)
    requires Inv(s) && Enabled(s, a) && Balanced(s, a)
    ensures Inv(Apply(s, a))
  {
    StepKeepsOwnershipIff(s, a);
    StepAccounts(s, a);
    RateFollowsLog(s, a);
    LockedStaysReferenced(s, a);
    BufferCntStays(s, a);
    InvHolds(Apply(s, a));
  }

  // ---- Whole runs ------------------------------------------------------------------------

  function Start(bufferCnt: nat): (s: Device)
    requires bufferCnt <= NB_BUFFER
    ensures Shape(s)
  {
    var m := Started(bufferCnt);
    Device(bufferCnt, m, true, Idle, Waiting, [Free, Free, Free], m.driver.requeued, [])
  }

  predicate NoCopies(s: Device)
    requires Shape(s)
  {
    && s.mem.take != Normal && !s.mem.isPicCopy && !s.capture.Flagging?
    && (forall k :: 0 <= k < |s.mem.picture| ==> s.mem.picture[k].Slot?)
    && (forall w :: 0 <= w < 3 && !s.workers[w].Free? ==> s.workers[w].entry.Slot?)
  }

  lemma StartInv(bufferCnt: nat)
    requires bufferCnt <= NB_BUFFER
    ensures Inv(Start(bufferCnt)) && NoCopies(Start(bufferCnt))
  {
    var s := Start(bufferCnt);
    forall i | 0 <= i < NB_BUFFER ensures OwnedAt(s, i) && BufferAccount(s.mem, bufferCnt, i) {
    }
  }

  /** `run` can be carried out from s, every thread's steps being enabled in turn. */
  predicate Possible(s: Device, run: seq<Action>)
    requires Shape(s)
    decreases |run|
  {
    run == [] || (Enabled(s, run[0]) && Possible(Apply(s, run[0]), run[1..]))
  }

  function End(s: Device, run: seq<Action>): (s': Device)
    requires Shape(s) && Possible(s, run)
    ensures Shape(s')
    decreases |run|
  {
    if run == [] then s else End(Apply(s, run[0]), run[1..])
  }

  predicate AllBalanced(s: Device, run: seq<Action>)
    requires Shape(s) && Possible(s, run)
    decreases |run|
  {
    run == [] || (Balanced(s, run[0]) && AllBalanced(Apply(s, run[0]), run[1..]))
  }

  lemma {:induction false} BalancedRunKeepsInv(s: Device, run: seq<Action>)
    requires Inv(s) && Possible(s, run) && AllBalanced(s, run)
    ensures Inv(End(s, run)) && End(s, run).bufferCnt == s.bufferCnt
    decreases |run|
  {
    if run == [] {
    } else {
      StepKeepsInv(s, run[0]);
      BalancedRunKeepsInv(Apply(s, run[0]), run[1..]);
    }
  }

  /** The reference counts are right at every point of the run. */
  ghost predicate OwnedThroughout(s: Device, run: seq<Action>)
    requires Shape(s) && Possible(s, run)
    decreases |run|
  {
    Ownership(s) && (run == [] || OwnedThroughout(Apply(s, run[0]), run[1..]))
  }

  /** The exact condition for whole runs. */
  lemma {:induction false} RunKeepsOwnershipIff(s: Device, run: seq<Action>)
    requires Inv(s) && Possible(s, run)
    ensures OwnedThroughout(s, run) <==> AllBalanced(s, run)
    decreases |run|
  {
    if run == [] {
    } else {
      StepKeepsOwnershipIff(s, run[0]);
      if Balanced(s, run[0]) {
        StepKeepsInv(s, run[0]);
        RunKeepsOwnershipIff(Apply(s, run[0]), run[1..]);
      } else {
        assert !Ownership(Apply(s, run[0]));
      }
    }
  }

  /** A session in which nobody asks for TAKE_PICTURE_NORMAL. */
  predicate NeverNormal(run: seq<Action>) {
    forall k :: 0 <= k < |run| ==> run[k] != Requesting(Normal)
  }

  lemma NoCopiesStep(s: Device, a: Action)
    requires Shape(s) && Enabled(s, a) && NoCopies(s) && a != Requesting(Normal)
    ensures NoCopies(Apply(s, a)) && Balanced(s, a)
  {
  }

  lemma {:induction false} NeverNormalIsBalanced(s: Device, run: seq<Action>)
    requires Shape(s) && NoCopies(s) && Possible(s, run) && NeverNormal(run)
    ensures AllBalanced(s, run) && NoCopies(End(s, run))
    decreases |run|
  {
    if run == [] {
    } else {
      NoCopiesStep(s, run[0]);
      assert forall k :: 0 <= k < |run[1..]| ==> run[1..][k] == run[k + 1];
      NeverNormalIsBalanced(Apply(s, run[0]), run[1..]);
    }
  }

  lemma FreeMutexCounts(s: Device)
    requires Inv(s) && !Locked(s.capture)
    ensures forall i :: 0 <= i < NB_BUFFER ==> s.mem.bufs[i].refCnt == Holders(s, i)
  {
    forall i | 0 <= i < NB_BUFFER ensures s.mem.bufs[i].refCnt == Holders(s, i) {
      assert OwnedAt(s, i);
    }
  }

  lemma SessionInv(bufferCnt: nat, run: seq<Action>)
    requires bufferCnt <= NB_BUFFER && Possible(Start(bufferCnt), run) && NeverNormal(run)
    ensures var s := End(Start(bufferCnt), run); Inv(s) && NoCopies(s) && s.bufferCnt == bufferCnt
  {
    StartInv(bufferCnt);
    NeverNormalIsBalanced(Start(bufferCnt), run);
    BalancedRunKeepsInv(Start(bufferCnt), run);
  }

  /** Main result: in every state that any interleaving reaches without TAKE_PICTURE_NORMAL,
      the reference counts are the holder counts whenever mCaptureMutex is free. */
  lemma RefCountsAreHolderCounts(bufferCnt: nat, run: seq<Action>)
    requires bufferCnt <= NB_BUFFER && Possible(Start(bufferCnt), run) && NeverNormal(run)
    ensures Inv(End(Start(bufferCnt), run))
    ensures var s := End(Start(bufferCnt), run);
            !Locked(s.capture) ==> forall i :: 0 <= i < NB_BUFFER ==> s.mem.bufs[i].refCnt == Holders(s, i)
  {
    SessionInv(bufferCnt, run);
    if !Locked(End(Start(bufferCnt), run).capture) {
      FreeMutexCounts(End(Start(bufferCnt), run));
    }
  }

  // ---- Consequences ----------------------------------------------------------------------

  /** VIDIOC_DQBUF only ever returns a buffer nobody holds. */
  lemma DequeuedIsUnheld(s: Device, b: nat, frame: int)
    requires Inv(s) && CaptureEnabled(s, Dequeue(b, frame))
    ensures Holders(s, b) == 0
  {
    if Holders(s, b) > 0 {
      HeldIsReferenced(s, b);
    }
  }

  lemma CaptureRequeueDrops(s: Device, c: CaptureAction, i: nat)
    requires Inv(s) && CaptureEnabled(s, c) && i < NB_BUFFER
    requires CaptureStep(s, c).mem.driver.requeued[i] != s.mem.driver.requeued[i]
    ensures CaptureStep(s, c).mem.driver.requeued[i] == s.mem.driver.requeued[i] + 1
    ensures CaptureStep(s, c).mem.bufs[i].refCnt == 0 && !Locked(CaptureStep(s, c).capture)
  {
    if c.Finish? {
      ReleaseEffect(s.mem, s.capture.i, c.ok, i);
    }
  }

  lemma PreviewRequeueDrops(s: Device, v: PreviewAction, i: nat)
    requires Inv(s) && PreviewEnabled(s, v) && i < NB_BUFFER
    requires PreviewStep(s, v).mem.driver.requeued[i] != s.mem.driver.requeued[i]
    ensures PreviewStep(s, v).mem.driver.requeued[i] == s.mem.driver.requeued[i] + 1
    ensures PreviewStep(s, v).mem.bufs[i].refCnt == 0 && !Locked(s.capture)
  {
    if v.ReleaseFrame? {
      ReleaseEffect(s.mem, s.mem.bufs[s.preview.i].index, v.ok, i);
    }
  }

  lemma WorkerRequeueDrops(s: Device, w: nat, p: WorkerAction, i: nat)
    requires Inv(s) && WorkerEnabled(s, w, p) && i < NB_BUFFER
    requires WorkerStep(s, w, p).mem.driver.requeued[i] != s.mem.driver.requeued[i]
    ensures WorkerStep(s, w, p).mem.driver.requeued[i] == s.mem.driver.requeued[i] + 1
    ensures WorkerStep(s, w, p).mem.bufs[i].refCnt == 0 && !Locked(s.capture)
  {
    if p.ReleasePicture? {
      ReleaseEffect(s.mem, EntryIndex(s.mem, s.workers[w].entry), p.ok, i);
    }
  }

  lemma RequeueDrops(s: Device, a: Action, i: nat)
    requires Inv(s) && Enabled(s, a) && i < NB_BUFFER
    requires Apply(s, a).mem.driver.requeued[i] != s.mem.driver.requeued[i]
    ensures Apply(s, a).mem.driver.requeued[i] == s.mem.driver.requeued[i] + 1
    ensures Apply(s, a).mem.bufs[i].refCnt == 0 && !Locked(Apply(s, a).capture)
  {
    match a
    case Capturing(c) => CaptureRequeueDrops(s, c, i);
    case Previewing(v) => PreviewRequeueDrops(s, v, i);
    case Working(w, p) => WorkerRequeueDrops(s, w, p, i);
    case Recording(k, ok) => ReleaseEffect(s.mem, k, ok, i);
    case Requesting(_) =>
    case Delivering(_) =>
  }

  /** A step gives buffer i back to the driver only by taking its last hold away. */
  lemma RequeuedIsUnheld(s: Device, a: Action, i: nat)
    requires Inv(s) && Enabled(s, a) && Balanced(s, a) && i < NB_BUFFER
    requires Apply(s, a).mem.driver.requeued[i] != s.mem.driver.requeued[i]
    ensures Apply(s, a).mem.driver.requeued[i] == s.mem.driver.requeued[i] + 1
    ensures Holders(Apply(s, a), i) == 0
  {
    RequeueDrops(s, a, i);
    BalancedStepAt(s, a, i);
  }

  lemma CaptureKeepsFrames(s: Device, c: CaptureAction, i: nat)
    requires Inv(s) && CaptureEnabled(s, c) && i < NB_BUFFER && i !in s.mem.driver.owned
    ensures var b, b' := s.mem.bufs[i], CaptureStep(s, c).mem.bufs[i]; b'.frame == b.frame && b'.index == b.index
  {
    if c.Finish? {
      ReleaseEffect(s.mem, s.capture.i, c.ok, i);
    }
  }

  /** The frame in a held slot is never overwritten. */
  lemma HeldFrameIsUntouched(s: Device, a: Action, i: nat)
    requires Inv(s) && Enabled(s, a) && i < NB_BUFFER && Holders(s, i) > 0
    ensures var b, b' := s.mem.bufs[i], Apply(s, a).mem.bufs[i]; b'.frame == b.frame && b'.index == b.index == i
  {
    HeldIsReferenced(s, i);
    match a
    case Capturing(c) => CaptureKeepsFrames(s, c, i);
    case Previewing(v) => if v.ReleaseFrame? { ReleaseEffect(s.mem, s.mem.bufs[s.preview.i].index, v.ok, i); }
    case Working(w, p) => if p.ReleasePicture? { ReleaseEffect(s.mem, EntryIndex(s.mem, s.workers[w].entry), p.ok, i); }
    case Recording(k, ok) => ReleaseEffect(s.mem, k, ok, i);
    case Requesting(_) =>
    case Delivering(_) =>
  }

  /** Main result: whatever step follows whatever run without TAKE_PICTURE_NORMAL, no frame
      in use is overwritten, a buffer goes back to the driver at most once per dequeue and
      only when its last holder lets go, and no buffer is lost. */
  lemma FramesInUseAreSafe(bufferCnt: nat, run: seq<Action>, a: Action, i: nat)
    requires bufferCnt <= NB_BUFFER && Possible(Start(bufferCnt), run) && NeverNormal(run)
    requires Enabled(End(Start(bufferCnt), run), a) && a != Requesting(Normal) && i < NB_BUFFER
    ensures var s := End(Start(bufferCnt), run);
            var s' := Apply(s, a);
            && (Holders(s, i) > 0 ==> s'.mem.bufs[i].frame == s.mem.bufs[i].frame)
            && (s'.mem.driver.requeued[i] != s.mem.driver.requeued[i] ==> Holders(s', i) == 0)
            && s.mem.driver.requeued[i] <= s.mem.driver.dequeued[i] <= s.mem.driver.requeued[i] + 1
            && s.mem.avail + |Referenced(s.mem)| + |s.mem.driver.stranded| == bufferCnt
  {
    SessionInv(bufferCnt, run);
    var s := End(Start(bufferCnt), run);
    NoCopiesStep(s, a);
    if Holders(s, i) > 0 {
      HeldFrameIsUntouched(s, a, i);
    }
    if Apply(s, a).mem.driver.requeued[i] != s.mem.driver.requeued[i] {
      RequeuedIsUnheld(s, a, i);
    }
    assert BufferAccount(s.mem, bufferCnt, i);
    BuffersAreConserved(s.mem, bufferCnt);
  }

  predicate Quiet(s: Device)
    requires Shape(s)
  {
    && s.capture.Idle? && s.preview.Waiting? && s.workers == [Free, Free, Free]
    && s.mem.preview == [] && s.mem.picture == []
    && forall i :: 0 <= i < NB_BUFFER ==> s.recorder[i] == 0
  }

  lemma QuietIsUnreferenced(s: Device)
    requires Inv(s) && Quiet(s)
    ensures Referenced(s.mem) == {}
  {
    forall i: nat | i < NB_BUFFER ensures s.mem.bufs[i].refCnt <= 0 {
      assert OwnedAt(s, i);
    }
  }

  /** No reference leaks: once every thread is idle, every buffer is back in the driver save
      those whose VIDIOC_QBUF failed. */
  lemma QuietSessionHoldsNothing(bufferCnt: nat, run: seq<Action>)
    requires bufferCnt <= NB_BUFFER && Possible(Start(bufferCnt), run) && NeverNormal(run)
    requires Quiet(End(Start(bufferCnt), run))
    ensures var m := End(Start(bufferCnt), run).mem;
            m.driver.owned + m.driver.stranded == FirstBuffers(bufferCnt) && m.avail == bufferCnt - |m.driver.stranded|
  {
    SessionInv(bufferCnt, run);
    QuietIsUnreferenced(End(Start(bufferCnt), run));
    BuffersAreConserved(End(Start(bufferCnt), run).mem, bufferCnt);
  }

  lemma {:induction false} RunRateFollowsLog(s: Device, run: seq<Action>)
    requires Shape(s) && Possible(s, run) && s.mem.rate == After(s.availLog)
    ensures End(s, run).mem.rate == After(End(s, run).availLog)
    decreases |run|
  {
    if run == [] {
    } else {
      RateFollowsLog(s, run[0]);
      RunRateFollowsLog(Apply(s, run[0]), run[1..]);
    }
  }

  /** Half frame rate is on exactly when one of the last 60 captured frames left the driver
      with at most four buffers, over every run whatever. */
  lemma HalfRateIffRecentlyShort(bufferCnt: nat, run: seq<Action>)
    requires bufferCnt <= NB_BUFFER && Possible(Start(bufferCnt), run)
    ensures var s := End(Start(bufferCnt), run); s.mem.rate.needHalf <==> ShortInWindow(s.availLog)
  {
    RunRateFollowsLog(Start(bufferCnt), run);
    NeedHalfIffShortInWindow(End(Start(bufferCnt), run).availLog);
  }

  // ---- A session for one TAKE_PICTURE_NORMAL -------------------------------------------------

  /** takePicture starts the device with TAKE_PICTURE_NORMAL already set. */
  function StartNormal(bufferCnt: nat): (s: Device)
    requires bufferCnt <= NB_BUFFER
    ensures Shape(s)
  {
    var s := Start(bufferCnt);
    s.(mem := s.mem.(take := Normal))
  }

  predicate WorkersFree(s: Device) {
    s.workers == [Free, Free, Free]
  }

  /** Nobody asks for another picture or restarts the delivery, which the copy stops. cancelPicture may
      withdraw the request at any time, and so may a worker that ends the series it believes to be in. */
  predicate InPictureSession(a: Action) {
    && (a.Requesting? ==> a.state == Null)
    && a != Delivering(true)
  }

  predicate PictureSession(run: seq<Action>) {
    forall k :: 0 <= k < |run| ==> InPictureSession(run[k])
  }

  /** The same without cancelPicture: only a worker that has the picture withdraws the request. */
  predicate OnePicture(s: Device, a: Action) {
    && (a.Requesting? ==> a.state == Null && !WorkersFree(s))
    && a != Delivering(true)
  }

  predicate OnePictureRun(s: Device, run: seq<Action>)
    requires Shape(s) && Possible(s, run)
    decreases |run|
  {
    run == [] || (OnePicture(s, run[0]) && OnePictureRun(Apply(s, run[0]), run[1..]))
  }

  /** Only captureThread ever references a buffer. */
  predicate OnlyCaptured(s: Device)
    requires Shape(s)
  {
    forall i :: 0 <= i < NB_BUFFER ==> s.mem.bufs[i].refCnt <= One(!s.capture.Idle? && s.capture.i == i)
  }

  /** Before the frame, while it is copied, and after it. */
  predicate PictureStage(s: Device)
    requires Shape(s)
  {
    match s.capture
    case Idle => s.delivering ==> s.mem.take == Normal && !s.mem.isPicCopy && s.mem.picture == [] && WorkersFree(s) && s.availLog == []
    case At(site, i) =>
      && site == AtPreview && s.mem.take == Normal && !s.mem.isPicCopy && s.mem.picture == [] && WorkersFree(s)
      && s.mem.bufs[i].refCnt == 1
    case Queued(_, _) => false
    case Flagging(i) => s.mem.bufs[i].refCnt == 1
    case Finishing(_) => !s.delivering
  }

  ghost predicate NormalInv(s: Device) {
    && Shape(s) && Accounting(s.mem, s.bufferCnt) && OnlyCaptured(s) && PictureStage(s)
    && s.preview.Waiting? && s.mem.preview == []
    && |s.availLog| <= 1 && (forall i :: 0 <= i < NB_BUFFER ==> s.recorder[i] == 0)
  }

  lemma StartNormalInv(bufferCnt: nat)
    requires bufferCnt <= NB_BUFFER
    ensures NormalInv(StartNormal(bufferCnt))
  {
    StartInv(bufferCnt);
    AccountingFrame(Start(bufferCnt).mem, bufferCnt, StartNormal(bufferCnt).mem);
  }

  lemma CaptureKeepsNormalInv(s: Device, c: CaptureAction)
    requires NormalInv(s) && CaptureEnabled(s, c)
    ensures NormalInv(CaptureStep(s, c))
  {
    match c
    case Dequeue(b, frame) => FillAccounts(s.mem, s.bufferCnt, b, frame);
    case EnqueueCopy => AccountingFrame(s.mem, s.bufferCnt, CaptureStep(s, c).mem);
    case FlagCopy => AccountingFrame(s.mem, s.bufferCnt, CaptureStep(s, c).mem);
    case Finish(ok) => ReleaseAccounts(s.mem, s.bufferCnt, s.capture.i, ok);
    case _ =>
  }

  lemma WorkerKeepsNormalInv(s: Device, w: nat, p: WorkerAction)
    requires NormalInv(s) && WorkerEnabled(s, w, p)
    ensures NormalInv(WorkerStep(s, w, p))
  {
    if p.ReleasePicture? {
      ReleaseAccounts(s.mem, s.bufferCnt, EntryIndex(s.mem, s.workers[w].entry), p.ok);
    } else {
      AccountingFrame(s.mem, s.bufferCnt, WorkerStep(s, w, p).mem);
    }
  }

  lemma StepKeepsNormalInv(s: Device, a: Action)
    requires NormalInv(s) && Enabled(s, a) && OnePicture(s, a)
    ensures NormalInv(Apply(s, a))
  {
    match a
    case Capturing(c) => CaptureKeepsNormalInv(s, c);
    case Previewing(v) =>
    case Working(w, p) => WorkerKeepsNormalInv(s, w, p);
    case Recording(_, _) =>
    case Requesting(_) => AccountingFrame(s.mem, s.bufferCnt, Apply(s, a).mem);
    case Delivering(_) =>
  }

  lemma {:induction false} RunKeepsNormalInv(s: Device, run: seq<Action>)
    requires NormalInv(s) && Possible(s, run) && OnePictureRun(s, run)
    ensures NormalInv(End(s, run)) && End(s, run).bufferCnt == s.bufferCnt
    decreases |run|
  {
    if run == [] {
    } else {
      StepKeepsNormalInv(s, run[0]);
      RunKeepsNormalInv(Apply(s, run[0]), run[1..]);
    }
  }

  /** As long as nobody cancels, the session is over after one frame, whichever worker gets the copy and
      however early it gives the buffer back: everything is in the driver again, or stranded, as soon
      as captureThread is done with it. */
  lemma UncancelledPictureIsOneFrame(bufferCnt: nat, run: seq<Action>)
    requires bufferCnt <= NB_BUFFER
    requires Possible(StartNormal(bufferCnt), run) && OnePictureRun(StartNormal(bufferCnt), run)
    ensures var s := End(StartNormal(bufferCnt), run);
            && |s.availLog| <= 1
            && (s.capture.Idle? ==> s.mem.driver.owned + s.mem.driver.stranded == FirstBuffers(bufferCnt))
  {
    StartNormalInv(bufferCnt);
    RunKeepsNormalInv(StartNormal(bufferCnt), run);
    var s := End(StartNormal(bufferCnt), run);
    BuffersAreConserved(s.mem, bufferCnt);
    assert s.capture.Idle? ==> Referenced(s.mem) == {};
  }

  /** The picture is still to be taken, or being taken, or the request was withdrawn in time and the
      session has become one without copies. */
  ghost predicate PictureOrPreview(s: Device) {
    Shape(s) && s.mem.rate == After(s.availLog) && (NormalInv(s) || (Inv(s) && NoCopies(s)))
  }

  /** captureThread has not yet looked at the request. */
  predicate Withdrawable(s: Device) {
    s.capture.At? || (s.capture.Idle? && s.delivering)
  }

  lemma WithdrawnIsOwned(s: Device, i: nat)
    requires NormalInv(s) && Withdrawable(s) && i < NB_BUFFER
    ensures OwnedAt(s, i)
  {
    assert BufferAccount(s.mem, s.bufferCnt, i);
    assert multiset(s.mem.preview)[i] == 0 && multiset(s.mem.picture)[Slot(i)] == 0;
  }

  /** Withdrawing the request in time leads to an ordinary preview. */
  lemma Withdrawn(s: Device)
    requires NormalInv(s) && Withdrawable(s) && s.mem.rate == After(s.availLog)
    ensures Inv(Apply(s, Requesting(Null))) && NoCopies(Apply(s, Requesting(Null)))
  {
    var s' := Apply(s, Requesting(Null));
    AccountingFrame(s.mem, s.bufferCnt, s'.mem);
    forall i | 0 <= i < NB_BUFFER ensures OwnedAt(s', i) {
      WithdrawnIsOwned(s, i);
      assert OwnedAt(s, i);
    }
  }

  lemma RequestKeepsNormalInv(s: Device)
    requires NormalInv(s) && !Withdrawable(s)
    ensures NormalInv(Apply(s, Requesting(Null)))
  {
    AccountingFrame(s.mem, s.bufferCnt, Apply(s, Requesting(Null)).mem);
  }

  lemma StepKeepsPictureOrPreview(s: Device, a: Action)
    requires PictureOrPreview(s) && Enabled(s, a) && InPictureSession(a)
    ensures PictureOrPreview(Apply(s, a))
  {
    RateFollowsLog(s, a);
    if Inv(s) && NoCopies(s) {
      NoCopiesStep(s, a);
      StepKeepsInv(s, a);
    } else if a == Requesting(Null) {
      if Withdrawable(s) {
        Withdrawn(s);
      } else {
        RequestKeepsNormalInv(s);
      }
    } else {
      StepKeepsNormalInv(s, a);
    }
  }

  lemma {:induction false} RunKeepsPictureOrPreview(s: Device, run: seq<Action>)
    requires PictureOrPreview(s) && Possible(s, run) && PictureSession(run)
    ensures PictureOrPreview(End(s, run)) && End(s, run).bufferCnt == s.bufferCnt
    decreases |run|
  {
    if run == [] {
    } else {
      StepKeepsPictureOrPreview(s, run[0]);
      assert forall k :: 0 <= k < |run[1..]| ==> run[1..][k] == run[k + 1];
      RunKeepsPictureOrPreview(Apply(s, run[0]), run[1..]);
    }
  }

  lemma QuietPictureIsUnreferenced(s: Device)
    requires PictureOrPreview(s) && Quiet(s)
    ensures Referenced(s.mem) == {}
  {
    if Inv(s) {
      QuietIsUnreferenced(s);
    }
  }

  /** Main result for the session takePicture starts, cancelled or not: no buffer is lost or given back
      twice, and once every thread is idle all are back in the driver, or stranded. */
  lemma NormalPictureLosesNothing(bufferCnt: nat, run: seq<Action>, i: nat)
    requires bufferCnt <= NB_BUFFER && i < NB_BUFFER
    requires Possible(StartNormal(bufferCnt), run) && PictureSession(run)
    ensures var s := End(StartNormal(bufferCnt), run);
            && s.mem.driver.requeued[i] <= s.mem.driver.dequeued[i] <= s.mem.driver.requeued[i] + 1
            && s.mem.avail + |Referenced(s.mem)| + |s.mem.driver.stranded| == bufferCnt
            && (Quiet(s) ==> s.mem.driver.owned + s.mem.driver.stranded == FirstBuffers(bufferCnt))
  {
    StartNormalInv(bufferCnt);
    RunKeepsPictureOrPreview(StartNormal(bufferCnt), run);
    var s := End(StartNormal(bufferCnt), run);
    assert BufferAccount(s.mem, bufferCnt, i);
    BuffersAreConserved(s.mem, bufferCnt);
    if Quiet(s) {
      QuietPictureIsUnreferenced(s);
    }
  }

  // ---- TAKE_PICTURE_NORMAL mixed in --------------------------------------------------------

  lemma {:induction false} Extend(s: Device, run: seq<Action>, a: Action)
    requires Shape(s) && Possible(s, run) && Enabled(End(s, run), a)
    ensures Possible(s, run + [a]) && End(s, run + [a]) == Apply(End(s, run), a)
    decreases |run|
  {
    if run == [] {
      assert [a][1..] == [];
    } else {
      assert (run + [a])[1..] == run[1..] + [a];
      Extend(Apply(s, run[0]), run[1..], a);
    }
  }

  /** Some run from s0 ends in s. */
  ghost predicate Reachable(s0: Device, s: Device)
    requires Shape(s0)
  {
    exists run :: Possible(s0, run) && End(s0, run) == s
  }

  lemma ReachableStep(s0: Device, s: Device, a: Action)
    requires Shape(s0) && Shape(s) && Reachable(s0, s) && Enabled(s, a)
    ensures Reachable(s0, Apply(s, a))
  {
    var run :| Possible(s0, run) && End(s0, run) == s;
    Extend(s0, run, a);
  }

  lemma ReachableStart(s0: Device)
    requires Shape(s0)
    ensures Reachable(s0, s0)
  {
    assert Possible(s0, []) && End(s0, []) == s0;
  }

  /** VIDIOC_DQBUF may return buffer 1. */
  predicate Frame1Comes(s: Device) {
    s.delivering && 1 in s.mem.driver.owned
  }

  /** What the scenario below looks at, from the capture of frame 0 into buffer 0 on. */
  ghost predicate Scene(s0: Device, s: Device, capture: Capture, preview: Preview, picture: Worker,
                        previewQueue: seq<nat>, pictureQueue: seq<PictureEntry>, refCnt0: int)
  {
    && Shape(s0) && Shape(s) && Reachable(s0, s)
    && s.capture == capture && s.preview == preview && s.workers == [picture, Free, Free]
    && s.mem.preview == previewQueue && s.mem.picture == pictureQueue
    && s.mem.bufs[0].refCnt == refCnt0 && s.mem.bufs[0].index == 0 && 0 !in s.mem.driver.owned
    && forall i :: 0 <= i < NB_BUFFER ==> s.recorder[i] == 0
  }

  lemma SceneStep(s0: Device, s: Device, a: Action) returns (s': Device)
    requires Shape(s0) && Shape(s) && Reachable(s0, s) && Enabled(s, a)
    ensures s' == Apply(s, a) && Shape(s') && Reachable(s0, s')
  {
    ReachableStep(s0, s, a);
    s' := Apply(s, a);
  }

  /** A fast picture is requested before anything else happens. */
  lemma PictureRequested(s0: Device) returns (s: Device)
    requires s0 == Start(NB_BUFFER)
    ensures Shape(s) && Reachable(s0, s) && Quiet(s)
    ensures s.mem.take == Fast && 0 in s.mem.driver.owned && Frame1Comes(s)
  {
    ReachableStart(s0);
    s := SceneStep(s0, s0, Requesting(Fast));
  }

  /** Frame 0 is captured ... */
  lemma FrameCaptured(s0: Device, s: Device) returns (s': Device)
    requires Shape(s0) && Shape(s) && Reachable(s0, s) && Quiet(s)
    requires s.mem.take == Fast && 0 in s.mem.driver.owned && Frame1Comes(s)
    ensures Scene(s0, s', At(AtPreview, 0), Waiting, Free, [], [], 1)
    ensures s'.mem.take == Fast && Frame1Comes(s')
  {
    s' := SceneStep(s0, s, Capturing(Dequeue(0, 100)));
  }

  /** ... queued for the preview ... */
  lemma FrameQueuedForPreview(s0: Device, s: Device) returns (s': Device)
    requires Scene(s0, s, At(AtPreview, 0), Waiting, Free, [], [], 1) && s.mem.take == Fast && Frame1Comes(s)
    ensures Scene(s0, s', At(AtFast, 0), Waiting, Free, [0], [], 2) && s'.mem.take == Fast && Frame1Comes(s')
  {
    s' := SceneStep(s0, s, Capturing(EnqueueFrame));
    s' := SceneStep(s0, s', Capturing(CountFrame));
  }

  /** ... and for the picture ... */
  lemma FrameQueuedForPicture(s0: Device, s: Device) returns (s': Device)
    requires Scene(s0, s, At(AtFast, 0), Waiting, Free, [0], [], 2) && s.mem.take == Fast && Frame1Comes(s)
    ensures Scene(s0, s', At(AtSmart, 0), Waiting, Free, [0], [Slot(0)], 3) && s'.mem.take == Null && Frame1Comes(s')
  {
    s' := SceneStep(s0, s, Capturing(EnqueueFrame));
    s' := SceneStep(s0, s', Capturing(CountFrame));
  }

  lemma CaptureDone(s0: Device, s: Device) returns (s': Device)
    requires Scene(s0, s, At(AtSmart, 0), Waiting, Free, [0], [Slot(0)], 3) && s.mem.take == Null && Frame1Comes(s)
    ensures Scene(s0, s', Idle, Waiting, Free, [0], [Slot(0)], 2) && Frame1Comes(s')
  {
    s' := SceneStep(s0, s, Capturing(PassSite));
    s' := SceneStep(s0, s', Capturing(PassSite));
    s' := SceneStep(s0, s', Capturing(Finish(true)));
  }

  /** ... shown ... */
  lemma FrameShown(s0: Device, s: Device) returns (s': Device)
    requires Scene(s0, s, Idle, Waiting, Free, [0], [Slot(0)], 2) && Frame1Comes(s)
    ensures Scene(s0, s', Idle, Waiting, Free, [], [Slot(0)], 1) && Frame1Comes(s')
  {
    s' := SceneStep(s0, s, Previewing(TakeFrame));
    s' := SceneStep(s0, s', Previewing(ReleaseFrame(true)));
  }

  /** ... and taken by the picture thread, while a normal picture is requested. */
  lemma FastPictureInFlight(s0: Device, s: Device) returns (s': Device)
    requires Scene(s0, s, Idle, Waiting, Free, [], [Slot(0)], 1) && Frame1Comes(s)
    ensures Scene(s0, s', Idle, Waiting, Taking(Slot(0)), [], [], 1) && s'.mem.take == Normal && Frame1Comes(s')
  {
    s' := SceneStep(s0, s, Working(PICTURE, TakePicture));
    s' := SceneStep(s0, s', Requesting(Normal));
  }

  /** Frame 1 is captured and copied for it ... */
  lemma CopyQueued(s0: Device, s: Device) returns (s': Device)
    requires Scene(s0, s, Idle, Waiting, Taking(Slot(0)), [], [], 1) && s.mem.take == Normal && Frame1Comes(s)
    ensures Scene(s0, s', Flagging(1), Waiting, Taking(Slot(0)), [], [PicBuffer], 1)
  {
    s' := SceneStep(s0, s, Capturing(Dequeue(1, 101)));
    s' := SceneStep(s0, s', Capturing(EnqueueCopy));
  }

  /** ... which sets mIsPicCopy. */
  lemma CopyFlagged(s0: Device, s: Device) returns (s': Device)
    requires Scene(s0, s, Flagging(1), Waiting, Taking(Slot(0)), [], [PicBuffer], 1)
    ensures Scene(s0, s', Idle, Waiting, Taking(Slot(0)), [], [PicBuffer], 1) && s'.mem.isPicCopy
  {
    s' := SceneStep(s0, s, Capturing(FlagCopy));
    s' := SceneStep(s0, s', Capturing(Finish(true)));
  }

  /** The picture thread keeps frame 0 because of it. */
  lemma FrameKept(s0: Device, s: Device) returns (s': Device)
    requires Scene(s0, s, Idle, Waiting, Taking(Slot(0)), [], [PicBuffer], 1) && s.mem.isPicCopy
    ensures Scene(s0, s', Idle, Waiting, Free, [], [], 1)
  {
    s' := SceneStep(s0, s, Working(PICTURE, Decide));
    s' := SceneStep(s0, s', Working(PICTURE, TakePicture));
    s' := SceneStep(s0, s', Working(PICTURE, Decide));
  }

  lemma QuietLeak(s0: Device, s: Device)
    requires Scene(s0, s, Idle, Waiting, Free, [], [], 1)
    ensures Quiet(s) && !Ownership(s)
  {
    assert !OwnedAt(s, 0);
  }

  /** What the class allows and takePicture never does, asking for TAKE_PICTURE_NORMAL in a running
      session, leaks: from the start of a session a run reaches a state where everybody is idle and
      nobody holds buffer 0, yet it is still counted as referenced and so never returns to the driver. */
  lemma MixedNormalLeaksABuffer() returns (s: Device)
    ensures Shape(s) && Reachable(Start(NB_BUFFER), s)
    ensures Quiet(s) && s.mem.bufs[0].refCnt == 1 && 0 !in s.mem.driver.owned && !Ownership(s)
  {
    var s0 := Start(NB_BUFFER);
    s := PictureRequested(s0);
    s := FrameCaptured(s0, s);
    s := FrameQueuedForPreview(s0, s);
    s := FrameQueuedForPicture(s0, s);
    s := CaptureDone(s0, s);
    s := FrameShown(s0, s);
    s := FastPictureInFlight(s0, s);
    s := CopyQueued(s0, s);
    s := CopyFlagged(s0, s);
    s := FrameKept(s0, s);
    QuietLeak(s0, s);
  }
}
