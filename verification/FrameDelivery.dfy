/** What the camera threads are for: the frame the driver filled gets into its slot, from there to the
    preview and the pictures that were asked for, and in order. */
module FrameDelivery {
  import opened FrameMemory
  import opened FrameProtocol

  // ---- One step of captureThread --------------------------------------------------------------

  /** What captureThread does next is settled by where it is and what picture is asked for. */
  lemma NextCaptureStep(s: Device, c: CaptureAction)
    requires Shape(s)
    ensures s.capture.Idle? ==>
              (CaptureEnabled(s, c) <==> c.Dequeue? && s.delivering && c.b < 10 && c.b in s.mem.driver.owned)
    ensures s.capture.At? && s.capture.site == AtPreview ==>
              (CaptureEnabled(s, c) <==> c == if s.mem.take == Normal then EnqueueCopy else EnqueueFrame)
    ensures s.capture.At? && s.capture.site == AtFast ==>
              (CaptureEnabled(s, c) <==> if s.mem.take == Fast || s.mem.take == Record then c == EnqueueFrame || c == SkipReserved
                                         else c == PassSite)
    ensures s.capture.At? && s.capture.site == AtSmart ==>
              (CaptureEnabled(s, c) <==> c == if s.mem.take == Smart then EnqueueFrame else PassSite)
    ensures s.capture.At? && s.capture.site == AtContinuous ==>
              (CaptureEnabled(s, c) <==> c == PassSite || (c == EnqueueFrame && (s.mem.take == Continuous || s.mem.take == ContinuousFast)))
    ensures s.capture.Queued? ==> (CaptureEnabled(s, c) <==> c == CountFrame)
    ensures s.capture.Flagging? ==> (CaptureEnabled(s, c) <==> c == FlagCopy)
    ensures s.capture.Finishing? ==> (CaptureEnabled(s, c) <==> c.Finish?)
  {
  }

  /** VIDIOC_DQBUF fills the slot with the new frame, which captureThread then references, and nothing else. */
  lemma DequeueFills(s: Device, b: nat, frame: int)
    requires Shape(s) && CaptureEnabled(s, Dequeue(b, frame))
    ensures var s' := CaptureStep(s, Dequeue(b, frame));
            && s'.capture == At(AtPreview, b)
            && s'.mem.bufs[b].frame == frame && s'.mem.bufs[b].index == b && s'.mem.bufs[b].refCnt == 1
            && (forall i :: 0 <= i < 10 && i != b ==> s'.mem.bufs[i] == s.mem.bufs[i])
            && s'.mem.avail == s.mem.avail - 1 && b !in s'.mem.driver.owned
            && s'.mem.preview == s.mem.preview && s'.mem.picture == s.mem.picture && s'.mem.take == s.mem.take
            && s'.mem.isPicCopy == s.mem.isPicCopy
  {
  }

  /** Queueing for the preview: nine entries at most. */
  lemma PreviewQueued(s: Device, i: nat)
    requires Shape(s) && s.capture == At(AtPreview, i) && s.mem.take != Normal
    ensures CaptureEnabled(s, EnqueueFrame)
    ensures var s' := CaptureStep(s, EnqueueFrame);
            && s'.capture == (if |s.mem.preview| < 9 then Queued(AtPreview, i) else Finishing(i))
            && s'.mem.preview == (if |s.mem.preview| < 9 then s.mem.preview + [i] else s.mem.preview)
            && s'.mem.picture == s.mem.picture
  {
  }

  /** Queueing for a picture: three entries at most. */
  lemma PictureQueued(s: Device, site: Site, i: nat)
    requires Shape(s) && s.capture == At(site, i)
    requires || (site == AtFast && (s.mem.take == Fast || s.mem.take == Record)) || (site == AtSmart && s.mem.take == Smart)
             || (site == AtContinuous && (s.mem.take == Continuous || s.mem.take == ContinuousFast))
    ensures CaptureEnabled(s, EnqueueFrame)
    ensures var s' := CaptureStep(s, EnqueueFrame);
            && s'.capture == (if |s.mem.picture| < 3 then Queued(site, i) else Finishing(i))
            && s'.mem.picture == (if |s.mem.picture| < 3 then s.mem.picture + [Slot(i)] else s.mem.picture)
            && s'.mem.preview == s.mem.preview
  {
  }

  /** A queued frame is referenced once more. A fast picture is then served, and no longer asked for; of
      every picture from a slot the worker will know that it is not a copy. */
  lemma FrameCounted(s: Device, site: Site, i: nat)
    requires Shape(s) && s.capture == Queued(site, i)
    ensures CaptureEnabled(s, CountFrame)
    ensures var s' := CaptureStep(s, CountFrame);
            && s'.capture == (match site
                              case AtPreview => At(AtFast, i)
                              case AtFast => At(AtSmart, i)
                              case AtSmart => At(AtContinuous, i)
                              case AtContinuous => Finishing(i))
            && s'.mem.bufs[i].refCnt == s.mem.bufs[i].refCnt + 1
            && (forall k :: 0 <= k < 10 && k != i ==> s'.mem.bufs[k] == s.mem.bufs[k])
            && s'.mem.take == (if site == AtFast then Null else s.mem.take)
            && s'.mem.isPicCopy == (if site == AtPreview then s.mem.isPicCopy else false)
            && s'.mem.preview == s.mem.preview && s'.mem.picture == s.mem.picture
  {
  }

  /** A site whose picture is not asked for is passed by in turn. */
  lemma SitePassed(s: Device, site: Site, i: nat)
    requires Shape(s) && s.capture == At(site, i) && CaptureEnabled(s, PassSite)
    ensures var s' := CaptureStep(s, PassSite);
            && s'.mem == s.mem
            && s'.capture == (match site
                              case AtPreview => At(AtFast, i)
                              case AtFast => At(AtSmart, i)
                              case AtSmart => At(AtContinuous, i)
                              case AtContinuous => Finishing(i))
  {
  }

  /** TAKE_PICTURE_NORMAL queues a copy that remembers its buffer, then says that it is one, is no longer
      asked for, and stops the delivery. */
  lemma CopyMade(s: Device, i: nat)
    requires Shape(s) && s.capture == At(AtPreview, i) && s.mem.take == Normal
    ensures CaptureEnabled(s, EnqueueCopy)
    ensures var s' := CaptureStep(s, EnqueueCopy);
            && s'.capture == (if |s.mem.picture| < 3 then Flagging(i) else Finishing(i))
            && s'.mem.picture == (if |s.mem.picture| < 3 then s.mem.picture + [PicBuffer] else s.mem.picture)
            && s'.mem.picIndex == s.mem.bufs[i].index && s'.mem.bufs == s.mem.bufs && s'.mem.preview == s.mem.preview
  {
  }

  lemma CopyFlaggedEffect(s: Device, i: nat)
    requires Shape(s) && s.capture == Flagging(i)
    ensures CaptureEnabled(s, FlagCopy)
    ensures var s' := CaptureStep(s, FlagCopy);
            s'.capture == Finishing(i) && s'.mem.isPicCopy && s'.mem.take == Null && !s'.delivering && s'.mem.bufs == s.mem.bufs
  {
  }

  // ---- One step of the others -------------------------------------------------------------------

  /** A session starts with every buffer in the driver and nothing held, queued or asked for. */
  lemma SessionStarts(bufferCnt: nat)
    requires bufferCnt <= NB_BUFFER
    ensures var s := Start(bufferCnt);
            && s.capture.Idle? && s.delivering && s.preview.Waiting? && s.workers == [Free, Free, Free]
            && s.mem.preview == [] && s.mem.picture == [] && s.mem.take == Null && !s.mem.isPicCopy
            && s.mem.avail == bufferCnt && !s.mem.rate.needHalf
            && (forall i: nat :: i in s.mem.driver.owned <==> i < bufferCnt)
            && (forall i :: 0 <= i < NB_BUFFER ==> s.mem.bufs[i].refCnt == 0 && s.recorder[i] == 0)
  {
  }

  /** A worker gives its frame back unless mIsPicCopy tells it that it had a copy; the continuous worker
      does not ask. */
  lemma WorkerDecides(s: Device, w: nat)
    requires Shape(s) && w < 3 && s.workers[w].Taking?
    ensures WorkerEnabled(s, w, Decide) && WorkerStep(s, w, Decide).mem == s.mem
    ensures WorkerStep(s, w, Decide).workers[w] == if w == 2 || !s.mem.isPicCopy then Releasing(s.workers[w].entry) else Free
  {
  }

  /** releasePreviewFrame: one reference less, and the last one gives the buffer to the driver, or strands
      it if VIDIOC_QBUF fails. */
  lemma ReferenceReleased(m: Memory, k: nat, ok: bool)
    requires WellFormed(m) && k < NB_BUFFER
    ensures var (m', n) := (Release(m, k, ok), m.bufs[k].refCnt);
            && m'.bufs[k].refCnt == (if n > 0 then n - 1 else n)
            && (forall i :: 0 <= i < 10 && i != k ==> m'.bufs[i] == m.bufs[i])
            && m'.avail == m.avail + (if n == 1 && ok then 1 else 0)
            && m'.driver.owned == m.driver.owned + (if n == 1 && ok then {k} else {})
            && m'.driver.stranded == m.driver.stranded + (if n == 1 && !ok then {k} else {})
            && m'.preview == m.preview && m'.picture == m.picture && m'.take == m.take && m'.isPicCopy == m.isPicCopy
  {
  }

  // ---- The other threads are never stuck --------------------------------------------------------

  /** Every thread that holds a frame can take its next step as soon as mCaptureMutex is free. */
  lemma HoldersMoveOn(s: Device, w: nat, i: nat, ok: bool)
    requires Shape(s) && w < 3 && i < 10 && !s.capture.At? && !s.capture.Queued? && !s.capture.Flagging?
    ensures s.preview.Holding? ==> Enabled(s, Previewing(ShareFrame)) && Enabled(s, Previewing(ReleaseFrame(ok)))
    ensures s.preview.Served? ==> Enabled(s, Previewing(ReleaseFrame(ok)))
    ensures s.preview.Waiting? && s.mem.preview != [] ==> Enabled(s, Previewing(TakeFrame))
    ensures s.workers[w].Free? && s.mem.picture != [] ==> Enabled(s, Working(w, TakePicture))
    ensures s.workers[w].Taking? ==> Enabled(s, Working(w, Decide))
    ensures s.workers[w].Releasing? ==> Enabled(s, Working(w, ReleasePicture(ok)))
    ensures s.recorder[i] > 0 ==> Enabled(s, Recording(i, ok))
    ensures Enabled(s, Delivering(ok)) && Enabled(s, Requesting(Smart))
  {
  }

  /** While captureThread holds mCaptureMutex nobody gives a frame back, and the delivery is neither
      started nor stopped. */
  lemma LockKeepsOthersOut(s: Device, w: nat, i: nat, ok: bool)
    requires Shape(s) && (s.capture.At? || s.capture.Queued? || s.capture.Flagging?)
    ensures !Enabled(s, Previewing(ReleaseFrame(ok))) && !Enabled(s, Working(w, ReleasePicture(ok)))
    ensures !Enabled(s, Recording(i, ok)) && !Enabled(s, Delivering(ok))
  {
  }

  /** And a captureThread that holds mCaptureMutex can always go on, until it gives it up. */
  lemma CaptureMovesOn(s: Device)
    requires Shape(s) && !s.capture.Idle?
    ensures exists c :: CaptureEnabled(s, c)
  {
    NextCaptureStep(s, EnqueueFrame);
    NextCaptureStep(s, EnqueueCopy);
    NextCaptureStep(s, PassSite);
    NextCaptureStep(s, CountFrame);
    NextCaptureStep(s, FlagCopy);
    NextCaptureStep(s, Finish(true));
    assert || CaptureEnabled(s, EnqueueFrame) || CaptureEnabled(s, EnqueueCopy) || CaptureEnabled(s, PassSite)
           || CaptureEnabled(s, CountFrame) || CaptureEnabled(s, FlagCopy) || CaptureEnabled(s, Finish(true));
  }

  // ---- A slot holds the frame that was captured into it last ----------------------------------------

  predicate Captures(a: Action, i: nat) {
    a.Capturing? && a.c.Dequeue? && a.c.b == i
  }

  lemma CaptureKeepsSlot(s: Device, c: CaptureAction, i: nat)
    requires Shape(s) && CaptureEnabled(s, c) && i < NB_BUFFER && !Captures(Capturing(c), i)
    ensures var b, b' := s.mem.bufs[i], CaptureStep(s, c).mem.bufs[i]; b'.frame == b.frame && b'.index == b.index
    ensures CaptureStep(s, c).mem.driver.dequeued[i] == s.mem.driver.dequeued[i]
  {
    if c.Finish? {
      ReleaseEffect(s.mem, s.capture.i, c.ok, i);
    }
  }

  lemma PreviewKeepsSlot(s: Device, v: PreviewAction, i: nat)
    requires Shape(s) && PreviewEnabled(s, v) && i < NB_BUFFER
    ensures var b, b' := s.mem.bufs[i], PreviewStep(s, v).mem.bufs[i]; b'.frame == b.frame && b'.index == b.index
    ensures PreviewStep(s, v).mem.driver.dequeued[i] == s.mem.driver.dequeued[i]
  {
    if v.ReleaseFrame? {
      ReleaseEffect(s.mem, s.mem.bufs[s.preview.i].index, v.ok, i);
    }
  }

  lemma WorkerKeepsSlot(s: Device, w: nat, p: WorkerAction, i: nat)
    requires Shape(s) && WorkerEnabled(s, w, p) && i < NB_BUFFER
    ensures var b, b' := s.mem.bufs[i], WorkerStep(s, w, p).mem.bufs[i]; b'.frame == b.frame && b'.index == b.index
    ensures WorkerStep(s, w, p).mem.driver.dequeued[i] == s.mem.driver.dequeued[i]
  {
    if p.ReleasePicture? {
      ReleaseEffect(s.mem, EntryIndex(s.mem, s.workers[w].entry), p.ok, i);
    }
  }

  /** No step but the capture of a frame into slot i changes what is in it. */
  lemma StepKeepsSlot(s: Device, a: Action, i: nat)
    requires Shape(s) && Enabled(s, a) && i < NB_BUFFER && !Captures(a, i)
    ensures var b, b' := s.mem.bufs[i], Apply(s, a).mem.bufs[i]; b'.frame == b.frame && b'.index == b.index
    ensures Apply(s, a).mem.driver.dequeued[i] == s.mem.driver.dequeued[i]
  {
    match a
    case Capturing(c) => CaptureKeepsSlot(s, c, i);
    case Previewing(v) => PreviewKeepsSlot(s, v, i);
    case Working(w, p) => WorkerKeepsSlot(s, w, p, i);
    case Recording(k, ok) => ReleaseEffect(s.mem, k, ok, i);
    case Requesting(_) =>
    case Delivering(_) =>
  }

  lemma {:induction false} RunKeepsSlot(s: Device, run: seq<Action>, i: nat)
    requires Shape(s) && Possible(s, run) && i < NB_BUFFER && forall k :: 0 <= k < |run| ==> !Captures(run[k], i)
    ensures var b, b' := s.mem.bufs[i], End(s, run).mem.bufs[i]; b'.frame == b.frame && b'.index == b.index
    ensures End(s, run).mem.driver.dequeued[i] == s.mem.driver.dequeued[i]
    decreases |run|
  {
    if run == [] {
    } else {
      StepKeepsSlot(s, run[0], i);
      assert forall k :: 0 <= k < |run[1..]| ==> run[1..][k] == run[k + 1];
      RunKeepsSlot(Apply(s, run[0]), run[1..], i);
    }
  }

  /** run[k] is the last capture into slot i, and it captured this frame. */
  predicate LastCapture(run: seq<Action>, k: nat, i: nat, frame: int) {
    && k < |run| && run[k] == Capturing(Dequeue(i, frame))
    && forall j :: k < j < |run| ==> !Captures(run[j], i)
  }

  /** Main result: after any run, TAKE_PICTURE_NORMAL included, a slot holds the frame that VIDIOC_DQBUF
      brought there last. */
  lemma {:induction false} SlotHoldsLastCapture(s: Device, run: seq<Action>, k: nat, i: nat, frame: int)
    requires Shape(s) && Possible(s, run) && i < NB_BUFFER && LastCapture(run, k, i, frame)
    ensures End(s, run).mem.bufs[i].frame == frame && End(s, run).mem.bufs[i].index == i
    decreases |run|
  {
    assert forall j :: 0 <= j < |run[1..]| ==> run[1..][j] == run[j + 1];
    if k == 0 {
      DequeueFills(s, i, frame);
      RunKeepsSlot(Apply(s, run[0]), run[1..], i);
    } else {
      SlotHoldsLastCapture(Apply(s, run[0]), run[1..], k - 1, i, frame);
    }
  }

  /** If anything was captured into slot i there is a last capture. */
  lemma {:induction false} SomeLastCapture(run: seq<Action>, j: nat, i: nat) returns (k: nat, frame: int)
    requires j < |run| && Captures(run[j], i)
    ensures LastCapture(run, k, i, frame)
    decreases |run| - j
  {
    if forall l :: j < l < |run| ==> !Captures(run[l], i) {
      k, frame := j, run[j].c.frame;
    } else {
      var l :| j < l < |run| && Captures(run[l], i);
      k, frame := SomeLastCapture(run, l, i);
    }
  }

  /** Hence what previewThread, a worker, the recorder or a queue holds is a captured frame, and the last
      one captured into its slot. */
  lemma HeldFrameIsLastCaptured(bufferCnt: nat, run: seq<Action>, i: nat) returns (k: nat, frame: int)
    requires bufferCnt <= NB_BUFFER && Possible(Start(bufferCnt), run) && NeverNormal(run) && i < NB_BUFFER
    requires Holders(End(Start(bufferCnt), run), i) > 0
    ensures LastCapture(run, k, i, frame)
    ensures End(Start(bufferCnt), run).mem.bufs[i].frame == frame && End(Start(bufferCnt), run).mem.bufs[i].index == i
  {
    SessionInv(bufferCnt, run);
    var s := End(Start(bufferCnt), run);
    HeldIsReferenced(s, i);
    assert BufferAccount(s.mem, bufferCnt, i);
    if forall j :: 0 <= j < |run| ==> !Captures(run[j], i) {
      RunKeepsSlot(Start(bufferCnt), run, i);
      assert false;
    }
    var j :| 0 <= j < |run| && Captures(run[j], i);
    k, frame := SomeLastCapture(run, j, i);
    SlotHoldsLastCapture(Start(bufferCnt), run, k, i, frame);
  }

  // ---- The queues are first in, first out over whole runs -------------------------------------------

  /** What goes into a queue during a step and then the rest of the run, against what comes out. */
  lemma QueueChain<T>(q: seq<T>, into: seq<T>, out: seq<T>, q': seq<T>, intoRest: seq<T>, outRest: seq<T>, end: seq<T>)
    requires q + into == out + q' && q' + intoRest == outRest + end
    ensures q + (into + intoRest) == (out + outRest) + end
  {
    assert q + (into + intoRest) == (q + into) + intoRest == out + (q' + intoRest);
  }

  /** The buffer a step of captureThread queues for the preview, if it does: nine entries at most. */
  function PreviewAdded(s: Device, a: Action): seq<nat>
    requires Shape(s) && Enabled(s, a)
  {
    if a == Capturing(EnqueueFrame) && s.capture.site == AtPreview && |s.mem.preview| < 9 then [s.capture.i] else []
  }

  /** The buffer previewThread holds after taking one. */
  function PreviewTaken(s: Device, a: Action): seq<nat>
    requires Shape(s) && Enabled(s, a)
  {
    if a == Previewing(TakeFrame) then [Apply(s, a).preview.i] else []
  }

  function ForPreview(s: Device, run: seq<Action>): seq<nat>
    requires Shape(s) && Possible(s, run)
    decreases |run|
  {
    if run == [] then [] else PreviewAdded(s, run[0]) + ForPreview(Apply(s, run[0]), run[1..])
  }

  function Previewed(s: Device, run: seq<Action>): seq<nat>
    requires Shape(s) && Possible(s, run)
    decreases |run|
  {
    if run == [] then [] else PreviewTaken(s, run[0]) + Previewed(Apply(s, run[0]), run[1..])
  }

  lemma PreviewQueueStep(s: Device, a: Action)
    requires Shape(s) && Enabled(s, a)
    ensures s.mem.preview + PreviewAdded(s, a) == PreviewTaken(s, a) + Apply(s, a).mem.preview
  {
    match a
    case Capturing(c) =>
    case Previewing(v) => if v.TakeFrame? { assert s.mem.preview == [s.mem.preview[0]] + s.mem.preview[1..]; }
    case Working(w, p) =>
    case Recording(_, _) =>
    case Requesting(_) =>
    case Delivering(_) =>
  }

  /** Main result: frames are shown in the order they were captured and queued, none lost or repeated. */
  lemma {:induction false} PreviewInOrder(s: Device, run: seq<Action>)
    requires Shape(s) && Possible(s, run)
    ensures s.mem.preview + ForPreview(s, run) == Previewed(s, run) + End(s, run).mem.preview
    decreases |run|
  {
    if run == [] {
    } else {
      var s1 := Apply(s, run[0]);
      PreviewQueueStep(s, run[0]);
      PreviewInOrder(s1, run[1..]);
      QueueChain(s.mem.preview, PreviewAdded(s, run[0]), PreviewTaken(s, run[0]), s1.mem.preview,
                 ForPreview(s1, run[1..]), Previewed(s1, run[1..]), End(s1, run[1..]).mem.preview);
    }
  }

  /** What a step of captureThread queues for the picture workers, if it does: three entries at most. */
  function PictureAdded(s: Device, a: Action): seq<PictureEntry>
    requires Shape(s) && Enabled(s, a)
  {
    if |s.mem.picture| >= 3 then []
    else if a == Capturing(EnqueueFrame) && s.capture.site != AtPreview then [Slot(s.capture.i)]
    else if a == Capturing(EnqueueCopy) then [PicBuffer]
    else []
  }

  /** What a worker holds after taking something. */
  function PictureTaken(s: Device, a: Action): seq<PictureEntry>
    requires Shape(s) && Enabled(s, a)
  {
    if a.Working? && a.p == TakePicture then [WorkerStep(s, a.w, a.p).workers[a.w].entry] else []
  }

  function ForPictures(s: Device, run: seq<Action>): seq<PictureEntry>
    requires Shape(s) && Possible(s, run)
    decreases |run|
  {
    if run == [] then [] else PictureAdded(s, run[0]) + ForPictures(Apply(s, run[0]), run[1..])
  }

  function PicturesTaken(s: Device, run: seq<Action>): seq<PictureEntry>
    requires Shape(s) && Possible(s, run)
    decreases |run|
  {
    if run == [] then [] else PictureTaken(s, run[0]) + PicturesTaken(Apply(s, run[0]), run[1..])
  }

  lemma CapturePictureStep(s: Device, c: CaptureAction)
    requires Shape(s) && CaptureEnabled(s, c)
    ensures s.mem.picture + PictureAdded(s, Capturing(c)) == CaptureStep(s, c).mem.picture
  {
  }

  lemma PreviewPictureStep(s: Device, v: PreviewAction)
    requires Shape(s) && PreviewEnabled(s, v)
    ensures PreviewStep(s, v).mem.picture == s.mem.picture
  {
  }

  lemma WorkerPictureStep(s: Device, w: nat, p: WorkerAction)
    requires Shape(s) && WorkerEnabled(s, w, p)
    ensures s.mem.picture == PictureTaken(s, Working(w, p)) + WorkerStep(s, w, p).mem.picture
  {
    if p.TakePicture? {
      assert s.mem.picture == [s.mem.picture[0]] + s.mem.picture[1..];
    }
  }

  lemma PictureQueueStep(s: Device, a: Action)
    requires Shape(s) && Enabled(s, a)
    ensures s.mem.picture + PictureAdded(s, a) == PictureTaken(s, a) + Apply(s, a).mem.picture
  {
    match a
    case Capturing(c) => CapturePictureStep(s, c);
    case Previewing(v) => PreviewPictureStep(s, v);
    case Working(w, p) => WorkerPictureStep(s, w, p);
    case Recording(_, _) =>
    case Requesting(_) =>
    case Delivering(_) =>
  }

  /** The same for pictures, whichever worker takes them. */
  lemma {:induction false} PicturesInOrder(s: Device, run: seq<Action>)
    requires Shape(s) && Possible(s, run)
    ensures s.mem.picture + ForPictures(s, run) == PicturesTaken(s, run) + End(s, run).mem.picture
    decreases |run|
  {
    if run == [] {
    } else {
      var s1 := Apply(s, run[0]);
      PictureQueueStep(s, run[0]);
      PicturesInOrder(s1, run[1..]);
      QueueChain(s.mem.picture, PictureAdded(s, run[0]), PictureTaken(s, run[0]), s1.mem.picture,
                 ForPictures(s1, run[1..]), PicturesTaken(s1, run[1..]), End(s1, run[1..]).mem.picture);
    }
  }

  // ---- A picture that is asked for is queued ---------------------------------------------------------

  /** captureThread has the frame and has not got past the place where this picture is queued. */
  predicate StillToCome(c: Capture, take: TakePictureState) {
    || (c.At? && (c.site == AtPreview || c.site == AtFast || (c.site == AtSmart && take == Smart)))
    || (c.Queued? && c.site == AtPreview)
  }

  predicate FindsFull(s: Device, a: Action)
    requires Shape(s) && Enabled(s, a)
  {
    && a == Capturing(EnqueueFrame)
    && if s.capture.site == AtPreview then |s.mem.preview| >= 9 else |s.mem.picture| >= 3
  }

  /** Somewhere in the run captureThread found a queue full. */
  predicate FoundFull(s: Device, run: seq<Action>)
    requires Shape(s) && Possible(s, run)
    decreases |run|
  {
    run != [] && (FindsFull(s, run[0]) || FoundFull(Apply(s, run[0]), run[1..]))
  }

  /** Steps that leave the request and the frame in place: nobody asks for something else, and
      captureThread neither drops the frame as reserved nor is done with it. */
  predicate LeavesRequest(a: Action) {
    && !a.Requesting?
    && (a.Capturing? ==> a.c != SkipReserved && !a.c.Finish?)
  }

  lemma RequestStep(s: Device, a: Action)
    requires Shape(s) && Enabled(s, a) && LeavesRequest(a) && StillToCome(s.capture, s.mem.take)
    requires s.mem.take == Fast || s.mem.take == Record || s.mem.take == Smart
    ensures var s' := Apply(s, a);
            || (StillToCome(s'.capture, s'.mem.take) && s'.mem.take == s.mem.take && s'.capture.i == s.capture.i)
            || Slot(s.capture.i) in PictureAdded(s, a)
            || FindsFull(s, a)
  {
    if a.Capturing? {
      NextCaptureStep(s, a.c);
    }
  }

  /** Main result: while a fast, recording or smart picture stays asked for, a frame that captureThread
      has is queued for the picture workers by the time it is done with it, unless a queue was full. */
  lemma {:induction false} RequestedPictureIsQueued(s: Device, run: seq<Action>)
    requires Shape(s) && Possible(s, run) && StillToCome(s.capture, s.mem.take)
    requires s.mem.take == Fast || s.mem.take == Record || s.mem.take == Smart
    requires (forall k :: 0 <= k < |run| ==> LeavesRequest(run[k])) && End(s, run).capture.Finishing?
    ensures Slot(s.capture.i) in ForPictures(s, run) || FoundFull(s, run)
    decreases |run|
  {
    if run == [] {
    } else {
      RequestStep(s, run[0]);
      assert forall k :: 0 <= k < |run[1..]| ==> run[1..][k] == run[k + 1];
      var s' := Apply(s, run[0]);
      if StillToCome(s'.capture, s'.mem.take) && s'.mem.take == s.mem.take && s'.capture.i == s.capture.i {
        RequestedPictureIsQueued(s', run[1..]);
      }
    }
  }
}
