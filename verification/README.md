# Camera, audio and storage HAL: a verified model

This project models the parts of an Allwinner Android hardware abstraction layer that carry state machines, buffers
or nontrivial arithmetic, and proves what they promise.

| file | models |
|---|---|
| `FrameMemory.dfy`, `FrameProtocol.dfy` | ownership of camera frames by reference count across capture, preview, picture and recorder threads (V4L2CameraDevice2.cpp) |
| `FrameDelivery.dfy` | that the same threads get the right frames to the right place, in order |
| `Throttle.dfy` | the half-frame-rate counter of captureThread |
| `ZoomCrop.dfy` | calculateCrop |
| `OsalQueue.dfy` | the queue on a circular linked list under both frame queues (OSAL_Queue.c) |
| `ScalerSpec.dfy`, `Scaler.dfy` | the fixed-point YUV scaler with its cache of two filtered rows (scaler.c) |
| `Detile.dfy` | 32x32 macroblock detiling (Libve_Decoder.c) |
| `PcmRing.dfy`, `PcmThreads.dfy` | the PCM ring, as methods and as interleaved threads (audio_hw.c) |
| `CaptureStream.dfy` | read_frames over period buffers (audio_hw.c) |
| `EnvSpec.dfy`, `EnvStore.dfy` | the key/value area, as a table and as bytes (fetch_env.c) |
| `PixelFormat.dfy`, `DownScale.dfy` | format conversions and downscaling (CallbackNotifier.cpp) |
| `Arith.dfy`, `Bytes.dfy` | nonlinear arithmetic and memcpy |

How the pieces fit:

- Code that updates state in place is a method, on a class with the source's fields or on arrays. Its contract ties the
  new state to a specification function of the old one, and lemmas about that function state the properties.
- `FrameProtocol` is a state machine whose steps are the mutex sections and unlocked accesses of the threads. Its steps
  are the functions of `FrameMemory` that the methods of `V4L2CameraDevice` are proved to implement, and its two queues
  behave as `OsalQueue.Queue` is proved to.
- `PcmThreads` interleaves one writer and one reader byte by byte. The sequential methods of `PcmRing` are the same
  operations without interference; both use the same pointer arithmetic.
- System calls, drivers, allocation and the moment a thread runs are parameters or choices of the run: the outcome of
  VIDIOC_QBUF, the buffer VIDIOC_DQBUF returns, each answer of pcm_read, the number of mallocs that succeed.

Where the code does not do what one would expect, the model follows the code and the exact condition is proved:

- Counts and holders can part when mPicBuffer is involved (`StepKeepsOwnershipIff`, `RunKeepsOwnershipIff`). In the
  session takePicture starts for a TAKE_PICTURE_NORMAL, cancelled or not, nothing is lost by it (`NormalPictureLosesNothing`). The class also
  lets TAKE_PICTURE_NORMAL be asked for in a running session, which takePicture never does; a buffer can then stay
  referenced by nobody (`MixedNormalLeaksABuffer`).
- The skipping detilers drift in the bottom line of tiles when the height is odd (`SkipKeepsEvenLinesIff`), and the nv21
  detilers copy a last half tile unswapped (`SwapExchangesPairsIff`).
- An underflowing ReadPcmData looks at DataLen three times without the lock, and a write in between makes the amounts
  disagree (`ReadAmounts`, `AmountsDisagree`).
- A 31st name is stored but never found again, and writes to an erased area under a name of eight 0xff bytes are lost
  (`TableIsMap`, `PlainMapIff`, `FirstWriteIsReadableIff`).
- OSAL_QueueSetElem recognises only a duplicate at the head (`SetElem`), and a queue created for n > 1 elements holds
  n - 1 (`Create`, `Enqueue`).

## Model

| member | source | states |
|---|---|---|
| `FrameProtocol.RefCountsAreHolderCounts` | hardware/camera/V4L2CameraDevice2.cpp:1115-1251 | Main result. After any interleaving of capture, preview, three picture workers and recorder from the start of a session without TAKE_PICTURE_NORMAL, the invariant holds, and whenever mCaptureMutex is free every mV4l2buf[i].refCnt is exactly the number of holders of buffer i |
| `FrameProtocol.FramesInUseAreSafe` | hardware/camera/V4L2CameraDevice2.cpp:1115-1116 | Main result. Whatever step follows such a run: a held frame is not overwritten, a buffer goes back to the driver only when the step takes away its last holder, VIDIOC_QBUFs and VIDIOC_DQBUFs of a buffer alternate, and available + referenced + stranded buffers add up to mBufferCnt |
| `FrameProtocol.StepKeepsOwnershipIff` | hardware/camera/V4L2CameraDevice2.cpp:1322-1325 | From a state in which all counts are right, a step of any thread keeps them right if and only if it is balanced: no worker keeps a frame of mV4l2buf because mIsPicCopy is set, and no worker releases mPicBuffer while the buffer it was copied from is referenced |
| `FrameProtocol.RunKeepsOwnershipIff` | hardware/camera/V4L2CameraDevice2.cpp:1322-1325 | The counts are right at every point of a run, from any state satisfying the invariant, if and only if every step of it is balanced |
| `FrameProtocol.NormalPictureLosesNothing` | hardware/camera/V4L2CameraDevice2.cpp:1123-1166 | Main result for the session takePicture starts, with TAKE_PICTURE_NORMAL set and any number of buffers, cancelled by cancelPicture at any time or not. VIDIOC_QBUFs and VIDIOC_DQBUFs of a buffer alternate, no buffer is lost, and once every thread is idle all are back in the driver or stranded |
| `FrameProtocol.UncancelledPictureIsOneFrame` | hardware/camera/V4L2CameraDevice2.cpp:1160-1162 | If nobody cancels, at most one frame is captured, and whichever worker gets the copy and however early it gives the buffer back, all buffers are back in the driver or stranded once captureThread is done with it |
| `FrameProtocol.StepKeepsPictureOrPreview` | hardware/camera/V4L2CameraDevice2.cpp:1123-1166 | Every step of such a session, a cancel included, leaves it before, in or after its one picture, or an ordinary preview session |
| `FrameProtocol.Withdrawn` | hardware/camera/V4L2CameraDevice2.cpp:1123-1124 | Withdrawing the request before captureThread has looked at it gives a state of an ordinary session: all counts are right and nothing is copied |
| `FrameProtocol.RunKeepsNormalInv` | hardware/camera/V4L2CameraDevice2.cpp:1160-1162 | Every run of an uncancelled session keeps its invariant: only captureThread references a buffer, and delivery stops with the copy |
| `FrameProtocol.StepKeepsNormalInv` | hardware/camera/V4L2CameraDevice2.cpp:1123-1166 | Every step of an uncancelled session keeps that invariant |
| `FrameProtocol.MixedNormalLeaksABuffer` | hardware/camera/V4L2CameraDevice2.cpp:1123-1166 | At the interface of the class: setTakePictureState may ask for TAKE_PICTURE_NORMAL in a running session, though takePicture never does; then there is a run after which every thread is idle, nobody holds buffer 0, and yet its count is 1 and the driver never gets it back: the condition of the main results is needed |
| `FrameProtocol.UnbalancedBreaks` | hardware/camera/V4L2CameraDevice2.cpp:1407-1410 | For every unbalanced worker step, the buffer whose count it makes wrong |
| `FrameProtocol.StepKeepsInv` | hardware/camera/V4L2CameraDevice2.cpp:1254-1330 | Every balanced step of every thread keeps the whole invariant: ownership, the account of the driver, the throttle, and a locked capture holding a reference |
| `FrameProtocol.RateFollowsLog` | hardware/camera/V4L2CameraDevice2.cpp:893-907 | Whatever the state, only a captured frame moves the throttle, and it moves it as the counter machine says |
| `FrameProtocol.StepAccounts` | hardware/camera/V4L2CameraDevice2.cpp:2040-2060 | From a state satisfying the invariant every step, balanced or not, keeps the account of the driver: mCurAvailBufferCnt is the number of buffers it owns, and a buffer is owned, stranded or referenced |
| `FrameProtocol.BalancedRunKeepsInv` | hardware/camera/V4L2CameraDevice2.cpp:837-1498 | Any run of balanced steps, TAKE_PICTURE_NORMAL included, keeps the invariant |
| `FrameProtocol.NeverNormalIsBalanced` | hardware/camera/V4L2CameraDevice2.cpp:1160-1162 | A run in which nobody asks for TAKE_PICTURE_NORMAL consists of balanced steps only, and mIsPicCopy stays false |
| `FrameProtocol.StartInv` | hardware/camera/V4L2CameraDevice2.cpp:624-627 | A started session, all buffers queued in the driver, satisfies the invariant |
| `FrameProtocol.CaptureOwnership` | hardware/camera/V4L2CameraDevice2.cpp:1115-1251 | Each step of captureThread changes counts and holders alike, the gap between OSAL_Queue and refCnt++ included |
| `FrameProtocol.PreviewOwnership` | hardware/camera/V4L2CameraDevice2.cpp:1254-1294 | Each step of previewThread changes counts and holders alike |
| `FrameProtocol.WorkerOwnership` | hardware/camera/V4L2CameraDevice2.cpp:1297-1330 | Each balanced step of a picture worker changes counts and holders alike |
| `FrameProtocol.RecordingOwnership` | hardware/camera/V4L2CameraDevice2.cpp:2032-2062 | A release by the recorder of a buffer it holds changes counts and holders alike |
| `FrameProtocol.LockedStaysReferenced` | hardware/camera/V4L2CameraDevice2.cpp:2037-2041 | While captureThread holds mCaptureMutex its buffer stays referenced: no release gets in between |
| `FrameProtocol.HeldIsReferenced` | hardware/camera/V4L2CameraDevice2.cpp:2040-2041 | A buffer with a holder has a positive count and is not in the driver, even while one reference is queued and not yet counted |
| `FrameProtocol.DequeuedIsUnheld` | hardware/camera/V4L2CameraDevice2.cpp:1116-1116 | VIDIOC_DQBUF only ever returns a buffer without holders |
| `FrameProtocol.RequeuedIsUnheld` | hardware/camera/V4L2CameraDevice2.cpp:2040-2050 | VIDIOC_QBUF is issued at most once by a step, and only by the step that takes away the last holder |
| `FrameProtocol.HeldFrameIsUntouched` | hardware/camera/V4L2CameraDevice2.cpp:1116-1116 | No step of any thread overwrites the slot of a held buffer |
| `FrameProtocol.QuietSessionHoldsNothing` | hardware/camera/V4L2CameraDevice2.cpp:2040-2058 | Once every thread is idle and the queues are empty, every buffer is back in the driver save those whose VIDIOC_QBUF failed: no reference leaks |
| `FrameProtocol.HalfRateIffRecentlyShort` | hardware/camera/V4L2CameraDevice2.cpp:893-907 | Over every run of the threads, TAKE_PICTURE_NORMAL included, mNeedHalfFrameRate is set exactly when one of the last 60 captured frames saw mCurAvailBufferCnt at most 4 |
| `FrameDelivery.SlotHoldsLastCapture` | hardware/camera/V4L2CameraDevice2.cpp:1115-1116 | Main result. After any run, TAKE_PICTURE_NORMAL included, a slot of mV4l2buf holds the frame that VIDIOC_DQBUF brought there last, and its own index |
| `FrameDelivery.HeldFrameIsLastCaptured` | hardware/camera/V4L2CameraDevice2.cpp:1115-1251 | What a queue, previewThread, a worker or the recorder holds after a run from the start of a session is the frame of the last capture into its slot |
| `FrameDelivery.RunKeepsSlot` | hardware/camera/V4L2CameraDevice2.cpp:1116-1116 | A run without a capture into a slot leaves its frame and index as they are |
| `FrameDelivery.RequestedPictureIsQueued` | hardware/camera/V4L2CameraDevice2.cpp:1181-1243 | Main result. While a fast, recording or smart picture stays asked for, the frame captureThread has is queued for the picture workers by the time captureThread is done with it, unless it found a queue full or dropped the frame as reserved |
| `FrameDelivery.PreviewInOrder` | hardware/camera/V4L2CameraDevice2.cpp:1169-1258 | Main result. Over every run, the buffers previewThread took, then those still queued, are those that were queued before, then those captureThread queued: in order, none lost or repeated |
| `FrameDelivery.PicturesInOrder` | hardware/camera/V4L2CameraDevice2.cpp:1152-1299 | The same for the picture queue, whichever of its three workers takes an entry |
| `FrameDelivery.NextCaptureStep` | hardware/camera/V4L2CameraDevice2.cpp:1123-1251 | In each state of captureThread exactly the stated steps are possible, by place and requested picture: which site queues, which is passed, when a copy is made |
| `FrameDelivery.DequeueFills` | hardware/camera/V4L2CameraDevice2.cpp:1115-1116 | A dequeued buffer's slot gets the new frame, its index and one reference; no other slot changes |
| `FrameDelivery.PreviewQueued` | hardware/camera/V4L2CameraDevice2.cpp:1167-1174 | Unless a normal picture is asked for the frame goes to the end of the preview queue, if that has fewer than nine entries; otherwise captureThread is done with it |
| `FrameDelivery.PictureQueued` | hardware/camera/V4L2CameraDevice2.cpp:1181-1243 | At the site of the picture that is asked for the slot goes to the end of the picture queue, if that has fewer than three entries; otherwise captureThread is done with it |
| `FrameDelivery.FrameCounted` | hardware/camera/V4L2CameraDevice2.cpp:1177-1242 | A queued frame gets one more reference; a fast or recording picture is then no longer asked for; picture sites clear mIsPicCopy, the preview site does not |
| `FrameDelivery.SitePassed` | hardware/camera/V4L2CameraDevice2.cpp:1181-1243 | A site whose picture is not asked for changes nothing and leads to the next, in order |
| `FrameDelivery.CopyMade` | hardware/camera/V4L2CameraDevice2.cpp:1139-1158 | A normal picture takes over the index of the frame and queues mPicBuffer if there is room |
| `FrameDelivery.CopyFlaggedEffect` | hardware/camera/V4L2CameraDevice2.cpp:1160-1162 | Then mIsPicCopy is set, the request is gone and the delivery is paused |
| `FrameDelivery.SessionStarts` | hardware/camera/V4L2CameraDevice2.cpp:624-627 | A session starts with all buffers in the driver and nothing held, queued or asked for |
| `FrameDelivery.WorkerDecides` | hardware/camera/V4L2CameraDevice2.cpp:1322-1325 | A worker gives its frame back unless mIsPicCopy is set; the continuous worker does so in any case |
| `FrameDelivery.ReferenceReleased` | hardware/camera/V4L2CameraDevice2.cpp:2040-2060 | One reference less, no other slot touched; the last one gives the buffer to the driver and counts it, or strands it |
| `FrameDelivery.HoldersMoveOn` | hardware/camera/V4L2CameraDevice2.cpp:1254-1330 | Every thread that holds a frame, or could take one, can take its next step whenever mCaptureMutex is free |
| `FrameDelivery.LockKeepsOthersOut` | hardware/camera/V4L2CameraDevice2.cpp:2037-2037 | While captureThread holds mCaptureMutex no frame is given back by anybody |
| `FrameDelivery.CaptureMovesOn` | hardware/camera/V4L2CameraDevice2.cpp:1115-1251 | A captureThread that has a frame always has a next step |
| `FrameMemory.BuffersAreConserved` | hardware/camera/V4L2CameraDevice2.cpp:2052-2058 | Driver-owned, stranded and referenced buffers are disjoint and make up all of them |
| `FrameMemory.FillAccounts` | hardware/camera/V4L2CameraDevice2.cpp:893-893 | Counting a dequeued buffer out of the driver keeps the account |
| `FrameMemory.CountAccounts` | hardware/camera/V4L2CameraDevice2.cpp:1177-1177 | Taking another reference to a referenced buffer keeps the account |
| `FrameMemory.ReleaseAccounts` | hardware/camera/V4L2CameraDevice2.cpp:2040-2060 | releasePreviewFrame keeps the account, whether or not VIDIOC_QBUF succeeds |
| `FrameMemory.ReleaseEffect` | hardware/camera/V4L2CameraDevice2.cpp:2040-2050 | A release changes no frame, and gives back only a buffer whose count it has brought to zero |
| `FrameMemory.V4L2CameraDevice.constructor` | hardware/camera/V4L2CameraDevice2.cpp:624-627 | The fields of a started session hold the initial value of the protocol |
| `FrameMemory.V4L2CameraDevice.FillFrame` | hardware/camera/V4L2CameraDevice2.cpp:893-1116 | The in-place update after VIDIOC_DQBUF is the Fill step of the protocol, throttle included |
| `FrameMemory.V4L2CameraDevice.QueueFrame` | hardware/camera/V4L2CameraDevice2.cpp:1169-1174 | Queueing the new frame succeeds exactly when the site's queue is not full, and is the Queue step of the protocol |
| `FrameMemory.V4L2CameraDevice.CountReference` | hardware/camera/V4L2CameraDevice2.cpp:1177-1242 | refCnt++ and the flags after it are the AddReference step of the protocol, per site |
| `FrameMemory.V4L2CameraDevice.QueuePictureCopy` | hardware/camera/V4L2CameraDevice2.cpp:1139-1158 | The copy to mPicBuffer takes over the index of the frame and is queued exactly when there is room |
| `FrameMemory.V4L2CameraDevice.FlagPictureCopy` | hardware/camera/V4L2CameraDevice2.cpp:1160-1162 | The flags after a queued copy are those of the FlagCopied step |
| `FrameMemory.V4L2CameraDevice.ReleasePreviewFrame` | hardware/camera/V4L2CameraDevice2.cpp:2032-2062 | releasePreviewFrame on the fields is the Release step of the protocol |
| `FrameMemory.V4L2CameraDevice.OnNextFrameHW` | hardware/camera/CallbackNotifier.cpp:557-569 | The recorder's reference is the Share step of the protocol |
| `Throttle.NeedHalfIffShortInWindow` | hardware/camera/V4L2CameraDevice2.cpp:893-907 | Over every sequence of frames the counter machine refines the sliding window: the flag is set exactly when one of the last 60 frames saw at most 4 buffers |
| `Throttle.AfterTracks` | hardware/camera/V4L2CameraDevice2.cpp:901-906 | While the flag is set, mStatisicsIndex is the distance back to the last short frame, and below 60 |
| `ZoomCrop.CalculateCrop` | hardware/camera/V4L2CameraDevice2.cpp:44-63 | For all sizes and zooms the crop lies inside the frame, centred to within one pixel; at zoom z of m it keeps 1 / (1 + 2 * z / m) of each side, up to the two truncations; it is the whole frame at zoom 0, a third of each side (floored) at full zoom, and not empty in between for sides of at least 3 |
| `ZoomCrop.LargerZoomIsInside` | hardware/camera/V4L2CameraDevice2.cpp:55-59 | The crop of a larger zoom lies inside the crop of a smaller one |
| `ZoomCrop.KeptIsMagnified` | hardware/camera/V4L2CameraDevice2.cpp:55-59 | The kept length against the law of the zoom, from above and below |
| `ZoomCrop.KeptBounds` | hardware/camera/V4L2CameraDevice2.cpp:55-59 | The kept length never exceeds the side, is the side at zoom 0, a third at full zoom, and at least 1 for sides of at least 3 |
| `ZoomCrop.RatioMonotone` | hardware/camera/V4L2CameraDevice2.cpp:55-55 | The ratio grows with the zoom, from 100 to 300 |
| `OsalQueue.Queue.Create` | hardware/camera/OSAL_Queue.c:10-55 | Succeeds exactly when every malloc it needs does, giving an empty queue on a fresh ring of max(1, maxElem - 1) nodes; after a failure nothing is left allocated |
| `OsalQueue.Queue.FreeChain` | hardware/camera/OSAL_Queue.c:38-46 | The clean-up loop frees every node allocated so far, each once |
| `OsalQueue.Queue.Link` | hardware/camera/OSAL_Queue.c:46-50 | A fresh node at the end of the chain gives a longer chain |
| `OsalQueue.Queue.Close` | hardware/camera/OSAL_Queue.c:52-52 | Closing the chain gives a valid, empty ring |
| `OsalQueue.Queue.Terminate` | hardware/camera/OSAL_Queue.c:57-81 | Frees exactly the nodes of the ring, each once, whatever is queued and wherever first stands |
| `OsalQueue.Queue.FullIff` | hardware/camera/OSAL_Queue.c:91-91 | The two-part test of the enqueue operations is exactly "no room left", and first->data is the oldest element |
| `OsalQueue.Queue.Enqueue` | hardware/camera/OSAL_Queue.c:83-101 | Refused exactly when all nodes are full; otherwise appends at the end of the FIFO |
| `OsalQueue.Queue.Dequeue` | hardware/camera/OSAL_Queue.c:103-123 | NULL exactly when empty; otherwise the oldest element, which leaves the FIFO |
| `OsalQueue.Queue.RemoveFirst` | hardware/camera/OSAL_Queue.c:114-117 | Taking first->data out and moving first on removes the oldest element |
| `OsalQueue.Queue.GetElemNum` | hardware/camera/OSAL_Queue.c:125-136 | numElem is the length of the FIFO |
| `OsalQueue.Queue.SetElem` | hardware/camera/OSAL_Queue.c:150-181 | Enqueues unless the queue is full or the element is the oldest one; other duplicates go in, as the search never moves on |
| `OsalQueue.AcceptsExactly` | hardware/camera/OSAL_Queue.c:91-91 | A queue created for n > 1 elements takes another while it holds fewer than n - 1, one for one element takes one, one for none takes none |
| `OsalQueue.FillsUp` | hardware/camera/OSAL_Queue.c:83-101 | Of any elements put into a fresh queue the first n - 1 stay, in order |
| `OsalQueue.FirstInFirstOut` | hardware/camera/OSAL_Queue.c:83-123 | Over every run of enqueues and dequeues, what came out followed by what is queued is what was accepted |
| `Scaler.ScalePicture` | hardware/camera/scaler.c:383-418 | Main result. For every size, ratio and alignment whose written pixels fit DstBuf, the three planes of DstBuf are the uncached two-pass filter of the source planes, and the first outpicsize bytes of it, and nothing else, are stored in the output |
| `Scaler.ScalePlanes` | hardware/camera/scaler.c:118-374 | The three plane loops, one after the other with one line buffer, leave all three planes in place |
| `Scaler.ScalePlane` | hardware/camera/scaler.c:143-210 | A plane loop writes every output row of the uncached filter at its place, touches nothing before the plane, and leaves dst_ptr behind the last row |
| `Scaler.PlaneRow` | hardware/camera/scaler.c:157-209 | One turn of a plane loop puts the next output row in place, changes nothing before it, and keeps the cache right about itself |
| `Scaler.ScaleRow` | hardware/camera/scaler.c:157-209 | One output row through the cache is the row of the uncached filter |
| `Scaler.CacheLines` | hardware/camera/scaler.c:157-198 | Whatever the two cached rows are, lastline ends up holding filtered row base_line and curline filtered row base_linep1, and line_num still says what the halves hold |
| `Scaler.FillLine` | hardware/camera/scaler.c:171-171 | Refilling one half of scline_buf leaves the row in the other half alone |
| `Scaler.RowPosition` | hardware/camera/scaler.c:145-155 | The two source rows an output row lies between are inside the source, the last row repeating beyond the end |
| `Scaler.FilterPixels` | hardware/camera/scaler.c:68-109 | The pixel loop fills the line buffer, two spare bytes in, with the filtered row |
| `Scaler.HorFilter` | hardware/camera/scaler.c:59-116 | SC_hor_filter stores the filtered row and nothing else |
| `Scaler.FilterPixel` | hardware/camera/scaler.c:70-108 | One pixel of a constant row v lands between v and min(255, v + 2), and less than a sixteenth behind a source pixel it is that pixel; in general it is the specified four-tap value |
| `Scaler.VerFilter` | hardware/camera/scaler.c:200-208 | The vertical loop stores the two rows blended and nothing else |
| `Scaler.BlendPixel` | hardware/camera/scaler.c:204-207 | One pixel lies between the pixels of the two rows, and is the first of them less than 1/32 of the way; in general it is the specified two-tap value |
| `Scaler.RowAdded` | hardware/camera/scaler.c:207-209 | Writing a row leaves the rows above it, and everything before the plane, alone |
| `Scaler.RowsBelow` | hardware/camera/scaler.c:230-234 | Writing the next plane leaves the planes before it alone |
| `Scaler.SamplePositions` | hardware/camera/scaler.c:416-417 | Output pixel j samples the source at j * src_w / dst_w up to j 512ths of a pixel, and output row i in the same way |
| `Scaler.RatioRounded` | hardware/camera/scaler.c:416-417 | The ratios are 256 times the quotients of the sizes, rounded |
| `Scaler.PlaneLayout` | hardware/camera/scaler.c:138-141 | Where the planes are: rows aligned, Cb behind the luma rows, Cr behind the Cb rows, output rows padded as source rows are |
| `Scaler.WholeLayout` | hardware/camera/scaler.c:138-141 | For exact multiples the ratios are whole, no row is padded, and the planes fill outpicsize, and so fit DstBuf, exactly |
| `Scaler.ScalerDecimates` | hardware/camera/scaler.c:383-418 | Main result. When the source sizes are exact multiples kw, kh of even sizes and the width is a multiple of align, each of Y, Cb and Cr is exact decimation, without gaps, on all 3/2 * dst_w * dst_h bytes |
| `Scaler.EqualSizesCopy` | hardware/camera/scaler.c:383-418 | With equal sizes the scaler is the identity |
| `ScalerSpec.OutPixel` | hardware/camera/scaler.c:143-208 | An output pixel of the two-pass filter, spelled out by source rows, positions and phase, the last row repeating |
| `ScalerSpec.RampIsFollowed` | hardware/camera/scaler.c:70-108 | On a ramp the horizontal filter gives the point of the ramp at its position, rounded down to sixteenths, up to rounding and the brightening by two 256ths |
| `ScalerSpec.VerPixelIsLinear` | hardware/camera/scaler.c:200-207 | The vertical filter is linear interpolation in steps of 1/32, rounded |
| `ScalerSpec.EndsRepeat` | hardware/camera/scaler.c:73-99 | Filtering near the ends is filtering the line with its first and last pixels repeated |
| `ScalerSpec.PastTheEnd` | hardware/camera/scaler.c:73-99 | Beyond the end only the last pixel counts |
| `ScalerSpec.CubicRowsMirror` | hardware/camera/scaler.c:1-34 | Rows i and 32 - i of the cubic table mirror each other |
| `ScalerSpec.TapsCentred` | hardware/camera/scaler.c:401-407 | The taps used for phase i are centred i sixteenths of the way to the next pixel |
| `ScalerSpec.VerPixelIsBetween` | hardware/camera/scaler.c:204-207 | The vertical filter always lands between its two input pixels, and on the first of them at phase 0 |
| `ScalerSpec.HorCoeffSum` | hardware/camera/scaler.c:401-407 | Every used row of the cubic table sums to 256, 257 or 258 |
| `ScalerSpec.FlatRowBrightensByAtMostTwo` | hardware/camera/scaler.c:101-108 | Filtering a constant row v lands between v and min(255, v + 2), at every position |
| `ScalerSpec.NearPixelIsExact` | hardware/camera/scaler.c:103-108 | Less than a sixteenth behind a source pixel the horizontal filter returns that pixel |
| `ScalerSpec.OnPixelIsExact` | hardware/camera/scaler.c:103-108 | On a source pixel the horizontal filter returns that pixel |
| `ScalerSpec.OnLineIsExact` | hardware/camera/scaler.c:200-208 | An output pixel on a source row and column is that source pixel |
| `ScalerSpec.WholeRatioDecimates` | hardware/camera/scaler.c:145-146 | With whole ratios every output pixel is the source pixel at the top left of its block |
| `ScalerSpec.ExactRatio` | hardware/camera/scaler.c:416-417 | The rounded ratio of an exact multiple k is 256 * k |
| `Detile.MapTiles` | hardware/camera/Libve_Decoder.c:165-338 | Main result, for all four variants, every width that is a multiple of 16 and every height: each output pixel is the source byte its variant asks for, nothing is written outside the picture, and the source pointer ends where its steps add up to |
| `Detile.PlainSource` | hardware/camera/Libve_Decoder.c:213-338 | map32x32_to_yuv takes pixel (y, x) from tile (y/32, x/32) at offset (y%32)*32 + x%32 |
| `Detile.PlainPicture` | hardware/camera/Libve_Decoder.c:165-338 | For every width and height, byte y * w + x of the target of map32x32_to_yuv is byte (y%32)*32 + x%32 of tile (y/32, x/32) |
| `Detile.LinesProduced` | hardware/camera/Libve_Decoder.c:655-662 | The skipping variants produce half as many lines, rounded down |
| `Detile.PixelsDoNotOverlap` | hardware/camera/Libve_Decoder.c:213-338 | No target byte is written for two pixels and no source byte is used for two |
| `Detile.SkipKeepsEvenLinesIff` | hardware/camera/Libve_Decoder.c:544-721 | Main result. For every source picture the skip_oneline picture is the even rows of the fully detiled one, if and only if the height is even, the width is at most 32, or the height is 1 modulo 32 |
| `Detile.SkipDrifts` | hardware/camera/Libve_Decoder.c:655-720 | For all other sizes, a source picture on which the two differ: the pointer drifts 32 bytes per tile in the bottom line |
| `Detile.SwapExchangesPairsIff` | hardware/camera/Libve_Decoder.c:340-542 | Main result. For every source picture the nv21 picture is the plain one with the bytes of every pair exchanged, skipping or not, if and only if the width is a multiple of 32 |
| `Detile.HalfTileKeepsPairs` | hardware/camera/Libve_Decoder.c:438-458 | For all other widths, a source picture on which the two differ: a last half tile is copied unswapped |
| `Detile.SkipSourcesAgreeIff` | hardware/camera/Libve_Decoder.c:544-721 | The source offsets of the two pictures agree for exactly those sizes |
| `Detile.SwapSourcesAgreeIff` | hardware/camera/Libve_Decoder.c:340-542 | The source offsets of the two pictures agree for exactly those widths |
| `Detile.SomeDetiled` | hardware/camera/Libve_Decoder.c:165-338 | Every source picture that is large enough has a detiled one, for each variant |
| `Detile.PointerEndsBehindLastTile` | hardware/camera/Libve_Decoder.c:723-916 | The source pointer advances 1024 bytes per tile, save for 32 bytes per tile lost in the bottom line by the skipping variants at odd heights |
| `Detile.MapTileLine` | hardware/camera/Libve_Decoder.c:279-337 | One line of tiles extends the finished part of the picture, the cut-off bottom line included |
| `Detile.CopyTileLine` | hardware/camera/Libve_Decoder.c:215-271 | The tiles of one line fill all columns of their lines and leave the other lines alone, the last tile whole or half |
| `Detile.CopyTileAt` | hardware/camera/Libve_Decoder.c:217-236 | One tile fills its columns, leaves all other pixels alone, and moves the pointer to the next tile |
| `Detile.CopyTile` | hardware/camera/Libve_Decoder.c:217-236 | The line loop of one tile, with the stride of the variant |
| `Detile.CopyLine` | hardware/camera/Libve_Decoder.c:222-233 | One line of a tile goes to its pixels and no others |
| `Detile.StoreLine` | hardware/camera/Libve_Decoder.c:222-233 | The inline assembly of one line stores its bytes, swapped pairwise or not, and touches no others |
| `Detile.BottomLine` | hardware/camera/Libve_Decoder.c:273-337 | The full lines of tiles and the valid lines of the bottom one make up the picture, and copied and skipped bytes of a tile add up to 1024, or 992 in the drifting case |
| `Detile.SkipAgreesAt` | hardware/camera/Libve_Decoder.c:655-720 | The source offsets of a pixel in the skipping and the full variant agree exactly outside the short bottom line, or in its first tile |
| `Detile.SwapAgreesAt` | hardware/camera/Libve_Decoder.c:438-458 | The source offset of a pixel in an nv21 variant is that of the other pixel of its pair in the plain one exactly in a whole tile |
| `PcmRing.PcmBufManager.WritePcmData` | hardware/audio/audio_hw.c:437-476 | Appends all of the bytes to the FIFO or, exactly when they do not fit, none and returns -1; the unread bytes stay where they are, so a copy in progress is not disturbed; DataLen + BufValideLen stays BufTotalLen |
| `PcmRing.PcmBufManager.StoreAhead` | hardware/audio/audio_hw.c:449-466 | The memcpys, wrapped or not, leave the unread bytes alone and put the new ones right behind them |
| `PcmRing.PcmBufManager.CopyOut` | hardware/audio/audio_hw.c:522-534 | The unlocked memcpys deliver the oldest bytes across any wrap |
| `PcmRing.PcmBufManager.Consume` | hardware/audio/audio_hw.c:538-546 | The pointer update drops exactly the delivered bytes; the read pointer never rests at the end |
| `PcmRing.PcmBufManager.ReadPcmData` | hardware/audio/audio_hw.c:478-560 | Delivers the oldest bytes and drops exactly those; on underflow the last of them fills the rest of the request, or, with nothing to deliver, the byte before the buffer does |
| `PcmRing.PcmBufManager.constructor` | hardware/audio/audio_hw.c:3424-3438 | A new ring is empty and wholly free |
| `PcmRing.StoredAhead` | hardware/audio/audio_hw.c:449-466 | Storing from the write pointer on extends the unread bytes, wherever the pointers stand |
| `PcmRing.WriteIsAhead` | hardware/audio/audio_hw.c:449-466 | The write pointer, which may rest at the end, is where the unread bytes end, which are found modulo the size |
| `PcmThreads.RingIsFifoUnderInterleaving` | hardware/audio/audio_hw.c:437-560 | Main result. However writer and reader interleave, byte by byte and in any memcpy order, what was delivered is a prefix of what was accepted and the unread bytes are the rest; the writer's unlocked space check stays valid; the counts add up |
| `PcmThreads.FullReadDelivers` | hardware/audio/audio_hw.c:481-546 | Main result. A read of no more bytes than are unread at its test of DataLen delivers exactly as many as it asks for, the oldest ones, whatever the writer does until it ends |
| `PcmThreads.UnderflowDelivers` | hardware/audio/audio_hw.c:495-546 | An underflowing read delivers all that is unread at its second look at DataLen |
| `PcmThreads.WriteAccepts` | hardware/audio/audio_hw.c:441-469 | A write that fits when it is checked adds exactly its bytes once it is done, whatever the reader does meanwhile |
| `PcmThreads.WriteTurnedAway` | hardware/audio/audio_hw.c:441-445 | A write that does not fit changes nothing |
| `PcmThreads.LoadsRest` | hardware/audio/audio_hw.c:522-534 | A copy in progress can be completed by the reader alone |
| `PcmThreads.StoresRest` | hardware/audio/audio_hw.c:449-466 | A write in progress can be completed by the writer alone |
| `PcmThreads.LoadedBytesAreNextInOrder` | hardware/audio/audio_hw.c:522-534 | A byte loaded by an unlocked copy in progress is the right next byte, whatever was stored since |
| `PcmThreads.ReadAmounts` | hardware/audio/audio_hw.c:489-503 | The three unlocked looks an underflowing read takes at DataLen, with the writer running in between: size_read + fill_dc_size is the request if and only if no byte was written between the second and the third; size_read stays within it and fill_dc_size is not negative exactly when the third look finds no more than was asked for |
| `PcmThreads.AmountsDisagree` | hardware/audio/audio_hw.c:489-503 | A run on which they do not make up the request: one byte is asked of an empty ring and arrives between the second look and the third, and nothing is copied and nothing filled |
| `PcmThreads.WriterRun` | hardware/audio/audio_hw.c:437-476 | While only the writer runs the reader is left alone and DataLen grows by exactly what is written |
| `PcmThreads.StoreMissesUnread` | hardware/audio/audio_hw.c:449-466 | A byte being stored is never an unread one |
| `PcmThreads.EndWriteAppends` | hardware/audio/audio_hw.c:458-469 | Publishing a write appends its bytes to the unread ones |
| `PcmThreads.EndReadRemoves` | hardware/audio/audio_hw.c:536-546 | Finishing a read delivers the oldest unread bytes and removes them |
| `PcmThreads.StepKeepsInv` | hardware/audio/audio_hw.c:437-560 | Every step of either thread keeps the invariant of the ring |
| `PcmThreads.RunKeepsInv` | hardware/audio/audio_hw.c:437-560 | Every interleaving keeps the invariant of the ring |
| `CaptureStream.StreamIn.ReadFrames` | hardware/audio/audio_hw.c:2823-2857 | On a started stream, succeeds if and only if nothing is asked for, or the pcm is open and the driver delivers every period needed: an earlier failure is never reported again. Then it returns all frames after reading exactly the periods needed. In every case the frames put into the buffer followed by those carried over are the earlier carry-over followed by the periods read; on failure it says how many such frames the caller loses, per cause |
| `CaptureStream.StreamIn.Turn` | hardware/audio/audio_hw.c:2829-2855 | One turn: succeeds exactly when the stream is open and a needed period arrives; then it moves at least one frame and loses, repeats or reorders none; a failing turn moves none |
| `CaptureStream.StreamIn.GetNextBuffer` | hardware/audio/audio_hw.c:2764-2805 | Reads a period only when nothing is carried over, hands out at most what is there, and reports a closed stream or a driver failure without handing out frames |
| `CaptureStream.StreamIn.MoveFrames` | hardware/audio/audio_hw.c:2843-2847 | The memcpy and release_buffer move the oldest carried-over frames behind those delivered; frames_in never exceeds period_size |
| `CaptureStream.StreamIn.PcmRead` | hardware/audio/audio_hw.c:2788-2791 | pcm_read as the driver's next answer: a full period or a failure |
| `CaptureStream.StreamIn.Serve` | hardware/audio/audio_hw.c:2823-2857 | Main result. A loop of read_frames calls, of any sizes, that all succeed delivers the initial carry-over and the periods put together, save for the final carry-over; if one fails, the results before it are served in order |
| `CaptureStream.StreamIn.constructor` | hardware/audio/audio_hw.c:3365-3445 | A new stream is on standby with nothing carried over |
| `CaptureStream.StreamIn.Standby` | hardware/audio/audio_hw.c:2503-2532 | Closing a running stream, whose pcm must be open, keeps the frames carried over and leaves no failure behind that a later read would report |
| `CaptureStream.StreamIn.StartInput` | hardware/audio/audio_hw.c:2343-2353 | Starting opens the pcm, save in a call, when it reports success all the same; the frames carried over stay |
| `CaptureStream.RequestsDeliverTheStream` | hardware/audio/audio_hw.c:2823-2857 | Over any sequence of successful requests of any sizes, the results put together with the final carry-over are the initial carry-over and the periods put together |
| `CaptureStream.ChunkingDoesNotMatter` | hardware/audio/audio_hw.c:2823-2857 | Two readers that asked in different portions have the same samples as soon as they have equally many |
| `CaptureStream.PeriodsNeededIsLeast` | hardware/audio/audio_hw.c:2788-2797 | The periods a request needs are the fewest with which carry-over and periods suffice |
| `CaptureStream.OnePeriod` | hardware/audio/audio_hw.c:2788-2791 | The stream of one period is that period as the driver filled it |
| `CaptureStream.PeriodsCounted` | hardware/audio/audio_hw.c:2788-2797 | A request reads the rounded-up number of periods beyond the carry-over, no more |
| `EnvStore.RecordPlace` | hardware/libhardware/libsec_storage/fetch_env.c:34-58 | Record k lies 24 + 176 * k bytes into the area, and thirty-one records fit the 8 KB |
| `EnvStore.PrivateArea.Write` | hardware/libhardware/libsec_storage/fetch_env.c:136-202 | modify_env_parameter on bytes is the write on the table: the area afterwards represents the table of all writes, and no other record's bytes change |
| `EnvStore.PrivateArea.Read` | hardware/libhardware/libsec_storage/fetch_env.c:219-257 | check_env_parameter returns 0 and the value the reference map expects after all the writes since the erase, and -1 exactly where the map has none |
| `EnvStore.PrivateArea.constructor` | hardware/libhardware/libsec_storage/fetch_env.c:342-365 | An erased area represents the empty table |
| `EnvStore.PrivateArea.Lookup` | hardware/libhardware/libsec_storage/fetch_env.c:237-256 | Search and copy together are the look-up in the table |
| `EnvStore.PrivateArea.Search` | hardware/libhardware/libsec_storage/fetch_env.c:166-176 | The record walk finds the first of the searched records with the name, or none |
| `EnvStore.PrivateArea.WriteFirst` | hardware/libhardware/libsec_storage/fetch_env.c:191-199 | In an area without records the new one becomes the only one; if its name looks erased the area still counts as empty |
| `EnvStore.PrivateArea.Replace` | hardware/libhardware/libsec_storage/fetch_env.c:168-174 | A known name's value is replaced and no other record's bytes change |
| `EnvStore.PrivateArea.Append` | hardware/libhardware/libsec_storage/fetch_env.c:177-183 | A new name's record follows the others and only its own bytes and the count change |
| `EnvStore.PrivateArea.FillRecord` | hardware/libhardware/libsec_storage/fetch_env.c:179-181 | Filling in a record makes it hold name and value, within its own 176 bytes |
| `EnvStore.PrivateArea.Format` | hardware/libhardware/libsec_storage/fetch_env.c:153-158 | An unformatted area gets the magic name and looks erased behind the header |
| `EnvStore.Rewritten` | hardware/libhardware/libsec_storage/fetch_env.c:168-174 | Changing one record's bytes changes only that entry of the table |
| `EnvStore.Appended` | hardware/libhardware/libsec_storage/fetch_env.c:177-183 | Writing behind the last record and raising the count appends to the table |
| `EnvStore.FirstErasedIff` | hardware/libhardware/libsec_storage/fetch_env.c:160-160 | The erased-flash test is true of a stored record exactly when its name starts with eight 0xff bytes |
| `EnvSpec.TableIsMap` | hardware/libhardware/libsec_storage/fetch_env.c:136-257 | Main result. After any sequence of writes of any names, reading gives the last value of each of the first thirty distinct names and -1 for everything else; writes before the first name that does not look erased are lost |
| `EnvSpec.FewNamesArePlainMap` | hardware/libhardware/libsec_storage/fetch_env.c:136-257 | With at most thirty distinct names, the first of which does not start with eight 0xff bytes, the area is the plain finite map of last written values |
| `EnvSpec.ReadBackIff` | hardware/libhardware/libsec_storage/fetch_env.c:136-257 | A written value is read back if and only if its name could be read before, or the area holds fewer than thirty records and is not to be mistaken for an erased one |
| `EnvSpec.OtherNamesStay` | hardware/libhardware/libsec_storage/fetch_env.c:136-257 | A write never changes what any other name reads |
| `EnvSpec.PlainMapIff` | hardware/libhardware/libsec_storage/fetch_env.c:136-257 | The area is the plain finite map of last written values if and only if at most thirty names take effect and every value lost to an area that looked erased has been written again |
| `EnvSpec.FirstWriteIsReadableIff` | hardware/libhardware/libsec_storage/fetch_env.c:160-160 | A value written to an erased area can be read back if and only if its name does not start with eight 0xff bytes |
| `EnvSpec.TableAgrees` | hardware/libhardware/libsec_storage/fetch_env.c:136-202 | After any writes the table holds the first 31 names in order of first writing, and the last value of the first thirty |
| `EnvSpec.PutAgrees` | hardware/libhardware/libsec_storage/fetch_env.c:136-202 | One more write to a table that is not empty keeps it in step with the reference |
| `EnvSpec.ReplaceAgrees` | hardware/libhardware/libsec_storage/fetch_env.c:168-174 | So does replacing the value of a known name |
| `EnvSpec.AppendAgrees` | hardware/libhardware/libsec_storage/fetch_env.c:177-183 | So does appending a new name while there is room |
| `EnvSpec.FullAgrees` | hardware/libhardware/libsec_storage/fetch_env.c:166-183 | So does a write that finds neither its name nor room |
| `EnvSpec.NamesAreKeys` | hardware/libhardware/libsec_storage/fetch_env.c:136-202 | The names in order of first writing are, each once, the keys of the map of last values |
| `PixelFormat.NV12ToYVU420` | hardware/camera/CallbackNotifier.cpp:178-202 | For all even sizes, in buffers of any length, the picture becomes the luma plane, then the first bytes of all pairs, then the second bytes; nothing behind it is touched |
| `PixelFormat.NV21ToYVU420` | hardware/camera/CallbackNotifier.cpp:204-226 | For all even sizes, in buffers of any length, the picture becomes the luma plane, then the second bytes of all pairs, then the first bytes; nothing behind it is touched |
| `PixelFormat.YVU420ToNV21` | hardware/camera/CallbackNotifier.cpp:228-252 | For all even sizes, in buffers of any length, the picture becomes the luma plane, then pairs of a sample of the second plane and one of the first; nothing behind it is touched |
| `PixelFormat.PlanarPixel` | hardware/camera/CallbackNotifier.cpp:193-200 | Chroma sample (i, j) of either destination plane comes from pair (i, j), the first plane from the byte the format says |
| `PixelFormat.NV21Pixel` | hardware/camera/CallbackNotifier.cpp:243-250 | Chroma pair (i, j) has sample (i, j) of the second plane first |
| `PixelFormat.PictureSizeIs` | hardware/camera/CallbackNotifier.cpp:180-183 | A picture has w * h * 3 / 2 bytes, chroma planes of (w/2) * (h/2) |
| `PixelFormat.NV21RoundTrip` | hardware/camera/CallbackNotifier.cpp:204-252 | YVU420ToNV21 after NV21ToYVU420 is the identity on the whole buffer |
| `PixelFormat.YVU420RoundTrip` | hardware/camera/CallbackNotifier.cpp:204-252 | NV21ToYVU420 after YVU420ToNV21 is the identity on the whole buffer |
| `PixelFormat.NV12ThroughYVU420SwapsPairs` | hardware/camera/CallbackNotifier.cpp:178-252 | YVU420ToNV21 after NV12ToYVU420 keeps the luma plane and exchanges the bytes of every chroma pair |
| `PixelFormat.CopyLuma` | hardware/camera/CallbackNotifier.cpp:185-191 | The luma loop copies the plane |
| `PixelFormat.PlanarAt` | hardware/camera/CallbackNotifier.cpp:193-200 | Where each sample of the planar picture comes from |
| `PixelFormat.NV21At` | hardware/camera/CallbackNotifier.cpp:243-250 | Where each byte of a chroma pair comes from |
| `DownScale.Yuv420spDownScale` | hardware/camera/CallbackNotifier.cpp:254-319 | For all sizes, odd ones included: refuses to enlarge and then touches nothing; otherwise copying, cropping and dropping pixels all give the one picture with every scale-th pixel of every scale-th row and chroma pairs kept whole, and touch nothing behind it save one byte when dropping pixels ends on half a pair. The scale is the k for which both directions shrink by k and a fraction, and 1 if there is none |
| `DownScale.TwoStepsAreOne` | hardware/camera/CallbackNotifier.cpp:254-319 | Main result. Two exact downscalings, by a and then by b, give the same picture as one by a * b |
| `DownScale.ScalesCompose` | hardware/camera/CallbackNotifier.cpp:301-316 | Pixel selections at scales a and b compose to a * b, chroma pairs included |
| `DownScale.ScaledPixels` | hardware/camera/CallbackNotifier.cpp:301-314 | Luma pixel (y, x) of the result is source pixel (y * k, x * k), and chroma byte x of row y comes from its own half of pair x/2 |
| `DownScale.ScaleIsWhole` | hardware/camera/CallbackNotifier.cpp:261-275 | The scale in terms of the sizes alone |
| `DownScale.ScaleFits` | hardware/camera/CallbackNotifier.cpp:301-316 | The chosen scale never reaches outside the source, whatever the sizes |
| `DownScale.ExactScale` | hardware/camera/CallbackNotifier.cpp:262-278 | Exact multiples are scaled by their ratio |
| `DownScale.LumaPlane` | hardware/camera/CallbackNotifier.cpp:301-307 | The luma plane of the scaled picture is in place |
| `DownScale.ChromaPlane` | hardware/camera/CallbackNotifier.cpp:308-314 | The chroma plane of the scaled picture is in place and the luma plane untouched, though odd rows spill a byte onto the next one |

## Left out

- The frame protocol covers one streaming session that begins with all buffers in the driver; stopping, restarting and stale queue entries are not modelled.
- The mCanBeDisconnected handshake, thread exit and the condition variables: threads may run whenever their step is possible, which only adds behaviours.
- mObjectLock is not modelled, which only adds interleavings.
- The early returns for a frame without a mapping (addrPhyY == 0) and for a frame larger than MAX_PICTURE_SIZE in TAKE_PICTURE_NORMAL; on those paths the code keeps the frame.
- The increment of refCnt in onNextFrameHW is taken as one atomic step, and the recorder releases only what it holds.
- The picture workers' callbacks, encoding and picture counters; the requests they raise to end a series may come at any time.
- FrameMemory.V4L2CameraDevice.FillFrame: time-stamps, crop rectangle and addresses are one abstract frame value.
- Which frames previewThread shows at half rate (mShouldPreview), the callbacks of the preview window, and face detection's mCurrentV4l2buf.
- V4L2CameraDevice.cpp, the older version of the driver class, releases under a different lock and is not modelled.
- Integers are unbounded: overflow of 32-bit products in the scaler, the crop, the conversions and the ring is not modelled.
- OsalQueue.Queue.Create: failure to create the mutex is not modelled; after a failed first malloc the mutex stays behind in the code.
- OSAL_SetElemNum and NULL data pointers, with which the element count no longer describes the ring.
- Scaler.ScalePicture: only the supported format, with at least one chroma sample in each direction; the pixels written must fit DstBuf, as the code relies on.
- Scaler.ScalePicture: align is an even number and rounding up to it is by division, which is the code's bit mask for powers of two.
- The three plane loops of do_scaler are one method, called with the geometry of each plane.
- The four detiling functions are one method with a variant; widths are multiples of 16, as the code assumes when it decides between a whole and a half last tile.
- PcmRing.PcmBufManager.ReadPcmData: waiting, sleeping and timeouts are left out; the byte before the caller's buffer is a parameter.
- PcmThreads.RingIsFifoUnderInterleaving: what counts as delivered is every byte copied from the ring, the caller's buffer being unbounded.
- CaptureStream.StreamIn.ReadFrames: the resampler path and process_frames; a frame is channels 16-bit samples, and driver failures are negative codes.
- CaptureStream.StreamIn.StartInput: a pcm that fails to open; the code then keeps a pointer to it.
- CaptureStream.StreamIn.Standby: a stream that runs without a pcm, as one started in a call or served from the PCM ring does; do_input_standby then hands pcm_close a null pointer.
- EnvStore.PrivateArea.Write: names and values fit their fields, as its strcpys require; an area always comes from an erase and writes, so other contents are not considered.
- Reading and writing the storage partition, and the NULL-argument checks of fetch_env.c.
- DownScale.Yuv420spDownScale: the destination is not empty, as the code divides by its sizes.
- Conversions of pictures with an odd width or height, whose planes the format does not define.
- YUYVToNV21, which leaves some chroma bytes unwritten.
- HAL factories, parameter parsing, preview windows, codecs, mixers, radio, sensors and keymaster wrappers: plumbing without state of its own.
