/** One writer and one reader on the PCM ring, interleaved byte by byte: the writer checks for
    space without the lock and copies under it; the reader copies without the lock and only
    moves its pointer under it. */
module PcmThreads {
  import opened Bytes
  import opened PcmRing

  /** WritePcmData: outside, past its space check, or copying under the lock with the bytes of
      `done` already stored. */
  datatype Writer = Away | Checked(data: seq<byte>) | Storing(data: seq<byte>, done: set<nat>)

  /** ReadPcmData: outside; past a test that found fewer than `want` bytes; past the second look at
      DataLen, which gave size_read; or copying `size` bytes, `got` of them loaded, with a third look
      having given fill_dc_size. */
  datatype Reader =
    | Idle
    | Short(want: nat)
    | Sized(want: nat, size: nat)
    | Loading(want: nat, size: nat, fill: int, got: map<nat, byte>)

  datatype State = State(
    buf: seq<byte>, rd: nat, wr: nat, dataLen: nat, valideLen: nat,
    writer: Writer, reader: Reader,
    accepted: seq<byte>,     // everything successful writes were given
    delivered: seq<byte>)    // everything reads returned, fill bytes not counted

  datatype Action =
    | CheckSpace(data: seq<byte>) | TakeLock | StoreByte(k: nat) | EndWrite
    | TestLength(want: nat) | ReadSize | ReadFill | LoadByte(k: nat) | EndRead

  predicate Shape(s: State) {
    && PointersAgree(s.rd, s.wr, s.dataLen, |s.buf|)
    && s.dataLen + s.valideLen == |s.buf|
    && (s.writer != Away ==> |s.writer.data| <= s.valideLen)
    && (s.reader.Sized? || s.reader.Loading? ==> s.reader.size <= s.dataLen)
  }

  predicate Enabled(s: State, a: Action) {
    match a
    case CheckSpace(_) => s.writer.Away?
    case TakeLock => s.writer.Checked?
    // memcpy may store its bytes in any order
    case StoreByte(k) => s.writer.Storing? && k < |s.writer.data|
    case EndWrite => s.writer.Storing? && forall k: nat :: k < |s.writer.data| ==> k in s.writer.done
    case TestLength(_) => s.reader.Idle?
    case ReadSize => s.reader.Short?
    case ReadFill => s.reader.Sized?
    case LoadByte(k) => s.reader.Loading? && k < s.reader.size
    case EndRead => s.reader.Loading? && !s.writer.Storing? && forall k: nat :: k < s.reader.size ==> k in s.reader.got
  }

  function Apply(s: State, a: Action): State
    requires Shape(s) && Enabled(s, a)
  {
    var total := |s.buf|;
    match a
    case CheckSpace(data) => if s.valideLen < |data| then s else s.(writer := Checked(data))
    case TakeLock => s.(writer := Storing(s.writer.data, {}))
    case StoreByte(k) =>
      s.(buf := s.buf[Wrap(s.wr + k, total) := s.writer.data[k]],
         writer := s.writer.(done := s.writer.done + {k}))
    case EndWrite =>
      var n := |s.writer.data|;
      s.(wr := WriteAdvance(s.wr, n, total), dataLen := s.dataLen + n, valideLen := s.valideLen - n,
         accepted := s.accepted + s.writer.data, writer := Away)
    case TestLength(want) => s.(reader := if s.dataLen < want then Short(want) else Loading(want, want, 0, map[]))
    case ReadSize => s.(reader := Sized(s.reader.want, s.dataLen))
    case ReadFill => s.(reader := Loading(s.reader.want, s.reader.size, s.reader.want - s.dataLen, map[]))
    case LoadByte(k) =>
      s.(reader := s.reader.(got := s.reader.got[k := s.buf[Wrap(s.rd + k, total)]]))
    case EndRead =>
      var n := s.reader.size;
      s.(rd := Wrap(s.rd + n, total), dataLen := s.dataLen - n, valideLen := s.valideLen + n,
         delivered := s.delivered + seq(n, k requires 0 <= k < n => s.reader.got[k]), reader := Idle)
  }

  /** The writer's data is where it will become readable; the reader has loaded unread bytes. */
  ghost predicate Inv(s: State) {
    && Shape(s)
    && s.accepted == s.delivered + Unread(s.buf, s.rd, s.dataLen)
    && (s.writer.Storing? ==>
          forall k :: k in s.writer.done && k < |s.writer.data| ==> s.buf[Wrap(s.wr + k, |s.buf|)] == s.writer.data[k])
    && (s.reader.Loading? ==>
          forall k :: k in s.reader.got && k < s.reader.size ==> s.reader.got[k] == Unread(s.buf, s.rd, s.dataLen)[k])
  }

  /** A byte being stored is never one that is unread. */
  lemma StoreMissesUnread(s: State, k: nat)
    requires Shape(s) && Enabled(s, StoreByte(k))
    ensures Unread(Apply(s, StoreByte(k)).buf, s.rd, s.dataLen) == Unread(s.buf, s.rd, s.dataLen)
  {
  }

  /** Nor does it overwrite another byte of the same write. */
  lemma StoreKeepsStored(s: State, k: nat, j: nat)
    requires Inv(s) && Enabled(s, StoreByte(k)) && j < |s.writer.data| && (j == k || j in s.writer.done)
    ensures Apply(s, StoreByte(k)).buf[Wrap(s.wr + j, |s.buf|)] == s.writer.data[j]
  {
  }

  lemma StoreKeepsInv(s: State, k: nat)
    requires Inv(s) && Enabled(s, StoreByte(k))
    ensures Inv(Apply(s, StoreByte(k)))
  {
    StoreMissesUnread(s, k);
    var s' := Apply(s, StoreByte(k));
    forall j | j in s'.writer.done && j < |s'.writer.data| ensures s'.buf[Wrap(s'.wr + j, |s'.buf|)] == s'.writer.data[j] {
      StoreKeepsStored(s, k, j);
    }
  }

  lemma WrittenFollows(buf: seq<byte>, rd: nat, wr: nat, len: nat, data: seq<byte>)
    requires PointersAgree(rd, wr, len, |buf|) && len + |data| <= |buf|
    requires forall k :: 0 <= k < |data| ==> buf[Wrap(wr + k, |buf|)] == data[k]
    ensures Unread(buf, rd, len + |data|) == Unread(buf, rd, len) + data
  {
    forall k | 0 <= k < |data| ensures Unread(buf, rd, len + |data|)[len + k] == data[k] {
      WriteIsAhead(rd, wr, len, |buf|, k);
    }
  }

  lemma EndWriteAppends(s: State)
    requires Inv(s) && Enabled(s, EndWrite)
    ensures var s' := Apply(s, EndWrite);
            Shape(s') && Unread(s'.buf, s'.rd, s'.dataLen) == Unread(s.buf, s.rd, s.dataLen) + s.writer.data
  {
    WrittenFollows(s.buf, s.rd, s.wr, s.dataLen, s.writer.data);
  }

  lemma EndWriteKeepsInv(s: State)
    requires Inv(s) && Enabled(s, EndWrite)
    ensures Inv(Apply(s, EndWrite))
  {
    EndWriteAppends(s);
  }

  lemma EndReadRemoves(s: State)
    requires Inv(s) && Enabled(s, EndRead)
    ensures var s', u := Apply(s, EndRead), Unread(s.buf, s.rd, s.dataLen);
            && Shape(s') && s'.delivered == s.delivered + u[..s.reader.size]
            && Unread(s'.buf, s'.rd, s'.dataLen) == u[s.reader.size..]
  {
  }

  lemma SplitJoin(a: seq<byte>, u: seq<byte>, n: nat)
    requires n <= |u|
    ensures (a + u[..n]) + u[n..] == a + u
  {
  }

  lemma EndReadKeepsInv(s: State)
    requires Inv(s) && Enabled(s, EndRead)
    ensures Inv(Apply(s, EndRead))
  {
    EndReadRemoves(s);
    SplitJoin(s.delivered, Unread(s.buf, s.rd, s.dataLen), s.reader.size);
  }

  lemma StepKeepsInv(s: State, a: Action)
    requires Inv(s) && Enabled(s, a)
    ensures Inv(Apply(s, a))
  {
    match a
    case StoreByte(k) => StoreKeepsInv(s, k);
    case EndWrite => EndWriteKeepsInv(s);
    case EndRead => EndReadKeepsInv(s);
    case LoadByte(k) => assert Unread(s.buf, s.rd, s.dataLen)[k] == s.buf[Wrap(s.rd + k, |s.buf|)];
    case _ =>
  }

  function Start(buf: seq<byte>): State {
    State(buf, 0, 0, 0, |buf|, Away, Idle, [], [])
  }

  /** s' can be reached from s by the steps of `run`. */
  ghost predicate Leads(s: State, run: seq<Action>, s': State)
    decreases |run|
  {
    if run == [] then s' == s
    else Shape(s) && Enabled(s, run[0]) && Leads(Apply(s, run[0]), run[1..], s')
  }

  lemma {:induction false} RunKeepsInv(s: State, run: seq<Action>, s': State)
    requires Inv(s) && Leads(s, run, s')
    ensures Inv(s')
    decreases |run|
  {
    if run == [] {
    } else {
      StepKeepsInv(s, run[0]);
      RunKeepsInv(Apply(s, run[0]), run[1..], s');
    }
  }

  /** Main result: however the two threads interleave, what was read is a prefix of what was
      written, what is still unread is the rest of it, the space the writer checked is still
      there when it gets the lock, and the byte counts add up. */
  lemma RingIsFifoUnderInterleaving(buf: seq<byte>, run: seq<Action>, s: State)
    requires buf != [] && Leads(Start(buf), run, s)
    ensures Shape(s) && s.delivered <= s.accepted
    ensures s.accepted == s.delivered + Unread(s.buf, s.rd, s.dataLen)
  {
    RunKeepsInv(Start(buf), run, s);
  }

  /** A copy in progress has loaded only bytes it will be right to deliver, whatever the writer
      stored since it began. */
  lemma LoadedBytesAreNextInOrder(buf: seq<byte>, run: seq<Action>, s: State, k: nat)
    requires buf != [] && Leads(Start(buf), run, s)
    requires s.reader.Loading? && k in s.reader.got && k < s.reader.size
    ensures |s.delivered| + k < |s.accepted| && s.reader.got[k] == s.accepted[|s.delivered| + k]
  {
    RunKeepsInv(Start(buf), run, s);
  }

  // ---- What one read and one write do --------------------------------------------------------------

  /** While a copy is in progress nothing is delivered and its size stays, whatever the threads do short
      of finishing it. */
  lemma CopyGoesOn(s: State, a: Action)
    requires Inv(s) && Enabled(s, a) && s.reader.Loading? && a != EndRead
    ensures var s' := Apply(s, a);
            s'.reader.Loading? && s'.reader.size == s.reader.size && s'.delivered == s.delivered && s.accepted <= s'.accepted
  {
  }

  lemma {:induction false} CopyRun(s: State, run: seq<Action>, s': State)
    requires Inv(s) && Leads(s, run, s') && s.reader.Loading? && forall k :: 0 <= k < |run| ==> run[k] != EndRead
    ensures Inv(s') && s'.reader.Loading? && s'.reader.size == s.reader.size
    ensures s'.delivered == s.delivered && s.accepted <= s'.accepted
    decreases |run|
  {
    if run == [] {
    } else {
      CopyGoesOn(s, run[0]);
      StepKeepsInv(s, run[0]);
      CopyRun(Apply(s, run[0]), run[1..], s');
    }
  }

  lemma SameFront(d: seq<byte>, u: seq<byte>, u': seq<byte>, n: nat)
    requires d + u <= d + u' && n <= |u|
    ensures u[..n] == u'[..n]
  {
    forall k | 0 <= k < n ensures u[k] == u'[k] {
      assert u[k] == (d + u)[|d| + k] == (d + u')[|d| + k];
    }
  }

  /** Finishing a copy of n bytes delivers the next n of the bytes that were accepted. */
  lemma CopyDelivers(s: State, s': State)
    requires Inv(s) && Inv(s') && Enabled(s', EndRead) && s'.delivered == s.delivered && s.accepted <= s'.accepted
    requires s'.reader.size <= s.dataLen
    ensures Apply(s', EndRead).delivered == s.delivered + Unread(s.buf, s.rd, s.dataLen)[..s'.reader.size]
  {
    EndReadRemoves(s');
    SameFront(s.delivered, Unread(s.buf, s.rd, s.dataLen), Unread(s'.buf, s'.rd, s'.dataLen), s'.reader.size);
  }

  lemma LeadsFirst(s: State, a: Action, run: seq<Action>, s': State)
    requires Leads(s, [a] + run, s')
    ensures Shape(s) && Enabled(s, a) && Leads(Apply(s, a), run, s')
  {
    assert ([a] + run)[1..] == run;
  }

  /** A read of no more bytes than are unread delivers exactly as many as it asks for: the oldest ones,
      whatever the writer does between its test of DataLen and its end. */
  lemma FullReadDelivers(s: State, want: nat, run: seq<Action>, s': State)
    requires Inv(s) && s.reader.Idle? && want <= s.dataLen
    requires Leads(s, [TestLength(want)] + run, s') && Enabled(s', EndRead) && forall k :: 0 <= k < |run| ==> run[k] != EndRead
    ensures Shape(s') && Apply(s', EndRead).delivered == s.delivered + Unread(s.buf, s.rd, s.dataLen)[..want]
  {
    LeadsFirst(s, TestLength(want), run, s');
    var s1 := Apply(s, TestLength(want));
    assert s1 == s.(reader := Loading(want, want, 0, map[]));
    StepKeepsInv(s, TestLength(want));
    CopyRun(s1, run, s');
    CopyDelivers(s, s');
  }

  lemma FillRun(s: State, run: seq<Action>, s': State)
    requires Inv(s) && s.reader.Sized? && Leads(s, [ReadFill] + run, s') && forall k :: 0 <= k < |run| ==> run[k] != EndRead
    ensures Inv(s') && s'.reader.Loading? && s'.reader.size == s.reader.size
    ensures s'.delivered == s.delivered && s.accepted <= s'.accepted
  {
    LeadsFirst(s, ReadFill, run, s');
    StepKeepsInv(s, ReadFill);
    var s1 := Apply(s, ReadFill);
    assert s1 == s.(reader := s1.reader) && s1.reader.Loading? && s1.reader.size == s.reader.size;
    CopyRun(s1, run, s');
  }

  // ---- The three looks at DataLen ---------------------------------------------------------------

  predicate OfWriter(a: Action) {
    a.CheckSpace? || a.TakeLock? || a.StoreByte? || a.EndWrite?
  }

  /** The writer's steps leave the reader alone, and DataLen grows by exactly what is written. */
  lemma WriterStep(s: State, a: Action)
    requires Shape(s) && Enabled(s, a) && OfWriter(a)
    ensures var s' := Apply(s, a);
            && s'.reader == s.reader && s'.delivered == s.delivered
            && s.accepted <= s'.accepted && s'.dataLen - s.dataLen == |s'.accepted| - |s.accepted|
  {
  }

  lemma {:induction false} WriterRun(s: State, run: seq<Action>, s': State)
    requires Inv(s) && Leads(s, run, s') && forall k :: 0 <= k < |run| ==> OfWriter(run[k])
    ensures Inv(s') && s'.reader == s.reader
    ensures s.accepted <= s'.accepted && s'.dataLen - s.dataLen == |s'.accepted| - |s.accepted|
    decreases |run|
  {
    if run == [] {
    } else {
      WriterStep(s, run[0]);
      StepKeepsInv(s, run[0]);
      WriterRun(Apply(s, run[0]), run[1..], s');
    }
  }

  /** From the second look at DataLen to the third, with only the writer running in between. */
  lemma SizedRun(s: State, run: seq<Action>, s': State)
    requires Inv(s) && s.reader.Short? && Leads(s, [ReadSize] + run, s')
    requires forall k :: 0 <= k < |run| ==> OfWriter(run[k])
    ensures Inv(s') && s'.reader == Sized(s.reader.want, s.dataLen)
    ensures s.accepted <= s'.accepted && s'.dataLen - s.dataLen == |s'.accepted| - |s.accepted|
  {
    LeadsFirst(s, ReadSize, run, s');
    StepKeepsInv(s, ReadSize);
    var s1 := Apply(s, ReadSize);
    assert s1.reader == Sized(s.reader.want, s.dataLen) && s1.accepted == s.accepted && s1.dataLen == s.dataLen;
    WriterRun(s1, run, s');
  }

  /** The writer delivers nothing. */
  lemma {:induction false} WriterDeliversNothing(s: State, run: seq<Action>, s': State)
    requires Inv(s) && Leads(s, run, s') && forall k :: 0 <= k < |run| ==> OfWriter(run[k])
    ensures s'.delivered == s.delivered
    decreases |run|
  {
    if run == [] {
    } else {
      StepKeepsInv(s, run[0]);
      WriterStep(s, run[0]);
      WriterDeliversNothing(Apply(s, run[0]), run[1..], s');
    }
  }

  lemma DeliveredStays(s: State, run: seq<Action>, s': State)
    requires Inv(s) && s.reader.Short? && Leads(s, [ReadSize] + run, s') && forall k :: 0 <= k < |run| ==> OfWriter(run[k])
    ensures s'.delivered == s.delivered
  {
    LeadsFirst(s, ReadSize, run, s');
    StepKeepsInv(s, ReadSize);
    var s1 := Apply(s, ReadSize);
    assert s1.delivered == s.delivered;
    WriterDeliversNothing(s1, run, s');
  }

  /** An underflowing read delivers all that is unread at its second look. */
  lemma UnderflowDelivers(s: State, run: seq<Action>, run': seq<Action>, s1: State, s': State)
    requires Inv(s) && s.reader.Short? && Leads(s, [ReadSize] + run, s1) && Leads(s1, [ReadFill] + run', s')
    requires (forall k :: 0 <= k < |run| ==> OfWriter(run[k])) && (forall k :: 0 <= k < |run'| ==> run'[k] != EndRead)
    requires Enabled(s', EndRead)
    ensures Shape(s') && Apply(s', EndRead).delivered == s.delivered + Unread(s.buf, s.rd, s.dataLen)
  {
    SizedRun(s, run, s1);
    DeliveredStays(s, run, s1);
    FillRun(s1, run', s');
    CopyDelivers(s, s');
    assert Unread(s.buf, s.rd, s.dataLen)[..s.dataLen] == Unread(s.buf, s.rd, s.dataLen);
  }

  lemma LeadsFrom(s: State, a: Action, run: seq<Action>, s': State)
    requires Shape(s) && Enabled(s, a) && Leads(Apply(s, a), run, s')
    ensures Leads(s, [a] + run, s')
  {
    assert ([a] + run)[1..] == run;
  }

  /** A read that asks for what it can have can be finished by the reader alone. */
  lemma {:induction false} LoadsRest(s: State, k: nat) returns (run: seq<Action>, s': State)
    requires Inv(s) && s.reader.Loading? && k <= s.reader.size && forall j: nat :: j < k ==> j in s.reader.got
    ensures Leads(s, run, s') && Shape(s') && s'.writer == s.writer && s'.reader.Loading? && s'.reader.size == s.reader.size
    ensures forall j: nat :: j < s.reader.size ==> j in s'.reader.got
    decreases s.reader.size - k
  {
    if k == s.reader.size {
      run, s' := [], s;
    } else {
      StepKeepsInv(s, LoadByte(k));
      var s1 := Apply(s, LoadByte(k));
      assert s1 == s.(reader := s.reader.(got := s1.reader.got)) && s1.reader.got.Keys == s.reader.got.Keys + {k};
      var rest;
      rest, s' := LoadsRest(s1, k + 1);
      LeadsFrom(s, LoadByte(k), rest, s');
      run := [LoadByte(k)] + rest;
    }
  }

  /** A write that does not fit changes nothing; one that fits adds exactly its bytes once it is done,
      whatever the reader does meanwhile. */
  lemma WriteTurnedAway(s: State, data: seq<byte>)
    requires Shape(s) && s.writer.Away? && |data| > s.valideLen
    ensures Apply(s, CheckSpace(data)) == s
  {
  }

  lemma WriteGoesOn(s: State, a: Action)
    requires Inv(s) && Enabled(s, a) && !s.writer.Away? && a != EndWrite
    ensures var s' := Apply(s, a); !s'.writer.Away? && s'.writer.data == s.writer.data && s'.accepted == s.accepted
  {
  }

  lemma {:induction false} WriteRun(s: State, run: seq<Action>, s': State)
    requires Inv(s) && Leads(s, run, s') && !s.writer.Away? && forall k :: 0 <= k < |run| ==> run[k] != EndWrite
    ensures Inv(s') && !s'.writer.Away? && s'.writer.data == s.writer.data && s'.accepted == s.accepted
    decreases |run|
  {
    if run == [] {
    } else {
      WriteGoesOn(s, run[0]);
      StepKeepsInv(s, run[0]);
      WriteRun(Apply(s, run[0]), run[1..], s');
    }
  }

  lemma WriteAccepts(s: State, data: seq<byte>, run: seq<Action>, s': State)
    requires Inv(s) && s.writer.Away? && |data| <= s.valideLen
    requires Leads(s, [CheckSpace(data)] + run, s') && Enabled(s', EndWrite) && forall k :: 0 <= k < |run| ==> run[k] != EndWrite
    ensures Shape(s') && Apply(s', EndWrite).accepted == s.accepted + data
  {
    LeadsFirst(s, CheckSpace(data), run, s');
    var s1 := Apply(s, CheckSpace(data));
    assert s1 == s.(writer := Checked(data));
    StepKeepsInv(s, CheckSpace(data));
    WriteRun(s1, run, s');
  }

  /** A write that has passed its check can be finished by the writer alone. */
  lemma {:induction false} StoresRest(s: State, k: nat) returns (run: seq<Action>, s': State)
    requires Inv(s) && s.writer.Storing? && k <= |s.writer.data| && forall j: nat :: j < k ==> j in s.writer.done
    ensures Leads(s, run, s') && Shape(s') && s'.writer.Storing? && s'.writer.data == s.writer.data
    ensures forall j: nat :: j < |s.writer.data| ==> j in s'.writer.done
    decreases |s.writer.data| - k
  {
    if k == |s.writer.data| {
      run, s' := [], s;
    } else {
      StepKeepsInv(s, StoreByte(k));
      var s1 := Apply(s, StoreByte(k));
      assert s1.writer == s.writer.(done := s.writer.done + {k});
      var rest;
      rest, s' := StoresRest(s1, k + 1);
      LeadsFrom(s, StoreByte(k), rest, s');
      run := [StoreByte(k)] + rest;
    }
  }

  /** How the amounts of an underflowing read come out when `first` more bytes are written between its
      test of DataLen and its second look, and `second` between that and the third. */
  ghost predicate Amounts(s: State, s1: State, s2: State)
    requires s2.reader.Sized?
  {
    var size, fill, want := s2.reader.size, s2.reader.want - s2.dataLen, s2.reader.want;
    var first, second := |s1.accepted| - |s.accepted|, |s2.accepted| - |s1.accepted|;
    && 0 <= first && 0 <= second
    && size == s.dataLen + first && fill == want - size - second
    && (size + fill == want <==> s2.accepted == s1.accepted)
    && (size <= want && 0 <= fill <==> s2.dataLen <= want)
  }

  lemma AmountsAddUp(s: State, s1: State, s2: State)
    requires s2.reader.Sized? && s2.reader.size == s1.dataLen
    requires s.accepted <= s1.accepted && s1.dataLen - s.dataLen == |s1.accepted| - |s.accepted|
    requires s1.accepted <= s2.accepted && s2.dataLen - s1.dataLen == |s2.accepted| - |s1.accepted|
    ensures Amounts(s, s1, s2)
  {
  }

  /** Bytes to copy and bytes to fill make up the request exactly when no write is finished between the
      second and the third look; neither exceeds it exactly when the writes leave room. */
  lemma ReadAmounts(s: State, run: seq<Action>, s1: State, run': seq<Action>, s2: State)
    requires Inv(s) && s.reader.Short? && Leads(s, run, s1) && Leads(s1, [ReadSize] + run', s2)
    requires forall k :: 0 <= k < |run| ==> OfWriter(run[k])
    requires forall k :: 0 <= k < |run'| ==> OfWriter(run'[k])
    ensures s2.reader.Sized? && Amounts(s, s1, s2)
  {
    WriterRun(s, run, s1);
    SizedRun(s1, run', s2);
    AmountsAddUp(s, s1, s2);
  }

  /** A writer puts one byte into an empty ring. */
  lemma OneByteWritten(s: State) returns (run: seq<Action>, s': State)
    requires Shape(s) && s.writer == Away && s.dataLen == 0 && s.valideLen == 1
    ensures Leads(s, run, s') && Shape(s') && s'.dataLen == 1 && s'.reader == s.reader
  {
    var s1 := Apply(s, CheckSpace([7]));
    var s2 := Apply(s1, TakeLock);
    var s3 := Apply(s2, StoreByte(0));
    s' := Apply(s3, EndWrite);
    LeadsFrom(s3, EndWrite, [], s');
    LeadsFrom(s2, StoreByte(0), [EndWrite], s');
    LeadsFrom(s1, TakeLock, [StoreByte(0)] + [EndWrite], s');
    LeadsFrom(s, CheckSpace([7]), [TakeLock] + ([StoreByte(0)] + [EndWrite]), s');
    run := [CheckSpace([7])] + ([TakeLock] + ([StoreByte(0)] + [EndWrite]));
  }

  /** A ring of one byte, nobody at it. */
  predicate Untouched(s: State) {
    Shape(s) && s.writer == Away && s.reader == Idle && s.dataLen == 0 && s.valideLen == 1
  }

  /** A reader asks an empty ring for one byte and settles on copying none. */
  lemma NothingToCopy(s: State, s1: State, s2: State, rest: seq<Action>, s': State)
    requires Untouched(s) && s1 == s.(reader := Short(1)) && s2 == s.(reader := Sized(1, 0)) && Leads(s2, rest, s')
    ensures Leads(s, [TestLength(1)] + ([ReadSize] + rest), s')
  {
    assert Apply(s, TestLength(1)) == s1 && Apply(s1, ReadSize) == s2;
    LeadsFrom(s1, ReadSize, rest, s');
    LeadsFrom(s, TestLength(1), [ReadSize] + rest, s');
  }

  /** A read for which the amounts do not make up the request: it asks an empty ring for one byte, and
      the byte arrives between the second look and the third, so nothing is copied and nothing filled. */
  lemma AmountsDisagree(s: State) returns (run: seq<Action>, s': State)
    requires Untouched(s)
    ensures Leads(s, run, s') && Shape(s') && Enabled(s', ReadFill)
    ensures var r := Apply(s', ReadFill).reader; r.want == 1 && r.size == 0 && r.fill == 0
  {
    var s2 := s.(reader := Sized(1, 0));
    var rest;
    rest, s' := OneByteWritten(s2);
    NothingToCopy(s, s.(reader := Short(1)), s2, rest, s');
    run := [TestLength(1)] + ([ReadSize] + rest);
  }

  lemma StartIsUntouched(b: byte)
    ensures Untouched(Start([b]))
  {
  }
}
