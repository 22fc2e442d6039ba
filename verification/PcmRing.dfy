/** pcm_buf_manager: the byte ring between out_write and in_read while the screen is shared. */
module PcmRing {
  import opened Bytes

  /** Pointer arithmetic on the ring, for pointers up to one turn past the end. */
  function Wrap(p: nat, total: nat): nat {
    if p < total then p else p - total
  }

  /** The `len` bytes from offset `rd` on, across the end of the buffer. */
  function Unread(buf: seq<byte>, rd: nat, len: nat): (s: seq<byte>)
    requires rd < |buf| && len <= |buf|
    ensures |s| == len
    ensures forall k :: 0 <= k < len ==> s[k] == buf[Wrap(rd + k, |buf|)]
  {
    seq(len, k requires 0 <= k < len => buf[Wrap(rd + k, |buf|)])
  }

  /** The write pointer is `len` bytes ahead of the read pointer. It may rest at the end of the
      buffer; the read pointer never does. */
  predicate PointersAgree(rd: nat, wr: nat, len: nat, total: nat) {
    && rd < total && wr <= total && len <= total
    && (wr == rd + len || wr + total == rd + len || (wr == total && rd == len == 0))
  }

  /** Byte k of a write lands where byte len + k of the unread bytes will be looked for. */
  lemma WriteIsAhead(rd: nat, wr: nat, len: nat, total: nat, k: nat)
    requires PointersAgree(rd, wr, len, total) && len + k < total
    ensures Wrap(wr + k, total) == Wrap(rd + len + k, total)
  {
  }

  /** Byte p after `data` was stored from the write pointer on, across the end of the buffer. */
  function Stored(buf: seq<byte>, wr: nat, data: seq<byte>, p: nat): byte
    requires p < |buf| && wr <= |buf| && |data| <= |buf|
  {
    if wr <= p < wr + |data| then data[p - wr]
    else if p < wr + |data| - |buf| then data[p + |buf| - wr]
    else buf[p]
  }

  /** What that does to the unread bytes: nothing to the old ones, and the new ones follow them. */
  lemma StoredByte(buf: seq<byte>, rd: nat, wr: nat, len: nat, data: seq<byte>, k: nat)
    requires PointersAgree(rd, wr, len, |buf|) && len + |data| <= |buf| && k < len + |data|
    ensures Stored(buf, wr, data, Wrap(rd + k, |buf|)) == if k < len then buf[Wrap(rd + k, |buf|)] else data[k - len]
  {
    if len <= k {
      WriteIsAhead(rd, wr, len, |buf|, k - len);
    }
  }

  lemma StoredAhead(was: seq<byte>, buf: seq<byte>, buf': seq<byte>, rd: nat, wr: nat, len: nat, data: seq<byte>)
    requires |buf| == |buf'| && PointersAgree(rd, wr, len, |buf|) && len + |data| <= |buf|
    requires was == Unread(buf, rd, len)
    requires forall p :: 0 <= p < |buf| ==> buf'[p] == Stored(buf, wr, data, p)
    ensures Unread(buf', rd, len) == was
    ensures Unread(buf', rd, len + |data|) == was + data
  {
    var now := Unread(buf', rd, len + |data|);
    forall k | 0 <= k < len + |data| ensures now[k] == if k < len then was[k] else data[k - len] {
      StoredByte(buf, rd, wr, len, data, k);
    }
    forall k | 0 <= k < len ensures Unread(buf', rd, len)[k] == was[k] {
      StoredByte(buf, rd, wr, len, data, k);
    }
  }

  /** Where the write pointer goes: it wraps only past the end, not at it. */
  function WriteAdvance(wr: nat, n: nat, total: nat): nat {
    if wr + n > total then wr + n - total else wr + n
  }

  class PcmBufManager {
    const bufStart: array<byte>   // BufTotalLen is its length
    var bufReadPtr: nat           // offsets from BufStart
    var bufWritPtr: nat
    var dataLen: nat
    var bufValideLen: nat

    predicate Valid()
      reads this
    {
      && PointersAgree(bufReadPtr, bufWritPtr, dataLen, bufStart.Length)
      && dataLen + bufValideLen == bufStart.Length
    }

    /** The bytes written and not yet read, oldest first. */
    function Contents(): (s: seq<byte>)
      requires Valid()
      reads this, bufStart
    {
      Unread(bufStart[..], bufReadPtr, dataLen)
    }

    constructor (total: nat)
      requires 0 < total
      ensures Valid() && Contents() == [] && fresh(bufStart) && bufStart.Length == total
    {
      bufStart := new byte[total];
      bufReadPtr, bufWritPtr, dataLen, bufValideLen := 0, 0, 0, total;
    }

    /** The memcpys of WritePcmData. */
    method StoreAhead(inbuf: seq<byte>)
      requires Valid() && |inbuf| <= bufValideLen
      modifies bufStart
      ensures Contents() == old(Contents())
      ensures Unread(bufStart[..], bufReadPtr, dataLen + |inbuf|) == old(Contents()) + inbuf
    {
      ghost var was := Contents();
      if bufWritPtr + |inbuf| > bufStart.Length {
        var endSize := bufStart.Length - bufWritPtr;
        Memcpy(bufStart, bufWritPtr, inbuf, 0, endSize);
        Memcpy(bufStart, 0, inbuf, endSize, |inbuf| - endSize);
      } else {
        Memcpy(bufStart, bufWritPtr, inbuf, 0, |inbuf|);
      }
      StoredAhead(was, old(bufStart[..]), bufStart[..], bufReadPtr, bufWritPtr, dataLen, inbuf);
    }

    /** All of the bytes are appended, or none and -1 is returned. What was unread stays where it
        is, so a reader copying it meanwhile is not disturbed. */
    method WritePcmData(inbuf: seq<byte>) returns (ret: int)
      requires Valid()
      modifies this, bufStart
      ensures Valid() && bufReadPtr == old(bufReadPtr)
      ensures ret == if |inbuf| <= old(bufValideLen) then 0 else -1
      ensures Contents() == if ret == 0 then old(Contents()) + inbuf else old(Contents())
      ensures Unread(bufStart[..], bufReadPtr, old(dataLen)) == old(Contents())
    {
      if bufValideLen < |inbuf| {
        return -1;
      }
      StoreAhead(inbuf);
      bufWritPtr := WriteAdvance(bufWritPtr, |inbuf|, bufStart.Length);
      bufValideLen := bufValideLen - |inbuf|;
      dataLen := dataLen + |inbuf|;
      ret := 0;
    }

    /** The two memcpys of ReadPcmData, done without the lock. */
    method CopyOut(pBuf: array<byte>, sizeRead: nat)
      requires Valid() && pBuf != bufStart && sizeRead <= dataLen && sizeRead <= pBuf.Length
      modifies pBuf
      ensures pBuf[..sizeRead] == Contents()[..sizeRead]
    {
      if bufReadPtr + sizeRead > bufStart.Length {
        var len1 := bufStart.Length - bufReadPtr;
        Memcpy(pBuf, 0, bufStart[..], bufReadPtr, len1);
        Memcpy(pBuf, len1, bufStart[..], 0, sizeRead - len1);
      } else {
        Memcpy(pBuf, 0, bufStart[..], bufReadPtr, sizeRead);
      }
    }

    /** The pointer update of ReadPcmData, done under the lock. */
    method Consume(sizeRead: nat)
      requires Valid() && sizeRead <= dataLen
      modifies this
      ensures Valid() && Contents() == old(Contents())[sizeRead..]
    {
      bufReadPtr := bufReadPtr + sizeRead;
      if bufReadPtr >= bufStart.Length {
        bufReadPtr := bufReadPtr - bufStart.Length;
      }
      dataLen := dataLen - sizeRead;
      bufValideLen := bufValideLen + sizeRead;
    }

    /** Delivers the oldest bytes; on underflow the last of them fills the rest of the request, or,
        if there is none, whatever byte lies before the caller's buffer. */
    method ReadPcmData(pBuf: array<byte>, uGetLen: nat, before: byte) returns (ret: int)
      requires Valid() && pBuf != bufStart && uGetLen <= pBuf.Length
      modifies this, pBuf
      ensures Valid() && ret == uGetLen
      ensures var n := if old(dataLen) < uGetLen then old(dataLen) else uGetLen;
              && pBuf[..n] == old(Contents())[..n]
              && (forall k :: n <= k < uGetLen ==> pBuf[k] == if n > 0 then pBuf[n - 1] else before)
              && Contents() == old(Contents())[n..]
    {
      var sizeRead := uGetLen;
      if dataLen < uGetLen {
        sizeRead := dataLen;
      }
      CopyOut(pBuf, sizeRead);
      Consume(sizeRead);
      if sizeRead < uGetLen {
        var fill := if sizeRead > 0 then pBuf[sizeRead - 1] else before;
        forall k | sizeRead <= k < uGetLen {
          pBuf[k] := fill;
        }
      }
      ret := uGetLen;
    }
  }
}
