/** fetch_env.c on bytes: the 8 KB private area with a header and fixed-size records. */
module EnvStore {
  import opened Bytes
  import opened EnvSpec

  /** USER_DATA_MAXSIZE, and the sizes of USER_DATA_HEAR and USER_PRIVATE_DATA. */
  const AREA_SIZE: nat := 8192

  const HEADER_SIZE: nat := 24

  const RECORD_SIZE: nat := 176

  const COUNT_AT: nat := 8

  const VALID_AT: nat := 160

  /** "sunxi". */
  const MAGIC: seq<byte> := [115, 117, 110, 120, 105]

  function At(k: nat): nat {
    HEADER_SIZE + RECORD_SIZE * k
  }

  /** Record k follows a header of 24 bytes and k records of 176: a name of up to 31 bytes, then a value of
      up to 127, then the valid mark. Thirty-one records fit the 8 KB. */
  lemma RecordPlace(k: nat)
    ensures At(k) == 24 + 176 * k && NAME_SIZE == 32 && VALUE_SIZE == 128 && VALID_AT == 32 + 128
    ensures k <= 30 ==> At(k) + RECORD_SIZE <= 8192 == AREA_SIZE
    ensures At(k + 1) == At(k) + RECORD_SIZE && VALID_AT + 4 <= RECORD_SIZE
  {
  }

  /** The C string at `off` is s. */
  predicate StringAt(b: seq<byte>, off: nat, s: seq<byte>) {
    off + |s| < |b| && b[off..off + |s|] == s && b[off + |s|] == 0
  }

  /** A little-endian 32-bit int. */
  function IntAt(b: seq<byte>, off: nat): int
    requires off + 4 <= |b|
  {
    var b0: int, b1: int, b2: int, b3: int := b[off], b[off + 1], b[off + 2], b[off + 3];
    var u := b0 + 0x100 * b1 + 0x1_0000 * b2 + 0x100_0000 * b3;
    if u < 0x8000_0000 then u else u - 0x1_0000_0000
  }

  predicate HasMagic(b: seq<byte>) {
    |MAGIC| <= |b| && b[..|MAGIC|] == MAGIC
  }

  predicate FirstErased(b: seq<byte>)
    requires |b| == AREA_SIZE
  {
    forall p :: HEADER_SIZE <= p < HEADER_SIZE + 8 ==> b[p] == 0xff
  }

  predicate Holds(b: seq<byte>, k: nat, r: Record) {
    StringAt(b, At(k), r.name) && StringAt(b, At(k) + NAME_SIZE, r.value)
  }

  /** The area holds the table `recs`; without a valid header or first record it counts as empty. */
  ghost predicate Represents(b: seq<byte>, recs: seq<Record>) {
    && |b| == AREA_SIZE
    && if recs == [] then !HasMagic(b) || FirstErased(b)
       else
         && HasMagic(b) && !FirstErased(b)
         && IntAt(b, COUNT_AT) == |recs| <= MAX_COUNT + 1
         && forall k :: 0 <= k < |recs| ==> Fits(recs[k]) && Holds(b, k, recs[k])
  }

  /** A record only depends on its own bytes. */
  lemma HoldsFrame(b: seq<byte>, b': seq<byte>, k: nat, r: Record)
    requires Fits(r) && Holds(b, k, r) && |b'| == |b|
    requires forall p :: At(k) <= p < At(k) + VALID_AT && p < |b| ==> b'[p] == b[p]
    ensures Holds(b', k, r)
  {
    assert b'[At(k)..At(k) + |r.name|] == b[At(k)..At(k) + |r.name|];
    var v := At(k) + NAME_SIZE;
    assert b'[v..v + |r.value|] == b[v..v + |r.value|];
  }

  // ---- The C library ------------------------------------------------------------------------

  method Strcpy(buf: array<byte>, off: nat, s: seq<byte>)
    requires off + |s| < buf.Length
    modifies buf
    ensures StringAt(buf[..], off, s)
    ensures forall p :: 0 <= p < buf.Length && !(off <= p <= off + |s|) ==> buf[p] == old(buf[p])
  {
    Memcpy(buf, off, s, 0, |s|);
    buf[off + |s|] := 0;
  }

  /** !strcmp(name, buf + off), where the string at `off` is `there`. */
  method StringsEqual(buf: array<byte>, off: nat, name: seq<byte>, ghost there: seq<byte>) returns (equal: bool)
    requires IsString(name) && IsString(there) && StringAt(buf[..], off, there)
    ensures equal <==> name == there
  {
    assert forall k :: 0 <= k < |there| ==> buf[off + k] == buf[off..off + |there|][k] == there[k];
    var k := 0;
    while k < |name| && buf[off + k] == name[k]
      invariant k <= |name| && k <= |there|
      invariant name[..k] == there[..k]
    {
      k := k + 1;
    }
    equal := k == |name| && buf[off + k] == 0;
    if equal {
      assert k == |there|;
      assert name == name[..k] && there == there[..k];
    }
  }

  /** !strncmp(pattern, buf + off, |pattern|), for a pattern without NUL. */
  method StartsWith(buf: array<byte>, off: nat, pattern: seq<byte>) returns (equal: bool)
    requires off + |pattern| <= buf.Length && IsString(pattern)
    ensures equal <==> buf[off..off + |pattern|] == pattern
  {
    var k := 0;
    while k < |pattern| && buf[off + k] == pattern[k]
      invariant k <= |pattern|
      invariant buf[off..off + k] == pattern[..k]
    {
      k := k + 1;
    }
    equal := k == |pattern|;
    if !equal {
      assert buf[off..off + |pattern|][k] != pattern[k];
    }
  }

  /** Storing a small non-negative int. */
  method SetInt(buf: array<byte>, off: nat, v: nat)
    requires off + 4 <= buf.Length && v < 256
    modifies buf
    ensures IntAt(buf[..], off) == v
    ensures forall p :: 0 <= p < buf.Length && !(off <= p < off + 4) ==> buf[p] == old(buf[p])
  {
    buf[off] := v;
    buf[off + 1] := 0;
    buf[off + 2] := 0;
    buf[off + 3] := 0;
  }

  /** cmp_data_name. */
  const ERASED_NAME: seq<byte> := [0xff, 0xff, 0xff, 0xff, 0xff, 0xff, 0xff, 0xff]

  lemma ErasedName(b: seq<byte>)
    requires |b| == AREA_SIZE
    ensures b[HEADER_SIZE..HEADER_SIZE + |ERASED_NAME|] == ERASED_NAME <==> FirstErased(b)
  {
    var field := b[HEADER_SIZE..HEADER_SIZE + 8];
    assert forall k :: 0 <= k < 8 ==> field[k] == b[HEADER_SIZE + k];
    assert FirstErased(b) ==> forall k :: 0 <= k < 8 ==> field[k] == 0xff;
    assert (forall k :: 0 <= k < 8 ==> field[k] == 0xff) ==> field == ERASED_NAME;
    if field == ERASED_NAME {
      forall p | HEADER_SIZE <= p < HEADER_SIZE + 8 ensures b[p] == 0xff {
        assert b[p] == field[p - HEADER_SIZE];
      }
    }
  }

  lemma FirstErasedIff(b: seq<byte>, r: Record)
    requires |b| == AREA_SIZE && Fits(r) && Holds(b, 0, r)
    ensures FirstErased(b) <==> LooksErased(r.name)
  {
    var n := |r.name|;
    assert forall k :: 0 <= k < n ==> b[HEADER_SIZE + k] == b[HEADER_SIZE..HEADER_SIZE + n][k] == r.name[k];
  }

  /** Only record j's bytes changed, and it now holds r under the same name. */
  lemma Rewritten(b: seq<byte>, b': seq<byte>, recs: seq<Record>, j: nat, r: Record)
    requires Represents(b, recs) && j < |recs| && |b'| == |b| && Fits(r) && r.name == recs[j].name && Holds(b', j, r)
    requires forall p :: 0 <= p < AREA_SIZE && !(At(j) <= p < At(j) + RECORD_SIZE) ==> b'[p] == b[p]
    ensures Represents(b', recs[j := r])
  {
    var recs' := recs[j := r];
    assert b'[..|MAGIC|] == b[..|MAGIC|];
    forall k | 0 <= k < |recs'| ensures Fits(recs'[k]) && Holds(b', k, recs'[k]) {
      if k != j {
        HoldsFrame(b, b', k, recs[k]);
      }
    }
    FirstErasedIff(b, recs[0]);
    FirstErasedIff(b', recs'[0]);
  }

  /** Only the next record's bytes and the count changed. */
  lemma Appended(b: seq<byte>, b': seq<byte>, recs: seq<Record>, r: Record)
    requires Represents(b, recs) && 0 < |recs| <= MAX_COUNT && |b'| == |b| && Fits(r) && Holds(b', |recs|, r)
    requires IntAt(b', COUNT_AT) == |recs| + 1
    requires forall p :: 0 <= p < AREA_SIZE && !(At(|recs|) <= p < At(|recs|) + RECORD_SIZE) && !(COUNT_AT <= p < COUNT_AT + 4) ==>
               b'[p] == b[p]
    ensures Represents(b', recs + [r])
  {
    assert b'[..|MAGIC|] == b[..|MAGIC|];
    forall k | 0 <= k < |recs| ensures Holds(b', k, recs[k]) {
      HoldsFrame(b, b', k, recs[k]);
    }
    FirstErasedIff(b, recs[0]);
    FirstErasedIff(b', recs[0]);
  }

  // ---- The area -------------------------------------------------------------------------------

  class PrivateArea {
    const buf: array<byte>
    ghost var writes: seq<Record>   // everything written since the area was erased

    ghost predicate Valid()
      reads this, buf
    {
      Represents(buf[..], Table(writes))
    }

    /** sunxi_private_store_erase. */
    constructor ()
      ensures Valid() && writes == [] && fresh(buf)
    {
      buf := new byte[AREA_SIZE](_ => 0xff);
      writes := [];
      new;
      assert buf[..][0] == 0xff != MAGIC[0];
    }

    /** The search loop: the first of the searched records with this name, or how many were searched. */
    method Search(name: seq<byte>, count: nat, ghost recs: seq<Record>) returns (j: nat)
      requires IsString(name) && Represents(buf[..], recs) && recs != [] && count == |recs|
      ensures j == Find(recs, Searched(recs), name)
    {
      j := 0;
      while j < count && j < MAX_COUNT
        invariant j <= Searched(recs)
        invariant forall k :: 0 <= k < j ==> recs[k].name != name
      {
        var equal := StringsEqual(buf, At(j), name, recs[j].name);
        if equal {
          return;
        }
        j := j + 1;
      }
    }

    /** Filling in record j: name, value and the valid mark. */
    method FillRecord(j: nat, r: Record)
      requires j <= MAX_COUNT && Fits(r) && buf.Length == AREA_SIZE
      modifies buf
      ensures Holds(buf[..], j, r)
      ensures forall p :: 0 <= p < buf.Length && !(At(j) <= p < At(j) + RECORD_SIZE) ==> buf[p] == old(buf[p])
    {
      Strcpy(buf, At(j), r.name);
      ghost var named := buf[..];
      Strcpy(buf, At(j) + NAME_SIZE, r.value);
      assert buf[At(j)..At(j) + |r.name|] == named[At(j)..At(j) + |r.name|];
      ghost var filled := buf[..];
      SetInt(buf, At(j) + VALID_AT, 1);
      HoldsFrame(filled, buf[..], j, r);
    }

    /** The branch for an empty area: the record becomes the first and only one. */
    method WriteFirst(r: Record)
      requires Fits(r) && buf.Length == AREA_SIZE && HasMagic(buf[..])
      modifies buf
      ensures Represents(buf[..], Put([], r))
    {
      SetInt(buf, COUNT_AT, 1);
      ghost var counted := buf[..];
      FillRecord(0, r);
      assert HasMagic(buf[..]) by {
        assert buf[..|MAGIC|] == counted[..|MAGIC|];
      }
      FirstErasedIff(buf[..], r);
    }

    /** The branch for a known name: its value is replaced. */
    method Replace(j: nat, value: seq<byte>, ghost recs: seq<Record>)
      requires Represents(buf[..], recs) && j < |recs| && j < MAX_COUNT && Fits(Record(recs[j].name, value))
      modifies buf
      ensures Represents(buf[..], recs[j := Record(recs[j].name, value)])
      ensures forall p :: 0 <= p < AREA_SIZE && !(At(j) <= p < At(j) + RECORD_SIZE) ==> buf[p] == old(buf[p])
    {
      ghost var was, r := buf[..], Record(recs[j].name, value);
      Strcpy(buf, At(j) + NAME_SIZE, value);
      ghost var n := |r.name|;
      assert buf[At(j)..At(j) + n] == was[At(j)..At(j) + n];
      ghost var filled := buf[..];
      SetInt(buf, At(j) + VALID_AT, 1);
      HoldsFrame(filled, buf[..], j, r);
      Rewritten(was, buf[..], recs, j, r);
    }

    /** The branch for a new name: its record follows the others. */
    method Append(r: Record, ghost recs: seq<Record>)
      requires Represents(buf[..], recs) && 0 < |recs| <= MAX_COUNT && Fits(r)
      modifies buf
      ensures Represents(buf[..], recs + [r])
      ensures forall p :: 0 <= p < AREA_SIZE && !(At(|recs|) <= p < At(|recs|) + RECORD_SIZE) && !(COUNT_AT <= p < COUNT_AT + 4) ==>
                buf[p] == old(buf[p])
    {
      ghost var was := buf[..];
      var count := IntAt(buf[..], COUNT_AT);
      FillRecord(count, r);
      ghost var filled := buf[..];
      SetInt(buf, COUNT_AT, count + 1);
      HoldsFrame(filled, buf[..], |recs|, r);
      Appended(was, buf[..], recs, r);
    }

    /** The initialisation of an area without the magic name. */
    method Format()
      requires buf.Length == AREA_SIZE
      modifies buf
      ensures HasMagic(buf[..]) && FirstErased(buf[..])
    {
      forall p | 0 <= p < AREA_SIZE {
        buf[p] := 0xff;
      }
      Strcpy(buf, 0, MAGIC);
      ghost var named := buf[..];
      SetInt(buf, COUNT_AT, 0);
      assert buf[..|MAGIC|] == named[..|MAGIC|];
    }

    /** modify_env_parameter; name and value fit their fields, as its strcpys require. No other
        record's bytes are touched. */
    method Write(name: seq<byte>, value: seq<byte>)
      requires Valid() && Fits(Record(name, value))
      modifies this, buf
      ensures Valid() && writes == old(writes) + [Record(name, value)]
      ensures var recs := old(Table(writes));
              var j := Find(recs, Searched(recs), name);
              recs != [] ==> forall p :: 0 <= p < AREA_SIZE && !(At(j) <= p < At(j) + RECORD_SIZE) && !(COUNT_AT <= p < COUNT_AT + 4) ==>
                buf[p] == old(buf[p])
    {
      var r := Record(name, value);
      ghost var recs := Table(writes);
      writes := writes + [r];
      assert writes[..|writes| - 1] == old(writes);
      var known := StartsWith(buf, 0, MAGIC);
      if !known {
        Format();
      }
      var erased := StartsWith(buf, HEADER_SIZE, ERASED_NAME);
      if !erased {
        ErasedName(buf[..]);
        var count := IntAt(buf[..], COUNT_AT);
        if count > 0 {
          var j := Search(name, count, recs);
          if j < count && j < MAX_COUNT {
            Replace(j, value, recs);
          } else if j == count {
            Append(r, recs);
          }
        } else {
          assert false;
        }
      } else {
        ErasedName(buf[..]);
        WriteFirst(r);
      }
    }

    /** strcpy(value, user_data_p->value). */
    method CopyString(off: nat, ghost there: seq<byte>) returns (s: seq<byte>)
      requires IsString(there) && StringAt(buf[..], off, there)
      ensures s == there
    {
      assert forall k :: 0 <= k < |there| ==> buf[off + k] == buf[off..off + |there|][k] == there[k];
      s := [];
      while buf[off + |s|] != 0
        invariant |s| <= |there| && s == there[..|s|]
        decreases |there| - |s|
      {
        s := s + [buf[off + |s|]];
      }
    }

    /** The search loop of check_env_parameter and what follows it. */
    method Lookup(name: seq<byte>, count: nat, ghost recs: seq<Record>) returns (ret: int, value: seq<byte>)
      requires IsString(name) && Represents(buf[..], recs) && recs != [] && count == |recs|
      ensures ret == if Get(recs, name).Some? then 0 else -1
      ensures ret == 0 ==> value == Get(recs, name).value
    {
      ret, value := -1, [];
      var j := Search(name, count, recs);
      if j < count && j < MAX_COUNT {
        value := CopyString(At(j) + NAME_SIZE, recs[j].value);
        ret := 0;
      }
    }

    /** check_env_parameter: 0 and the value, or -1. */
    method Read(name: seq<byte>) returns (ret: int, value: seq<byte>)
      requires Valid() && IsString(name)
      ensures ret == if Expected(writes, name).Some? then 0 else -1
      ensures ret == 0 ==> value == Expected(writes, name).value
    {
      ghost var recs := Table(writes);
      TableIsMap(writes, name);
      ret, value := -1, [];
      var known := StartsWith(buf, 0, MAGIC);
      if !known {
        return;
      }
      var erased := StartsWith(buf, HEADER_SIZE, ERASED_NAME);
      ErasedName(buf[..]);
      if !erased {
        var count := IntAt(buf[..], COUNT_AT);
        if count > 0 {
          ret, value := Lookup(name, count, recs);
        }
      }
    }
  }
}
