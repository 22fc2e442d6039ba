/** fetch_env.c on values: the table of records the private area holds, and the finite map it is
    meant to be. */
module EnvSpec {
  import opened Bytes

  const NAME_SIZE: nat := 32

  const VALUE_SIZE: nat := 128

  /** USER_DATA_PARAMETER_MAX_COUNT: only that many records are ever searched. */
  const MAX_COUNT: nat := 30

  /** A C string without its final NUL. */
  predicate IsString(s: seq<byte>) {
    forall k :: 0 <= k < |s| ==> s[k] != 0
  }

  datatype Record = Record(name: seq<byte>, value: seq<byte>)

  /** Name and value fit their fields. */
  predicate Fits(r: Record) {
    IsString(r.name) && |r.name| < NAME_SIZE && IsString(r.value) && |r.value| < VALUE_SIZE
  }

  /** A first record with such a name looks like erased flash. */
  predicate LooksErased(name: seq<byte>) {
    |name| >= 8 && forall k :: 0 <= k < 8 ==> name[k] == 0xff
  }

  /** The first record among the first n with this name, or n. */
  function Find(recs: seq<Record>, n: nat, name: seq<byte>): (j: nat)
    requires n <= |recs|
    ensures j <= n && (j < n ==> recs[j].name == name)
    ensures forall k :: 0 <= k < j ==> recs[k].name != name
  {
    if n == 0 then 0
    else
      var j := Find(recs, n - 1, name);
      if j < n - 1 || recs[n - 1].name == name then j else n
  }

  function Searched(recs: seq<Record>): nat {
    if |recs| < MAX_COUNT then |recs| else MAX_COUNT
  }

  /** modify_env_parameter on the table. */
  function Put(recs: seq<Record>, w: Record): (recs': seq<Record>)
    ensures recs' != [] ==> |recs| <= |recs'|
  {
    if recs == [] then
      if LooksErased(w.name) then [] else [w]
    else
      var j := Find(recs, Searched(recs), w.name);
      if j < Searched(recs) then recs[j := Record(recs[j].name, w.value)]
      else if |recs| <= MAX_COUNT then recs + [w]
      else recs
  }

  datatype Option<T> = None | Some(value: T)

  /** check_env_parameter on the table. */
  function Get(recs: seq<Record>, name: seq<byte>): Option<seq<byte>> {
    var j := Find(recs, Searched(recs), name);
    if j < Searched(recs) then Some(recs[j].value) else None
  }

  /** The table after a sequence of writes to an erased area. */
  function Table(writes: seq<Record>): seq<Record> {
    if writes == [] then [] else Put(Table(writes[..|writes| - 1]), writes[|writes| - 1])
  }

  // ---- The reference: a finite map -------------------------------------------------------

  /** The writes that take effect: those before the first name that does not look erased are lost. */
  function Effective(writes: seq<Record>): seq<Record> {
    if writes == [] then []
    else
      var before, w := Effective(writes[..|writes| - 1]), writes[|writes| - 1];
      if before == [] && LooksErased(w.name) then [] else before + [w]
  }

  /** Last written value of each name. */
  function LastValues(writes: seq<Record>): map<seq<byte>, seq<byte>> {
    if writes == [] then map[]
    else
      var w := writes[|writes| - 1];
      LastValues(writes[..|writes| - 1])[w.name := w.value]
  }

  /** The names in the order they were first written. */
  function Names(writes: seq<Record>): seq<seq<byte>> {
    if writes == [] then []
    else
      var before, name := Names(writes[..|writes| - 1]), writes[|writes| - 1].name;
      if name in before then before else before + [name]
  }

  /** What a reader of the area should get: the map, for the first thirty names. */
  function Expected(writes: seq<Record>, name: seq<byte>): Option<seq<byte>> {
    var ws := Effective(writes);
    var names := Names(ws);
    var kept := if |names| < MAX_COUNT then names else names[..MAX_COUNT];
    if name in kept && name in LastValues(ws) then Some(LastValues(ws)[name]) else None
  }

  lemma {:induction false} NamesAreKeys(ws: seq<Record>)
    ensures forall n :: n in Names(ws) <==> n in LastValues(ws)
    ensures forall i, j :: 0 <= i < j < |Names(ws)| ==> Names(ws)[i] != Names(ws)[j]
    ensures |Names(ws)| == |LastValues(ws)|
    ensures ws != [] ==> Names(ws) != []
  {
    if ws == [] {
    } else {
      var before, w := ws[..|ws| - 1], ws[|ws| - 1];
      NamesAreKeys(before);
      assert w.name in Names(before) || w.name !in LastValues(before);
    }
  }

  /** The table against the reference: the first 31 names in order, and for the first thirty the
      last value. */
  ghost predicate Agrees(recs: seq<Record>, ws: seq<Record>) {
    var names := Names(ws);
    && |recs| == (if |names| <= MAX_COUNT then |names| else MAX_COUNT + 1)
    && (forall k :: 0 <= k < |recs| ==> recs[k].name == names[k])
    && (forall k :: 0 <= k < |recs| && k < MAX_COUNT ==> names[k] in LastValues(ws) && recs[k].value == LastValues(ws)[names[k]])
  }

  lemma OneMore(ws: seq<Record>, w: Record)
    ensures Names(ws + [w]) == if w.name in Names(ws) then Names(ws) else Names(ws) + [w.name]
    ensures LastValues(ws + [w]) == LastValues(ws)[w.name := w.value]
  {
    assert (ws + [w])[..|ws|] == ws;
  }

  /** A write to a name the table finds. */
  lemma ReplaceAgrees(recs: seq<Record>, ws: seq<Record>, w: Record, j: nat)
    requires Agrees(recs, ws) && j < Searched(recs) && recs[j].name == w.name
    ensures Agrees(recs[j := w], ws + [w])
  {
    assert (ws + [w])[..|ws|] == ws;
    NamesAreKeys(ws);
    assert w.name == Names(ws)[j];
    forall k | 0 <= k < |recs| && k != j ensures Names(ws)[k] != w.name {
    }
  }

  /** A write to a name the table does not find, while there is room ... */
  lemma AppendAgrees(recs: seq<Record>, ws: seq<Record>, w: Record)
    requires Agrees(recs, ws) && |recs| <= MAX_COUNT
    requires forall k :: 0 <= k < |recs| ==> recs[k].name != w.name
    ensures Agrees(recs + [w], ws + [w])
  {
    OneMore(ws, w);
    NamesAreKeys(ws);
    var names := Names(ws);
    forall k | 0 <= k < |names| ensures names[k] != w.name {
      assert recs[k].name != w.name;
    }
  }

  /** ... and when there is none left. */
  lemma FullAgrees(recs: seq<Record>, ws: seq<Record>, w: Record)
    requires Agrees(recs, ws) && |recs| > MAX_COUNT
    requires forall k :: 0 <= k < MAX_COUNT ==> recs[k].name != w.name
    ensures Agrees(recs, ws + [w])
  {
    OneMore(ws, w);
    NamesAreKeys(ws);
    assert forall k :: 0 <= k < MAX_COUNT ==> recs[k].name == Names(ws)[k] != w.name;
  }

  /** One more write to a table that is not empty. */
  lemma PutAgrees(recs: seq<Record>, ws: seq<Record>, w: Record)
    requires Agrees(recs, ws) && recs != []
    ensures Agrees(Put(recs, w), ws + [w])
  {
    var j := Find(recs, Searched(recs), w.name);
    if j < Searched(recs) {
      ReplaceAgrees(recs, ws, w, j);
    } else if |recs| <= MAX_COUNT {
      AppendAgrees(recs, ws, w);
    } else {
      FullAgrees(recs, ws, w);
    }
  }

  lemma {:induction false} TableAgrees(writes: seq<Record>)
    ensures Agrees(Table(writes), Effective(writes))
  {
    if writes == [] {
    } else {
      var before, w := writes[..|writes| - 1], writes[|writes| - 1];
      TableAgrees(before);
      NamesAreKeys(Effective(before));
      if Table(before) != [] {
        PutAgrees(Table(before), Effective(before), w);
      } else {
        assert Effective(before) == [];
        assert [w][..0] == [];
      }
    }
  }

  /** Main result: after any sequence of writes, of any names, reading the table gives the last
      value of each of the first thirty names and nothing else. */
  lemma TableIsMap(writes: seq<Record>, name: seq<byte>)
    ensures Get(Table(writes), name) == Expected(writes, name)
  {
    TableAgrees(writes);
    var recs, names := Table(writes), Names(Effective(writes));
    NamesAreKeys(Effective(writes));
    var j := Find(recs, Searched(recs), name);
    if j == Searched(recs) {
      forall k | 0 <= k < j ensures names[k] != name {
      }
    }
  }

  lemma {:induction false} AllEffective(writes: seq<Record>)
    requires writes != [] ==> !LooksErased(writes[0].name)
    ensures Effective(writes) == writes
  {
    if writes == [] {
    } else {
      AllEffective(writes[..|writes| - 1]);
    }
  }

  /** With at most thirty names, the first of which does not look erased, it is a plain map. */
  lemma FewNamesArePlainMap(writes: seq<Record>, name: seq<byte>)
    requires |LastValues(writes)| <= MAX_COUNT && (writes != [] ==> !LooksErased(writes[0].name))
    ensures Get(Table(writes), name) == if name in LastValues(writes) then Some(LastValues(writes)[name]) else None
  {
    TableIsMap(writes, name);
    AllEffective(writes);
    NamesAreKeys(writes);
  }

  /** A write that takes effect is the last of its name among all writes if it is among those. */
  lemma {:induction false} EffectiveValues(ws: seq<Record>)
    ensures forall n :: n in LastValues(Effective(ws)) ==> n in LastValues(ws) && LastValues(ws)[n] == LastValues(Effective(ws))[n]
  {
    if ws == [] {
    } else {
      var before, w := ws[..|ws| - 1], ws[|ws| - 1];
      EffectiveValues(before);
      if Effective(ws) != [] {
        assert (Effective(before) + [w])[..|Effective(before)|] == Effective(before);
      }
    }
  }

  /** What reading a plain map gives. */
  function Plain(m: map<seq<byte>, seq<byte>>, name: seq<byte>): Option<seq<byte>> {
    if name in m then Some(m[name]) else None
  }

  lemma FewEffectiveNames(ws: seq<Record>)
    requires |LastValues(Effective(ws))| <= MAX_COUNT
    ensures forall name :: Get(Table(ws), name) == Plain(LastValues(Effective(ws)), name)
  {
    NamesAreKeys(Effective(ws));
    forall name ensures Get(Table(ws), name) == Plain(LastValues(Effective(ws)), name) {
      TableIsMap(ws, name);
    }
  }

  lemma SamePlainMap(m: map<seq<byte>, seq<byte>>, m': map<seq<byte>, seq<byte>>, recs: seq<Record>)
    requires forall name :: Get(recs, name) == Plain(m, name)
    requires forall name :: Get(recs, name) == Plain(m', name)
    ensures m == m'
  {
    forall name ensures name in m <==> name in m' {
      assert Plain(m, name) == Get(recs, name) == Plain(m', name);
    }
    forall name | name in m ensures m[name] == m'[name] {
      assert Plain(m, name) == Get(recs, name) == Plain(m', name);
    }
  }

  /** The area is the plain map of last values exactly when at most thirty names take effect, and every
      value that was lost to an area that looked erased has been written again. */
  lemma PlainMapIff(ws: seq<Record>)
    ensures (forall name :: Get(Table(ws), name) == Plain(LastValues(ws), name))
       <==> |LastValues(Effective(ws))| <= MAX_COUNT && LastValues(Effective(ws)) == LastValues(ws)
  {
    var m := LastValues(Effective(ws));
    NamesAreKeys(Effective(ws));
    if |m| <= MAX_COUNT {
      FewEffectiveNames(ws);
      if forall name :: Get(Table(ws), name) == Plain(LastValues(ws), name) {
        SamePlainMap(m, LastValues(ws), Table(ws));
      }
    } else {
      var lost := Names(Effective(ws))[MAX_COUNT];
      TableIsMap(ws, lost);
      EffectiveValues(ws);
      assert Get(Table(ws), lost) != Plain(LastValues(ws), lost);
    }
  }

  lemma LastWrite(ws: seq<Record>, w: Record)
    ensures Table(ws + [w]) == Put(Table(ws), w)
  {
    assert (ws + [w])[..|ws|] == ws;
  }

  lemma FindIsFirst(recs: seq<Record>, n: nat, name: seq<byte>, j: nat)
    requires j < n <= |recs| && recs[j].name == name && forall k :: 0 <= k < j ==> recs[k].name != name
    ensures Find(recs, n, name) == j
  {
  }

  /** A write is read back if and only if its name could be read before, or the area holds fewer than
      thirty records and is not to be mistaken for an erased one. */
  lemma ReadBackIff(ws: seq<Record>, w: Record)
    ensures Get(Table(ws + [w]), w.name) == Some(w.value)
       <==> || Get(Table(ws), w.name).Some?
            || (|Table(ws)| < 30 && (Table(ws) == [] ==> !(|w.name| >= 8 && forall k :: 0 <= k < 8 ==> w.name[k] == 255)))
  {
    LastWrite(ws, w);
    var recs := Table(ws);
    var j := Find(recs, Searched(recs), w.name);
    if j < Searched(recs) {
      FindIsFirst(Put(recs, w), Searched(recs), w.name, j);
    } else if recs == [] {
    } else if |recs| < 30 {
      FindIsFirst(recs + [w], |recs| + 1, w.name, |recs|);
    } else {
      assert forall k :: 0 <= k < 30 ==> Put(recs, w)[k] == recs[k];
    }
  }

  /** A write leaves the records of other names where they are, and brings no record of another name. */
  lemma PutKeepsOthers(recs: seq<Record>, w: Record, k: nat)
    requires k < |Put(recs, w)|
    ensures Put(recs, w)[k].name != w.name ==> k < |recs| && Put(recs, w)[k] == recs[k]
    ensures k < |recs| && recs[k].name != w.name ==> Put(recs, w)[k] == recs[k]
  {
  }

  lemma FoundStays(recs: seq<Record>, w: Record, name: seq<byte>, j: nat)
    requires name != w.name && j == Find(recs, Searched(recs), name) < Searched(recs)
    ensures Get(Put(recs, w), name) == Some(recs[j].value)
  {
    var recs' := Put(recs, w);
    PutKeepsOthers(recs, w, j);
    forall k | 0 <= k < j ensures recs'[k].name != name {
      PutKeepsOthers(recs, w, k);
    }
    FindIsFirst(recs', Searched(recs'), name, j);
  }

  lemma MissingStays(recs: seq<Record>, w: Record, name: seq<byte>)
    requires name != w.name && Find(recs, Searched(recs), name) == Searched(recs)
    ensures Get(Put(recs, w), name) == None
  {
    var recs' := Put(recs, w);
    forall k | 0 <= k < Searched(recs') ensures recs'[k].name != name {
      PutKeepsOthers(recs, w, k);
    }
  }

  /** A write never changes what any other name reads. */
  lemma OtherNamesStay(ws: seq<Record>, w: Record, name: seq<byte>)
    requires name != w.name
    ensures Get(Table(ws + [w]), name) == Get(Table(ws), name)
  {
    LastWrite(ws, w);
    var recs := Table(ws);
    var j := Find(recs, Searched(recs), name);
    if j < Searched(recs) {
      FoundStays(recs, w, name, j);
    } else {
      MissingStays(recs, w, name);
    }
  }

  /** The name's shape matters exactly for the first write to an erased area. */
  lemma FirstWriteIsReadableIff(w: Record)
    ensures Get(Table([w]), w.name) == Some(w.value) <==> !LooksErased(w.name)
  {
    assert [w][..0] == [];
    assert Table([w]) == Put([], w);
  }
}
