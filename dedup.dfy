/** The deduplication store of `createQcxFromFiles` and the assembly of the unique blob.

    Every file is looked up by its pre-filter key `size + "_" + crc.toString(16)`. A hit whose
    stored buffer has the same bytes shares the stored window; any other hit (same size and
    CRC-32, different bytes) is stored again at the current end of the blob under the key
    `keyBase + "_u" + uniqueTotalSize`, which no later lookup asks for; a miss is stored at the
    end under the pre-filter key. The blob `dataConcat` is then a zeroed buffer of
    `uniqueTotalSize` bytes with every stored buffer written at its offset, in the order the
    store's keys were first set. */
module Dedup {
  import opened Base
  import opened NumText
  import opened OrderedMaps
  import opened Buffers

  // ---------------------------------------------------------------- data

  /** An element of `fileObjs`. */
  datatype FileRecord = FileRecord(path: string, mime: string, buf: seq<byte>, size: nat, crc: nat)

  /** As the reading loop builds records, `size` is the length of `buf`. */
  predicate Sized(fo: FileRecord) {
    fo.size == |fo.buf|
  }

  predicate AllSized(objs: seq<FileRecord>) {
    forall i :: 0 <= i < |objs| ==> Sized(objs[i])
  }

  /** The keys of `uniqueMap`: the pre-filter key, and the key of a buffer stored after a
      size and CRC-32 match with different content. */
  datatype Key = KeyBase(size: nat, crc: nat) | AltKey(size: nat, crc: nat, at: nat)

  /** The strings the source uses as keys. */
  function KeyString(k: Key): string {
    match k
    case KeyBase(size, crc) => ToRadix(size, 10) + "_" + ToRadix(crc, 16)
    case AltKey(size, crc, at) => ToRadix(size, 10) + "_" + ToRadix(crc, 16) + "_u" + ToRadix(at, 10)
  }

  /** A value of `uniqueMap`: a buffer and its offset in the blob. */
  datatype Stored = Stored(buf: seq<byte>, offset: nat)

  /** An element of `filesMeta`. */
  datatype FileEntry = FileEntry(path: string, offset: nat, length: nat, size: nat, mime: string, crc32: string)

  /** `uniqueMap`, `filesMeta` and `uniqueTotalSize`. */
  datatype DedupState = DedupState(store: OrderedMap<Key, Stored>, meta: seq<FileEntry>, total: nat)

  function EntryFor(fo: FileRecord, offset: nat): FileEntry {
    FileEntry(fo.path, offset, fo.size, fo.size, fo.mime, ToRadix(fo.crc, 16))
  }

  function BaseKeyOf(fo: FileRecord): Key {
    KeyBase(fo.size, fo.crc)
  }

  // ---------------------------------------------------------------- the loop, as functions

  function Start(): DedupState {
    DedupState(Empty(), [], 0)
  }

  /** One iteration of the loop over `fileObjs` (lines 118-171). */
  function DedupStep(st: DedupState, fo: FileRecord): DedupState {
    var keyBase := BaseKeyOf(fo);
    match Get(st.store, keyBase)
    case Some(entry) =>
      if |entry.buf| == |fo.buf| && entry.buf == fo.buf then
        DedupState(st.store, st.meta + [EntryFor(fo, entry.offset)], st.total)
      else
        var altKey := AltKey(fo.size, fo.crc, st.total);
        DedupState(Set(st.store, altKey, Stored(fo.buf, st.total)),
                   st.meta + [EntryFor(fo, st.total)], st.total + fo.size)
    case None =>
      DedupState(Set(st.store, keyBase, Stored(fo.buf, st.total)),
                 st.meta + [EntryFor(fo, st.total)], st.total + fo.size)
  }

  /** The state after the loop has visited every record of `objs`. */
  function DedupAll(objs: seq<FileRecord>): (st: DedupState)
    ensures |st.meta| == |objs|
  {
    if objs == [] then Start() else DedupStep(DedupAll(objs[..|objs| - 1]), objs[|objs| - 1])
  }

  /** `totalOrig`: the sum of all sizes. */
  function TotalSize(objs: seq<FileRecord>): nat {
    if objs == [] then 0 else TotalSize(objs[..|objs| - 1]) + objs[|objs| - 1].size
  }

  /** The blob the stored buffers make when laid end to end. */
  function Flatten(vs: seq<Stored>): (f: seq<byte>) {
    if vs == [] then [] else Flatten(vs[..|vs| - 1]) + vs[|vs| - 1].buf
  }

  /** The index of the first record with pre-filter key `k`. */
  function FirstWith(objs: seq<FileRecord>, k: Key): (r: Option<nat>)
    ensures r.Some? ==> r.value < |objs| && BaseKeyOf(objs[r.value]) == k
    ensures r.Some? ==> forall i :: 0 <= i < r.value ==> BaseKeyOf(objs[i]) != k
    ensures r.None? ==> forall i :: 0 <= i < |objs| ==> BaseKeyOf(objs[i]) != k
  {
    if objs == [] then None
    else
      var init := objs[..|objs| - 1];
      match FirstWith(init, k)
      case Some(j) => Some(j)
      case None => if BaseKeyOf(objs[|objs| - 1]) == k then Some(|objs| - 1) else None
  }

  /** The value the first record with pre-filter key `k` stored, if there is one. */
  function Owner(objs: seq<FileRecord>, meta: seq<FileEntry>, k: Key): Option<Stored>
    requires |meta| == |objs|
  {
    match FirstWith(objs, k)
    case None => None
    case Some(j) => Some(Stored(objs[j].buf, meta[j].offset))
  }

  /** Every buffer fits in `base` at its offset. */
  predicate Fits(base: seq<byte>, vs: seq<Stored>) {
    forall k :: 0 <= k < |vs| ==> vs[k].offset + |vs[k].buf| <= |base|
  }

  /** `base` with each buffer of `vs` set at its offset, first to last. */
  function Overlay(base: seq<byte>, vs: seq<Stored>): (r: seq<byte>)
    requires Fits(base, vs)
    ensures |r| == |base|
  {
    if vs == [] then base
    else
      var last := vs[|vs| - 1];
      Splice(Overlay(base, vs[..|vs| - 1]), last.offset, last.buf)
  }

  /** `dataConcat`: a zeroed buffer of `uniqueTotalSize` bytes with every value of `uniqueMap` set
      at its offset, in the order of `uniqueMap.values()` (lines 178-181). */
  function DataConcat(st: DedupState): (r: seq<byte>)
    requires Valid(st.store) && Fits(Zeros(st.total), Values(st.store))
    ensures |r| == st.total
  {
    Overlay(Zeros(st.total), Values(st.store))
  }

  // ---------------------------------------------------------------- the loop invariant

  /** The window of `|bytes|` bytes at `off` in `blob` holds `bytes`. */
  ghost predicate Holds(blob: seq<byte>, off: nat, bytes: seq<byte>) {
    off + |bytes| <= |blob| && blob[off..off + |bytes|] == bytes
  }

  /** Each buffer starts where the ones before it, laid end to end, stop. */
  ghost predicate Tiled(vs: seq<Stored>) {
    forall k :: 0 <= k < |vs| ==> vs[k].offset == |Flatten(vs[..k])|
  }

  /** The stored buffers tile the first `total` bytes, and every window that the entries or the
      store name holds the bytes it was stored for. */
  ghost predicate LayoutOk(objs: seq<FileRecord>, st: DedupState)
    requires Valid(st.store) && |st.meta| == |objs|
  {
    var flat := Flatten(Values(st.store));
    Tiled(Values(st.store)) && st.total == |flat|
    && (forall i :: 0 <= i < |objs| ==> Holds(flat, st.meta[i].offset, objs[i].buf))
    && (forall k :: k in st.store.vals ==> Holds(flat, st.store.vals[k].offset, st.store.vals[k].buf))
  }

  /** Under a pre-filter key the store holds what the first record with that key stored. */
  ghost predicate OwnersOk(objs: seq<FileRecord>, st: DedupState)
    requires |st.meta| == |objs|
  {
    forall k: Key :: k.KeyBase? ==> Get(st.store, k) == Owner(objs, st.meta, k)
  }

  /** Every alternative key names an offset below the current end, so the next one is new. */
  ghost predicate AltBelow(st: DedupState) {
    forall k :: k in st.store.vals && k.AltKey? ==> k.at < st.total
  }

  ghost predicate Inv(objs: seq<FileRecord>, st: DedupState) {
    AllSized(objs) && Valid(st.store) && |st.meta| == |objs|
    && LayoutOk(objs, st) && OwnersOk(objs, st) && AltBelow(st)
    && st.total <= TotalSize(objs)
  }

  lemma {:induction false} HoldsExtend(blob: seq<byte>, more: seq<byte>, off: nat, bytes: seq<byte>)
    requires Holds(blob, off, bytes)
    ensures Holds(blob + more, off, bytes)
  {
    assert (blob + more)[off..off + |bytes|] == blob[off..off + |bytes|];
  }

  lemma {:induction false} HoldsEnd(blob: seq<byte>, bytes: seq<byte>)
    ensures Holds(blob + bytes, |blob|, bytes)
  {
    assert (blob + bytes)[|blob|..|blob| + |bytes|] == bytes;
  }

  /** A buffer placed at the end of a tiling extends it. */
  lemma {:induction false} AppendStored(vs: seq<Stored>, s: Stored)
    requires Tiled(vs) && s.offset == |Flatten(vs)|
    ensures Flatten(vs + [s]) == Flatten(vs) + s.buf
    ensures Tiled(vs + [s])
  {
    var vs' := vs + [s];
    assert vs'[..|vs'| - 1] == vs;
    forall k | 0 <= k < |vs'|
      ensures vs'[k].offset == |Flatten(vs'[..k])|
    {
      if k < |vs| {
        assert vs'[..k] == vs[..k];
      }
    }
  }

  lemma {:induction false} FirstWithAppend(objs: seq<FileRecord>, fo: FileRecord, k: Key)
    ensures FirstWith(objs + [fo], k) ==
      if FirstWith(objs, k).Some? then FirstWith(objs, k)
      else if BaseKeyOf(fo) == k then Some(|objs|) else None
  {
    assert (objs + [fo])[..|objs|] == objs;
  }

  /** A new record changes no owner except that of its own key, and that one only if it had none. */
  lemma {:induction false} OwnerAppend(objs: seq<FileRecord>, meta: seq<FileEntry>, fo: FileRecord, e: FileEntry, k: Key)
    requires |meta| == |objs|
    requires FirstWith(objs, k).Some? || BaseKeyOf(fo) != k
    ensures Owner(objs + [fo], meta + [e], k) == Owner(objs, meta, k)
  {
    FirstWithAppend(objs, fo, k);
  }

  lemma {:induction false} TotalSizeAppend(objs: seq<FileRecord>, fo: FileRecord)
    ensures TotalSize(objs + [fo]) == TotalSize(objs) + fo.size
  {
    assert (objs + [fo])[..|objs|] == objs;
  }

  lemma {:induction false} AllSizedAppend(objs: seq<FileRecord>, fo: FileRecord)
    requires AllSized(objs) && Sized(fo)
    ensures AllSized(objs + [fo])
  {
  }

  /** A hit with the same bytes shares the stored window. */
  lemma {:induction false} StepReuse(objs: seq<FileRecord>, st: DedupState, fo: FileRecord)
    requires Inv(objs, st) && Sized(fo)
    requires Get(st.store, BaseKeyOf(fo)).Some? && Get(st.store, BaseKeyOf(fo)).value.buf == fo.buf
    ensures Inv(objs + [fo], DedupStep(st, fo))
  {
    var kb := BaseKeyOf(fo);
    var e := Get(st.store, kb).value;
    var objs' := objs + [fo];
    var meta' := st.meta + [EntryFor(fo, e.offset)];
    var st' := DedupState(st.store, meta', st.total);
    assert DedupStep(st, fo) == st';
    var flat := Flatten(Values(st.store));
    assert Holds(flat, e.offset, e.buf);
    forall i | 0 <= i < |objs'|
      ensures Holds(flat, meta'[i].offset, objs'[i].buf)
    {
      if i < |objs| {
        assert meta'[i] == st.meta[i] && objs'[i] == objs[i];
      }
    }
    assert LayoutOk(objs', st');
    assert FirstWith(objs, kb).Some?;
    forall k: Key | k.KeyBase?
      ensures Get(st'.store, k) == Owner(objs', meta', k)
    {
      OwnerAppend(objs, st.meta, fo, EntryFor(fo, e.offset), k);
    }
    TotalSizeAppend(objs, fo);
    AllSizedAppend(objs, fo);
  }

  /** The windows of the entries still hold once a record is stored at the end. */
  lemma {:induction false} EntryWindowsAppend(objs: seq<FileRecord>, meta: seq<FileEntry>, flat: seq<byte>, fo: FileRecord)
    requires |meta| == |objs|
    requires forall i :: 0 <= i < |objs| ==> Holds(flat, meta[i].offset, objs[i].buf)
    ensures forall i :: 0 <= i < |objs| + 1 ==>
      Holds(flat + fo.buf, (meta + [EntryFor(fo, |flat|)])[i].offset, (objs + [fo])[i].buf)
  {
    var objs' := objs + [fo];
    var meta' := meta + [EntryFor(fo, |flat|)];
    forall i | 0 <= i < |objs'|
      ensures Holds(flat + fo.buf, meta'[i].offset, objs'[i].buf)
    {
      if i < |objs| {
        assert meta'[i] == meta[i] && objs'[i] == objs[i];
        HoldsExtend(flat, fo.buf, meta[i].offset, objs[i].buf);
      } else {
        HoldsEnd(flat, fo.buf);
      }
    }
  }

  /** The windows of the store still hold once a buffer is stored at the end. */
  lemma {:induction false} StoreWindowsAppend(vals: map<Key, Stored>, flat: seq<byte>, key: Key, buf: seq<byte>, vals': map<Key, Stored>)
    requires forall k :: k in vals ==> Holds(flat, vals[k].offset, vals[k].buf)
    requires vals' == vals[key := Stored(buf, |flat|)]
    ensures forall k :: k in vals' ==> Holds(flat + buf, vals'[k].offset, vals'[k].buf)
  {
    forall k | k in vals'
      ensures Holds(flat + buf, vals'[k].offset, vals'[k].buf)
    {
      if k == key {
        HoldsEnd(flat, buf);
      } else {
        HoldsExtend(flat, buf, vals[k].offset, vals[k].buf);
      }
    }
  }

  /** Setting a key the store lacks, at the current end, extends the tiling by that buffer. */
  lemma {:induction false} SetAtEnd(store: OrderedMap<Key, Stored>, key: Key, s: Stored)
    requires Valid(store) && Get(store, key).None?
    requires Tiled(Values(store)) && s.offset == |Flatten(Values(store))|
    ensures Valid(Set(store, key, s))
    ensures forall x :: Get(Set(store, key, s), x) == if x == key then Some(s) else Get(store, x)
    ensures Flatten(Values(Set(store, key, s))) == Flatten(Values(store)) + s.buf
    ensures Tiled(Values(Set(store, key, s)))
  {
    SetGet(store, key, s);
    SetFreshValues(store, key, s);
    AppendStored(Values(store), s);
  }

  /** What a buffer set under a key the store lacks, at the current end, does to the layout. */
  lemma {:induction false} StoreAtEnd(objs: seq<FileRecord>, st: DedupState, fo: FileRecord, key: Key, st': DedupState)
    requires Valid(st.store) && |st.meta| == |objs| && LayoutOk(objs, st)
    requires Sized(fo) && Get(st.store, key).None?
    requires st' == DedupState(Set(st.store, key, Stored(fo.buf, st.total)),
                               st.meta + [EntryFor(fo, st.total)], st.total + fo.size)
    ensures Valid(st'.store)
    ensures forall x :: Get(st'.store, x) == if x == key then Some(Stored(fo.buf, st.total)) else Get(st.store, x)
    ensures LayoutOk(objs + [fo], st')
  {
    var s := Stored(fo.buf, st.total);
    var flat := Flatten(Values(st.store));
    SetAtEnd(st.store, key, s);
    EntryWindowsAppend(objs, st.meta, flat, fo);
    StoreWindowsAppend(st.store.vals, flat, key, fo.buf, st'.store.vals);
  }

  /** A hit with different bytes is stored again at the end, under a key no one had. */
  lemma {:induction false} StepCollision(objs: seq<FileRecord>, st: DedupState, fo: FileRecord)
    requires Inv(objs, st) && Sized(fo)
    requires Get(st.store, BaseKeyOf(fo)).Some? && Get(st.store, BaseKeyOf(fo)).value.buf != fo.buf
    ensures Inv(objs + [fo], DedupStep(st, fo))
  {
    var kb := BaseKeyOf(fo);
    var e := Get(st.store, kb).value;
    var ak := AltKey(fo.size, fo.crc, st.total);
    var s := Stored(fo.buf, st.total);
    var store' := Set(st.store, ak, s);
    var objs' := objs + [fo];
    var meta' := st.meta + [EntryFor(fo, st.total)];
    var st' := DedupState(store', meta', st.total + fo.size);
    assert DedupStep(st, fo) == st';
    assert ak !in st.store.vals;
    StoreAtEnd(objs, st, fo, ak, st');
    var j := FirstWith(objs, kb).value;
    assert e.buf == objs[j].buf && Sized(objs[j]);
    assert fo.size > 0;
    assert AltBelow(st');
    forall k: Key | k.KeyBase?
      ensures Get(st'.store, k) == Owner(objs', meta', k)
    {
      OwnerAppend(objs, st.meta, fo, EntryFor(fo, st.total), k);
    }
    TotalSizeAppend(objs, fo);
    AllSizedAppend(objs, fo);
  }

  /** A miss is stored at the end under its pre-filter key, whose first record it now is. */
  lemma {:induction false} StepMiss(objs: seq<FileRecord>, st: DedupState, fo: FileRecord)
    requires Inv(objs, st) && Sized(fo)
    requires Get(st.store, BaseKeyOf(fo)).None?
    ensures Inv(objs + [fo], DedupStep(st, fo))
  {
    var kb := BaseKeyOf(fo);
    var s := Stored(fo.buf, st.total);
    var store' := Set(st.store, kb, s);
    var objs' := objs + [fo];
    var meta' := st.meta + [EntryFor(fo, st.total)];
    var st' := DedupState(store', meta', st.total + fo.size);
    assert DedupStep(st, fo) == st';
    StoreAtEnd(objs, st, fo, kb, st');
    assert AltBelow(st');
    assert FirstWith(objs, kb).None?;
    forall k: Key | k.KeyBase?
      ensures Get(st'.store, k) == Owner(objs', meta', k)
    {
      if k == kb {
        FirstWithAppend(objs, fo, k);
      } else {
        OwnerAppend(objs, st.meta, fo, EntryFor(fo, st.total), k);
      }
    }
    TotalSizeAppend(objs, fo);
    AllSizedAppend(objs, fo);
  }

  /** One iteration keeps the invariant. */
  lemma {:induction false} StepInv(objs: seq<FileRecord>, st: DedupState, fo: FileRecord)
    requires Inv(objs, st) && Sized(fo)
    ensures Inv(objs + [fo], DedupStep(st, fo))
  {
    match Get(st.store, BaseKeyOf(fo))
    case None => StepMiss(objs, st, fo);
    case Some(e) =>
      if e.buf == fo.buf {
        StepReuse(objs, st, fo);
      } else {
        StepCollision(objs, st, fo);
      }
  }

  lemma {:induction false} StartInv()
    ensures Inv([], Start())
  {
    assert Values(Start().store) == [];
    assert forall k: Key :: Owner([], [], k) == None;
  }

  /** The invariant holds after every prefix of the loop. */
  lemma {:induction false} DedupAllInv(objs: seq<FileRecord>)
    requires AllSized(objs)
    ensures Inv(objs, DedupAll(objs))
  {
    if objs == [] {
      StartInv();
    } else {
      var init := objs[..|objs| - 1];
      var fo := objs[|objs| - 1];
      assert init + [fo] == objs;
      assert AllSized(init);
      DedupAllInv(init);
      var st := DedupAll(init);
      assert DedupAll(objs) == DedupStep(st, fo);
      StepInv(init, st, fo);
    }
  }

  // ---------------------------------------------------------------- what the loop promises

  /** An entry describes a record: same path, MIME type and CRC-32 text, and a window as long
      as the file. */
  predicate Describes(e: FileEntry, fo: FileRecord) {
    e.path == fo.path && e.length == fo.size && e.size == fo.size && e.mime == fo.mime
    && e.crc32 == ToRadix(fo.crc, 16)
  }

  /** Whatever branch an iteration takes, it pushes exactly one entry, describing its record, and
      leaves the earlier entries alone. */
  lemma {:induction false} StepMeta(st: DedupState, fo: FileRecord)
    ensures |DedupStep(st, fo).meta| == |st.meta| + 1
    ensures DedupStep(st, fo).meta[..|st.meta|] == st.meta
    ensures Describes(DedupStep(st, fo).meta[|st.meta|], fo)
  {
  }

  /** `filesMeta` has one entry per file, in input order, each describing its file. */
  lemma {:induction false} EntriesDescribeFiles(objs: seq<FileRecord>)
    ensures |DedupAll(objs).meta| == |objs|
    ensures forall i :: 0 <= i < |objs| ==> Describes(DedupAll(objs).meta[i], objs[i])
  {
    if objs != [] {
      var init := objs[..|objs| - 1];
      EntriesDescribeFiles(init);
      StepMeta(DedupAll(init), objs[|objs| - 1]);
      DescribesAppend(objs, init, DedupAll(objs).meta, DedupAll(init).meta);
    }
  }

  lemma {:induction false} DescribesAppend(objs: seq<FileRecord>, init: seq<FileRecord>, meta: seq<FileEntry>, pre: seq<FileEntry>)
    requires objs != [] && init == objs[..|objs| - 1]
    requires |meta| == |objs| && |pre| == |init| && meta[..|init|] == pre
    requires forall i :: 0 <= i < |init| ==> Describes(pre[i], init[i])
    requires Describes(meta[|init|], objs[|init|])
    ensures forall i :: 0 <= i < |objs| ==> Describes(meta[i], objs[i])
  {
    forall i | 0 <= i < |objs|
      ensures Describes(meta[i], objs[i])
    {
      if i < |init| {
        assert meta[i] == pre[i] && objs[i] == init[i];
      }
    }
  }

  lemma {:induction false} LastStepMeta(objs: seq<FileRecord>)
    requires objs != []
    ensures DedupAll(objs).meta[..|objs| - 1] == DedupAll(objs[..|objs| - 1]).meta
  {
    StepMeta(DedupAll(objs[..|objs| - 1]), objs[|objs| - 1]);
  }

  /** Later records never change the entries of earlier ones. */
  lemma {:induction false} MetaPrefix(objs: seq<FileRecord>, i: nat)
    requires i <= |objs|
    ensures DedupAll(objs[..i]).meta == DedupAll(objs).meta[..i]
  {
    if i == |objs| {
      assert objs[..i] == objs;
    } else {
      var init := objs[..|objs| - 1];
      MetaPrefix(init, i);
      SlicePrefix(objs, |objs| - 1, i);
      LastStepMeta(objs);
      SlicePrefix(DedupAll(objs).meta, |init|, i);
    }
  }

  lemma {:induction false} SlicePrefix<T>(s: seq<T>, n: nat, i: nat)
    requires i <= n <= |s|
    ensures s[..n][..i] == s[..i]
  {
  }

  /** The first record with a key in a prefix is the first in the whole sequence, if it lies
      in the prefix. */
  lemma {:induction false} FirstWithPrefix(objs: seq<FileRecord>, i: nat, k: Key)
    requires i <= |objs|
    ensures FirstWith(objs[..i], k) ==
      if FirstWith(objs, k).Some? && FirstWith(objs, k).value < i then FirstWith(objs, k) else None
  {
    if i == |objs| {
      assert objs[..i] == objs;
    } else {
      var init := objs[..|objs| - 1];
      FirstWithPrefix(init, i, k);
      assert init[..i] == objs[..i];
    }
  }

  /** The offset one iteration gives its record, read off the invariant: the offset of the first
      earlier record with the same pre-filter key when the bytes agree, otherwise the end. */
  lemma {:induction false} StepOffset(pre: seq<FileRecord>, st: DedupState, fo: FileRecord)
    requires Inv(pre, st) && Sized(fo)
    ensures |DedupStep(st, fo).meta| == |pre| + 1
    ensures DedupStep(st, fo).meta[|pre|].offset ==
      match FirstWith(pre, BaseKeyOf(fo))
      case Some(j) => if pre[j].buf == fo.buf then st.meta[j].offset else st.total
      case None => st.total
  {
    assert Get(st.store, BaseKeyOf(fo)) == Owner(pre, st.meta, BaseKeyOf(fo));
  }

  /** Where each file's window starts, given the final state `st` and the state `before` in
      which the loop reached the file. With `j` the first record that has the file's size and
      CRC-32: the file shares `j`'s window when it is a later record with the same bytes;
      otherwise (it is `j` itself, or its bytes differ from `j`'s) it gets a new window at the end
      of the blob as it stood in `before`. A record stored under an alternative key is never
      shared, because only the first record's buffer is ever looked up. */
  lemma {:induction false} OffsetOfEntry(objs: seq<FileRecord>, st: DedupState, before: DedupState, i: nat)
    requires AllSized(objs) && i < |objs|
    requires st == DedupAll(objs) && before == DedupAll(objs[..i])
    ensures FirstWith(objs, BaseKeyOf(objs[i])).Some?
    ensures FirstWith(objs, BaseKeyOf(objs[i])).value <= i
    ensures var j := FirstWith(objs, BaseKeyOf(objs[i])).value;
      if j < i && objs[j].buf == objs[i].buf then st.meta[i].offset == st.meta[j].offset
      else st.meta[i].offset == before.total
  {
    var kb := BaseKeyOf(objs[i]);
    var j := FirstWith(objs, kb).value;
    var pre := objs[..i];
    EntryAtStep(objs, i);
    StepOffsetAt(pre, objs[i]);
    FirstWithPrefix(objs, i, kb);
    if j < i {
      assert pre[j] == objs[j];
      assert st.meta[j] == st.meta[..i][j];
    }
  }

  /** The entry of record `i` is the one the iteration at `i` appends. */
  lemma {:induction false} EntryAtStep(objs: seq<FileRecord>, i: nat)
    requires i < |objs|
    ensures DedupAll(objs).meta[..i] == DedupAll(objs[..i]).meta
    ensures DedupAll(objs).meta[i] == DedupStep(DedupAll(objs[..i]), objs[i]).meta[i]
  {
    MetaPrefix(objs, i + 1);
    MetaPrefix(objs, i);
    assert objs[..i + 1][..i] == objs[..i];
    assert DedupAll(objs[..i + 1]) == DedupStep(DedupAll(objs[..i]), objs[i]);
    assert DedupAll(objs).meta[i] == DedupAll(objs).meta[..i + 1][i];
  }

  lemma {:induction false} StepOffsetAt(pre: seq<FileRecord>, fo: FileRecord)
    requires AllSized(pre) && Sized(fo)
    ensures DedupStep(DedupAll(pre), fo).meta[|pre|].offset ==
      match FirstWith(pre, BaseKeyOf(fo))
      case Some(j) => if pre[j].buf == fo.buf then DedupAll(pre).meta[j].offset else DedupAll(pre).total
      case None => DedupAll(pre).total
  {
    DedupAllInv(pre);
    StepOffset(pre, DedupAll(pre), fo);
  }

  /** Two files whose windows have the same start and length have the same bytes: an offset is
      shared only by identical content. */
  lemma {:induction false} SharedWindowSameBytes(objs: seq<FileRecord>, i: nat, j: nat)
    requires AllSized(objs) && i < |objs| && j < |objs|
    requires DedupAll(objs).meta[i].offset == DedupAll(objs).meta[j].offset
    requires objs[i].size == objs[j].size
    ensures objs[i].buf == objs[j].buf
  {
    DedupAllInv(objs);
  }

  /** `dataConcat` is exactly the stored buffers end to end: `uniqueTotalSize` bytes, no more than
      all files together. */
  lemma {:induction false} BlobIsTiling(objs: seq<FileRecord>, st: DedupState)
    requires AllSized(objs) && st == DedupAll(objs)
    ensures Valid(st.store) && Fits(Zeros(st.total), Values(st.store))
    ensures DataConcat(st) == Flatten(Values(st.store))
    ensures |DataConcat(st)| == st.total <= TotalSize(objs)
  {
    DedupAllInv(objs);
    var vs := Values(st.store);
    OverlayTiled(Zeros(st.total), vs);
    assert Zeros(st.total)[|Flatten(vs)|..] == [];
  }

  /** In the state after the loop, the `[offset, offset + length)` range of every entry holds its
      file's bytes in `dataConcat`. */
  lemma {:induction false} WindowRecoversFile(objs: seq<FileRecord>, st: DedupState, i: nat)
    requires AllSized(objs) && st == DedupAll(objs) && i < |objs|
    ensures Valid(st.store) && Fits(Zeros(st.total), Values(st.store))
    ensures st.meta[i].offset + st.meta[i].length <= |DataConcat(st)|
    ensures DataConcat(st)[st.meta[i].offset..st.meta[i].offset + st.meta[i].length] == objs[i].buf
  {
    BlobIsTiling(objs, st);
    EntriesDescribeFiles(objs);
    EntryWindowHolds(objs, i);
    WindowInBlob(objs[i], st, i);
  }

  lemma {:induction false} WindowInBlob(fo: FileRecord, st: DedupState, i: nat)
    requires Valid(st.store) && Fits(Zeros(st.total), Values(st.store))
    requires DataConcat(st) == Flatten(Values(st.store))
    requires i < |st.meta| && Describes(st.meta[i], fo) && Sized(fo)
    requires Holds(Flatten(Values(st.store)), st.meta[i].offset, fo.buf)
    ensures st.meta[i].offset + st.meta[i].length <= |DataConcat(st)|
    ensures DataConcat(st)[st.meta[i].offset..st.meta[i].offset + st.meta[i].length] == fo.buf
  {
  }

  lemma {:induction false} EntryWindowHolds(objs: seq<FileRecord>, i: nat)
    requires AllSized(objs) && i < |objs|
    ensures Valid(DedupAll(objs).store)
    ensures Holds(Flatten(Values(DedupAll(objs).store)), DedupAll(objs).meta[i].offset, objs[i].buf)
  {
    DedupAllInv(objs);
  }

  /** The loop finds record `fo` already stored after `pre`: the first record of `pre` with its
      pre-filter key has its bytes. */
  predicate SharesEarlier(pre: seq<FileRecord>, fo: FileRecord) {
    match FirstWith(pre, BaseKeyOf(fo))
    case Some(j) => pre[j].buf == fo.buf
    case None => false
  }

  /** The bytes the store saves: the sizes of the records that share an earlier window. */
  function SavedBytes(objs: seq<FileRecord>): nat {
    if objs == [] then 0
    else
      var init := objs[..|objs| - 1];
      var fo := objs[|objs| - 1];
      SavedBytes(init) + if SharesEarlier(init, fo) then fo.size else 0
  }

  lemma {:induction false} StepTotal(pre: seq<FileRecord>, fo: FileRecord)
    requires AllSized(pre) && Sized(fo)
    ensures DedupStep(DedupAll(pre), fo).total == DedupAll(pre).total + if SharesEarlier(pre, fo) then 0 else fo.size
  {
    DedupAllInv(pre);
    var st := DedupAll(pre);
    assert Get(st.store, BaseKeyOf(fo)) == Owner(pre, st.meta, BaseKeyOf(fo));
  }

  /** `uniqueTotalSize` is `totalOrig` less the sizes of the files that share a window. */
  lemma {:induction false} TotalAccounting(objs: seq<FileRecord>)
    requires AllSized(objs)
    ensures DedupAll(objs).total + SavedBytes(objs) == TotalSize(objs)
  {
    if objs != [] {
      var init := objs[..|objs| - 1];
      assert AllSized(init);
      TotalAccounting(init);
      StepTotal(init, objs[|objs| - 1]);
    }
  }

  /** Record `i` shares the window of an earlier record. */
  predicate SharesAt(objs: seq<FileRecord>, i: nat)
    requires i < |objs|
  {
    SharesEarlier(objs[..i], objs[i])
  }

  /** Nothing is saved exactly when every file that shares a window is empty. */
  lemma {:induction false} NoSavingsIff(objs: seq<FileRecord>)
    ensures SavedBytes(objs) == 0 <==> forall i :: 0 <= i < |objs| && SharesAt(objs, i) ==> objs[i].size == 0
  {
    if objs != [] {
      var init := objs[..|objs| - 1];
      var fo := objs[|objs| - 1];
      NoSavingsIff(init);
      SharesAtPrefix(objs);
    }
  }

  lemma {:induction false} SharesAtPrefix(objs: seq<FileRecord>)
    requires objs != []
    ensures forall i :: 0 <= i < |objs| - 1 ==>
      SharesAt(objs, i) == SharesAt(objs[..|objs| - 1], i) && objs[i] == objs[..|objs| - 1][i]
    ensures SharesAt(objs, |objs| - 1) == SharesEarlier(objs[..|objs| - 1], objs[|objs| - 1])
  {
    var init := objs[..|objs| - 1];
    forall i | 0 <= i < |init|
      ensures SharesAt(objs, i) == SharesAt(init, i)
    {
      assert objs[..i] == init[..i];
    }
  }

  /** `uniqueSize == totalSize` exactly when no non-empty file shares a window. */
  lemma {:induction false} UniqueEqualsTotalIff(objs: seq<FileRecord>, st: DedupState)
    requires AllSized(objs) && st == DedupAll(objs)
    ensures st.total == TotalSize(objs) <==> forall i :: 0 <= i < |objs| && SharesAt(objs, i) ==> objs[i].size == 0
  {
    TotalAccounting(objs);
    NoSavingsIff(objs);
  }

  /** Writing a tiling over a long enough base leaves the tiles followed by the rest of the base. */
  lemma {:induction false} OverlayTiled(base: seq<byte>, vs: seq<Stored>)
    requires Tiled(vs) && |Flatten(vs)| <= |base|
    ensures Fits(base, vs)
    ensures Overlay(base, vs) == Flatten(vs) + base[|Flatten(vs)|..]
  {
    if vs != [] {
      var init := vs[..|vs| - 1];
      var last := vs[|vs| - 1];
      TiledPrefix(vs);
      var f := Flatten(init);
      assert Flatten(vs) == f + last.buf;
      OverlayTiled(base, init);
      assert Fits(base, vs) by {
        forall k | 0 <= k < |vs|
          ensures vs[k].offset + |vs[k].buf| <= |base|
        {
          if k < |init| {
            assert vs[k] == init[k];
          }
        }
      }
      SpliceAfter(f, last.buf, base[|f|..]);
      assert base[|f|..][|last.buf|..] == base[|f| + |last.buf|..];
    }
  }

  lemma {:induction false} TiledPrefix(vs: seq<Stored>)
    requires Tiled(vs) && vs != []
    ensures Tiled(vs[..|vs| - 1])
    ensures vs[|vs| - 1].offset == |Flatten(vs[..|vs| - 1])|
  {
    var init := vs[..|vs| - 1];
    forall k | 0 <= k < |init|
      ensures init[k].offset == |Flatten(init[..k])|
    {
      assert init[..k] == vs[..k];
    }
  }

  lemma {:induction false} SpliceAfter(f: seq<byte>, b: seq<byte>, rest: seq<byte>)
    requires |b| <= |rest|
    ensures Splice(f + rest, |f|, b) == f + b + rest[|b|..]
  {
    var o := f + rest;
    assert o[..|f|] == f;
    assert o[|f| + |b|..] == rest[|b|..];
  }

  /** With `a` and `b` colliding on size and CRC-32, a second `b` is compared only with `a`, so
      it gets a third window: nothing stored under an alternative key is found again. */
  lemma {:induction false} CollisionNotShared(a: FileRecord, b: FileRecord, st: DedupState)
    requires Sized(a) && Sized(b) && a.size == b.size && a.crc == b.crc && a.buf != b.buf
    requires st == DedupAll([a, b, b])
    ensures [st.meta[0].offset, st.meta[1].offset, st.meta[2].offset] == [0, a.size, 2 * a.size]
    ensures st.total == 3 * a.size
  {
    var s1 := DedupStep(Start(), a);
    assert [a, b, b][..2] == [a, b] && [a, b][..1] == [a] && [a][..0] == [];
    assert DedupAll([a]) == s1;
    assert Get(s1.store, BaseKeyOf(b)) == Some(Stored(a.buf, 0));
    var s2 := DedupStep(s1, b);
    assert DedupAll([a, b]) == s2;
    assert s2.total == 2 * a.size;
    assert Get(s2.store, BaseKeyOf(b)) == Some(Stored(a.buf, 0));
  }

  /** The other order: in `[a, b, a]` the third file matches `b`'s size and CRC-32 but not its
      bytes, yet it is not stored again, because the lookup under the base key finds `a`, the
      first file with that key, and `a`'s bytes are equal. */
  lemma {:induction false} CollisionReusesFirst(a: FileRecord, b: FileRecord, st: DedupState)
    requires Sized(a) && Sized(b) && a.size == b.size && a.crc == b.crc && a.buf != b.buf
    requires st == DedupAll([a, b, a])
    ensures [st.meta[0].offset, st.meta[1].offset, st.meta[2].offset] == [0, a.size, 0]
    ensures st.total == 2 * a.size
  {
    var s1 := DedupStep(Start(), a);
    assert [a, b, a][..2] == [a, b] && [a, b][..1] == [a] && [a][..0] == [];
    assert DedupAll([a]) == s1;
    assert Get(s1.store, BaseKeyOf(b)) == Some(Stored(a.buf, 0));
    var s2 := DedupStep(s1, b);
    assert DedupAll([a, b]) == s2;
    assert Get(s2.store, BaseKeyOf(a)) == Some(Stored(a.buf, 0));
  }

  // ---------------------------------------------------------------- the key strings

  /** Both keys start with the size, then `_`, then this. */
  function KeyTail(k: Key): string {
    match k
    case KeyBase(_, crc) => ToRadix(crc, 16)
    case AltKey(_, crc, at) => ToRadix(crc, 16) + "_u" + ToRadix(at, 10)
  }

  /** A separator absent from both heads splits equal strings the same way. */
  lemma {:induction false} SplitAtSep(x1: string, y1: string, x2: string, y2: string, c: char)
    requires c !in x1 && c !in x2 && x1 + [c] + y1 == x2 + [c] + y2
    ensures x1 == x2 && y1 == y2
  {
    SepFirst(x1, y1, x2, y2, c);
    SepFirst(x2, y2, x1, y1, c);
    var w := x1 + [c] + y1;
    var w2 := x2 + [c] + y2;
    assert x1 == w[..|x1|] && x2 == w2[..|x2|];
    assert y1 == w[|x1| + 1..] && y2 == w2[|x2| + 1..];
  }

  lemma {:induction false} SepFirst(x1: string, y1: string, x2: string, y2: string, c: char)
    requires c !in x2
    ensures |x1| < |x2| ==> x1 + [c] + y1 != x2 + [c] + y2
  {
    if |x1| < |x2| {
      var w := x1 + [c] + y1;
      var w2 := x2 + [c] + y2;
      assert w[|x1|] == c;
      assert w2[|x1|] == x2[|x1|] != c;
    }
  }

  lemma {:induction false} KeyTailInjective(a: Key, b: Key)
    ensures KeyTail(a) == KeyTail(b) ==> a.KeyBase? == b.KeyBase? && a.crc == b.crc
    ensures KeyTail(a) == KeyTail(b) && a.AltKey? && b.AltKey? ==> a.at == b.at
  {
    if a.KeyBase? && b.KeyBase? {
      ToRadixInjective(a.crc, b.crc, 16);
    } else if a.AltKey? && b.AltKey? {
      AltTailInjective(a, b);
    } else if a.KeyBase? {
      BaseAltTailsDiffer(a.crc, b);
    } else {
      BaseAltTailsDiffer(b.crc, a);
    }
  }

  lemma {:induction false} UnderscoreAt(c: string, t: string)
    ensures c + "_u" + t == c + ['_'] + ("u" + t)
    ensures (c + "_u" + t)[|c|] == '_'
  {
  }

  /** A pre-filter key's tail has no `_`; an alternative key's has one. */
  lemma {:induction false} BaseAltTailsDiffer(crc: nat, alt: Key)
    requires alt.AltKey?
    ensures ToRadix(crc, 16) != KeyTail(alt)
  {
    NoUnderscore(crc, 16);
    UnderscoreAt(ToRadix(alt.crc, 16), ToRadix(alt.at, 10));
  }

  lemma {:induction false} AltTailInjective(a: Key, b: Key)
    requires a.AltKey? && b.AltKey?
    ensures KeyTail(a) == KeyTail(b) ==> a.crc == b.crc && a.at == b.at
  {
    var ca, cb := ToRadix(a.crc, 16), ToRadix(b.crc, 16);
    var ta, tb := ToRadix(a.at, 10), ToRadix(b.at, 10);
    UnderscoreAt(ca, ta);
    UnderscoreAt(cb, tb);
    if KeyTail(a) == KeyTail(b) {
      NoUnderscore(a.crc, 16);
      NoUnderscore(b.crc, 16);
      SplitAtSep(ca, "u" + ta, cb, "u" + tb, '_');
      assert ta == ("u" + ta)[1..] && tb == ("u" + tb)[1..];
      ToRadixInjective(a.crc, b.crc, 16);
      ToRadixInjective(a.at, b.at, 10);
    }
  }

  lemma {:induction false} KeyStringShape(k: Key)
    ensures KeyString(k) == ToRadix(k.size, 10) + ['_'] + KeyTail(k)
  {
    var s, c := ToRadix(k.size, 10), ToRadix(k.crc, 16);
    if k.AltKey? {
      var t := ToRadix(k.at, 10);
      assert s + "_" + c + "_u" + t == s + ['_'] + (c + "_u" + t);
    }
  }

  /** Distinct keys have distinct strings, so the datatype stands for the strings. */
  lemma {:induction false} KeyStringInjective(a: Key, b: Key)
    ensures KeyString(a) == KeyString(b) ==> a == b
  {
    var sa, sb := ToRadix(a.size, 10), ToRadix(b.size, 10);
    KeyStringShape(a);
    KeyStringShape(b);
    if KeyString(a) == KeyString(b) {
      NoUnderscore(a.size, 10);
      NoUnderscore(b.size, 10);
      SplitAtSep(sa, KeyTail(a), sb, KeyTail(b), '_');
      ToRadixInjective(a.size, b.size, 10);
      KeyTailInjective(a, b);
    }
  }

  // ---------------------------------------------------------------- the loop, as code

  /** `ubuf.length === fo.buf.length && ubuf.every((v, i) => v === fo.buf[i])`. */
  method SameBytes(a: seq<byte>, b: seq<byte>) returns (same: bool)
    ensures same <==> a == b
  {
    if |a| != |b| {
      return false;
    }
    var i := 0;
    while i < |a|
      invariant 0 <= i <= |a|
      invariant a[..i] == b[..i]
    {
      if a[i] != b[i] {
        return false;
      }
      assert a[..i + 1] == a[..i] + [a[i]];
      assert b[..i + 1] == b[..i] + [b[i]];
      i := i + 1;
    }
    assert a == a[..i] && b == b[..i];
    return true;
  }

  /** The loop of lines 114-171, updating `uniqueMap`, `filesMeta` and `uniqueTotalSize`. */
  method DedupFiles(objs: seq<FileRecord>) returns (store: OrderedMap<Key, Stored>, meta: seq<FileEntry>, total: nat)
    ensures DedupState(store, meta, total) == DedupAll(objs)
  {
    store, meta, total := Empty(), [], 0;
    for i := 0 to |objs|
      invariant DedupState(store, meta, total) == DedupAll(objs[..i])
    {
      var fo := objs[i];
      assert objs[..i + 1][..i] == objs[..i];
      var keyBase := BaseKeyOf(fo);
      var entry := Get(store, keyBase);
      if entry.Some? {
        var same := SameBytes(entry.value.buf, fo.buf);
        if same {
          meta := meta + [EntryFor(fo, entry.value.offset)];
          continue;
        }
        var altKey := AltKey(fo.size, fo.crc, total);
        store := Set(store, altKey, Stored(fo.buf, total));
        meta := meta + [EntryFor(fo, total)];
        total := total + fo.size;
        continue;
      }
      store := Set(store, keyBase, Stored(fo.buf, total));
      meta := meta + [EntryFor(fo, total)];
      total := total + fo.size;
    }
    assert objs[..|objs|] == objs;
  }

  /** Lines 178-181: a zeroed `Uint8Array(uniqueTotalSize)` and `dataConcat.set(entry.buf,
      entry.offset)` for each stored value in order. */
  method Assemble(vs: seq<Stored>, total: nat) returns (data: seq<byte>)
    requires Fits(Zeros(total), vs)
    ensures data == Overlay(Zeros(total), vs)
  {
    var a := NewBuffer(total);
    for i := 0 to |vs|
      invariant a.Length == total
      invariant a[..] == Overlay(Zeros(total), vs[..i])
    {
      assert vs[..i + 1][..i] == vs[..i];
      SetAt(a, vs[i].buf, vs[i].offset);
    }
    assert vs[..|vs|] == vs;
    data := a[..];
  }
}
