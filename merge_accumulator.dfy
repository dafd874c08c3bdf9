/**
 * Merge accumulation (bloom_merge_all): one iterator over the selected files is shared by two
 * loops. The first reads files into the accumulator until one loads; if none does, the merge
 * fails with LibbloomError. The second reads every remaining file into a scratch handle, merges
 * it into the accumulator whatever the read returned, and frees the scratch handle. The result
 * is the serialized accumulator; both handles are freed on every exit.
 */
module MergeAccumulator {
  import opened Wrappers
  import opened FilterEngine

  datatype MergeResult = Merged(data: Bytes) | LibbloomError(rc: int)

  /** bloom_file_read_ on a path of the directory fs. */
  function ReadFile<F>(e: Engine<F>, fs: map<string, Bytes>, path: string): Status<F> {
    e.read(if path in fs then Some(fs[path]) else None)
  }

  /** bloom_serialize: the buffer, or LibbloomError carrying the non-zero code. */
  function Serialized(s: Status<Bytes>): (r: MergeResult)
    ensures r.Merged? <==> s.Ok?
  {
    match s
    case Ok(b) => Merged(b)
    case Err(rc) => LibbloomError(rc)
  }

  /** Where the first loop leaves the shared iterator. */
  datatype Search<F> = FoundAt(filter: F, rest: seq<string>) | NoneLoaded(rc: int)

  /**
   * The first loop over `paths`, rc being the code of the last failed read so far: the first
   * file that loads and the paths after it, or the code of the last failure.
   */
  function FirstGood<F>(e: Engine<F>, fs: map<string, Bytes>, paths: seq<string>, rc: int): Search<F> {
    if paths == [] then NoneLoaded(rc)
    else
      match ReadFile(e, fs, paths[0])
      case Ok(f) => FoundAt(f, paths[1..])
      case Err(c) => FirstGood(e, fs, paths[1..], c)
  }

  /**
   * The first loop stops at the first file that loads and leaves the iterator just after it;
   * when it runs out, every file failed to read and the code is that of the last one.
   */
  lemma {:induction false} FirstGoodStopsAtFirstLoadable<F>(e: Engine<F>, fs: map<string, Bytes>, paths: seq<string>, rc: int)
    ensures var r := FirstGood(e, fs, paths, rc);
            r.FoundAt? ==>
              var k := |paths| - |r.rest| - 1;
              0 <= k && r.rest == paths[k + 1..] && ReadFile(e, fs, paths[k]) == Ok(r.filter)
              && forall j :: 0 <= j < k ==> ReadFile(e, fs, paths[j]).Err?
    ensures var r := FirstGood(e, fs, paths, rc);
            r.NoneLoaded? ==>
              (forall j :: 0 <= j < |paths| ==> ReadFile(e, fs, paths[j]).Err?)
              && r.rc == if paths == [] then rc else ReadFile(e, fs, paths[|paths| - 1]).rc
  {
    if paths != [] {
      var s := ReadFile(e, fs, paths[0]);
      if s.Err? {
        FirstGoodStopsAtFirstLoadable(e, fs, paths[1..], s.rc);
        var r := FirstGood(e, fs, paths[1..], s.rc);
        assert FirstGood(e, fs, paths, rc) == r;
        if r.FoundAt? {
          var k := |paths| - |r.rest| - 1;
          assert paths[1..][k - 1] == paths[k];
          assert paths[1..][k..] == paths[k + 1..];
          forall j | 0 <= j < k ensures ReadFile(e, fs, paths[j]).Err? {
            if j > 0 {
              assert paths[1..][j - 1] == paths[j];
            }
          }
        } else {
          forall j | 0 <= j < |paths| ensures ReadFile(e, fs, paths[j]).Err? {
            if j > 0 {
              assert paths[1..][j - 1] == paths[j];
            }
          }
        }
      }
    }
  }

  /** One step of the second loop: read into the scratch handle, merge it into the accumulator. */
  function MergeInto<F>(e: Engine<F>, acc: F, read: Status<F>): F {
    AfterMerge(Some(acc), e.merge(Some(acc), AfterRead(read))).value
  }

  /** The second loop over the paths left by the first. */
  function Accumulate<F>(e: Engine<F>, fs: map<string, Bytes>, acc: F, paths: seq<string>): F {
    if paths == [] then acc
    else Accumulate(e, fs, MergeInto(e, acc, ReadFile(e, fs, paths[0])), paths[1..])
  }

  /** What bloom_merge_all returns or raises for `paths`. */
  function MergeAll<F>(e: Engine<F>, fs: map<string, Bytes>, paths: seq<string>): MergeResult {
    match FirstGood(e, fs, paths, 0)
    case NoneLoaded(rc) => LibbloomError(rc)
    case FoundAt(f, rest) => Serialized(e.serialize(Some(Accumulate(e, fs, f, rest))))
  }

  /** The engine never fails to serialize a ready handle. */
  ghost predicate SerializesReady<F(!new)>(e: Engine<F>) {
    forall f: F :: e.serialize(Some(f)).Ok?
  }

  /**
   * The merge fails exactly when no file loads; the error carries rc 0 for an empty selection
   * and the last read's code otherwise. Read or merge failures after the first good file never
   * make it fail (short of serialization failing).
   */
  lemma MergeFailsIffNothingLoads<F(!new)>(e: Engine<F>, fs: map<string, Bytes>, paths: seq<string>)
    ensures (forall j :: 0 <= j < |paths| ==> ReadFile(e, fs, paths[j]).Err?) ==>
              MergeAll(e, fs, paths) == LibbloomError(if paths == [] then 0 else ReadFile(e, fs, paths[|paths| - 1]).rc)
    ensures SerializesReady(e) ==>
              (MergeAll(e, fs, paths).LibbloomError? <==> forall j :: 0 <= j < |paths| ==> ReadFile(e, fs, paths[j]).Err?)
  {
    FirstGoodStopsAtFirstLoadable(e, fs, paths, 0);
    var r := FirstGood(e, fs, paths, 0);
    if r.FoundAt? {
      var k := |paths| - |r.rest| - 1;
      assert ReadFile(e, fs, paths[k]).Ok?;
    }
  }

  /** A file that cannot be read, or whose filter does not fit the accumulator, changes nothing. */
  lemma {:induction false} AccumulateSkipsUnusable<F(!new)>(e: Engine<F>, fs: map<string, Bytes>, acc: F, paths: seq<string>)
    requires MergeRejectsUnready(e)
    requires forall j :: 0 <= j < |paths| ==>
               var s := ReadFile(e, fs, paths[j]); s.Err? || e.merge(Some(acc), Some(s.value)).Err?
    ensures Accumulate(e, fs, acc, paths) == acc
  {
    if paths != [] {
      var s := ReadFile(e, fs, paths[0]);
      assert s.Err? ==> e.merge(Some(acc), AfterRead(s)).Err?;
      assert MergeInto(e, acc, s) == acc;
      AccumulateSkipsUnusable(e, fs, acc, paths[1..]);
    }
  }

  /**
   * A lone readable file among unreadable or incompatible ones is returned byte for byte:
   * the files before it fail to read, the files after it fail to merge.
   */
  lemma LoneReadableFileIsReturned<F(!new)>(e: Engine<F>, fs: map<string, Bytes>, paths: seq<string>, k: nat)
    requires MergeRejectsUnready(e) && SerializeRestoresFile(e)
    requires k < |paths| && paths[k] in fs && ReadFile(e, fs, paths[k]).Ok?
    requires forall j :: 0 <= j < k ==> ReadFile(e, fs, paths[j]).Err?
    requires forall j :: k < j < |paths| ==>
               var s := ReadFile(e, fs, paths[j]);
               s.Err? || e.merge(Some(ReadFile(e, fs, paths[k]).value), Some(s.value)).Err?
    ensures MergeAll(e, fs, paths) == Merged(fs[paths[k]])
  {
    var f := ReadFile(e, fs, paths[k]).value;
    FirstGoodStopsAtFirstLoadable(e, fs, paths, 0);
    var r := FirstGood(e, fs, paths, 0);
    assert r.FoundAt? && |paths| - |r.rest| - 1 == k;
    assert r == FoundAt(f, paths[k + 1..]);
    var rest := paths[k + 1..];
    forall j | 0 <= j < |rest|
      ensures var s := ReadFile(e, fs, rest[j]); s.Err? || e.merge(Some(f), Some(s.value)).Err?
    {
      assert rest[j] == paths[k + 1 + j];
    }
    AccumulateSkipsUnusable(e, fs, f, rest);
  }

  /** bloom_serialize: the serialized buffer is freed whether serialization succeeds or not. */
  method BloomSerialize<F>(lib: Library<F>, h: Handle<F>) returns (r: MergeResult)
    modifies lib
    ensures r == Serialized(lib.engine.serialize(h.state))
    ensures lib.live == old(lib.live)
  {
    var cell := new BufferCell();
    assert cell !in old(lib.live);
    var rc := lib.Serialize(h, cell);
    if rc != 0 {
      r := LibbloomError(rc);
    } else {
      r := Merged(cell.data.value);
    }
    lib.FreeSerialized(cell);
  }

  /**
   * The second loop of bloom_merge_all: each remaining file is read into the scratch handle and
   * merged into the accumulator, whether the read succeeded or not, and the scratch handle is
   * freed after every file.
   */
  method MergeRemaining<F>(lib: Library<F>, fs: map<string, Bytes>, merged: Handle<F>, current: Handle<F>, rest: seq<string>)
    requires merged != current && merged.state.Some? && current.state == None && current !in lib.live
    modifies lib, merged, current
    ensures merged.state == Some(Accumulate(lib.engine, fs, old(merged.state.value), rest))
    ensures current.state == None && lib.live == old(lib.live)
  {
    ghost var e := lib.engine;
    var i := 0;
    while i < |rest|
      invariant 0 <= i <= |rest|
      invariant current.state == None && merged.state.Some?
      invariant lib.live == old(lib.live) && current !in lib.live
      invariant Accumulate(e, fs, old(merged.state.value), rest) == Accumulate(e, fs, merged.state.value, rest[i..])
    {
      var rc := lib.FileRead(current, fs, rest[i]);
      rc := lib.Merge(merged, current);
      lib.Free(current);
      assert rest[i..][1..] == rest[i + 1..];
      i := i + 1;
    }
  }

  /**
   * bloom_merge_all over the files `paths` of the directory fs. Everything the engine allocated
   * during the call has been released when it returns, on the raising path as well.
   */
  method BloomMergeAll<F>(lib: Library<F>, fs: map<string, Bytes>, paths: seq<string>) returns (r: MergeResult)
    modifies lib
    ensures r == MergeAll(lib.engine, fs, paths)
    ensures lib.live == old(lib.live)
  {
    ghost var e := lib.engine;
    var merged := new Handle<F>();
    var current := new Handle<F>();
    assert merged !in old(lib.live) && current !in old(lib.live);
    var rc := 0;
    var i := 0;
    var found := false;
    // Find the first good bloom file.
    while i < |paths|
      invariant 0 <= i <= |paths|
      invariant current.state == None && current !in lib.live
      invariant lib.live - {merged} == old(lib.live)
      invariant FirstGood(e, fs, paths, 0) == FirstGood(e, fs, paths[i..], rc)
    {
      rc := lib.FileRead(merged, fs, paths[i]);
      assert paths[i..][1..] == paths[i + 1..];
      i := i + 1;
      if rc == 0 {
        found := true;
        break;
      }
    }
    if !found {
      assert paths[i..] == [];
      r := LibbloomError(rc);
    } else {
      MergeRemaining(lib, fs, merged, current, paths[i..]);
      r := BloomSerialize(lib, merged);
    }
    lib.Free(current);
    lib.Free(merged);
  }
}
