/**
 * The bucket operations behind the route /<bucket>/<from>/<to>/: store a segment (POST),
 * delete the segments a window contains (DELETE), and merge them (GET). The instance
 * directory is a map from bucket to that bucket's directory, a map from file name to contents.
 */
module BucketOperations {
  import opened Wrappers
  import opened SegmentNamer
  import opened SegmentSelector
  import FilterEngine
  import MergeAccumulator

  type BucketId = nat

  type Bytes = FilterEngine.Bytes

  type Directory = map<string, Bytes>

  datatype Verb = Get | Post | Delete

  /** What a request ends in: 200 "OK", 200 with the merged filter, 404, 400, or the raised error. */
  datatype Outcome = Ok | OkData(payload: Bytes) | NotFound | BadRange | LibbloomError(rc: int)

  /** glob over the bucket's directory: the entries whose name ends in ".bloom". */
  predicate IsBloomEntry(name: string) {
    |name| >= |Suffix| && name[|name| - |Suffix|..] == Suffix
  }

  /** A glob result: each matching entry of the directory once, in some order. */
  ghost predicate IsListing(names: seq<string>, dir: Directory) {
    Distinct(names) && forall n :: n in names <==> n in dir && IsBloomEntry(n)
  }

  /** The entries of a directory that a window selects. */
  function Selection(dir: Directory, from: nat, to: nat): set<string> {
    set n | n in dir && IsBloomEntry(n) && Selected(n, from, to)
  }

  /** The response get_merged gives for what bloom_merge_all returned or raised. */
  function AsOutcome(m: MergeAccumulator.MergeResult): Outcome {
    if m.Merged? then OkData(m.data) else LibbloomError(m.rc)
  }

  /** post_bloom on the directory map: create the bucket if missing, then overwrite one entry. */
  function Posted(buckets: map<BucketId, Directory>, bucket: BucketId, from: nat, to: nat, data: Bytes)
    : (r: map<BucketId, Directory>)
    ensures bucket in r && FilenameMake(from, to) in r[bucket] && r[bucket][FilenameMake(from, to)] == data
    ensures r.Keys == buckets.Keys + {bucket}
    ensures forall b :: b in buckets && b != bucket ==> r[b] == buckets[b]
    ensures bucket in buckets ==>
              forall n :: n != FilenameMake(from, to) ==>
                (n in r[bucket] <==> n in buckets[bucket]) && (n in buckets[bucket] ==> r[bucket][n] == buckets[bucket][n])
    ensures bucket !in buckets ==> r[bucket].Keys == {FilenameMake(from, to)}
  {
    var dir := if bucket in buckets then buckets[bucket] else map[];
    buckets[bucket := dir[FilenameMake(from, to) := data]]
  }

  /** Storing the same window twice keeps only the second payload. */
  lemma LastPostWins(buckets: map<BucketId, Directory>, bucket: BucketId, from: nat, to: nat, first: Bytes, second: Bytes)
    ensures Posted(Posted(buckets, bucket, from, to, first), bucket, from, to, second)
            == Posted(buckets, bucket, from, to, second)
  {
    var n := FilenameMake(from, to);
    var dir := if bucket in buckets then buckets[bucket] else map[];
    var mid := Posted(buckets, bucket, from, to, first);
    assert mid == buckets[bucket := dir[n := first]];
    assert mid[bucket][n := second] == dir[n := second];
  }

  /** Segments of different windows are stored independently: posting them commutes. */
  lemma PostsOfDistinctWindowsCommute(buckets: map<BucketId, Directory>, bucket: BucketId,
                                      w1: (nat, nat), d1: Bytes, w2: (nat, nat), d2: Bytes)
    requires w1 != w2
    ensures Posted(Posted(buckets, bucket, w1.0, w1.1, d1), bucket, w2.0, w2.1, d2)
            == Posted(Posted(buckets, bucket, w2.0, w2.1, d2), bucket, w1.0, w1.1, d1)
  {
    var n1, n2 := FilenameMake(w1.0, w1.1), FilenameMake(w2.0, w2.1);
    FilenameMakeInjective(w1.0, w1.1, w2.0, w2.1);
    var dir := if bucket in buckets then buckets[bucket] else map[];
    assert Posted(buckets, bucket, w1.0, w1.1, d1) == buckets[bucket := dir[n1 := d1]];
    assert Posted(buckets, bucket, w2.0, w2.1, d2) == buckets[bucket := dir[n2 := d2]];
    assert dir[n1 := d1][n2 := d2] == dir[n2 := d2][n1 := d1];
  }

  /** delete_bloom on the directory map: the selected entries go, the bucket itself stays. */
  function Deleted(buckets: map<BucketId, Directory>, bucket: BucketId, from: nat, to: nat)
    : (r: map<BucketId, Directory>)
    requires bucket in buckets
    ensures r.Keys == buckets.Keys
    ensures forall b :: b in buckets && b != bucket ==> r[b] == buckets[b]
    ensures forall n :: n in r[bucket] <==> n in buckets[bucket] && n !in Selection(buckets[bucket], from, to)
    ensures forall n :: n in r[bucket] ==> r[bucket][n] == buckets[bucket][n]
  {
    buckets[bucket := buckets[bucket] - Selection(buckets[bucket], from, to)]
  }

  /** The glob-then-filter pass of a delete or a merge selects exactly Selection, each entry once. */
  lemma {:induction false} FilterOfListingIsSelection(names: seq<string>, dir: Directory, from: nat, to: nat)
    requires IsListing(names, dir)
    ensures Distinct(FilenameFilter(names, from, to))
    ensures forall n :: n in FilenameFilter(names, from, to) <==> n in Selection(dir, from, to)
  {
    FilterKeepsDistinct(names, from, to);
  }

  lemma RemoveOneMore(buckets: map<BucketId, Directory>, bucket: BucketId, dir: Directory, removed: set<string>, name: string)
    ensures buckets[bucket := dir - removed][bucket := (dir - removed) - {name}]
            == buckets[bucket := dir - (removed + {name})]
  {
    assert (dir - removed) - {name} == dir - (removed + {name});
  }

  lemma EmptyIffMemberless(s: seq<string>)
    ensures s == [] <==> forall p :: p !in s
  {
    if s != [] {
      assert s[0] in s;
    }
  }

  lemma DistinctHead(s: seq<string>)
    requires Distinct(s) && s != []
    ensures s[0] !in s[1..]
  {
  }

  lemma SingleDistinctElement(s: seq<string>, x: string)
    requires Distinct(s) && x in s
    requires forall p :: p in s ==> p == x
    ensures s == [x]
  {
    assert s[0] in s;
    DistinctHead(s);
    assert forall p :: p in s[1..] ==> p in s;
    EmptyIffMemberless(s[1..]);
    assert s == [s[0]] + s[1..];
  }

  /**
   * Byte-exact passthrough: when a window selects a single entry, whatever its name, a merge over
   * the window returns that entry's bytes, provided the engine loads it.
   */
  lemma SoleSelectedSegmentIsReturned<F(!new)>(e: FilterEngine.Engine<F>, dir: Directory, names: seq<string>,
                                               from: nat, to: nat, name: string)
    requires FilterEngine.MergeRejectsUnready(e) && FilterEngine.SerializeRestoresFile(e)
    requires IsListing(names, dir)
    requires Selection(dir, from, to) == {name}
    requires name in dir && e.read(Some(dir[name])).Ok?
    ensures AsOutcome(MergeAccumulator.MergeAll(e, dir, FilenameFilter(names, from, to))) == OkData(dir[name])
  {
    var files := FilenameFilter(names, from, to);
    FilterOfListingIsSelection(names, dir, from, to);
    SingleDistinctElement(files, name);
    MergeAccumulator.LoneReadableFileIsReturned(e, dir, files, 0);
  }

  /** The name of a window is a glob match that the window selects. */
  lemma MadeNameSelectsItself(from: nat, to: nat)
    ensures IsBloomEntry(FilenameMake(from, to)) && Selected(FilenameMake(from, to), from, to)
  {
    var n := FilenameMake(from, to);
    assert n == (DecimalString(from) + "-" + DecimalString(to)) + Suffix;
    assert n[|n| - |Suffix|..] == Suffix;
    ParseMake("", from, to);
  }

  /** Storing an entry the window selects, where it selected at most that entry, makes it the only one. */
  lemma SelectionAfterStore(dir: Directory, name: string, data: Bytes, from: nat, to: nat)
    requires IsBloomEntry(name) && Selected(name, from, to)
    requires Selection(dir, from, to) <= {name}
    ensures Selection(dir[name := data], from, to) == {name}
  {
    var stored := dir[name := data];
    assert forall n :: n in Selection(stored, from, to) ==> n == name || n in Selection(dir, from, to);
  }

  /** After a post, a window that selected at most its own entry selects exactly that entry. */
  lemma PostedSelection(buckets: map<BucketId, Directory>, bucket: BucketId, from: nat, to: nat, data: Bytes)
    requires bucket in buckets ==> Selection(buckets[bucket], from, to) <= {FilenameMake(from, to)}
    ensures Selection(Posted(buckets, bucket, from, to, data)[bucket], from, to) == {FilenameMake(from, to)}
  {
    var name := FilenameMake(from, to);
    if bucket in buckets {
      MadeNameSelectsItself(from, to);
      SelectionAfterStore(buckets[bucket], name, data, from, to);
    } else {
      var empty: Directory := map[];
      assert Selection(empty, from, to) == {};
      MadeNameSelectsItself(from, to);
      SelectionAfterStore(empty, name, data, from, to);
    }
  }

  /**
   * The round trip of the service: a payload posted for a window comes back byte for byte from a
   * merge over the same window, when no other entry of the bucket lies inside that window.
   */
  lemma PostThenGetReturnsPayload<F(!new)>(e: FilterEngine.Engine<F>, buckets: map<BucketId, Directory>,
                                           bucket: BucketId, from: nat, to: nat, data: Bytes, names: seq<string>)
    requires FilterEngine.MergeRejectsUnready(e) && FilterEngine.SerializeRestoresFile(e)
    requires bucket in buckets ==> Selection(buckets[bucket], from, to) <= {FilenameMake(from, to)}
    requires IsListing(names, Posted(buckets, bucket, from, to, data)[bucket])
    requires e.read(Some(data)).Ok?
    ensures AsOutcome(MergeAccumulator.MergeAll(e, Posted(buckets, bucket, from, to, data)[bucket],
                                                FilenameFilter(names, from, to))) == OkData(data)
  {
    var dir := Posted(buckets, bucket, from, to, data)[bucket];
    PostedSelection(buckets, bucket, from, to, data);
    SoleSelectedSegmentIsReturned(e, dir, names, from, to, FilenameMake(from, to));
  }

  /** A window that selects nothing in an existing bucket makes the merge raise, with rc 0. */
  lemma EmptySelectionRaises<F>(e: FilterEngine.Engine<F>, dir: Directory, names: seq<string>, from: nat, to: nat)
    requires IsListing(names, dir)
    requires Selection(dir, from, to) == {}
    ensures AsOutcome(MergeAccumulator.MergeAll(e, dir, FilenameFilter(names, from, to))) == LibbloomError(0)
  {
    FilterOfListingIsSelection(names, dir, from, to);
    EmptyIffMemberless(FilenameFilter(names, from, to));
  }

  class BucketStore {
    var buckets: map<BucketId, Directory>

    constructor ()
      ensures buckets == map[]
    {
      buckets := map[];
    }

    /** The names glob returns for a bucket's directory, in an order the store chooses. */
    method Glob(bucket: BucketId) returns (names: seq<string>)
      requires bucket in buckets
      ensures IsListing(names, buckets[bucket])
    {
      var dir := buckets[bucket];
      var pending := dir.Keys;
      names := [];
      while pending != {}
        invariant pending <= dir.Keys
        invariant Distinct(names)
        invariant forall n :: n in names ==> n !in pending
        invariant forall n :: n in names <==> n in dir && n !in pending && IsBloomEntry(n)
        decreases pending
      {
        var n :| n in pending;
        if IsBloomEntry(n) {
          names := names + [n];
        }
        pending := pending - {n};
      }
    }

    /** post_bloom: always 200 OK. */
    method PostBloom(bucket: BucketId, from: nat, to: nat, data: Bytes) returns (o: Outcome)
      modifies this
      ensures o == Ok
      ensures buckets == Posted(old(buckets), bucket, from, to, data)
    {
      var filename := FilenameMake(from, to);
      if bucket !in buckets {
        buckets := buckets[bucket := map[]];
      }
      buckets := buckets[bucket := buckets[bucket][filename := data]];
      o := Ok;
    }

    /** The removal loop of delete_bloom: each listed entry is dropped from the bucket in turn. */
    method RemoveEntries(bucket: BucketId, files: seq<string>)
      requires bucket in buckets
      modifies this
      ensures buckets == old(buckets)[bucket := old(buckets)[bucket] - (set n | n in files)]
    {
      ghost var dir := buckets[bucket];
      ghost var removed: set<string> := {};
      assert dir - removed == dir;
      assert old(buckets)[bucket := dir] == old(buckets);
      var k := 0;
      while k < |files|
        invariant 0 <= k <= |files|
        invariant forall n :: n in removed <==> n in files[..k]
        invariant buckets == old(buckets)[bucket := dir - removed]
      {
        RemoveOneMore(old(buckets), bucket, dir, removed, files[k]);
        buckets := buckets[bucket := buckets[bucket] - {files[k]}];
        removed := removed + {files[k]};
        assert files[..k + 1] == files[..k] + [files[k]];
        k := k + 1;
      }
      assert files[..k] == files;
      assert removed == (set n | n in files);
    }

    /**
     * delete_bloom: 404 only when the bucket does not exist. The `if not files` test of the
     * source looks at a generator, which is always true, so an empty selection returns 200 too.
     */
    method DeleteBloom(bucket: BucketId, from: nat, to: nat) returns (o: Outcome)
      modifies this
      ensures bucket !in old(buckets) ==> o == NotFound && buckets == old(buckets)
      ensures bucket in old(buckets) ==> o == Ok && buckets == Deleted(old(buckets), bucket, from, to)
    {
      if bucket !in buckets {
        return NotFound;
      }
      var names := Glob(bucket);
      var files := FilenameFilter(names, from, to);
      FilterOfListingIsSelection(names, buckets[bucket], from, to);
      ghost var dir := buckets[bucket];
      RemoveEntries(bucket, files);
      assert (set n | n in files) == Selection(dir, from, to);
      o := Ok;
    }

    /**
     * get_merged: 404 only when the bucket does not exist; otherwise the merge of the entries
     * the window selects, taken in the order glob listed them (returned as `listing`).
     */
    method GetMerged<F>(lib: FilterEngine.Library<F>, bucket: BucketId, from: nat, to: nat)
      returns (o: Outcome, ghost listing: seq<string>)
      modifies lib
      ensures lib.live == old(lib.live)
      ensures bucket !in buckets ==> o == NotFound
      ensures bucket in buckets ==>
                IsListing(listing, buckets[bucket])
                && o == AsOutcome(MergeAccumulator.MergeAll(lib.engine, buckets[bucket], FilenameFilter(listing, from, to)))
    {
      listing := [];
      if bucket !in buckets {
        return NotFound, listing;
      }
      var names := Glob(bucket);
      listing := names;
      var files := FilenameFilter(names, from, to);
      var merged := MergeAccumulator.BloomMergeAll(lib, buckets[bucket], files);
      o := AsOutcome(merged);
    }

    /** The route: a window with from >= to is refused with 400 before the store is touched. */
    method Endpoint<F>(lib: FilterEngine.Library<F>, verb: Verb, bucket: BucketId, from: nat, to: nat, data: Bytes)
      returns (o: Outcome, ghost listing: seq<string>)
      modifies this, lib
      ensures lib.live == old(lib.live)
      ensures from >= to ==> o == BadRange && buckets == old(buckets)
      ensures from < to && verb == Post ==> o == Ok && buckets == Posted(old(buckets), bucket, from, to, data)
      ensures from < to && verb == Delete ==>
                if bucket in old(buckets) then o == Ok && buckets == Deleted(old(buckets), bucket, from, to)
                else o == NotFound && buckets == old(buckets)
      ensures from < to && verb == Get ==>
                buckets == old(buckets)
                && if bucket in buckets
                   then IsListing(listing, buckets[bucket])
                        && o == AsOutcome(MergeAccumulator.MergeAll(lib.engine, buckets[bucket], FilenameFilter(listing, from, to)))
                   else o == NotFound
    {
      listing := [];
      if from >= to {
        return BadRange, listing;
      }
      match verb {
        case Post =>
          o := PostBloom(bucket, from, to, data);
        case Delete =>
          o := DeleteBloom(bucket, from, to);
        case Get =>
          o, listing := GetMerged(lib, bucket, from, to);
      }
    }
  }
}
