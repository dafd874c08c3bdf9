/**
 * The Filter Engine (libbloom) as the core sees it: four operations on per-handle state whose
 * bits are opaque. A handle is a `struct bloom` allocated zeroed by the caller; it is "ready"
 * once a read has filled it and holds engine-owned memory until it is freed. The engine's
 * behaviour is a value of `Engine<F>`, F being the opaque filter contents.
 */
module FilterEngine {
  import opened Wrappers

  newtype Byte = b: int | 0 <= b < 256

  type Bytes = seq<Byte>

  /** A non-zero return code of a libbloom call. */
  type ErrorCode = rc: int | rc != 0 witness 1

  /** What a libbloom call returns: 0 with its result, or a non-zero code. */
  datatype Status<+T> = Ok(value: T) | Err(rc: ErrorCode)

  function Code<T>(s: Status<T>): (rc: int)
    ensures rc == 0 <==> s.Ok?
  {
    match s
    case Ok(_) => 0
    case Err(rc) => rc
  }

  datatype Engine<!F> = Engine(
    /** bloom_file_read on the contents of a file, None when it cannot be opened */
    read: Option<Bytes> -> Status<F>,
    /** bloom_merge(bloom, other) on the two handles' states (None: not ready) */
    merge: (Option<F>, Option<F>) -> Status<F>,
    /** bloom_serialize on a handle's state */
    serialize: Option<F> -> Status<Bytes>)

  /**
   * A merge whose other side is not ready fails: an unreadable path among readable ones leaves
   * the result equal to the readable files' merge (tests/test_api.py:126-127).
   */
  ghost predicate MergeRejectsUnready<F(!new)>(e: Engine<F>) {
    forall acc: F :: e.merge(Some(acc), None).Err?
  }

  /** Serializing what was read from a file gives the file's bytes back. */
  ghost predicate SerializeRestoresFile<F>(e: Engine<F>) {
    forall b: Bytes :: e.read(Some(b)).Ok? ==> e.serialize(Some(e.read(Some(b)).value)) == Ok(b)
  }

  /** The handle state after a read: filled on success; a failed read leaves it not ready. */
  function AfterRead<F>(s: Status<F>): (state: Option<F>)
    ensures state.Some? <==> s.Ok?
  {
    match s
    case Ok(f) => Some(f)
    case Err(_) => None
  }

  /** The accumulator after a merge: the merged filter on success, unchanged on failure. */
  function AfterMerge<F>(acc: Option<F>, s: Status<F>): (state: Option<F>)
    ensures s.Err? ==> state == acc
  {
    match s
    case Ok(f) => Some(f)
    case Err(_) => acc
  }

  /** A `struct bloom`, allocated zeroed (not ready) by ffi.new. */
  class Handle<F> {
    var state: Option<F>

    constructor ()
      ensures state == None
    {
      state := None;
    }
  }

  /** The `uint8_t **` cell that bloom_serialize fills with an engine-allocated buffer. */
  class BufferCell {
    var data: Option<Bytes>

    constructor ()
      ensures data == None
    {
      data := None;
    }
  }

  /**
   * The loaded library. `live` is the set of handles and buffers that currently hold
   * engine-owned memory; releasing everything one acquired leaves it as it was. Memory is
   * counted per handle: a read into a handle is taken to release or reuse what it held.
   */
  class Library<F> {
    const engine: Engine<F>
    var live: set<object>

    constructor (engine: Engine<F>)
      ensures this.engine == engine && live == {}
    {
      this.engine := engine;
      live := {};
    }

    /**
     * bloom_file_read_(h, path): fs is the directory the file is looked up in. On failure the
     * handle may or may not still hold memory: only a later bloom_free_ is sure to release it.
     */
    method FileRead(h: Handle<F>, fs: map<string, Bytes>, path: string) returns (rc: int)
      modifies this, h
      ensures var s := engine.read(if path in fs then Some(fs[path]) else None);
              rc == Code(s) && h.state == AfterRead(s)
      ensures rc == 0 ==> live == old(live) + {h}
      ensures rc != 0 ==> live - {h} == old(live) - {h}
    {
      var s := engine.read(if path in fs then Some(fs[path]) else None);
      rc := Code(s);
      h.state := AfterRead(s);
      live := if rc == 0 then live + {h} else live - {h};
    }

    /** bloom_merge_(acc, other): on failure the accumulator is left as it was. */
    method Merge(acc: Handle<F>, other: Handle<F>) returns (rc: int)
      modifies acc
      ensures var s := engine.merge(old(acc.state), old(other.state));
              rc == Code(s) && acc.state == AfterMerge(old(acc.state), s)
    {
      var s := engine.merge(acc.state, other.state);
      rc := Code(s);
      acc.state := AfterMerge(acc.state, s);
    }

    /**
     * bloom_serialize_(h, cell, size): on success the cell holds a newly allocated buffer; on
     * failure the cell may hold one too, so it is released by bloom_free_serialized_buffer_ alone.
     */
    method Serialize(h: Handle<F>, cell: BufferCell) returns (rc: int)
      modifies this, cell
      ensures var s := engine.serialize(h.state);
              rc == Code(s) && (s.Ok? ==> cell.data == Some(s.value))
      ensures rc == 0 ==> live == old(live) + {cell}
      ensures rc != 0 ==> live - {cell} == old(live) - {cell}
    {
      var s := engine.serialize(h.state);
      rc := Code(s);
      if s.Ok? {
        cell.data := Some(s.value);
        live := live + {cell};
      }
    }

    /** bloom_free_(h): releases the handle; freeing a handle that holds nothing is harmless. */
    method Free(h: Handle<F>)
      modifies this, h
      ensures h.state == None && live == old(live) - {h}
    {
      h.state := None;
      live := live - {h};
    }

    /** bloom_free_serialized_buffer_(cell): as harmless on an empty cell. */
    method FreeSerialized(cell: BufferCell)
      modifies this, cell
      ensures cell.data == None && live == old(live) - {cell}
    {
      cell.data := None;
      live := live - {cell};
    }
  }
}
