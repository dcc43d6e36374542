// A growable sequence of bytes, kept as a sorted dictionary of chunks.
module ByteVecs {
  import opened Options
  import opened Chunks

  datatype Error = IndexError | ValueError | TypeError | OverflowError | AssertionError

  /** What can be written; `Vec` is the content of another vector. */
  datatype Written =
    | Raw(bytes: seq<byte>)
    | Term(data: Data)
    | Number(n: int)
    | Wrapped(chunk: Chunk)
    | Vec(entries: seq<Entry>)

  predicate WfWritten(v: Written) {
    match v
    case Raw(_) => true
    case Term(d) => WfData(d)
    case Number(_) => true
    case Wrapped(c) => WfChunk(c) && !c.Nested?
    case Vec(es) => Contiguous(es, 0)
  }

  /** A value as a chunk: literals become bytes, a number must fit in one. */
  function Wrap(v: Written): (c: Option<Chunk>)
    requires WfWritten(v)
    ensures c.Some? ==> WfChunk(c.value)
    ensures c.None? <==> v.Number? && !(0 <= v.n < 256)
  {
    match v
    case Raw(bytes) => Some(Concrete(bytes, 0, |bytes|))
    case Term(d) => Some(if d.Value? then Concrete(d.bytes, 0, |d.bytes|) else Symbolic(d, 0, Size(d)))
    case Number(n) => if 0 <= n < 256 then Some(Concrete([n], 0, 1)) else None
    case Wrapped(c) => Some(c)
    case Vec(es) => Some(Nested(es, Total(es)))
  }

  ghost function WrittenBytes(v: Written, env: Env): seq<byte>
    requires WfWritten(v)
  {
    match v
    case Raw(bytes) => bytes
    case Term(d) => DataBytes(d, env)
    case Number(n) => if 0 <= n < 256 then [n] else []
    case Wrapped(c) => ChunkBytes(c, env)
    case Vec(es) => Flat(es, 0, env)
  }

  lemma WrapMeans(v: Written, env: Env)
    requires WfWritten(v) && Wrap(v).Some?
    ensures ChunkBytes(Wrap(v).value, env) == WrittenBytes(v, env)
    ensures v.Raw? ==> Wrap(v).value.length == |v.bytes|
  {
    match v
    case Raw(bytes) => assert bytes[0..0 + |bytes|] == bytes;
    case Term(d) =>
      if d.Value? {
        assert d.bytes[0..0 + |d.bytes|] == d.bytes;
      } else {
        assert DataBytes(d, env)[0..0 + Size(d)] == DataBytes(d, env);
      }
    case Number(n) => assert [n][0..0 + 1] == [n];
    case Wrapped(_) =>
    case Vec(_) =>
  }

  // ---- flat sequences of bytes ----

  /** Writes at an offset; a gap after the end is filled with zeros. */
  function Overwritten(s: seq<byte>, start: nat, bytes: seq<byte>): seq<byte> {
    if start >= |s| then s + Zeros(start - |s|) + bytes
    else s[..start] + bytes + if start + |bytes| < |s| then s[start + |bytes|..] else []
  }

  /** Reads n bytes at an offset, with zeros after the end. */
  function Window(s: seq<byte>, start: nat, n: nat): (r: seq<byte>)
    ensures |r| == n
  {
    seq(n, i requires 0 <= i < n => if start + i < |s| then s[start + i] else 0)
  }

  /** Reading what was written returns it, and everything else is as before. */
  lemma ReadAfterWrite(s: seq<byte>, start: nat, bytes: seq<byte>, i: nat)
    requires bytes != []
    ensures Window(Overwritten(s, start, bytes), i, 1)[0] ==
            if start <= i < start + |bytes| then bytes[i - start] else Window(s, i, 1)[0]
    ensures |Overwritten(s, start, bytes)| == if start + |bytes| > |s| then start + |bytes| else |s|
  {
  }

  lemma WindowSplit(s: seq<byte>, start: nat, stop: nat)
    requires start < |s| && start <= stop
    ensures var end := if stop < |s| then stop else |s|;
      Window(s, start, stop - start) == s[start..end] + Zeros(stop - end)
  {
  }

  lemma WindowPast(s: seq<byte>, start: nat, n: nat)
    requires start >= |s|
    ensures Window(s, start, n) == Zeros(n)
  {
  }

  class ByteVec {
    var chunks: seq<Entry>  // sorted by offset
    var length: nat

    ghost predicate Valid()
      reads this
    {
      Contiguous(chunks, 0) && length == Total(chunks)
    }

    ghost function Bytes(env: Env): (s: seq<byte>)
      requires Valid()
      reads this
      ensures |s| == length
    {
      Flat(chunks, 0, env)
    }

    constructor ()
      ensures Valid() && chunks == [] && length == 0
    {
      chunks, length := [], 0;
    }

    constructor Copy(chunks: seq<Entry>, length: nat)
      requires Contiguous(chunks, 0) && length == Total(chunks)
      ensures Valid() && this.chunks == chunks && this.length == length
    {
      this.chunks, this.length := chunks, length;
    }

    /** The chunk that contains an offset, unless it is after the end; an error before the start. */
    method LoadChunk(offset: int) returns (error: Option<Error>, index: Option<nat>)
      requires Valid()
      ensures error == if offset < 0 then Some(IndexError) else None
      ensures index.None? <==> offset < 0 || offset >= length
      ensures index.Some? ==>
                index.value < |chunks| && var e := chunks[index.value]; e.key <= offset < e.key + e.chunk.length
    {
      if offset < 0 {
        return Some(IndexError), None;
      }
      if offset >= length {
        return None, None;
      }
      BisectFinds(chunks, 0, offset);
      error, index := None, Some(BisectRight(chunks, offset) - 1);
    }

    /** Stores a chunk without looking at its neighbours; empty chunks are ignored. */
    method SetChunk(start: nat, chunk: Chunk) returns (stored: bool)
      modifies this`chunks
      ensures stored == (chunk.length > 0)
      ensures chunks == if stored then Put(old(chunks), Entry(start, chunk)) else old(chunks)
    {
      if chunk.length == 0 {
        return false;
      }
      chunks := Put(chunks, Entry(start, chunk));
      stored := true;
    }

    // ---- append ----

    method Append(value: Written) returns (error: Option<Error>)
      requires Valid() && WfWritten(value)
      modifies this
      ensures Valid()
      ensures error == if Wrap(value).None? then Some(OverflowError) else None
      ensures error.Some? ==> chunks == old(chunks) && length == old(length)
      ensures error.None? ==> length == old(length) + Wrap(value).value.length
      ensures error.None? ==> forall env ::
                Flat(chunks, 0, env) == Flat(old(chunks), 0, env) + WrittenBytes(value, env)
    {
      hide WfChunk, ChunkBytes, Flat, Contiguous, Total;
      var c := Wrap(value);
      if c.None? {
        return Some(OverflowError);
      }
      AppendChunk(c.value);
      forall env
        ensures ChunkBytes(c.value, env) == WrittenBytes(value, env)
      {
        WrapMeans(value, env);
      }
      error := None;
    }

    /** A vector is taken apart into its chunks. */
    method AppendChunk(c: Chunk)
      requires Valid() && WfChunk(c)
      modifies this
      ensures Valid() && Appended(old(chunks), chunks, c)
      decreases c, 1
    {
      hide Flat, Total, Put, Appended, AppendedAll, Contiguous;
      if c.Nested? {
        ghost var es := chunks;
        AppendAll(c.entries, 0);
        AppendedNested(es, chunks, c);
      } else {
        PutLast(chunks, c);
        var stored := SetChunk(length, c);
        if stored {
          length := length + c.length;
        }
      }
    }

    method AppendAll(es: seq<Entry>, ghost base: nat)
      requires Valid() && Contiguous(es, base)
      modifies this
      ensures Valid() && AppendedAll(old(chunks), chunks, es, base)
      decreases es, 0
    {
      hide Flat, Total, WfChunk, ChunkBytes, Contiguous, Appended, AppendedAll;
      ghost var first := chunks;
      AppendedNone(first, es, base);
      for i := 0 to |es|
        invariant Valid() && Contiguous(es[..i], base) && AppendedAll(first, chunks, es[..i], base)
      {
        At(es, base, i);
        ghost var before := chunks;
        AppendEntry(es[i]);
        AppendedNext(first, before, chunks, es, base, i);
      }
      assert es[..|es|] == es;
    }

    method AppendEntry(e: Entry)
      requires Valid() && WfEntry(e)
      modifies this
      ensures Valid() && Appended(old(chunks), chunks, e.chunk)
      decreases e, 2
    {
      hide Flat, Total, Contiguous, WfChunk, ChunkBytes, Appended;
      AppendChunk(e.chunk);
    }

    // ---- reading ----

    /** The bytes from start to stop as a new vector, with zeros after the end. */
    method Slice(start: int, stop: int) returns (result: Option<ByteVec>)
      requires Valid()
      ensures result.None? <==> start < 0 && start < stop
      ensures result.Some? ==> var r := result.value;
        && fresh(r) && r.Valid() && r.length == (if start < stop then stop - start else 0)
        && (start < stop ==> IsWindow(chunks, r.chunks, start, stop))
      decreases chunks, 0
    {
      hide Flat, Total, Contiguous, WfChunk, ChunkBytes, Appended, IsWindow, Window, CoveredTo;
      var r := new ByteVec();
      if stop <= start {
        return Some(r);
      }
      var error, first := LoadChunk(start);
      if error.Some? {
        return None;
      }
      if first.None? {
        r.AppendZeros(stop - start);
        WindowOfZeros(chunks, r.chunks, start, stop);
        return Some(r);
      }
      CoveredStart(chunks, r.chunks, start, stop, first.value);
      var i := first.value;
      while i < |chunks| && chunks[i].key < stop
        invariant first.value <= i <= |chunks| && r.Valid()
        invariant CoveredTo(chunks, r.chunks, start, stop, i)
        decreases |chunks| - i
      {
        At(chunks, 0, i);
        var e := chunks[i];
        ghost var before := r.chunks;
        OverlapsSlice(chunks, start, stop, first.value, i);
        if start <= e.key && e.key + e.chunk.length <= stop {
          r.AppendChunk(e.chunk);
          WholeChunk(e.chunk);
          CoveredNext(chunks, before, r.chunks, start, stop, i, e.chunk);
        } else {
          var from := if start > e.key then start - e.key else 0;
          var to := if e.chunk.length < stop - e.key then e.chunk.length else stop - e.key;
          var part := CutEntry(e, from, to);
          r.AppendChunk(part);
          CoveredNext(chunks, before, r.chunks, start, stop, i, part);
        }
        i := i + 1;
      }
      CoveredLength(chunks, r.chunks, start, stop, i);
      var missing := stop - start - r.length;
      ghost var before := r.chunks;
      if missing > 0 {
        r.AppendZeros(missing);
      }
      CoveredAll(chunks, before, r.chunks, start, stop, i, missing);
      result := Some(r);
    }

    method AppendZeros(n: nat)
      requires Valid()
      modifies this
      ensures Valid() && length == old(length) + n
      ensures forall env :: Flat(chunks, 0, env) == Flat(old(chunks), 0, env) + Zeros(n)
    {
      hide Flat, Total, Contiguous, WfChunk, ChunkBytes;
      ghost var es := chunks;
      var error := Append(Raw(Zeros(n)));
    }

    method CutEntry(e: Entry, from: nat, to: nat) returns (part: Chunk)
      requires WfEntry(e) && from <= to <= e.chunk.length
      ensures IsPart(e.chunk, part, from, to) && part.length == to - from
      decreases e, 2
    {
      hide Flat, Total, Contiguous, WfChunk, ChunkBytes, IsPart;
      part := CutChunk(e.chunk, from, to);
    }

    /** A part of a chunk, sharing its data. */
    method CutChunk(c: Chunk, from: nat, to: nat) returns (part: Chunk)
      requires WfChunk(c) && from <= to <= c.length
      ensures IsPart(c, part, from, to) && part.length == to - from
      decreases c, 1
    {
      hide Flat, Total, Contiguous, ChunkBytes, IsPart, IsWindow;
      if c.Nested? {
        var v := new ByteVec.Copy(c.entries, c.length);
        var r := v.Slice(from, to);
        part := Nested(r.value.chunks, r.value.length);
        NestedPart(c, part, from, to);
      } else if c.Concrete? {
        part := Concrete(c.data, c.start + from, to - from);
        NativePart(c, part, from, to);
      } else {
        part := Symbolic(c.term, c.start + from, to - from);
        NativePart(c, part, from, to);
      }
    }

    /** One byte, as a number or a term; zero after the end. */
    method GetByte(offset: int) returns (b: Option<Data>)
      requires Valid()
      ensures b.None? <==> offset < 0
      ensures b.Some? ==> WfData(b.value) && Size(b.value) == 1 && IsByteAt(chunks, offset, b.value)
      decreases chunks, 0
    {
      hide Flat, Total, Contiguous, WfChunk, ChunkBytes, IsByteAt, IsChunkByte;
      var error, index := LoadChunk(offset);
      if error.Some? {
        return None;
      }
      if index.None? {
        NoByteAt(chunks, offset);
        return Some(Value([0]));
      }
      var e := chunks[index.value];
      At(chunks, 0, index.value);
      var d := EntryByte(e, offset - e.key);
      ByteInFlat(chunks, index.value, offset, d);
      b := Some(d);
    }

    method EntryByte(e: Entry, offset: nat) returns (d: Data)
      requires WfEntry(e) && offset < e.chunk.length
      ensures IsChunkByte(e.chunk, offset, d)
      decreases e, 2
    {
      hide Flat, Total, Contiguous, WfChunk, ChunkBytes, IsChunkByte;
      d := ChunkByte(e.chunk, offset);
    }

    method ChunkByte(c: Chunk, offset: nat) returns (d: Data)
      requires WfChunk(c) && offset < c.length
      ensures IsChunkByte(c, offset, d)
      decreases c, 1
    {
      if c.Nested? {
        var v := new ByteVec.Copy(c.entries, c.length);
        var b := v.GetByte(offset);
        d := b.value;
      } else if c.Concrete? {
        d := Value([c.data[c.start + offset]]);
      } else {
        d := Part(c.term, c.start + offset, 1);
      }
    }

    // ---- writing ----

    method SetByte(offset: int, value: Written) returns (error: Option<Error>)
      requires Valid() && WfWritten(value)
      modifies this
      ensures Valid() && error == ByteError(offset, value)
      ensures error.Some? ==> chunks == old(chunks) && length == old(length)
      ensures error.None? ==> IsOverwritten(old(chunks), chunks, offset, value)
    {
      hide Flat, Total, Contiguous, WfChunk, ChunkBytes, IsPart, Put, IsOverwritten, Overwritten;
      if value.Wrapped? || value.Vec? {
        return Some(TypeError);
      }
      var c := Wrap(value);
      if c.None? {
        return Some(OverflowError);
      }
      if c.value.length != 1 {
        return Some(AssertionError);
      }
      if offset >= length {
        AppendAt(offset, value);
        return None;
      }
      if offset < 0 {
        return Some(IndexError);
      }
      OverwriteByte(offset, c.value, value);
      error := None;
    }

    /** Splits a chunk around the byte. */
    method OverwriteByte(offset: nat, c: Chunk, ghost value: Written)
      requires Valid() && WfWritten(value) && offset < length && Wrap(value) == Some(c) && c.length == 1
      modifies this`chunks
      ensures Valid() && IsOverwritten(old(chunks), chunks, offset, value)
    {
      hide Flat, Total, Contiguous, WfChunk, ChunkBytes, IsPart, Put, IsOverwritten, Overwritten, Piece, CutFirst, Wrap,
           WfWritten, WrittenBytes, Below, Above;
      var _, index := LoadChunk(offset);
      var i := index.value;
      ghost var es, rest := chunks, chunks[i + 1..];
      At(es, 0, i);
      var e := chunks[i];
      var pre := CutEntry(e, 0, offset - e.key);
      var post := CutEntry(e, offset - e.key + 1, e.chunk.length);
      ghost var vs := [Entry(offset, c)];
      Surrounds(es, i, i, offset, offset + 1);
      assert es == es[..i] + [es[i]] + rest;
      PutPre(es, i, rest, offset, pre);
      PutFirst(es, i, rest, offset, pre, Entry(offset, c));
      PutPost(es, i, vs, rest, offset, offset + 1, pre, post);
      var stored := SetChunk(e.key, pre);
      CutNothing(e, pre);
      chunks := Put(chunks, Entry(offset, c));
      stored := SetChunk(offset + 1, post);
      OneValue(c, offset, value);
      SplicedFlat(es, i, i, offset, offset + 1, pre, vs, post, value);
    }

    /** Writing at or after the end. */
    method AppendAt(start: nat, value: Written)
      requires Valid() && WfWritten(value) && Wrap(value).Some? && start >= length
      modifies this
      ensures Valid() && length == start + Wrap(value).value.length
      ensures IsOverwritten(old(chunks), chunks, start, value)
    {
      hide Flat, Total, Contiguous, WfChunk, ChunkBytes, IsPart, Put, Appended, WrittenBytes;
      ghost var es := chunks;
      AppendZeros(start - length);
      ghost var gap := chunks;
      var error := Append(value);
      forall env
        ensures Flat(chunks, 0, env) == Overwritten(Flat(es, 0, env), start, WrittenBytes(value, env))
      {
        assert |Flat(es, 0, env)| == Total(es);
      }
    }

    /** Assigns the bytes from start (inclusive) to stop (exclusive). */
    method SetSlice(start: int, stop: int, value: Written) returns (error: Option<Error>)
      requires Valid() && WfWritten(value)
      modifies this
      ensures Valid() && error == SliceError(start, stop, value)
      ensures error.Some? || start == stop ==> chunks == old(chunks) && length == old(length)
      ensures error.None? && start < stop ==> IsOverwritten(old(chunks), chunks, start, value)
      ensures error.None? && start < stop ==> length == if old(length) < stop then stop else old(length)
    {
      hide Flat, Total, Contiguous, WfChunk, ChunkBytes, IsOverwritten, Overwritten, WfWritten, WrittenBytes;
      if start == stop {
        return None;
      }
      if start > stop {
        return Some(ValueError);
      }
      if start < 0 || stop < 0 {
        return Some(IndexError);
      }
      if value.Number? {
        return Some(TypeError);
      }
      var c := Wrap(value).value;
      if stop - start != c.length {
        return Some(ValueError);
      }
      if start >= length {
        AppendAt(start, value);
        return None;
      }
      Overwrite(start, stop, c, value);
      error := None;
    }

    /** Replaces bytes of which at least the first is inside the vector. */
    method Overwrite(start: nat, stop: nat, c: Chunk, ghost value: Written)
      requires Valid() && WfWritten(value) && Wrap(value) == Some(c)
      requires start < length && start < stop && c.length == stop - start
      modifies this
      ensures Valid() && IsOverwritten(old(chunks), chunks, start, value)
      ensures length == if old(length) < stop then stop else old(length)
    {
      hide Flat, Total, Contiguous, WfChunk, ChunkBytes, IsPart, Put, IsOverwritten, Overwritten, Wrap, WfWritten,
           WrittenBytes;
      var _, first := LoadChunk(start);
      var i := first.value;
      var e := chunks[i];
      if start == e.key && stop == e.key + e.chunk.length {
        ghost var es := chunks;
        Realigned(es, i, c, value);
        var stored := SetChunk(e.key, c);
        NothingBehind(es, i);
        return;
      }
      var _, last := LoadChunk(stop - 1);
      Splice(start, stop, c, i, last, value);
    }

    /** Splits the first and the last chunk of the write, removes the others, and stores the value. */
    method Splice(start: nat, stop: nat, c: Chunk, i: nat, last: Option<nat>, ghost value: Written)
      requires Valid() && WfWritten(value) && Wrap(value) == Some(c)
      requires start < stop && c.length == stop - start
      requires i < |chunks| && chunks[i].key <= start < chunks[i].key + chunks[i].chunk.length
      requires last.None? <==> stop - 1 >= length
      requires last.Some? ==>
                 last.value < |chunks| && var e := chunks[last.value]; e.key <= stop - 1 < e.key + e.chunk.length
      modifies this
      ensures Valid() && IsOverwritten(old(chunks), chunks, start, value)
      ensures length == if old(length) < stop then stop else old(length)
    {
      hide Flat, Total, Contiguous, WfChunk, ChunkBytes, IsPart, Put, IsOverwritten, Overwritten, Piece, CutFirst, Wrap,
           WfWritten, WrittenBytes, Below, Above, Stored;
      ghost var es := chunks;
      var e := chunks[i];
      LastBehindFirst(es, i, start, stop, last);
      var removeTo := if stop >= length then |chunks| else last.value + 1;
      var behind: Option<Entry> := if last.Some? then Some(chunks[last.value]) else None;
      chunks := chunks[..i + 1] + chunks[removeTo..];
      ghost var rest := es[removeTo..];
      Surroundings(es, i, removeTo, start, stop);
      assert es[..i + 1] == es[..i] + [es[i]];
      At(es, 0, i);
      var pre := CutEntry(e, 0, start - e.key);
      PutPre(es, i, rest, start, pre);
      var stored := SetChunk(e.key, pre);
      CutNothing(e, pre);
      Store(start, stop, c, es, i, rest, pre, value);
      StoredFlat(c, start, value);
      if behind.Some? && stop < behind.value.key + behind.value.chunk.length {
        StillInside(es, last.value, stop);
        StoreSuffix(start, stop, behind.value, es, i, last.value, Stored(c, start), pre, value);
      } else {
        WithoutSuffix(es, i, removeTo, last, start, stop, pre, Stored(c, start), value);
      }
      length := if length < stop then stop else length;
    }

    /** Stores what remains of the last chunk behind the write. */
    method StoreSuffix(ghost start: nat, stop: nat, behind: Entry, ghost es: seq<Entry>, ghost i: nat, ghost j: nat,
                       ghost vs: seq<Entry>, ghost pre: Chunk, ghost value: Written)
      requires Contiguous(es, 0) && i <= j < |es| && start < stop && WfWritten(value)
      requires es[i].key <= start < es[i].key + es[i].chunk.length && Below(es[..i], es[i].key)
      requires behind == es[j] && es[j].key < stop < es[j].key + es[j].chunk.length
      requires IsPart(es[i].chunk, pre, 0, start - es[i].key)
      requires Contiguous(vs, start) && Total(vs) == stop - start && forall k | 0 <= k < |vs| :: vs[k].key < stop
      requires forall env :: Flat(vs, start, env) == WrittenBytes(value, env)
      requires chunks == es[..i] + Piece(es[i].key, pre) + vs + es[j + 1..]
      modifies this`chunks
      ensures IsOverwritten(es, chunks, start, value) && Contiguous(chunks, 0) && Total(chunks) == Total(es) && stop < Total(es)
    {
      hide Flat, Total, Contiguous, WfChunk, ChunkBytes, IsPart, Put, IsOverwritten, Overwritten, Piece, WfWritten,
           WrittenBytes, Below, Above;
      At(es, 0, j);
      StillInside(es, j, stop);
      var post := CutEntry(behind, stop - behind.key, behind.chunk.length);
      PutPost(es, i, vs, es[j + 1..], start, stop, pre, post);
      SplicedFlat(es, i, j, start, stop, pre, vs, post, value);
      var stored := SetChunk(stop, post);
    }

    /** Stores a chunk, or the chunks of a vector one by one. */
    method Store(start: nat, ghost stop: nat, c: Chunk, ghost es: seq<Entry>, ghost i: nat, ghost rest: seq<Entry>,
                 ghost pre: Chunk, ghost value: Written)
      requires WfWritten(value) && Wrap(value) == Some(c) && start < stop && c.length == stop - start
      requires i < |es| && Below(es[..i], es[i].key) && Above(rest, stop - 1)
      requires es[i].key <= start && (pre.length > 0 <==> es[i].key < start)
      requires chunks == es[..i] + [CutFirst(es[i], pre)] + rest
      modifies this`chunks
      ensures chunks == es[..i] + Piece(es[i].key, pre) + Stored(c, start) + rest
      ensures forall k | 0 <= k < |Stored(c, start)| :: Stored(c, start)[k].key < stop
    {
      hide Flat, Total, Contiguous, WfChunk, ChunkBytes, Put, Wrap, WfWritten, WrittenBytes, Piece, CutFirst;
      StoredKeys(c, start, value);
      if c.Nested? {
        ghost var vs := Stored(c, start);
        ghost var a := es[..i] + Piece(es[i].key, pre);
        for k := 0 to |c.entries|
          invariant k == 0 ==> chunks == es[..i] + [CutFirst(es[i], pre)] + rest
          invariant k > 0 ==> chunks == a + vs[..k] + rest
        {
          if k == 0 {
            PutFirst(es, i, rest, start, pre, vs[0]);
            assert a + [vs[0]] == a + vs[..1];
          } else {
            PutNext(es, i, rest, start, pre, vs, k);
          }
          var stored := SetChunk(start + c.entries[k].key, c.entries[k].chunk);
        }
        assert vs[..|c.entries|] == vs;
      } else {
        PutFirst(es, i, rest, start, pre, Entry(start, c));
        var stored := SetChunk(start, c);
      }
    }

    /** v[start:stop] = value. An end of 0 is taken for a missing one. */
    method SetItem(start: Option<int>, stop: Option<int>, value: Written) returns (error: Option<Error>)
      requires Valid() && WfWritten(value)
      modifies this
      ensures Valid()
      ensures var from := if start.Some? then start.value else 0;
        var to := if stop.Some? && stop.value != 0 then stop.value else old(length);
        && error == SliceError(from, to, value)
        && (error.Some? || from == to ==> chunks == old(chunks))
        && (error.None? && from < to ==> IsOverwritten(old(chunks), chunks, from, value))
    {
      hide Flat, Total, Contiguous, WfChunk, ChunkBytes, IsOverwritten, Overwritten, WfWritten, SliceError;
      var from := if start.Some? then start.value else 0;
      var to := if stop.Some? && stop.value != 0 then stop.value else length;
      error := SetSlice(from, to, value);
      assert error.None? && from < to ==> from >= 0 by {
        NoError(from, to, value);
      }
    }
  }

  /** The errors of a slice assignment, in the order of the checks. */
  function SliceError(start: int, stop: int, value: Written): Option<Error>
    requires WfWritten(value)
  {
    if start == stop then None
    else if start > stop then Some(ValueError)
    else if start < 0 || stop < 0 then Some(IndexError)
    else if value.Number? then Some(TypeError)
    else if stop - start != Wrap(value).value.length then Some(ValueError)
    else None
  }

  lemma NoError(start: int, stop: int, value: Written)
    requires WfWritten(value)
    ensures SliceError(start, stop, value).None? && start < stop ==> start >= 0
  {
  }

  /** The entries that a value is stored as. */
  function Stored(c: Chunk, start: nat): seq<Entry> {
    if c.Nested? then Shifted(c.entries, start) else [Entry(start, c)]
  }

  lemma StoredFlat(c: Chunk, start: nat, value: Written)
    requires WfWritten(value) && Wrap(value) == Some(c) && c.length > 0
    ensures var vs := Stored(c, start);
      Contiguous(vs, start) && Total(vs) == c.length && forall env :: Flat(vs, start, env) == WrittenBytes(value, env)
  {
    hide ChunkBytes, WrittenBytes, Flat;
    if c.Nested? {
      forall env
        ensures Contiguous(Shifted(c.entries, start), start)
        ensures Flat(Shifted(c.entries, start), start, env) == WrittenBytes(value, env)
      {
        WrapMeans(value, env);
        ShiftedFlat(c.entries, 0, start, env);
        NestedBytes(c, env);
      }
      ShiftedFlat(c.entries, 0, start, imap[]);
    } else {
      OneValue(c, start, value);
    }
  }

  lemma NestedBytes(c: Chunk, env: Env)
    requires WfChunk(c) && c.Nested?
    ensures ChunkBytes(c, env) == Flat(c.entries, 0, env)
  {
  }

  lemma StoredKeys(c: Chunk, start: nat, value: Written)
    requires WfWritten(value) && Wrap(value) == Some(c) && c.length > 0
    ensures var vs := Stored(c, start);
      && vs != [] && vs[0].key == start
      && (forall k | 0 <= k < |vs| :: start <= vs[k].key < start + c.length && vs[k].chunk.length > 0)
      && (forall k, l | 0 <= k < l < |vs| :: vs[k].key < vs[l].key)
  {
    hide WfChunk, ChunkBytes, WrittenBytes, Flat;
    StoredFlat(c, start, value);
    var vs := Stored(c, start);
    KeysInRange(vs, start);
    forall k | 0 <= k < |vs|
      ensures vs[k].chunk.length > 0
    {
      At(vs, start, k);
    }
  }

  lemma PutNext(es: seq<Entry>, i: nat, rest: seq<Entry>, start: nat, pre: Chunk, vs: seq<Entry>, k: nat)
    requires i < |es| && Below(es[..i], es[i].key) && es[i].key <= start && 0 < k < |vs|
    requires pre.length > 0 <==> es[i].key < start
    requires forall l | 0 <= l < |vs| :: start <= vs[l].key
    requires forall l, m | 0 <= l < m < |vs| :: vs[l].key < vs[m].key
    requires Above(rest, vs[k].key)
    ensures var a := es[..i] + Piece(es[i].key, pre);
      Put(a + vs[..k] + rest, vs[k]) == a + vs[..k + 1] + rest
  {
    var a := es[..i] + Piece(es[i].key, pre);
    assert start < vs[k].key by {
      assert vs[0].key < vs[k].key;
    }
    assert Below(a + vs[..k], vs[k].key);
    PutBetween(a + vs[..k], rest, vs[k]);
    assert a + vs[..k] + [vs[k]] == a + vs[..k + 1];
  }

  function NoChunk(): Chunk {
    Concrete([], 0, 0)
  }

  lemma NoPart(c: Chunk, at: nat)
    requires WfChunk(c) && at <= c.length
    ensures IsPart(c, NoChunk(), at, at)
  {
    assert WfChunk(NoChunk());
  }

  /** An aligned write replaces one entry, even by a whole vector. */
  lemma Realigned(es: seq<Entry>, i: nat, c: Chunk, value: Written)
    requires Contiguous(es, 0) && i < |es| && WfWritten(value) && Wrap(value) == Some(c)
    requires es[i].chunk.length == c.length > 0
    ensures var r := Put(es, Entry(es[i].key, c));
      IsOverwritten(es, r, es[i].key, value) && Contiguous(r, 0) && Total(r) == Total(es)
  {
    hide WfChunk, ChunkBytes, WrittenBytes, Flat, Contiguous, Total, Put, IsPart, IsOverwritten, Wrap, WfWritten;
    var key := es[i].key;
    At(es, 0, i);
    KeysInRange(es, 0);
    var none := NoChunk();
    NoPart(es[i].chunk, 0);
    NoPart(es[i].chunk, c.length);
    OneValue(c, key, value);
    SplicedFlat(es, i, i, key, key + c.length, none, [Entry(key, c)], none, value);
    assert es == es[..i] + [es[i]] + es[i + 1..];
    PutReplaces(es[..i], es[i], es[i + 1..], Entry(key, c));
    assert es[..i] + Piece(key, none) + [Entry(key, c)] + Piece(key + c.length, none) + es[i + 1..]
        == es[..i] + [Entry(key, c)] + es[i + 1..];
  }

  lemma NothingBehind(es: seq<Entry>, i: nat)
    requires Contiguous(es, 0) && i < |es|
    ensures es[i].key + es[i].chunk.length <= Total(es)
  {
    hide WfChunk;
    At(es, 0, i);
  }

  lemma LastBehindFirst(es: seq<Entry>, i: nat, start: nat, stop: nat, last: Option<nat>)
    requires Contiguous(es, 0) && i < |es| && start < stop && es[i].key <= start < es[i].key + es[i].chunk.length
    requires last.None? <==> stop - 1 >= Total(es)
    requires last.Some? ==> last.value < |es| && var e := es[last.value]; e.key <= stop - 1 < e.key + e.chunk.length
    ensures last.Some? ==> i <= last.value
  {
    hide WfChunk;
    KeysInRange(es, 0);
    if last.Some? && last.value < i {
      NextKey(es, 0, last.value);
    }
  }

  lemma Surroundings(es: seq<Entry>, i: nat, removeTo: nat, start: nat, stop: nat)
    requires Contiguous(es, 0) && i < |es| && i + 1 <= removeTo <= |es| && start < stop
    requires es[i].key <= start < es[i].key + es[i].chunk.length
    requires removeTo < |es| ==> es[removeTo - 1].key < stop <= es[removeTo - 1].key + es[removeTo - 1].chunk.length
    ensures Below(es[..i], es[i].key) && Above(es[removeTo..], stop - 1)
  {
    hide WfChunk;
    KeysInRange(es, 0);
    if removeTo < |es| {
      Surrounds(es, i, removeTo - 1, start, stop);
    }
  }

  lemma StillInside(es: seq<Entry>, j: nat, stop: nat)
    requires Contiguous(es, 0) && j < |es| && es[j].key < stop < es[j].key + es[j].chunk.length
    ensures stop < Total(es) && Above(es[j + 1..], stop)
  {
    hide WfChunk;
    At(es, 0, j);
    KeysInRange(es[j + 1..], es[j].key + es[j].chunk.length);
  }

  lemma NothingLeft(es: seq<Entry>, removeTo: nat, last: Option<nat>, stop: nat)
    requires Contiguous(es, 0) && removeTo <= |es| && stop > 0
    requires last.None? <==> stop - 1 >= Total(es)
    requires last.Some? ==> last.value < |es| && var e := es[last.value]; e.key <= stop - 1 < e.key + e.chunk.length
    requires last.Some? ==> var e := es[last.value]; stop >= e.key + e.chunk.length
    requires removeTo == if stop >= Total(es) then |es| else last.value + 1
    ensures stop < Total(es) ==> last.Some? && es[last.value].key + es[last.value].chunk.length == stop
  {
  }

  lemma SplicedWhole(es: seq<Entry>, i: nat, j: nat, start: nat, stop: nat, pre: Chunk, vs: seq<Entry>, value: Written)
    requires Contiguous(es, 0) && i <= j < |es| && start < stop && WfWritten(value)
    requires es[i].key <= start < es[i].key + es[i].chunk.length
    requires es[j].key < stop == es[j].key + es[j].chunk.length
    requires IsPart(es[i].chunk, pre, 0, start - es[i].key)
    requires Contiguous(vs, start) && Total(vs) == stop - start
    requires forall env :: Flat(vs, start, env) == WrittenBytes(value, env)
    ensures var r := es[..i] + Piece(es[i].key, pre) + vs + es[j + 1..];
      IsOverwritten(es, r, start, value) && Contiguous(r, 0) && Total(r) == Total(es)
  {
    hide WfChunk, ChunkBytes, Flat, Contiguous, Total, IsPart, WrittenBytes, WfWritten, IsOverwritten;
    At(es, 0, j);
    NoPart(es[j].chunk, es[j].chunk.length);
    SplicedFlat(es, i, j, start, stop, pre, vs, NoChunk(), value);
    var a := es[..i] + Piece(es[i].key, pre) + vs;
    assert a + Piece(stop, NoChunk()) == a;
  }



  // ---- single bytes ----

  ghost predicate IsByteAt(es: seq<Entry>, offset: nat, d: Data) {
    && Contiguous(es, 0) && WfData(d)
    && forall env :: DataBytes(d, env) == Window(Flat(es, 0, env), offset, 1)
  }

  ghost predicate IsChunkByte(c: Chunk, offset: nat, d: Data) {
    && WfChunk(c) && WfData(d) && Size(d) == 1 && offset < c.length
    && forall env :: DataBytes(d, env) == [ChunkBytes(c, env)[offset]]
  }

  lemma NoByteAt(es: seq<Entry>, offset: nat)
    requires Contiguous(es, 0) && offset >= Total(es)
    ensures IsByteAt(es, offset, Value([0]))
  {
    hide Contiguous, Total, Flat;
  }

  lemma ByteInFlat(es: seq<Entry>, i: nat, offset: nat, d: Data)
    requires Contiguous(es, 0) && i < |es| && es[i].key <= offset < es[i].key + es[i].chunk.length
    requires IsChunkByte(es[i].chunk, offset - es[i].key, d)
    ensures IsByteAt(es, offset, d) && WfData(d) && Size(d) == 1
  {
    hide Contiguous, Total, Flat, WfChunk, ChunkBytes, WfData, DataBytes;
    var k := offset - es[i].key;
    forall env
      ensures DataBytes(d, env) == Window(Flat(es, 0, env), offset, 1)
    {
      ChunkInFlat(es, i, k, k + 1, env);
      var s := Flat(es, 0, env);
      assert s[offset] == s[offset..offset + 1][0];
    }
  }

  // ---- splicing ----

  function ByteError(offset: int, value: Written): Option<Error>
    requires WfWritten(value)
  {
    if value.Wrapped? || value.Vec? then Some(TypeError)
    else if Wrap(value).None? then Some(OverflowError)
    else if Wrap(value).value.length != 1 then Some(AssertionError)
    else if offset < 0 then Some(IndexError)
    else None
  }

  ghost predicate IsOverwritten(es: seq<Entry>, r: seq<Entry>, start: nat, value: Written) {
    && Contiguous(es, 0) && Contiguous(r, 0) && WfWritten(value)
    && forall env :: Flat(r, 0, env) == Overwritten(Flat(es, 0, env), start, WrittenBytes(value, env))
  }

  /** A part of an entry, unless it is empty. */
  function Piece(key: nat, part: Chunk): seq<Entry> {
    if part.length > 0 then [Entry(key, part)] else []
  }

  /** The keys around the entries that a write touches. */
  lemma Surrounds(es: seq<Entry>, i: nat, j: nat, start: nat, stop: nat)
    requires Contiguous(es, 0) && i <= j < |es| && start < stop
    requires es[i].key <= start < es[i].key + es[i].chunk.length
    requires es[j].key < stop <= es[j].key + es[j].chunk.length
    ensures Below(es[..i], es[i].key) && Above(es[j + 1..], stop - 1)
    ensures stop < es[j].key + es[j].chunk.length ==> Above(es[j + 1..], stop)
  {
    hide WfChunk;
    KeysInRange(es, 0);
    At(es, 0, j);
    KeysInRange(es[j + 1..], es[j].key + es[j].chunk.length);
  }

  /** The first entry of the gap after cutting: shortened, or still whole if it is overwritten. */
  function CutFirst(e: Entry, pre: Chunk): Entry {
    if pre.length > 0 then Entry(e.key, pre) else e
  }

  lemma CutNothing(e: Entry, pre: Chunk)
    ensures pre.length == 0 ==> CutFirst(e, pre) == e
  {
  }

  lemma PutPre(es: seq<Entry>, i: nat, rest: seq<Entry>, start: nat, pre: Chunk)
    requires i < |es| && Below(es[..i], es[i].key)
    ensures pre.length > 0 ==>
              Put(es[..i] + [es[i]] + rest, Entry(es[i].key, pre)) == es[..i] + [CutFirst(es[i], pre)] + rest
  {
    if pre.length > 0 {
      PutReplaces(es[..i], es[i], rest, Entry(es[i].key, pre));
    }
  }

  lemma PutFirst(es: seq<Entry>, i: nat, rest: seq<Entry>, start: nat, pre: Chunk, e: Entry)
    requires i < |es| && Below(es[..i], es[i].key) && e.key == start && Above(rest, start)
    requires es[i].key <= start && (pre.length > 0 <==> es[i].key < start)
    ensures Put(es[..i] + [CutFirst(es[i], pre)] + rest, e) == es[..i] + Piece(es[i].key, pre) + [e] + rest
  {
    if pre.length > 0 {
      PutBetween(es[..i] + [CutFirst(es[i], pre)], rest, e);
    } else {
      PutReplaces(es[..i], es[i], rest, e);
      assert es[..i] + [] == es[..i];
    }
  }

  lemma PutPost(es: seq<Entry>, i: nat, vs: seq<Entry>, rest: seq<Entry>, start: nat, stop: nat, pre: Chunk, post: Chunk)
    requires i < |es| && Below(es[..i], es[i].key) && es[i].key <= start < stop && (forall k | 0 <= k < |vs| :: vs[k].key < stop)
    requires post.length > 0 ==> Above(rest, stop)
    ensures var a := es[..i] + Piece(es[i].key, pre) + vs;
      (if post.length > 0 then Put(a + rest, Entry(stop, post)) else a + rest) == a + Piece(stop, post) + rest
  {
    var a := es[..i] + Piece(es[i].key, pre) + vs;
    if post.length > 0 {
      PutBetween(a, rest, Entry(stop, post));
    } else {
      assert a + [] == a;
    }
  }

  lemma OneValue(c: Chunk, start: nat, value: Written)
    requires WfWritten(value) && Wrap(value) == Some(c) && c.length > 0
    ensures var vs := [Entry(start, c)];
      Contiguous(vs, start) && Total(vs) == c.length && forall env :: Flat(vs, start, env) == WrittenBytes(value, env)
  {
    hide WfChunk, ChunkBytes, WrittenBytes;
    forall env
      ensures Contiguous([Entry(start, c)], start) && Flat([Entry(start, c)], start, env) == WrittenBytes(value, env)
    {
      FlatOne(Entry(start, c), env);
      WrapMeans(value, env);
    }
    FlatOne(Entry(start, c), imap[]);
  }

  lemma PieceFlat(key: nat, part: Chunk, env: Env)
    requires WfChunk(part)
    ensures Contiguous(Piece(key, part), key) && Total(Piece(key, part)) == part.length
    ensures Flat(Piece(key, part), key, env) == ChunkBytes(part, env)
  {
    hide WfChunk, ChunkBytes;
    if part.length > 0 {
      FlatOne(Entry(key, part), env);
    }
  }

  /** The entries up to a cut hold the bytes up to it. */
  lemma PrefixFlat(es: seq<Entry>, i: nat, start: nat, pre: Chunk, env: Env)
    requires Contiguous(es, 0) && i < |es| && es[i].key <= start < es[i].key + es[i].chunk.length
    requires IsPart(es[i].chunk, pre, 0, start - es[i].key)
    ensures var a := es[..i] + Piece(es[i].key, pre);
      Contiguous(a, 0) && Total(a) == start <= Total(es) && Flat(a, 0, env) == Flat(es, 0, env)[..start]
  {
    hide WfChunk, ChunkBytes, Flat, Contiguous, Total, Piece;
    At(es, 0, i);
    FlatAt(es, 0, i, env);
    PieceFlat(es[i].key, pre, env);
    FlatAppend(es[..i], Piece(es[i].key, pre), 0, env);
    TotalAppend(es[..i], Piece(es[i].key, pre));
    TakesPrefix(Flat(es[..i], 0, env), ChunkBytes(es[i].chunk, env),
                Flat(es[i + 1..], es[i].key + es[i].chunk.length, env), start - es[i].key);
  }

  lemma TakesPrefix(x: seq<byte>, y: seq<byte>, z: seq<byte>, n: nat)
    requires n <= |y|
    ensures (x + y + z)[..|x| + n] == x + y[0..n]
  {
  }

  lemma DropsPrefix(x: seq<byte>, y: seq<byte>, z: seq<byte>, n: nat)
    requires n <= |y|
    ensures (x + y + z)[|x| + n..] == y[n..|y|] + z
  {
  }

  /** The entries after a cut hold the bytes after it. */
  lemma SuffixFlat(es: seq<Entry>, j: nat, stop: nat, post: Chunk, env: Env)
    requires Contiguous(es, 0) && j < |es| && es[j].key < stop <= es[j].key + es[j].chunk.length
    requires IsPart(es[j].chunk, post, stop - es[j].key, es[j].chunk.length)
    ensures var b := Piece(stop, post) + es[j + 1..];
      Contiguous(b, stop) && stop <= Total(es) && Total(b) == Total(es) - stop
      && Flat(b, stop, env) == Flat(es, 0, env)[stop..]
  {
    hide WfChunk, ChunkBytes, Flat, Contiguous, Total, Piece;
    At(es, 0, j);
    FlatAt(es, 0, j, env);
    PieceFlat(stop, post, env);
    FlatAppend(Piece(stop, post), es[j + 1..], stop, env);
    TotalAppend(Piece(stop, post), es[j + 1..]);
    DropsPrefix(Flat(es[..j], 0, env), ChunkBytes(es[j].chunk, env),
                Flat(es[j + 1..], es[j].key + es[j].chunk.length, env), stop - es[j].key);
  }

  /** A write inside the vector replaces exactly its bytes. */
  lemma SplicedFlat(es: seq<Entry>, i: nat, j: nat, start: nat, stop: nat, pre: Chunk, vs: seq<Entry>, post: Chunk, value: Written)
    requires Contiguous(es, 0) && i <= j < |es| && start < stop && WfWritten(value)
    requires es[i].key <= start < es[i].key + es[i].chunk.length
    requires es[j].key < stop <= es[j].key + es[j].chunk.length
    requires IsPart(es[i].chunk, pre, 0, start - es[i].key)
    requires IsPart(es[j].chunk, post, stop - es[j].key, es[j].chunk.length)
    requires Contiguous(vs, start) && Total(vs) == stop - start
    requires forall env :: Flat(vs, start, env) == WrittenBytes(value, env)
    ensures var r := es[..i] + Piece(es[i].key, pre) + vs + Piece(stop, post) + es[j + 1..];
      IsOverwritten(es, r, start, value) && Contiguous(r, 0) && Total(r) == Total(es)
  {
    hide WfChunk, ChunkBytes, Flat, Contiguous, Total, Piece, IsPart, WrittenBytes, WfWritten;
    var a, b := es[..i] + Piece(es[i].key, pre), Piece(stop, post) + es[j + 1..];
    var r := es[..i] + Piece(es[i].key, pre) + vs + Piece(stop, post) + es[j + 1..];
    assert r == a + vs + b;
    forall env
      ensures Contiguous(r, 0) && Total(r) == Total(es)
      ensures Flat(r, 0, env) == Overwritten(Flat(es, 0, env), start, WrittenBytes(value, env))
    {
      PrefixFlat(es, i, start, pre, env);
      SuffixFlat(es, j, stop, post, env);
      FlatAppend(a, vs, 0, env);
      TotalAppend(a, vs);
      FlatAppend(a + vs, b, 0, env);
      TotalAppend(a + vs, b);
      assert |Flat(es, 0, env)| == Total(es);
    }
    PrefixFlat(es, i, start, pre, imap[]);
    SuffixFlat(es, j, stop, post, imap[]);
    FlatAppend(a, vs, 0, imap[]);
    TotalAppend(a, vs);
    FlatAppend(a + vs, b, 0, imap[]);
    TotalAppend(a + vs, b);
  }

  /** A write over the end keeps what is before it. */
  lemma OverhangFlat(es: seq<Entry>, i: nat, start: nat, stop: nat, pre: Chunk, vs: seq<Entry>, value: Written)
    requires Contiguous(es, 0) && i < |es| && start < stop && stop >= Total(es) && WfWritten(value)
    requires es[i].key <= start < es[i].key + es[i].chunk.length
    requires IsPart(es[i].chunk, pre, 0, start - es[i].key)
    requires Contiguous(vs, start) && Total(vs) == stop - start
    requires forall env :: Flat(vs, start, env) == WrittenBytes(value, env)
    ensures var r := es[..i] + Piece(es[i].key, pre) + vs;
      IsOverwritten(es, r, start, value) && Contiguous(r, 0) && Total(r) == stop
  {
    hide WfChunk, ChunkBytes, Flat, Contiguous, Total, Piece, IsPart, WrittenBytes, WfWritten;
    var a := es[..i] + Piece(es[i].key, pre);
    var r := a + vs;
    forall env
      ensures Contiguous(r, 0) && Total(r) == stop
      ensures Flat(r, 0, env) == Overwritten(Flat(es, 0, env), start, WrittenBytes(value, env))
    {
      PrefixFlat(es, i, start, pre, env);
      FlatAppend(a, vs, 0, env);
      TotalAppend(a, vs);
      assert |Flat(es, 0, env)| == Total(es);
    }
    PrefixFlat(es, i, start, pre, imap[]);
    FlatAppend(a, vs, 0, imap[]);
    TotalAppend(a, vs);
  }

  /** The write ends with a chunk or behind the vector. */
  lemma WithoutSuffix(es: seq<Entry>, i: nat, removeTo: nat, last: Option<nat>, start: nat, stop: nat, pre: Chunk,
                      vs: seq<Entry>, value: Written)
    requires Contiguous(es, 0) && i < |es| && start < stop && WfWritten(value)
    requires es[i].key <= start < es[i].key + es[i].chunk.length
    requires IsPart(es[i].chunk, pre, 0, start - es[i].key)
    requires Contiguous(vs, start) && Total(vs) == stop - start
    requires forall env :: Flat(vs, start, env) == WrittenBytes(value, env)
    requires last.None? <==> stop - 1 >= Total(es)
    requires last.Some? ==> i <= last.value < |es|
    requires last.Some? ==> var e := es[last.value]; e.key <= stop - 1 < e.key + e.chunk.length <= stop
    requires removeTo == if stop >= Total(es) then |es| else last.value + 1
    ensures var r := es[..i] + Piece(es[i].key, pre) + vs + es[removeTo..];
      IsOverwritten(es, r, start, value) && Contiguous(r, 0) && Total(r) == if Total(es) < stop then stop else Total(es)
  {
    hide Flat, Total, Contiguous, IsPart, IsOverwritten, Piece, WfWritten, WrittenBytes;
    NothingLeft(es, removeTo, last, stop);
    if stop < Total(es) {
      SplicedWhole(es, i, last.value, start, stop, pre, vs, value);
    } else {
      OverhangFlat(es, i, start, stop, pre, vs, value);
      var r := es[..i] + Piece(es[i].key, pre) + vs;
      assert r + es[removeTo..] == r;
    }
  }



  /** r holds the bytes of es between start and stop. */
  ghost predicate IsWindow(es: seq<Entry>, r: seq<Entry>, start: nat, stop: nat) {
    && Contiguous(es, 0) && Contiguous(r, 0) && start <= stop
    && forall env :: Flat(r, 0, env) == Window(Flat(es, 0, env), start, stop - start)
  }

  ghost predicate IsPart(c: Chunk, part: Chunk, from: nat, to: nat) {
    && WfChunk(c) && WfChunk(part) && from <= to <= c.length && part.length == to - from
    && forall env :: ChunkBytes(part, env) == ChunkBytes(c, env)[from..to]
  }

  lemma NativePart(c: Chunk, part: Chunk, from: nat, to: nat)
    requires WfChunk(c) && from <= to <= c.length && !c.Nested?
    requires c.Concrete? ==> part == Concrete(c.data, c.start + from, to - from)
    requires c.Symbolic? ==> part == Symbolic(c.term, c.start + from, to - from)
    ensures IsPart(c, part, from, to)
  {
    forall env
      ensures ChunkBytes(part, env) == ChunkBytes(c, env)[from..to]
    {
      NativeBytes(c, part, from, to, env);
    }
  }

  lemma NativeBytes(c: Chunk, part: Chunk, from: nat, to: nat, env: Env)
    requires WfChunk(c) && WfChunk(part) && from <= to <= c.length && !c.Nested?
    requires c.Concrete? ==> part == Concrete(c.data, c.start + from, to - from)
    requires c.Symbolic? ==> part == Symbolic(c.term, c.start + from, to - from)
    ensures ChunkBytes(part, env) == ChunkBytes(c, env)[from..to]
  {
    if c.Concrete? {
      SliceOfSlice(c.data, c.start, c.length, from, to);
    } else {
      SliceOfSlice(DataBytes(c.term, env), c.start, c.length, from, to);
    }
  }

  lemma SliceOfSlice(s: seq<byte>, start: nat, length: nat, from: nat, to: nat)
    requires from <= to <= length && start + length <= |s|
    ensures s[start..start + length][from..to] == s[start + from..start + from + (to - from)]
  {
    var whole, part := s[start..start + length][from..to], s[start + from..start + from + (to - from)];
    forall i | 0 <= i < to - from
      ensures whole[i] == part[i]
    {
      assert whole[i] == s[start..start + length][from + i];
    }
    assert whole == part;
  }

  lemma WholeChunk(c: Chunk)
    requires WfChunk(c)
    ensures IsPart(c, c, 0, c.length)
  {
    hide WfChunk, ChunkBytes;
  }

  lemma NestedPart(c: Chunk, part: Chunk, from: nat, to: nat)
    requires WfChunk(c) && c.Nested? && part.Nested? && from <= to <= c.length
    requires Contiguous(part.entries, 0) && part.length == Total(part.entries) == to - from
    requires from < to ==> IsWindow(c.entries, part.entries, from, to)
    ensures IsPart(c, part, from, to)
  {
    hide Contiguous, Total, Flat;
    forall env
      ensures ChunkBytes(part, env) == ChunkBytes(c, env)[from..to]
    {
      var s := Flat(c.entries, 0, env);
      if from < to {
        WindowSplit(s, from, to);
        assert s[from..to] + Zeros(0) == s[from..to];
      }
    }
  }

  lemma WindowOfZeros(es: seq<Entry>, r: seq<Entry>, start: nat, stop: nat)
    requires Contiguous(es, 0) && Contiguous(r, 0) && Total(es) <= start < stop
    requires forall env :: Flat(r, 0, env) == Flat([], 0, env) + Zeros(stop - start)
    ensures IsWindow(es, r, start, stop)
  {
    hide Contiguous, Total;
    forall env
      ensures Flat(r, 0, env) == Window(Flat(es, 0, env), start, stop - start)
    {
      WindowPast(Flat(es, 0, env), start, stop - start);
      EmptyFlat(env);
      assert [] + Zeros(stop - start) == Zeros(stop - start);
    }
  }

  lemma EmptyFlat(env: Env)
    ensures Contiguous([], 0) && Flat([], 0, env) == []
  {
  }

  // ---- the loop of a slice ----

  /** Where the slice stands after the first i chunks. */
  function Reached(es: seq<Entry>, start: nat, stop: nat, i: nat): nat
    requires i <= |es|
  {
    var key := if i < |es| then es[i].key else Total(es);
    var end := if key < stop then key else stop;
    if start < end then end else start
  }

  ghost predicate CoveredTo(es: seq<Entry>, r: seq<Entry>, start: nat, stop: nat, i: nat) {
    && Contiguous(es, 0) && Contiguous(r, 0) && i <= |es| && start < Total(es)
    && start <= Reached(es, start, stop, i) <= Total(es)
    && forall env :: Flat(r, 0, env) == Flat(es, 0, env)[start..Reached(es, start, stop, i)]
  }

  lemma CoveredStart(es: seq<Entry>, r: seq<Entry>, start: nat, stop: nat, i: nat)
    requires Contiguous(es, 0) && r == [] && start < stop && i < |es|
    requires es[i].key <= start < es[i].key + es[i].chunk.length
    ensures CoveredTo(es, r, start, stop, i)
  {
    hide WfChunk, Flat;
    At(es, 0, i);
    forall env
      ensures Contiguous(r, 0) && Flat(r, 0, env) == []
    {
      EmptyFlat(env);
    }
    EmptyFlat(imap[]);
  }

  /** From the first chunk on, chunks overlap with the slice. */
  lemma OverlapsSlice(es: seq<Entry>, start: nat, stop: nat, first: nat, i: nat)
    requires Contiguous(es, 0) && first <= i < |es| && es[i].key < stop && start < stop
    requires es[first].key <= start < es[first].key + es[first].chunk.length
    ensures start < es[i].key + es[i].chunk.length
    ensures es[i].chunk.length > 0
  {
    hide WfChunk;
    KeysInRange(es, 0);
    At(es, 0, i);
    if first < i {
      At(es, 0, first);
      NextKey(es, 0, first);
      if first + 1 < i {
        assert es[first + 1].key < es[i].key;
      }
    }
  }

  lemma {:induction false} NextKey(es: seq<Entry>, base: nat, i: nat)
    requires Contiguous(es, base) && i < |es|
    ensures (if i + 1 < |es| then es[i + 1].key else base + Total(es)) == es[i].key + es[i].chunk.length
  {
    hide WfChunk;
    At(es, base, i);
    if i + 1 < |es| {
      At(es, base, i + 1);
      assert es[..i + 1] == es[..i] + [es[i]];
      TotalAppend(es[..i], [es[i]]);
      assert Total([es[i]]) == es[i].chunk.length by {
        assert [es[i]][1..] == [];
      }
    } else {
      assert es[i + 1..] == [];
    }
  }

  lemma CoveredNext(es: seq<Entry>, r: seq<Entry>, r': seq<Entry>, start: nat, stop: nat, i: nat, part: Chunk)
    requires i < |es| && CoveredTo(es, r, start, stop, i) && es[i].key < stop
    requires start < es[i].key + es[i].chunk.length && es[i].chunk.length > 0 && start < stop
    requires Appended(r, r', part)
    requires var from := if start > es[i].key then start - es[i].key else 0;
      var to := if es[i].chunk.length < stop - es[i].key then es[i].chunk.length else stop - es[i].key;
      IsPart(es[i].chunk, part, from, to)
    ensures CoveredTo(es, r', start, stop, i + 1)
  {
    hide WfChunk, Flat, ChunkBytes, Contiguous, Total, Reached;
    var e := es[i];
    var from := if start > e.key then start - e.key else 0;
    var to := if e.chunk.length < stop - e.key then e.chunk.length else stop - e.key;
    var a, b := Reached(es, start, stop, i), Reached(es, start, stop, i + 1);
    ReachedNext(es, start, stop, i);
    ChunkInFlat(es, i, from, to, imap[]);
    forall env
      ensures Flat(r', 0, env) == Flat(es, 0, env)[start..b]
    {
      ChunkInFlat(es, i, from, to, env);
      Joins(Flat(es, 0, env), start, a, b);
    }
  }

  lemma ReachedNext(es: seq<Entry>, start: nat, stop: nat, i: nat)
    requires Contiguous(es, 0) && i < |es| && es[i].key < stop
    requires start < es[i].key + es[i].chunk.length && start < stop
    ensures var e := es[i];
      var from := if start > e.key then start - e.key else 0;
      var to := if e.chunk.length < stop - e.key then e.chunk.length else stop - e.key;
      Reached(es, start, stop, i) == e.key + from && Reached(es, start, stop, i + 1) == e.key + to
  {
    hide WfChunk, Contiguous, Total;
    NextKey(es, 0, i);
  }

  lemma Joins(s: seq<byte>, start: nat, a: nat, b: nat)
    requires start <= a <= b <= |s|
    ensures s[start..a] + s[a..b] == s[start..b]
  {
  }

  lemma ChunkInFlat(es: seq<Entry>, i: nat, from: nat, to: nat, env: Env)
    requires Contiguous(es, 0) && i < |es| && from <= to <= es[i].chunk.length
    ensures WfChunk(es[i].chunk) && es[i].key + es[i].chunk.length <= Total(es)
    ensures Flat(es, 0, env)[es[i].key + from..es[i].key + to] == ChunkBytes(es[i].chunk, env)[from..to]
  {
    hide WfChunk, Flat, ChunkBytes, Contiguous, Total;
    At(es, 0, i);
    FlatAt(es, 0, i, env);
    Inner(Flat(es[..i], 0, env), ChunkBytes(es[i].chunk, env),
          Flat(es[i + 1..], es[i].key + es[i].chunk.length, env), from, to);
  }

  lemma Inner(x: seq<byte>, y: seq<byte>, z: seq<byte>, from: nat, to: nat)
    requires from <= to <= |y|
    ensures (x + y + z)[|x| + from..|x| + to] == y[from..to]
  {
  }

  lemma CoveredLength(es: seq<Entry>, r: seq<Entry>, start: nat, stop: nat, i: nat)
    requires CoveredTo(es, r, start, stop, i) && start < stop
    ensures Total(r) == Reached(es, start, stop, i) - start
    ensures Total(r) <= stop - start
  {
    hide WfChunk, Total;
    assert |Flat(r, 0, imap[])| == Total(r);
  }

  lemma CoveredAll(es: seq<Entry>, r: seq<Entry>, r': seq<Entry>, start: nat, stop: nat, i: nat, missing: nat)
    requires CoveredTo(es, r, start, stop, i) && start < stop && (i < |es| ==> es[i].key >= stop)
    requires missing == stop - start - Total(r) && Contiguous(r', 0)
    requires if missing > 0 then forall env :: Flat(r', 0, env) == Flat(r, 0, env) + Zeros(missing) else r' == r
    ensures IsWindow(es, r', start, stop)
  {
    hide WfChunk, Flat, Contiguous, Total;
    CoveredLength(es, r, start, stop, i);
    forall env
      ensures Flat(r', 0, env) == Window(Flat(es, 0, env), start, stop - start)
    {
      var s := Flat(es, 0, env);
      WindowSplit(s, start, stop);
      assert Flat(r, 0, env) + Zeros(0) == Flat(r, 0, env);
    }
  }



  /** The bytes of a chunk have been added at the end. */
  ghost predicate Appended(es: seq<Entry>, r: seq<Entry>, c: Chunk) {
    && Contiguous(es, 0) && Contiguous(r, 0) && WfChunk(c)
    && Total(r) == Total(es) + c.length
    && forall env :: Flat(r, 0, env) == Flat(es, 0, env) + ChunkBytes(c, env)
  }

  ghost predicate AppendedAll(es: seq<Entry>, r: seq<Entry>, more: seq<Entry>, base: nat) {
    && Contiguous(es, 0) && Contiguous(r, 0) && Contiguous(more, base)
    && Total(r) == Total(es) + Total(more)
    && forall env :: Flat(r, 0, env) == Flat(es, 0, env) + Flat(more, base, env)
  }

  lemma AppendedNested(es: seq<Entry>, r: seq<Entry>, c: Chunk)
    requires WfChunk(c) && c.Nested? && AppendedAll(es, r, c.entries, 0)
    ensures Appended(es, r, c)
  {
    hide Contiguous, Total;
    forall env
      ensures ChunkBytes(c, env) == Flat(c.entries, 0, env)
    {
    }
  }

  lemma AppendedNone(es: seq<Entry>, more: seq<Entry>, base: nat)
    requires Contiguous(es, 0)
    ensures Contiguous(more[..0], base) && AppendedAll(es, es, more[..0], base)
  {
    hide WfChunk, ChunkBytes;
    assert more[..0] == [];
    forall env
      ensures Flat(es, 0, env) == Flat(es, 0, env) + Flat([], base, env)
    {
    }
  }

  lemma AppendedNext(es: seq<Entry>, r: seq<Entry>, r': seq<Entry>, more: seq<Entry>, base: nat, i: nat)
    requires i < |more| && Contiguous(more, base)
    requires AppendedAll(es, r, more[..i], base) && Appended(r, r', more[i].chunk)
    ensures Contiguous(more[..i + 1], base) && AppendedAll(es, r', more[..i + 1], base)
  {
    hide WfChunk, ChunkBytes, Flat, Contiguous, Total;
    At(more, base, i);
    assert more[..i + 1] == more[..i] + [more[i]];
    StepFlat(more[..i], base, more[i], imap[]);
    forall env
      ensures Flat(r', 0, env) == Flat(es, 0, env) + Flat(more[..i + 1], base, env)
    {
      StepFlat(more[..i], base, more[i], env);
      Associates(Flat(es, 0, env), Flat(more[..i], base, env), ChunkBytes(more[i].chunk, env));
    }
  }

  lemma StepFlat(es: seq<Entry>, base: nat, e: Entry, env: Env)
    requires Contiguous(es, base) && WfEntry(e) && e.key == base + Total(es)
    ensures Contiguous(es + [e], base) && Total(es + [e]) == Total(es) + e.chunk.length
    ensures Flat(es + [e], base, env) == Flat(es, base, env) + ChunkBytes(e.chunk, env)
  {
    hide WfChunk, ChunkBytes;
    FlatOne(e, env);
    FlatAppend(es, [e], base, env);
    TotalAppend(es, [e]);
  }

  /** Putting a chunk at the end appends it. */
  lemma PutLast(es: seq<Entry>, c: Chunk)
    requires Contiguous(es, 0) && WfChunk(c)
    ensures c.length > 0 ==> var r := Put(es, Entry(Total(es), c));
              Appended(es, r, c) && Contiguous(r, 0) && Total(r) == Total(es) + c.length
    ensures c.length == 0 ==> Appended(es, es, c)
  {
    hide WfChunk, ChunkBytes, Flat, Contiguous, Total;
    if c.length > 0 {
      var e := Entry(Total(es), c);
      KeysInRange(es, 0);
      PutBetween(es, [], e);
      assert es + [] == es && es + [e] + [] == es + [e];
      StepFlat(es, 0, e, imap[]);
      forall env
        ensures Flat(es + [e], 0, env) == Flat(es, 0, env) + ChunkBytes(c, env)
      {
        StepFlat(es, 0, e, env);
      }
    }
  }
}
