// Spans of concrete and symbolic bytes, and the flat bytes that they stand for.
module Chunks {
  type byte = x: nat | x < 256

  // ---- symbolic data ----

  /** Bitvector terms whose width is a number of bytes. */
  datatype Data =
    | Input(name: string, size: nat)
    | Part(base: Data, start: nat, size: nat)  // extract_bytes
    | Join(parts: seq<Data>)
    | Value(bytes: seq<byte>)

  /** The bytes of the inputs. */
  type Env = imap<(string, nat), seq<byte>>

  function Zeros(n: nat): (s: seq<byte>)
    ensures |s| == n
  {
    seq(n, i => 0)
  }

  function Size(d: Data): nat {
    match d
    case Input(_, n) => n
    case Part(_, _, n) => n
    case Join(parts) => SizeAll(parts)
    case Value(bytes) => |bytes|
  }

  function SizeAll(ds: seq<Data>): nat {
    if ds == [] then 0 else Size(ds[0]) + SizeAll(ds[1..])
  }

  predicate WfData(d: Data) {
    match d
    case Input(_, _) => true
    case Part(base, start, n) => WfData(base) && start + n <= Size(base)
    case Join(parts) => forall i | 0 <= i < |parts| :: WfData(parts[i])
    case Value(_) => true
  }

  ghost function InputBytes(env: Env, name: string, size: nat): (s: seq<byte>)
    ensures |s| == size
  {
    if (name, size) in env && |env[(name, size)]| == size then env[(name, size)] else Zeros(size)
  }

  ghost function DataBytes(d: Data, env: Env): (s: seq<byte>)
    requires WfData(d)
    ensures |s| == Size(d)
  {
    match d
    case Input(x, n) => InputBytes(env, x, n)
    case Part(base, start, n) => DataBytes(base, env)[start..start + n]
    case Join(parts) => JoinBytes(parts, env)
    case Value(bytes) => bytes
  }

  ghost function JoinBytes(ds: seq<Data>, env: Env): (s: seq<byte>)
    requires forall i | 0 <= i < |ds| :: WfData(ds[i])
    ensures |s| == SizeAll(ds)
  {
    if ds == [] then [] else DataBytes(ds[0], env) + JoinBytes(ds[1..], env)
  }

  // ---- substitution ----

  /** Replaces inputs; entries of the wrong size are ignored. */
  function Substitute(d: Data, subst: map<Data, Data>): (r: Data)
    ensures Size(r) == Size(d)
    decreases d
  {
    match d
    case Input(_, n) => if d in subst && Size(subst[d]) == n then subst[d] else d
    case Part(base, start, n) => Part(Substitute(base, subst), start, n)
    case Join(parts) => Join(SubstituteAll(parts, subst))
    case Value(_) => d
  }

  function SubstituteAll(ds: seq<Data>, subst: map<Data, Data>): (r: seq<Data>)
    ensures |r| == |ds| && SizeAll(r) == SizeAll(ds)
    ensures forall i | 0 <= i < |ds| :: r[i] == Substitute(ds[i], subst)
    decreases ds
  {
    if ds == [] then [] else [Substitute(ds[0], subst)] + SubstituteAll(ds[1..], subst)
  }

  /** Well-formed replacements of inputs by concrete values or terms. */
  predicate WfSubst(subst: map<Data, Data>) {
    forall d | d in subst :: d.Input? && WfData(subst[d])
  }

  /** The inputs, with the replaced ones read from their replacements. */
  ghost function Replaced(subst: map<Data, Data>, env: Env): Env
    requires WfSubst(subst)
  {
    imap k: (string, nat) ::
      var d := Input(k.0, k.1);
      if d in subst && Size(subst[d]) == k.1 then DataBytes(subst[d], env) else InputBytes(env, k.0, k.1)
  }

  lemma {:induction false} SubstituteMeans(d: Data, subst: map<Data, Data>, env: Env)
    requires WfData(d) && WfSubst(subst)
    ensures WfData(Substitute(d, subst))
    ensures DataBytes(Substitute(d, subst), env) == DataBytes(d, Replaced(subst, env))
    decreases d
  {
    match d
    case Input(x, n) =>
      assert (x, n) in Replaced(subst, env);
    case Part(base, _, _) => SubstituteMeans(base, subst, env);
    case Join(parts) => SubstituteAllMeans(parts, subst, env);
    case Value(_) =>
  }

  lemma {:induction false} SubstituteAllMeans(ds: seq<Data>, subst: map<Data, Data>, env: Env)
    requires (forall i | 0 <= i < |ds| :: WfData(ds[i])) && WfSubst(subst)
    ensures var r := SubstituteAll(ds, subst);
      && (forall i | 0 <= i < |r| :: WfData(r[i]))
      && JoinBytes(r, env) == JoinBytes(ds, Replaced(subst, env))
    decreases ds
  {
    if ds != [] {
      SubstituteMeans(ds[0], subst, env);
      SubstituteAllMeans(ds[1..], subst, env);
      assert SubstituteAll(ds, subst)[1..] == SubstituteAll(ds[1..], subst);
    }
  }

  // ---- chunks ----

  /** A span of bytes; a whole vector may be stored as one chunk. */
  datatype Chunk =
    | Concrete(data: seq<byte>, start: nat, length: nat)
    | Symbolic(term: Data, start: nat, length: nat)
    | Nested(entries: seq<Entry>, length: nat)

  /** A chunk at its offset in a vector. */
  datatype Entry = Entry(key: nat, chunk: Chunk)

  predicate WfChunk(c: Chunk)
    decreases c
  {
    match c
    case Concrete(data, start, n) => start + n <= |data|
    case Symbolic(d, start, n) => WfData(d) && start + n <= Size(d)
    case Nested(es, n) => Contiguous(es, 0) && n == Total(es)
  }

  function Total(es: seq<Entry>): nat {
    if es == [] then 0 else es[0].chunk.length + Total(es[1..])
  }

  /** Non-empty chunks, one after the other from `base` on. */
  predicate Contiguous(es: seq<Entry>, base: nat)
    decreases es
  {
    es == [] || (es[0].key == base && WfEntry(es[0]) && Contiguous(es[1..], base + es[0].chunk.length))
  }

  predicate WfEntry(e: Entry)
    decreases e
  {
    WfChunk(e.chunk) && e.chunk.length > 0
  }

  ghost function ChunkBytes(c: Chunk, env: Env): (s: seq<byte>)
    requires WfChunk(c)
    ensures |s| == c.length
    decreases c
  {
    match c
    case Concrete(data, start, n) => data[start..start + n]
    case Symbolic(d, start, n) => DataBytes(d, env)[start..start + n]
    case Nested(es, n) => Flat(es, 0, env)
  }

  /** The flat bytes of a vector. */
  ghost function Flat(es: seq<Entry>, base: nat, env: Env): (s: seq<byte>)
    requires Contiguous(es, base)
    ensures |s| == Total(es)
    decreases es
  {
    if es == [] then [] else EntryBytes(es[0], env) + Flat(es[1..], base + es[0].chunk.length, env)
  }

  ghost function EntryBytes(e: Entry, env: Env): (s: seq<byte>)
    requires WfEntry(e)
    ensures |s| == e.chunk.length
    decreases e
  {
    ChunkBytes(e.chunk, env)
  }

  // ---- contiguous entries ----

  lemma {:induction false} TotalAppend(a: seq<Entry>, b: seq<Entry>)
    ensures Total(a + b) == Total(a) + Total(b)
  {
    if a == [] {
      assert a + b == b;
    } else {
      assert (a + b)[1..] == a[1..] + b;
      TotalAppend(a[1..], b);
    }
  }

  lemma {:induction false} ContiguousAppend(a: seq<Entry>, b: seq<Entry>, base: nat)
    ensures Contiguous(a + b, base) <==> Contiguous(a, base) && Contiguous(b, base + Total(a))
  {
    hide WfChunk, ChunkBytes;
    if a == [] {
      assert a + b == b;
    } else {
      assert (a + b)[1..] == a[1..] + b;
      ContiguousAppend(a[1..], b, base + a[0].chunk.length);
    }
  }

  lemma Associates(a: seq<byte>, b: seq<byte>, c: seq<byte>)
    ensures (a + b) + c == a + (b + c)
  {
  }

  lemma {:induction false} FlatAppend(a: seq<Entry>, b: seq<Entry>, base: nat, env: Env)
    requires Contiguous(a, base) && Contiguous(b, base + Total(a))
    ensures Contiguous(a + b, base)
    ensures Flat(a + b, base, env) == Flat(a, base, env) + Flat(b, base + Total(a), env)
  {
    hide WfChunk, ChunkBytes;
    ContiguousAppend(a, b, base);
    if a == [] {
      assert a + b == b;
    } else {
      var next := base + a[0].chunk.length;
      assert (a + b)[1..] == a[1..] + b;
      FlatAppend(a[1..], b, next, env);
      Associates(ChunkBytes(a[0].chunk, env), Flat(a[1..], next, env), Flat(b, base + Total(a), env));
    }
  }

  lemma FlatOne(e: Entry, env: Env)
    requires WfChunk(e.chunk) && e.chunk.length > 0
    ensures Contiguous([e], e.key) && Total([e]) == e.chunk.length
    ensures Flat([e], e.key, env) == ChunkBytes(e.chunk, env)
  {
    hide WfChunk, ChunkBytes;
    assert [e][1..] == [];
  }

  /** Entries moved by an offset. */
  function Shifted(es: seq<Entry>, offset: nat): (r: seq<Entry>)
    ensures |r| == |es|
  {
    seq(|es|, i requires 0 <= i < |es| => Entry(es[i].key + offset, es[i].chunk))
  }

  lemma {:induction false} ShiftedFlat(es: seq<Entry>, base: nat, offset: nat, env: Env)
    requires Contiguous(es, base)
    ensures Contiguous(Shifted(es, offset), base + offset) && Total(Shifted(es, offset)) == Total(es)
    ensures Flat(Shifted(es, offset), base + offset, env) == Flat(es, base, env)
  {
    hide WfChunk, ChunkBytes;
    if es != [] {
      ShiftedFlat(es[1..], base + es[0].chunk.length, offset, env);
      assert Shifted(es, offset)[1..] == Shifted(es[1..], offset);
    }
  }

  /** The parts of a vector before, at and after one entry. */
  lemma {:induction false} At(es: seq<Entry>, base: nat, i: nat)
    requires Contiguous(es, base) && i < |es|
    ensures WfChunk(es[i].chunk) && es[i].chunk.length > 0
    ensures es[i].key == base + Total(es[..i])
    ensures Contiguous(es[..i], base) && Contiguous(es[i + 1..], es[i].key + es[i].chunk.length)
    ensures Total(es) == Total(es[..i]) + es[i].chunk.length + Total(es[i + 1..])
  {
    hide WfChunk, ChunkBytes;
    assert es == es[..i] + ([es[i]] + es[i + 1..]);
    assert ([es[i]] + es[i + 1..])[1..] == es[i + 1..];
    ContiguousAppend(es[..i], [es[i]] + es[i + 1..], base);
    TotalAppend(es[..i], [es[i]] + es[i + 1..]);
  }

  lemma FlatCons(e: Entry, rest: seq<Entry>, env: Env)
    requires WfEntry(e) && Contiguous(rest, e.key + e.chunk.length)
    ensures Contiguous([e] + rest, e.key) && Total([e] + rest) == e.chunk.length + Total(rest)
    ensures Flat([e] + rest, e.key, env) == ChunkBytes(e.chunk, env) + Flat(rest, e.key + e.chunk.length, env)
  {
    hide WfChunk, ChunkBytes;
    assert ([e] + rest)[1..] == rest;
  }

  lemma FlatAt(es: seq<Entry>, base: nat, i: nat, env: Env)
    requires Contiguous(es, base) && i < |es|
    ensures WfChunk(es[i].chunk) && Contiguous(es[..i], base) && Contiguous(es[i + 1..], es[i].key + es[i].chunk.length)
    ensures Flat(es, base, env) ==
            Flat(es[..i], base, env) + ChunkBytes(es[i].chunk, env) + Flat(es[i + 1..], es[i].key + es[i].chunk.length, env)
  {
    hide WfChunk, ChunkBytes, Flat, Contiguous;
    At(es, base, i);
    var end := es[i].key + es[i].chunk.length;
    FlatCons(es[i], es[i + 1..], env);
    assert es == es[..i] + ([es[i]] + es[i + 1..]);
    FlatAppend(es[..i], [es[i]] + es[i + 1..], base, env);
    Associates(Flat(es[..i], base, env), ChunkBytes(es[i].chunk, env), Flat(es[i + 1..], end, env));
  }

  lemma {:induction false} KeysInRange(es: seq<Entry>, base: nat)
    requires Contiguous(es, base)
    ensures forall i | 0 <= i < |es| :: base <= es[i].key < base + Total(es)
    ensures forall i, j | 0 <= i < j < |es| :: es[i].key < es[j].key
  {
    hide WfChunk, ChunkBytes;
    if es != [] {
      KeysInRange(es[1..], base + es[0].chunk.length);
      forall i | 0 < i < |es|
        ensures es[0].key < es[i].key < base + Total(es)
      {
        assert es[1..][i - 1] == es[i];
      }
      forall i, j | 0 < i < j < |es|
        ensures es[i].key < es[j].key
      {
        assert es[1..][i - 1] == es[i] && es[1..][j - 1] == es[j];
      }
    }
  }

  // ---- the sorted dictionary ----

  /** The number of keys up to an offset. */
  function BisectRight(es: seq<Entry>, offset: nat): (n: nat)
    ensures n <= |es|
  {
    if es == [] then 0 else (if es[0].key <= offset then 1 else 0) + BisectRight(es[1..], offset)
  }

  /** Adds an entry in its place, or replaces the one with its key. */
  function Put(es: seq<Entry>, e: Entry): seq<Entry> {
    if es == [] then [e]
    else if es[0].key < e.key then [es[0]] + Put(es[1..], e)
    else if es[0].key == e.key then [e] + es[1..]
    else [e] + es
  }

  predicate Below(es: seq<Entry>, key: nat) {
    forall i | 0 <= i < |es| :: es[i].key < key
  }

  predicate Above(es: seq<Entry>, key: nat) {
    forall i | 0 <= i < |es| :: es[i].key > key
  }

  lemma {:induction false} PutBetween(a: seq<Entry>, b: seq<Entry>, e: Entry)
    requires Below(a, e.key) && Above(b, e.key)
    ensures Put(a + b, e) == a + [e] + b
  {
    if a == [] {
      assert a + b == b;
    } else {
      assert (a + b)[1..] == a[1..] + b;
      PutBetween(a[1..], b, e);
    }
  }

  lemma {:induction false} PutReplaces(a: seq<Entry>, d: Entry, b: seq<Entry>, e: Entry)
    requires Below(a, e.key) && d.key == e.key
    ensures Put(a + [d] + b, e) == a + [e] + b
  {
    if a == [] {
      assert a + [d] + b == [d] + b;
    } else {
      assert (a + [d] + b)[1..] == a[1..] + [d] + b;
      PutReplaces(a[1..], d, b, e);
    }
  }

  /** The last entry at or before an offset contains it. */
  lemma {:induction false} BisectFinds(es: seq<Entry>, base: nat, offset: nat)
    requires Contiguous(es, base) && base <= offset < base + Total(es)
    ensures var i := BisectRight(es, offset) - 1;
      0 <= i < |es| && es[i].key <= offset < es[i].key + es[i].chunk.length
  {
    hide WfChunk, ChunkBytes;
    var next := base + es[0].chunk.length;
    if offset < next {
      KeysInRange(es[1..], next);
      BisectNone(es[1..], offset);
    } else {
      BisectFinds(es[1..], next, offset);
    }
  }

  lemma {:induction false} BisectNone(es: seq<Entry>, offset: nat)
    requires Above(es, offset)
    ensures BisectRight(es, offset) == 0
  {
    if es != [] {
      BisectNone(es[1..], offset);
    }
  }
}
