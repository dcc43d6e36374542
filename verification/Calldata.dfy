// Symbolic calldata: one encoding for all dynamic sizes.
module SymbolicCalldata {
  import opened Options
  import opened Chunks
  import opened Words32
  import opened Abi
  import opened Layouts

  // ---- types and symbols ----

  datatype ParamType =
    | BaseType(abi: string)
    | BytesType(isString: bool)
    | ArrayType(base: ParamType)
    | FixedType(base: ParamType, size: nat)
    | TupleType(names: seq<string>, items: seq<ParamType>)

  predicate WfParam(p: ParamType) {
    match p
    case BaseType(_) => true
    case BytesType(_) => true
    case ArrayType(b) => WfParam(b)
    case FixedType(b, _) => WfParam(b)
    case TupleType(names, items) => |names| == |items| && forall i | 0 <= i < |items| :: WfParam(items[i])
  }

  function AbiOf(p: ParamType): AbiType
    requires WfParam(p)
    decreases p
  {
    match p
    case BaseType(abi) => Base(abi)
    case BytesType(s) => Dynamic(s)
    case ArrayType(b) => Array(AbiOf(b))
    case FixedType(b, n) => Fixed(AbiOf(b), n)
    case TupleType(names, items) => Tuple(AbisOf(items))
  }

  function AbisOf(ps: seq<ParamType>): (ts: seq<AbiType>)
    requires forall i | 0 <= i < |ps| :: WfParam(ps[i])
    ensures |ts| == |ps| && forall i | 0 <= i < |ps| :: ts[i] == AbiOf(ps[i])
    decreases ps
  {
    if ps == [] then [] else [AbiOf(ps[0])] + AbisOf(ps[1..])
  }

  /** The place of a parameter. */
  datatype Path = Root | Field(parent: Path, name: string) | Index(parent: Path, i: nat)

  /** A symbol of the calldata; the id makes it unique. */
  datatype Symbol = Symbol(path: Path, kind: string, id: nat)

  /** The values of the symbols. */
  datatype Choice = Choice(words: imap<Symbol, nat>, blobs: imap<Symbol, seq<byte>>)

  ghost function WordOf(c: Choice, x: Symbol): (w: nat)
    ensures w < Modulus()
  {
    if x in c.words && c.words[x] < Modulus() then c.words[x] else 0
  }

  ghost function BlobOf(c: Choice, x: Symbol, size: nat): (s: seq<byte>)
    ensures |s| == size
  {
    if x in c.blobs && |c.blobs[x]| == size then c.blobs[x] else Zeros(size)
  }

  // ---- encoding results ----

  datatype Part =
    | WordSym(sym: Symbol)
    | BlobSym(sym: Symbol, size: nat)
    | Offset(value: nat)

  datatype EncodingResult = EncodingResult(data: seq<Part>, size: nat, isStatic: bool)

  ghost function PartBytes(p: Part, c: Choice): seq<byte> {
    match p
    case WordSym(x) => Word32(WordOf(c, x))
    case BlobSym(x, n) => BlobOf(c, x, n)
    case Offset(n) => Word32(n)
  }

  ghost function DataOf(ps: seq<Part>, c: Choice): seq<byte> {
    if ps == [] then [] else DataOf(ps[..|ps| - 1], c) + PartBytes(ps[|ps| - 1], c)
  }

  lemma {:induction false} DataAppend(a: seq<Part>, b: seq<Part>, c: Choice)
    ensures DataOf(a + b, c) == DataOf(a, c) + DataOf(b, c)
    decreases |b|
  {
    hide PartBytes;
    if b == [] {
      assert a + b == a;
    } else {
      var n := |b| - 1;
      DataAppend(a, b[..n], c);
      assert (a + b)[..|a + b| - 1] == a + b[..n];
    }
  }

  // ---- what an encoding stands for ----

  /** The symbols of an encoded parameter, in the shape of its type. */
  datatype Shape =
    | SWord(t: AbiType, sym: Symbol)
    | SBlob(t: AbiType, length: Symbol, max: nat, blob: Symbol, padded: nat)
    | SArray(t: AbiType, length: Symbol, items: seq<Shape>)
    | STuple(t: AbiType, items: seq<Shape>)

  predicate WfShape(s: Shape) {
    match s
    case SWord(t, _) => t.Base?
    case SBlob(t, _, max, _, padded) => t.Dynamic? && max <= padded
    case SArray(t, _, items) =>
      && t.Array?
      && forall i | 0 <= i < |items| :: WfShape(items[i]) && items[i].t == t.elem
    case STuple(t, items) =>
      && (forall i | 0 <= i < |items| :: WfShape(items[i]))
      && match t
         case Fixed(elem, n) => |items| == n && forall i | 0 <= i < |items| :: items[i].t == elem
         case Tuple(ts) => |items| == |ts| && forall i | 0 <= i < |items| :: items[i].t == ts[i]
         case _ => false
  }

  /** Every length is at most its largest candidate. */
  ghost predicate Allowed(s: Shape, c: Choice) {
    match s
    case SWord(_, _) => true
    case SBlob(_, length, max, _, _) => WordOf(c, length) <= max
    case SArray(_, length, items) =>
      WordOf(c, length) <= |items| && forall i | 0 <= i < |items| :: Allowed(items[i], c)
    case STuple(_, items) => forall i | 0 <= i < |items| :: Allowed(items[i], c)
  }

  /** The value for a choice: the first elements or bytes, as many as the lengths say. */
  ghost function Chosen(s: Shape, c: Choice): Val
    requires Allowed(s, c) && WfShape(s)
    decreases s, 1
  {
    match s
    case SWord(t, x) => Word(t, WordOf(c, x))
    case SBlob(t, length, _, blob, padded) => Blob(t, BlobOf(c, blob, padded)[..WordOf(c, length)])
    case SArray(t, length, items) => Items(t, ChosenAll(items, c)[..WordOf(c, length)])
    case STuple(t, items) => Items(t, ChosenAll(items, c))
  }

  ghost function ChosenAll(ss: seq<Shape>, c: Choice): (vs: seq<Val>)
    requires forall i | 0 <= i < |ss| :: Allowed(ss[i], c) && WfShape(ss[i])
    ensures |vs| == |ss|
    decreases ss, 0
  {
    if ss == [] then [] else ChosenAll(ss[..|ss| - 1], c) + [Chosen(ss[|ss| - 1], c)]
  }

  /** The layout for a choice. */
  ghost function LayoutOf(s: Shape, c: Choice): (l: Layout)
    ensures l.t == s.t
    decreases s, 1
  {
    match s
    case SWord(t, x) => LWord(t, WordOf(c, x))
    case SBlob(t, length, _, blob, padded) => LBlob(t, WordOf(c, length), BlobOf(c, blob, padded))
    case SArray(t, length, items) => LArray(t, WordOf(c, length), LayoutsOf(items, c))
    case STuple(t, items) => LTuple(t, LayoutsOf(items, c))
  }

  ghost function LayoutsOf(ss: seq<Shape>, c: Choice): (ls: seq<Layout>)
    ensures |ls| == |ss| && forall i | 0 <= i < |ss| :: ls[i].t == ss[i].t
    decreases ss, 0
  {
    if ss == [] then [] else
    assert ss == ss[..|ss| - 1] + [ss[|ss| - 1]];
    LayoutsOf(ss[..|ss| - 1], c) + [LayoutOf(ss[|ss| - 1], c)]
  }

  lemma {:induction false} LayoutShows(s: Shape, c: Choice)
    requires WfShape(s) && Allowed(s, c)
    ensures WfLayout(LayoutOf(s, c)) && Shown(LayoutOf(s, c)) == Chosen(s, c)
    decreases s, 1
  {
    hide Modulus, WordOf, BlobOf, LayoutsOf, ShownAll, ChosenAll;
    match s
    case SWord(_, _) =>
    case SBlob(_, length, _, blob, padded) =>
    case SArray(t, length, items) =>
      LayoutsShow(items, c);
    case STuple(t, items) =>
      LayoutsShow(items, c);
  }

  lemma {:induction false} LayoutsShow(ss: seq<Shape>, c: Choice)
    requires forall i | 0 <= i < |ss| :: WfShape(ss[i]) && Allowed(ss[i], c)
    ensures var ls := LayoutsOf(ss, c);
      (forall i | 0 <= i < |ls| :: WfLayout(ls[i])) && ShownAll(ls) == ChosenAll(ss, c)
    decreases ss, 0
  {
    hide WfShape, Allowed, WfLayout, Shown, Chosen, LayoutOf;
    if ss != [] {
      var n := |ss| - 1;
      LayoutsShow(ss[..n], c);
      LayoutShows(ss[n], c);
      var ls := LayoutsOf(ss, c);
      assert ls[..n] == LayoutsOf(ss[..n], c) && ls[n] == LayoutOf(ss[n], c);
    }
  }

  /** An encoding has the bytes of the layout, for every choice. */
  ghost predicate Represents(r: EncodingResult, s: Shape) {
    && WfShape(s)
    && r.isStatic == !IsDynamic(s.t)
    && forall c: Choice :: DataOf(r.data, c) == Bytes(LayoutOf(s, c)) && r.size == |DataOf(r.data, c)|
  }

  /**
   * The shape has the type of the parameter, with as many items as the largest candidate, and
   * symbols named after the places of its parts.
   */
  ghost predicate ShapeOf(s: Shape, p: ParamType, sizes: (Path, bool) -> seq<nat>, path: Path)
    requires WfParam(p)
    decreases p
  {
    match p
    case BaseType(abi) => s.SWord? && s.t == Base(abi) && IsAt(s.sym, path, abi)
    case BytesType(isString) =>
      && s.SBlob? && s.t == AbiOf(p) && s.max == Max(sizes(path, false)) && s.padded == Padded(s.max)
      && IsAt(s.length, path, "length") && IsAt(s.blob, path, KindOf(isString))
    case ArrayType(b) =>
      && s.SArray? && s.t == AbiOf(p) && |s.items| == Max(sizes(path, true)) && IsAt(s.length, path, "length")
      && forall i | 0 <= i < |s.items| :: ShapeOf(s.items[i], b, sizes, Index(path, i))
    case FixedType(b, n) =>
      && s.STuple? && s.t == AbiOf(p) && |s.items| == n
      && forall i | 0 <= i < |s.items| :: ShapeOf(s.items[i], b, sizes, Index(path, i))
    case TupleType(names, items) =>
      && s.STuple? && s.t == AbiOf(p) && |s.items| == |items|
      && forall i | 0 <= i < |s.items| :: ShapeOf(s.items[i], items[i], sizes, Field(path, names[i]))
  }

  predicate IsAt(x: Symbol, path: Path, kind: string) {
    x.path == path && x.kind == kind
  }

  function KindOf(isString: bool): string {
    if isString then "string" else "bytes"
  }

  /** The symbols of a shape, in the order in which they are made. */
  function SymbolsOf(s: Shape): seq<Symbol>
    decreases s, 1
  {
    match s
    case SWord(_, x) => [x]
    case SBlob(_, length, _, blob, _) => [blob, length]
    case SArray(_, length, items) => [length] + SymbolsAll(items)
    case STuple(_, items) => SymbolsAll(items)
  }

  function SymbolsAll(ss: seq<Shape>): seq<Symbol>
    decreases ss, 0
  {
    if ss == [] then [] else SymbolsAll(ss[..|ss| - 1]) + SymbolsOf(ss[|ss| - 1])
  }

  /** Consecutive ids, so that no two symbols are the same. */
  predicate Numbered(xs: seq<Symbol>, from: nat) {
    forall i | 0 <= i < |xs| :: xs[i].id == from + i
  }

  /** One record for each array and each sequence of bytes in a shape. */
  ghost function Records(s: Shape, sizes: (Path, bool) -> seq<nat>): seq<DynamicParam>
    decreases s, 1
  {
    match s
    case SWord(_, _) => []
    case SBlob(_, length, _, _, _) => [DynamicParam(length.path, sizes(length.path, false), length)]
    case SArray(_, length, items) =>
      [DynamicParam(length.path, sizes(length.path, true), length)] + RecordsAll(items, sizes)
    case STuple(_, items) => RecordsAll(items, sizes)
  }

  ghost function RecordsAll(ss: seq<Shape>, sizes: (Path, bool) -> seq<nat>): seq<DynamicParam>
    decreases ss, 0
  {
    if ss == [] then [] else RecordsAll(ss[..|ss| - 1], sizes) + Records(ss[|ss| - 1], sizes)
  }

  // ---- static and dynamic ----

  /** What the encoder takes for static: no dynamic part lies outside arrays of length zero. */
  predicate TakenStatic(t: AbiType) {
    match t
    case Base(_) => true
    case Dynamic(_) => false
    case Array(_) => false
    case Fixed(elem, n) => n == 0 || TakenStatic(elem)
    case Tuple(ts) => forall i | 0 <= i < |ts| :: TakenStatic(ts[i])
  }

  /** The encoder and the specification agree on whether the type is dynamic. */
  predicate Right(t: AbiType) {
    TakenStatic(t) <==> !IsDynamic(t)
  }

  /** They can only disagree on a dynamic type with parts of size zero. */
  lemma {:induction false} StaticIsTaken(t: AbiType)
    ensures !IsDynamic(t) ==> TakenStatic(t)
    ensures Sized(t) ==> Right(t)
  {
    match t
    case Base(_) =>
    case Dynamic(_) =>
    case Array(_) =>
    case Fixed(elem, _) => StaticIsTaken(elem);
    case Tuple(ts) =>
      forall i | 0 <= i < |ts|
        ensures !IsDynamic(ts[i]) ==> TakenStatic(ts[i])
        ensures Sized(ts[i]) ==> Right(ts[i])
      {
        StaticIsTaken(ts[i]);
      }
  }

  /** The type has no words outside arrays of length zero. */
  predicate Wordless(t: AbiType) {
    match t
    case Base(_) => false
    case Dynamic(_) => false
    case Array(_) => false
    case Fixed(elem, n) => n == 0 || Wordless(elem)
    case Tuple(ts) => forall i | 0 <= i < |ts| :: Wordless(ts[i])
  }

  lemma {:induction false} WordlessIsTaken(t: AbiType)
    requires Wordless(t)
    ensures TakenStatic(t)
  {
    match t
    case Base(_) =>
    case Dynamic(_) =>
    case Array(_) =>
    case Fixed(elem, n) =>
      if n > 0 {
        WordlessIsTaken(elem);
      }
    case Tuple(ts) =>
      forall i | 0 <= i < |ts|
        ensures TakenStatic(ts[i])
      {
        WordlessIsTaken(ts[i]);
      }
  }

  /** The parameter and all parts of it that occur are right. */
  ghost predicate Faithful(p: ParamType, sizes: (Path, bool) -> seq<nat>, path: Path)
    requires WfParam(p)
    decreases p
  {
    Right(AbiOf(p)) && match p
    case BaseType(_) => true
    case BytesType(_) => true
    case ArrayType(b) => forall i | 0 <= i < Max(sizes(path, true)) :: Faithful(b, sizes, Index(path, i))
    case FixedType(b, n) => forall i | 0 <= i < n :: Faithful(b, sizes, Index(path, i))
    case TupleType(names, items) => forall i | 0 <= i < |items| :: Faithful(items[i], sizes, Field(path, names[i]))
  }

  lemma FaithfulParts(p: ParamType, sizes: (Path, bool) -> seq<nat>, path: Path)
    requires WfParam(p) && Faithful(p, sizes, path)
    ensures Right(AbiOf(p))
    ensures p.ArrayType? ==> forall i | 0 <= i < Max(sizes(path, true)) :: Faithful(p.base, sizes, Index(path, i))
    ensures p.FixedType? ==> forall i | 0 <= i < p.size :: Faithful(p.base, sizes, Index(path, i))
    ensures p.TupleType? ==> forall i | 0 <= i < |p.items| :: Faithful(p.items[i], sizes, Field(path, p.names[i]))
  {
    hide Right, AbiOf, Max;
  }

  /** The number of offsets that the encoding lacks, one for each part taken for static by mistake. */
  function Missing(s: Shape): nat
    decreases s, 1
  {
    match s
    case SWord(_, _) => 0
    case SBlob(_, _, _, _, _) => 0
    case SArray(_, _, items) => MissingAll(items)
    case STuple(_, items) => MissingAll(items)
  }

  function MissingAll(ss: seq<Shape>): nat
    decreases ss, 0
  {
    if ss == [] then 0 else
    var s := ss[|ss| - 1];
    MissingAll(ss[..|ss| - 1]) + Missing(s) + if Right(s.t) then 0 else 1
  }

  lemma {:induction false} NothingMissing(ss: seq<Shape>)
    ensures MissingAll(ss) == 0 <==> forall i | 0 <= i < |ss| :: Missing(ss[i]) == 0 && Right(ss[i].t)
  {
    hide Missing, Right;
    if ss != [] {
      NothingMissing(ss[..|ss| - 1]);
    }
  }

  /** A shape lacks no offset exactly if the parameter is faithful. */
  lemma {:induction false} FaithfulShape(s: Shape, p: ParamType, sizes: (Path, bool) -> seq<nat>, path: Path)
    requires WfParam(p) && ShapeOf(s, p, sizes, path)
    ensures s.t == AbiOf(p)
    ensures Faithful(p, sizes, path) <==> Missing(s) == 0 && Right(s.t)
    decreases p
  {
    hide Right, MissingAll, Max;
    match p
    case BaseType(_) =>
      assert Right(s.t) by {
        StaticIsTaken(s.t);
      }
    case BytesType(_) =>
      StaticIsTaken(s.t);
    case ArrayType(b) =>
      NothingMissing(s.items);
      forall i | 0 <= i < |s.items|
        ensures Faithful(b, sizes, Index(path, i)) <==> Missing(s.items[i]) == 0 && Right(s.items[i].t)
      {
        FaithfulShape(s.items[i], b, sizes, Index(path, i));
      }
    case FixedType(b, n) =>
      NothingMissing(s.items);
      forall i | 0 <= i < |s.items|
        ensures Faithful(b, sizes, Index(path, i)) <==> Missing(s.items[i]) == 0 && Right(s.items[i].t)
      {
        FaithfulShape(s.items[i], b, sizes, Index(path, i));
      }
    case TupleType(names, items) =>
      NothingMissing(s.items);
      forall i | 0 <= i < |s.items|
        ensures Faithful(items[i], sizes, Field(path, names[i])) <==> Missing(s.items[i]) == 0 && Right(s.items[i].t)
      {
        FaithfulShape(s.items[i], items[i], sizes, Field(path, names[i]));
      }
  }

  /**
   * What is known of every encoding: its size is that of its data, and short of the layout by one
   * word for each missing offset.
   */
  ghost predicate Coded(r: EncodingResult, s: Shape) {
    && WfShape(s)
    && (r.isStatic <==> TakenStatic(s.t))
    && (r.data == [] <==> Wordless(s.t))
    && forall c: Choice ::
         r.size == |DataOf(r.data, c)| && r.size + 32 * Missing(s) == |Bytes(LayoutOf(s, c))|
  }

  /** An encoding that represents its layout lacks no offset. */
  lemma RepresentsFaithful(r: EncodingResult, s: Shape, p: ParamType, sizes: (Path, bool) -> seq<nat>, path: Path)
    requires WfParam(p) && ShapeOf(s, p, sizes, path) && Coded(r, s) && Represents(r, s)
    ensures Faithful(p, sizes, path)
  {
    hide ShapeOf, WfShape, TakenStatic, Wordless, Missing, LayoutOf, Bytes, DataOf, IsDynamic, Faithful;
    FaithfulShape(s, p, sizes, path);
    assert DataOf(r.data, Nothing()) == Bytes(LayoutOf(s, Nothing()));
  }

  function Max(sizes: seq<nat>): nat {
    if sizes == [] then 0 else
    var m, last := Max(sizes[..|sizes| - 1]), sizes[|sizes| - 1];
    if m < last then last else m
  }

  /** The largest candidate is one of them. */
  predicate IsLargest(m: nat, sizes: seq<nat>) {
    && (forall i | 0 <= i < |sizes| :: sizes[i] <= m)
    && if sizes == [] then m == 0 else m in sizes
  }

  lemma {:induction false} MaxIsLargest(sizes: seq<nat>)
    ensures IsLargest(Max(sizes), sizes)
  {
    if sizes != [] {
      MaxIsLargest(sizes[..|sizes| - 1]);
    }
  }

  /** Each array has as many items, and each sequence of bytes as many bytes, as its largest candidate. */
  ghost predicate HasRoom(s: Shape, sizes: (Path, bool) -> seq<nat>) {
    match s
    case SWord(_, _) => true
    case SBlob(_, length, max, _, _) => IsLargest(max, sizes(length.path, false))
    case SArray(_, length, items) =>
      IsLargest(|items|, sizes(length.path, true)) && forall i | 0 <= i < |items| :: HasRoom(items[i], sizes)
    case STuple(_, items) => forall i | 0 <= i < |items| :: HasRoom(items[i], sizes)
  }

  lemma {:induction false} ShapeHasRoom(s: Shape, p: ParamType, sizes: (Path, bool) -> seq<nat>, path: Path)
    requires WfParam(p) && ShapeOf(s, p, sizes, path)
    ensures HasRoom(s, sizes)
    decreases p
  {
    hide Max, IsLargest, AbiOf;
    match p
    case BaseType(_) =>
    case BytesType(_) => MaxIsLargest(sizes(path, false));
    case ArrayType(b) =>
      MaxIsLargest(sizes(path, true));
      forall i | 0 <= i < |s.items| ensures HasRoom(s.items[i], sizes) {
        ShapeHasRoom(s.items[i], b, sizes, Index(path, i));
      }
    case FixedType(b, _) =>
      forall i | 0 <= i < |s.items| ensures HasRoom(s.items[i], sizes) {
        ShapeHasRoom(s.items[i], b, sizes, Index(path, i));
      }
    case TupleType(names, items) =>
      forall i | 0 <= i < |s.items| ensures HasRoom(s.items[i], sizes) {
        ShapeHasRoom(s.items[i], items[i], sizes, Field(path, names[i]));
      }
  }

  /** The next multiple of a word. */
  function Padded(n: nat): (r: nat)
    ensures n <= r < n + 32 && r % 32 == 0
  {
    (n + 31) / 32 * 32
  }

  // ---- tuples ----

  ghost predicate CodedAll(rs: seq<EncodingResult>, ss: seq<Shape>) {
    |rs| == |ss| && forall i | 0 <= i < |ss| :: Coded(rs[i], ss[i])
  }

  ghost predicate RepresentsAll(rs: seq<EncodingResult>, ss: seq<Shape>) {
    |rs| == |ss| && forall i | 0 <= i < |ss| :: Represents(rs[i], ss[i])
  }

  /** What is known of every tuple of the shapes. */
  ghost predicate TupleCoded(r: EncodingResult, ss: seq<Shape>) {
    && (r.isStatic <==> forall i | 0 <= i < |ss| :: TakenStatic(ss[i].t))
    && (r.data == [] <==> forall i | 0 <= i < |ss| :: Wordless(ss[i].t))
    && forall c: Choice ::
         && r.size == |DataOf(r.data, c)|
         && r.size + 32 * MissingAll(ss) == |TupleBytes(LayoutsOf(ss, c))|
  }

  /** The parts have the bytes of a tuple of the shapes, for every choice. */
  ghost predicate TupleEncoded(r: EncodingResult, ss: seq<Shape>) {
    forall c: Choice :: DataOf(r.data, c) == TupleBytes(LayoutsOf(ss, c))
  }

  function ShapeTypes(ss: seq<Shape>): (ts: seq<AbiType>)
    ensures |ts| == |ss|
  {
    seq(|ss|, i requires 0 <= i < |ss| => ss[i].t)
  }

  ghost function Nothing(): Choice {
    Choice(imap[], imap[])
  }

  lemma {:induction false} NothingAllowed(s: Shape)
    ensures Allowed(s, Nothing())
  {
    match s
    case SWord(_, _) =>
    case SBlob(_, _, _, _, _) =>
    case SArray(_, _, items) =>
      forall i | 0 <= i < |items| ensures Allowed(items[i], Nothing()) {
        NothingAllowed(items[i]);
      }
    case STuple(_, items) =>
      forall i | 0 <= i < |items| ensures Allowed(items[i], Nothing()) {
        NothingAllowed(items[i]);
      }
  }

  /** An encoding that represents its layout takes the head that its type says. */
  lemma HeadOfItem(r: EncodingResult, s: Shape)
    requires Represents(r, s)
    ensures HeadSize(s.t) == HeadTaken(r)
  {
    hide WfShape, Allowed, StaticSize, LayoutOf, Bytes, WfLayout, Chosen, Shown, IsDynamic;
    NothingAllowed(s);
    LayoutShows(s, Nothing());
    StaticBytes(LayoutOf(s, Nothing()));
    assert r.size == |DataOf(r.data, Nothing())|;
  }

  function HeadTaken(r: EncodingResult): nat {
    if r.isStatic then r.size else 32
  }

  function HeadsTaken(rs: seq<EncodingResult>): nat {
    if rs == [] then 0 else HeadsTaken(rs[..|rs| - 1]) + HeadTaken(rs[|rs| - 1])
  }

  lemma {:induction false} HeadsAsTyped(rs: seq<EncodingResult>, ss: seq<Shape>)
    requires RepresentsAll(rs, ss)
    ensures HeadsTaken(rs) == HeadSizes(ShapeTypes(ss))
    decreases |rs|
  {
    hide Represents, HeadTaken, HeadSize;
    if rs != [] {
      var n := |rs| - 1;
      HeadsAsTyped(rs[..n], ss[..n]);
      HeadOfItem(rs[n], ss[n]);
      TypesSnoc(ss, n);
      assert ss[..n + 1] == ss;
    } else {
      assert ShapeTypes(ss) == [];
    }
  }

  /** What the loop over the components has established after i of them. */
  ghost predicate Encoded(heads: seq<Part>, tails: seq<Part>, ss: seq<Shape>, i: nat, headSize: nat, totalSize: nat)
    requires i <= |ss|
  {
    forall c: Choice ::
      && DataOf(heads, c) == Heads(LayoutsOf(ss[..i], c), headSize)
      && DataOf(tails, c) == Tails(LayoutsOf(ss[..i], c))
      && totalSize == headSize + |DataOf(tails, c)|
  }

  lemma EncodedStart(ss: seq<Shape>, headSize: nat)
    ensures Encoded([], [], ss, 0, headSize, headSize)
  {
    assert ss[..0] == [];
  }

  lemma EncodedNext(heads: seq<Part>, tails: seq<Part>, ss: seq<Shape>, i: nat, headSize: nat, totalSize: nat, item: EncodingResult)
    requires i < |ss| && Encoded(heads, tails, ss, i, headSize, totalSize) && Represents(item, ss[i])
    ensures Encoded(heads + HeadPart(item, totalSize), tails + TailPart(item), ss, i + 1, headSize,
                    totalSize + TailSize(item))
  {
    hide WfShape, StaticSize, LayoutOf, Bytes, Heads, Tails, LayoutsOf, DataOf, IsDynamic;
    var heads', tails' := heads + HeadPart(item, totalSize), tails + TailPart(item);
    forall c: Choice
      ensures DataOf(heads', c) == Heads(LayoutsOf(ss[..i + 1], c), headSize)
      ensures DataOf(tails', c) == Tails(LayoutsOf(ss[..i + 1], c))
      ensures |DataOf(tails', c)| == |DataOf(tails, c)| + TailSize(item)
    {
      assert DataOf(item.data, c) == Bytes(LayoutOf(ss[i], c));
      DataAppend(heads, HeadPart(item, totalSize), c);
      DataAppend(tails, TailPart(item), c);
      OnePart(Offset(totalSize), c);
      LayoutsStep(ss, i, c, headSize);
    }
  }

  function HeadPart(r: EncodingResult, offset: nat): seq<Part> {
    if r.isStatic then r.data else [Offset(offset)]
  }

  function TailPart(r: EncodingResult): seq<Part> {
    if r.isStatic then [] else r.data
  }

  function TailSize(r: EncodingResult): nat {
    if r.isStatic then 0 else r.size
  }

  /** The same for components that need not represent their layouts: their sizes. */
  ghost predicate Counted(heads: seq<Part>, tails: seq<Part>, rs: seq<EncodingResult>, ss: seq<Shape>, i: nat,
                          headSize: nat, totalSize: nat)
    requires i <= |ss| == |rs|
  {
    && (tails == [] <==> forall j | 0 <= j < i :: TakenStatic(ss[j].t))
    && (heads == [] <==> forall j | 0 <= j < i :: Wordless(ss[j].t))
    && forall c: Choice ::
         && |DataOf(heads, c)| == HeadsTaken(rs[..i])
         && totalSize == headSize + |DataOf(tails, c)|
         && |DataOf(heads, c)| + |DataOf(tails, c)| + 32 * MissingAll(ss[..i]) == Spread(LayoutsOf(ss[..i], c))
  }

  /** The size of a tuple, wherever its offsets point. */
  function Spread(ls: seq<Layout>): nat {
    |Heads(ls, 0)| + |Tails(ls)|
  }

  lemma CountedStart(rs: seq<EncodingResult>, ss: seq<Shape>, headSize: nat)
    requires |rs| == |ss|
    ensures Counted([], [], rs, ss, 0, headSize, headSize)
  {
    assert ss[..0] == [] && rs[..0] == [];
  }

  lemma CountedNext(heads: seq<Part>, tails: seq<Part>, rs: seq<EncodingResult>, ss: seq<Shape>, i: nat, headSize: nat, totalSize: nat)
    requires i < |ss| && CodedAll(rs, ss) && Counted(heads, tails, rs, ss, i, headSize, totalSize)
    ensures Counted(heads + HeadPart(rs[i], totalSize), tails + TailPart(rs[i]), rs, ss, i + 1, headSize,
                    totalSize + TailSize(rs[i]))
  {
    hide WfShape, LayoutOf, Bytes, LayoutsOf, DataOf, TakenStatic, Wordless, MissingAll, Spread, HeadTaken, HeadsTaken,
         Coded;
    var item := rs[i];
    assert Coded(item, ss[i]);
    PartsEmpty(item, ss[i], totalSize);
    HeadsTakenNext(rs, i);
    forall c: Choice
      ensures |DataOf(heads + HeadPart(item, totalSize), c)| == |DataOf(heads, c)| + HeadTaken(item)
      ensures |DataOf(tails + TailPart(item), c)| == |DataOf(tails, c)| + TailSize(item)
      ensures Spread(LayoutsOf(ss[..i + 1], c)) ==
              Spread(LayoutsOf(ss[..i], c)) + HeadTaken(item) + TailSize(item) + 32 * (MissingAll(ss[..i + 1]) - MissingAll(ss[..i]))
    {
      DataAppend(heads, HeadPart(item, totalSize), c);
      DataAppend(tails, TailPart(item), c);
      PartSizes(item, ss[i], totalSize, c);
      SpreadStep(item, ss, i, c);
    }
  }

  lemma HeadsTakenNext(rs: seq<EncodingResult>, i: nat)
    requires i < |rs|
    ensures HeadsTaken(rs[..i + 1]) == HeadsTaken(rs[..i]) + HeadTaken(rs[i])
  {
    assert rs[..i + 1][..i] == rs[..i];
  }

  lemma PartsEmpty(r: EncodingResult, s: Shape, offset: nat)
    requires Coded(r, s)
    ensures HeadPart(r, offset) == [] <==> Wordless(s.t)
    ensures TailPart(r) == [] <==> TakenStatic(s.t)
  {
    hide WfShape, LayoutOf, Bytes, DataOf, TakenStatic, Wordless;
    if Wordless(s.t) {
      WordlessIsTaken(s.t);
    }
  }

  lemma PartSizes(r: EncodingResult, s: Shape, offset: nat, c: Choice)
    requires Coded(r, s)
    ensures |DataOf(HeadPart(r, offset), c)| == HeadTaken(r) && |DataOf(TailPart(r), c)| == TailSize(r)
  {
    hide WfShape, LayoutOf, Bytes, TakenStatic, Wordless, DataOf;
    OnePart(Offset(offset), c);
    assert r.size == |DataOf(r.data, c)|;
  }

  /** A component of the layout takes what is encoded for it, and the offset that may be missing. */
  lemma SpreadStep(r: EncodingResult, ss: seq<Shape>, i: nat, c: Choice)
    requires i < |ss| && Coded(r, ss[i])
    ensures Spread(LayoutsOf(ss[..i + 1], c)) ==
            Spread(LayoutsOf(ss[..i], c)) + HeadTaken(r) + TailSize(r) + 32 * (MissingAll(ss[..i + 1]) - MissingAll(ss[..i]))
  {
    hide WfShape, LayoutOf, Bytes, Heads, Tails, LayoutsOf, DataOf, IsDynamic, TakenStatic, Wordless, Missing;
    LayoutsStep(ss, i, c, 0);
    assert ss[..i + 1][..i] == ss[..i];
    StaticIsTaken(ss[i].t);
    assert r.size + 32 * Missing(ss[i]) == |Bytes(LayoutOf(ss[i], c))|;
  }

  lemma OnePart(p: Part, c: Choice)
    ensures DataOf([p], c) == PartBytes(p, c) && DataOf([], c) == []
  {
    assert [p][..0] == [];
  }

  lemma TypesSnoc(ss: seq<Shape>, i: nat)
    requires i < |ss|
    ensures HeadSizes(ShapeTypes(ss[..i + 1])) == HeadSizes(ShapeTypes(ss[..i])) + HeadSize(ss[i].t)
  {
    hide HeadSize;
    var ts := ShapeTypes(ss[..i + 1]);
    assert ts[..i] == ShapeTypes(ss[..i]) && ts[i] == ss[i].t;
  }

  lemma LayoutsStep(ss: seq<Shape>, i: nat, c: Choice, size: nat)
    requires i < |ss|
    ensures var ls, more := LayoutsOf(ss[..i], c), LayoutsOf(ss[..i + 1], c);
      && Heads(more, size) == Heads(ls, size) + (if IsDynamic(ss[i].t) then Word32(size + |Tails(ls)|) else Bytes(LayoutOf(ss[i], c)))
      && Tails(more) == Tails(ls) + (if IsDynamic(ss[i].t) then Bytes(LayoutOf(ss[i], c)) else [])
  {
    hide LayoutOf, Bytes, IsDynamic, Word32;
    var ls, more := LayoutsOf(ss[..i], c), LayoutsOf(ss[..i + 1], c);
    assert ss[..i + 1][..i] == ss[..i];
    assert more == ls + [LayoutOf(ss[i], c)];
    assert more[..i] == ls;
  }

  lemma EncodedAll(heads: seq<Part>, tails: seq<Part>, ss: seq<Shape>, headSize: nat, totalSize: nat)
    requires Encoded(heads, tails, ss, |ss|, headSize, totalSize) && headSize == HeadSizes(ShapeTypes(ss))
    ensures TupleEncoded(EncodingResult(heads + tails, totalSize, tails == []), ss)
  {
    hide Heads, Tails, LayoutsOf, DataOf, IsDynamic;
    assert ss[..|ss|] == ss;
    forall c: Choice
      ensures DataOf(heads + tails, c) == TupleBytes(LayoutsOf(ss, c))
    {
      DataAppend(heads, tails, c);
      SameShapeTypes(ss, c);
    }
  }

  lemma CountedAll(heads: seq<Part>, tails: seq<Part>, rs: seq<EncodingResult>, ss: seq<Shape>, headSize: nat, totalSize: nat)
    requires |rs| == |ss| && Counted(heads, tails, rs, ss, |ss|, headSize, totalSize) && headSize == HeadsTaken(rs)
    ensures TupleCoded(EncodingResult(heads + tails, totalSize, tails == []), ss)
  {
    hide Heads, Tails, LayoutsOf, DataOf, IsDynamic, TakenStatic, Wordless, MissingAll;
    assert ss[..|ss|] == ss && rs[..|ss|] == rs;
    if forall i | 0 <= i < |ss| :: Wordless(ss[i].t) {
      forall i | 0 <= i < |ss|
        ensures TakenStatic(ss[i].t)
      {
        WordlessIsTaken(ss[i].t);
      }
    }
    forall c: Choice
      ensures totalSize == |DataOf(heads + tails, c)|
      ensures totalSize + 32 * MissingAll(ss) == |TupleBytes(LayoutsOf(ss, c))|
    {
      DataAppend(heads, tails, c);
      var ls := LayoutsOf(ss, c);
      HeadsLengthOnly(ls, 0, HeadsSize(ls));
    }
  }

  /** Offsets all take a word. */
  lemma {:induction false} HeadsLengthOnly(ls: seq<Layout>, m: nat, n: nat)
    ensures |Heads(ls, m)| == |Heads(ls, n)|
  {
    hide Bytes, Word32, Tails, IsDynamic;
    if ls != [] {
      HeadsLengthOnly(ls[..|ls| - 1], m, n);
    }
  }

  lemma SameShapeTypes(ss: seq<Shape>, c: Choice)
    ensures Types(LayoutsOf(ss, c)) == ShapeTypes(ss)
  {
  }

  // ---- encoding ----

  datatype DynamicParam = DynamicParam(path: Path, sizes: seq<nat>, symbol: Symbol)

  /** Candidates for the arrays are within what a decoder accepts. */
  ghost predicate Decodable(sizes: (Path, bool) -> seq<nat>) {
    forall path :: Max(sizes(path, true)) <= MAX_ARRAY_LENGTH
  }

  class Calldata {
    const sizes: (Path, bool) -> seq<nat>  // size candidates of arrays (true) and of bytes
    var dynParams: seq<DynamicParam>
    var counter: nat

    constructor (sizes: (Path, bool) -> seq<nat>)
      ensures this.sizes == sizes && dynParams == [] && counter == 0
    {
      this.sizes, dynParams, counter := sizes, [], 0;
    }

    method NewSymbol(path: Path, kind: string) returns (x: Symbol)
      modifies this`counter
      ensures x == Symbol(path, kind, old(counter)) && counter == old(counter) + 1
    {
      x := Symbol(path, kind, counter);
      counter := counter + 1;
    }

    method DynSizes(path: Path, isArray: bool) returns (candidates: seq<nat>, length: Symbol)
      modifies this`counter, this`dynParams
      ensures candidates == sizes(path, isArray) && counter == old(counter) + 1
      ensures dynParams == old(dynParams) + [DynamicParam(path, candidates, length)]
      ensures length == Symbol(path, "length", old(counter))
    {
      candidates := sizes(path, isArray);
      length := NewSymbol(path, "length");
      dynParams := dynParams + [DynamicParam(path, candidates, length)];
    }

    /** The encoding of a parameter with all candidate sizes, and the shape of its symbols. */
    method Encode(path: Path, p: ParamType) returns (r: EncodingResult, ghost s: Shape)
      requires WfParam(p)
      modifies this`counter, this`dynParams
      ensures ShapeOf(s, p, sizes, path) && s.t == AbiOf(p)
      ensures Coded(r, s)
      ensures Represents(r, s) <==> Faithful(p, sizes, path)
      ensures Numbered(SymbolsOf(s), old(counter)) && counter == old(counter) + |SymbolsOf(s)|
      ensures dynParams == old(dynParams) + Records(s, sizes) && HasRoom(s, sizes)
      decreases p, 1
    {
      hide Represents, TupleEncoded, TupleCoded, WfShape, Coded, CodedAll, RepresentsAll, TakenStatic, Right, IsDynamic,
           Wordless, MissingAll, RecordsAll, SymbolsAll, Max, Faithful, HasRoom;
      match p {
      case TupleType(names, items) =>
        var rs, ss := EncodeFields(path, names, items);
        r := EncodeTuple(rs, ss);
        s := STuple(AbiOf(p), ss);
        ItemTypes(items);
        TupleIsCoded(r, s, rs);
        if Faithful(p, sizes, path) {
          FaithfulParts(p, sizes, path);
          TupleRepresents(r, s);
        }
      case FixedType(base, n) =>
        var rs, ss := EncodeIndices(path, base, n);
        r := EncodeTuple(rs, ss);
        s := STuple(AbiOf(p), ss);
        TupleIsCoded(r, s, rs);
        if Faithful(p, sizes, path) {
          FaithfulParts(p, sizes, path);
          TupleRepresents(r, s);
        }
      case ArrayType(base) =>
        var candidates, length := DynSizes(path, true);
        var rs, ss := EncodeIndices(path, base, Max(candidates));
        var encoded := EncodeTuple(rs, ss);
        r := EncodingResult([WordSym(length)] + encoded.data, 32 + encoded.size, false);
        s := SArray(AbiOf(p), length, ss);
        ArrayIsCoded(encoded, r, s, rs);
        if Faithful(p, sizes, path) {
          FaithfulParts(p, sizes, path);
          ArrayRepresents(encoded, r, s);
        }
        NumberedConcat([length], SymbolsAll(ss), old(counter));
      case BytesType(isString) =>
        var blob := NewSymbol(path, KindOf(isString));
        var candidates, length := DynSizes(path, false);
        var size := Max(candidates);
        var padded := Padded(size);
        var data := if size > 0 then [BlobSym(blob, padded)] else [];
        r := EncodingResult([WordSym(length)] + data, 32 + padded, false);
        s := SBlob(AbiOf(p), length, size, blob, padded);
        BlobRepresents(r, s);
      case BaseType(abi) =>
        var x := NewSymbol(path, abi);
        r := EncodingResult([WordSym(x)], 32, true);
        s := SWord(AbiOf(p), x);
        WordRepresents(r, s);
      }
      ShapeHasRoom(s, p, sizes, path);
      if Represents(r, s) {
        RepresentsFaithful(r, s, p, sizes, path);
      }
    }

    /** enc(X) = head(X(1)) ... head(X(k)) tail(X(1)) ... tail(X(k)) */
    method EncodeTuple(items: seq<EncodingResult>, ghost ss: seq<Shape>) returns (r: EncodingResult)
      requires CodedAll(items, ss)
      ensures TupleCoded(r, ss)
      ensures RepresentsAll(items, ss) ==> TupleEncoded(r, ss)
    {
      hide Represents, RepresentsAll, Coded, CodedAll, Encoded, Counted, TupleEncoded, TupleCoded, HeadSizes;
      assert |items| == |ss| by {
        CodedEach(items, ss);
      }
      var totalHeadSize: nat := 0;
      for i := 0 to |items|
        invariant totalHeadSize == HeadsTaken(items[..i])
      {
        assert items[..i + 1][..i] == items[..i];
        totalHeadSize := totalHeadSize + if items[i].isStatic then items[i].size else 32;
      }
      assert items[..|items|] == items;
      var totalSize: nat := totalHeadSize;
      var heads: seq<Part>, tails: seq<Part> := [], [];
      ghost var ok := RepresentsAll(items, ss);
      EncodedStart(ss, totalHeadSize);
      CountedStart(items, ss, totalHeadSize);
      for i := 0 to |items|
        invariant Counted(heads, tails, items, ss, i, totalHeadSize, totalSize)
        invariant ok ==> Encoded(heads, tails, ss, i, totalHeadSize, totalSize)
      {
        CountedNext(heads, tails, items, ss, i, totalHeadSize, totalSize);
        if ok {
          RepresentsEach(items, ss);
          EncodedNext(heads, tails, ss, i, totalHeadSize, totalSize, items[i]);
        }
        assert tails + [] == tails;
        if items[i].isStatic {
          heads := heads + items[i].data;
        } else {
          heads := heads + [Offset(totalSize)];
          tails := tails + items[i].data;
          totalSize := totalSize + items[i].size;
        }
      }
      CountedAll(heads, tails, items, ss, totalHeadSize, totalSize);
      if ok {
        HeadsAsTyped(items, ss);
        EncodedAll(heads, tails, ss, totalHeadSize, totalSize);
      }
      r := EncodingResult(heads + tails, totalSize, tails == []);
    }

    method EncodeFields(path: Path, names: seq<string>, items: seq<ParamType>) returns (rs: seq<EncodingResult>, ghost ss: seq<Shape>)
      requires |names| == |items| && forall i | 0 <= i < |items| :: WfParam(items[i])
      modifies this`counter, this`dynParams
      ensures |ss| == |items| && CodedAll(rs, ss)
      ensures forall i | 0 <= i < |items| :: ss[i].t == AbiOf(items[i]) && ShapeOf(ss[i], items[i], sizes, Field(path, names[i]))
      ensures (forall i | 0 <= i < |items| :: Faithful(items[i], sizes, Field(path, names[i]))) ==> RepresentsAll(rs, ss)
      ensures Numbered(SymbolsAll(ss), old(counter)) && counter == old(counter) + |SymbolsAll(ss)|
      ensures dynParams == old(dynParams) + RecordsAll(ss, sizes)
      decreases items, 0
    {
      hide Represents, Coded, ShapeOf, Faithful, SymbolsOf, Records, Numbered, SymbolsAll, RecordsAll;
      rs, ss := [], [];
      NothingMade(counter, sizes);
      for i := 0 to |items|
        invariant |rs| == |ss| == i && CodedAll(rs, ss)
        invariant forall j | 0 <= j < i :: ss[j].t == AbiOf(items[j]) && ShapeOf(ss[j], items[j], sizes, Field(path, names[j]))
        invariant forall j | 0 <= j < i :: Represents(rs[j], ss[j]) <==> Faithful(items[j], sizes, Field(path, names[j]))
        invariant Numbered(SymbolsAll(ss), old(counter)) && counter == old(counter) + |SymbolsAll(ss)|
        invariant dynParams == old(dynParams) + RecordsAll(ss, sizes)
      {
        var r; ghost var s;
        r, s := Encode(Field(path, names[i]), items[i]);
        MadeNext(ss, s, old(counter), sizes);
        rs, ss := rs + [r], ss + [s];
      }
    }

    method EncodeIndices(path: Path, base: ParamType, n: nat) returns (rs: seq<EncodingResult>, ghost ss: seq<Shape>)
      requires WfParam(base)
      modifies this`counter, this`dynParams
      ensures |ss| == n && CodedAll(rs, ss)
      ensures forall i | 0 <= i < n :: ss[i].t == AbiOf(base) && ShapeOf(ss[i], base, sizes, Index(path, i))
      ensures (forall i | 0 <= i < n :: Faithful(base, sizes, Index(path, i))) ==> RepresentsAll(rs, ss)
      ensures Numbered(SymbolsAll(ss), old(counter)) && counter == old(counter) + |SymbolsAll(ss)|
      ensures dynParams == old(dynParams) + RecordsAll(ss, sizes)
      decreases base, 2
    {
      hide Represents, Coded, ShapeOf, Faithful, SymbolsOf, Records, Numbered, SymbolsAll, RecordsAll, AbiOf, WfParam;
      rs, ss := [], [];
      NothingMade(counter, sizes);
      for i := 0 to n
        invariant |rs| == |ss| == i && CodedAll(rs, ss)
        invariant forall j | 0 <= j < i :: ss[j].t == AbiOf(base) && ShapeOf(ss[j], base, sizes, Index(path, j))
        invariant forall j | 0 <= j < i :: Represents(rs[j], ss[j]) <==> Faithful(base, sizes, Index(path, j))
        invariant Numbered(SymbolsAll(ss), old(counter)) && counter == old(counter) + |SymbolsAll(ss)|
        invariant dynParams == old(dynParams) + RecordsAll(ss, sizes)
      {
        var r; ghost var s;
        r, s := Encode(Index(path, i), base);
        MadeNext(ss, s, old(counter), sizes);
        rs, ss := rs + [r], ss + [s];
      }
    }
  }

  lemma NumberedConcat(xs: seq<Symbol>, ys: seq<Symbol>, from: nat)
    requires Numbered(xs, from) && Numbered(ys, from + |xs|)
    ensures Numbered(xs + ys, from)
  {
  }

  lemma NothingMade(from: nat, sizes: (Path, bool) -> seq<nat>)
    ensures SymbolsAll([]) == [] && Numbered([], from) && RecordsAll([], sizes) == []
  {
  }

  lemma MadeNext(ss: seq<Shape>, s: Shape, from: nat, sizes: (Path, bool) -> seq<nat>)
    requires Numbered(SymbolsAll(ss), from) && Numbered(SymbolsOf(s), from + |SymbolsAll(ss)|)
    ensures SymbolsAll(ss + [s]) == SymbolsAll(ss) + SymbolsOf(s) && Numbered(SymbolsAll(ss + [s]), from)
    ensures RecordsAll(ss + [s], sizes) == RecordsAll(ss, sizes) + Records(s, sizes)
  {
    hide SymbolsOf, Records;
    assert (ss + [s])[..|ss|] == ss;
    NumberedConcat(SymbolsAll(ss), SymbolsOf(s), from);
  }

  lemma CodedEach(rs: seq<EncodingResult>, ss: seq<Shape>)
    requires CodedAll(rs, ss)
    ensures |rs| == |ss| && forall i | 0 <= i < |ss| :: WfShape(ss[i])
  {
    hide WfShape, TakenStatic, Wordless;
  }

  lemma RepresentsEach(rs: seq<EncodingResult>, ss: seq<Shape>)
    requires RepresentsAll(rs, ss)
    ensures |rs| == |ss| && forall i | 0 <= i < |ss| :: Represents(rs[i], ss[i])
  {
    hide Represents;
  }

  lemma ItemTypes(items: seq<ParamType>)
    requires forall i | 0 <= i < |items| :: WfParam(items[i])
    ensures |AbisOf(items)| == |items| && forall i | 0 <= i < |items| :: AbisOf(items)[i] == AbiOf(items[i])
  {
  }

  /** The components have the types that a fixed array or a tuple asks for. */
  predicate TypedItems(t: AbiType, ss: seq<Shape>) {
    match t
    case Fixed(elem, n) => |ss| == n && forall i | 0 <= i < |ss| :: ss[i].t == elem
    case Tuple(ts) => |ss| == |ts| && forall i | 0 <= i < |ss| :: ss[i].t == ts[i]
    case _ => false
  }

  lemma TupleIsCoded(r: EncodingResult, s: Shape, rs: seq<EncodingResult>)
    requires s.STuple? && TypedItems(s.t, s.items) && CodedAll(rs, s.items) && TupleCoded(r, s.items)
    ensures Coded(r, s)
  {
    hide LayoutsOf, TupleBytes, DataOf, MissingAll, CodedAll, TakenStatic, Wordless, WfShape;
    CodedEach(rs, s.items);
    TypedTuple(s);
    forall c: Choice
      ensures r.size == |DataOf(r.data, c)| && r.size + 32 * Missing(s) == |Bytes(LayoutOf(s, c))|
    {
    }
  }

  lemma TypedTuple(s: Shape)
    requires s.STuple? && TypedItems(s.t, s.items) && forall i | 0 <= i < |s.items| :: WfShape(s.items[i])
    ensures WfShape(s)
    ensures TakenStatic(s.t) <==> forall i | 0 <= i < |s.items| :: TakenStatic(s.items[i].t)
    ensures Wordless(s.t) <==> forall i | 0 <= i < |s.items| :: Wordless(s.items[i].t)
  {
    assert s.t.Fixed? && s.items != [] ==> s.items[0].t == s.t.elem;
  }

  lemma TupleRepresents(r: EncodingResult, s: Shape)
    requires Coded(r, s) && s.STuple? && Right(s.t) && TupleEncoded(r, s.items)
    ensures Represents(r, s)
  {
    hide LayoutsOf, TupleBytes, DataOf, WfShape, TakenStatic, Wordless, IsDynamic;
  }

  lemma ArrayIsCoded(encoded: EncodingResult, r: EncodingResult, s: Shape, rs: seq<EncodingResult>)
    requires s.SArray? && s.t.Array? && CodedAll(rs, s.items) && TupleCoded(encoded, s.items)
    requires forall i | 0 <= i < |s.items| :: s.items[i].t == s.t.elem
    requires r == EncodingResult([WordSym(s.length)] + encoded.data, 32 + encoded.size, false)
    ensures Coded(r, s)
  {
    hide LayoutsOf, TupleBytes, WordOf, MissingAll, CodedAll;
    CodedEach(rs, s.items);
    forall c: Choice
      ensures r.size == |DataOf(r.data, c)| && r.size + 32 * Missing(s) == |Bytes(LayoutOf(s, c))|
    {
      DataAppend([WordSym(s.length)], encoded.data, c);
      OnePart(WordSym(s.length), c);
    }
  }

  lemma ArrayRepresents(encoded: EncodingResult, r: EncodingResult, s: Shape)
    requires s.SArray? && Coded(r, s) && s.t.Array? && TupleEncoded(encoded, s.items)
    requires r == EncodingResult([WordSym(s.length)] + encoded.data, 32 + encoded.size, false)
    ensures Represents(r, s)
  {
    hide LayoutsOf, TupleBytes, WordOf, WfShape;
    forall c: Choice
      ensures DataOf(r.data, c) == Bytes(LayoutOf(s, c))
    {
      DataAppend([WordSym(s.length)], encoded.data, c);
      OnePart(WordSym(s.length), c);
    }
  }

  lemma BlobRepresents(r: EncodingResult, s: Shape)
    requires s.SBlob? && s.t.Dynamic? && s.padded == Padded(s.max)
    requires r == EncodingResult([WordSym(s.length)] + (if s.max > 0 then [BlobSym(s.blob, s.padded)] else []), 32 + s.padded, false)
    ensures Coded(r, s) && Represents(r, s) && Right(s.t)
  {
    hide WordOf, BlobOf;
    forall c: Choice
      ensures DataOf(r.data, c) == Bytes(LayoutOf(s, c)) && r.size == |DataOf(r.data, c)|
    {
      DataAppend([WordSym(s.length)], if s.max > 0 then [BlobSym(s.blob, s.padded)] else [], c);
      OnePart(WordSym(s.length), c);
      OnePart(BlobSym(s.blob, s.padded), c);
    }
  }

  lemma WordRepresents(r: EncodingResult, s: Shape)
    requires s.SWord? && s.t.Base? && r == EncodingResult([WordSym(s.sym)], 32, true)
    ensures Coded(r, s) && Represents(r, s) && Right(s.t)
  {
    hide WordOf;
    forall c: Choice
      ensures DataOf(r.data, c) == Bytes(LayoutOf(s, c)) && r.size == |DataOf(r.data, c)|
    {
      OnePart(WordSym(s.sym), c);
    }
  }

  // ---- candidates ----

  /** The lengths are candidates. */
  ghost predicate Candidates(rs: seq<DynamicParam>, c: Choice) {
    forall k | 0 <= k < |rs| :: WordOf(c, rs[k].symbol) in rs[k].sizes
  }

  lemma CandidatesBoth(a: seq<DynamicParam>, b: seq<DynamicParam>, c: Choice)
    ensures Candidates(a + b, c) <==> Candidates(a, c) && Candidates(b, c)
  {
    hide WordOf;
    assert forall k | 0 <= k < |a| :: (a + b)[k] == a[k];
    assert forall k | 0 <= k < |b| :: (a + b)[|a| + k] == b[k];
  }

  /** The encoding has room for any combination of candidates. */
  lemma {:induction false} CandidatesAllowed(s: Shape, sizes: (Path, bool) -> seq<nat>, c: Choice)
    requires HasRoom(s, sizes) && Candidates(Records(s, sizes), c)
    ensures Allowed(s, c)
    decreases s, 1
  {
    hide WordOf, RecordsAll;
    match s
    case SWord(_, _) =>
    case SBlob(_, length, _, _, _) =>
      assert Records(s, sizes)[0].symbol == length;
    case SArray(_, length, items) =>
      assert Records(s, sizes)[0].symbol == length;
      CandidatesBoth(Records(s, sizes)[..1], RecordsAll(items, sizes), c);
      AllAllowed(items, sizes, c);
    case STuple(_, items) =>
      AllAllowed(items, sizes, c);
  }

  lemma {:induction false} AllAllowed(ss: seq<Shape>, sizes: (Path, bool) -> seq<nat>, c: Choice)
    requires (forall i | 0 <= i < |ss| :: HasRoom(ss[i], sizes)) && Candidates(RecordsAll(ss, sizes), c)
    ensures forall i | 0 <= i < |ss| :: Allowed(ss[i], c)
    decreases ss, 0
  {
    hide HasRoom, Allowed, Records, Candidates;
    if ss != [] {
      var n := |ss| - 1;
      CandidatesBoth(RecordsAll(ss[..n], sizes), Records(ss[n], sizes), c);
      AllAllowed(ss[..n], sizes, c);
      CandidatesAllowed(ss[n], sizes, c);
    }
  }

  /** The ids of the length symbols grow within a range. */
  predicate Rising(rs: seq<DynamicParam>, from: nat, to: nat) {
    && (forall k | 0 <= k < |rs| :: from <= rs[k].symbol.id < to)
    && (forall j, k | 0 <= j < k < |rs| :: rs[j].symbol.id < rs[k].symbol.id)
  }

  lemma RisingBoth(a: seq<DynamicParam>, b: seq<DynamicParam>, from: nat, mid: nat, to: nat)
    requires Rising(a, from, mid) && Rising(b, mid, to) && from <= mid <= to
    ensures Rising(a + b, from, to)
  {
  }

  /** No two arrays or sequences of bytes share their length symbol. */
  lemma {:induction false} RecordsRise(s: Shape, sizes: (Path, bool) -> seq<nat>, from: nat)
    requires Numbered(SymbolsOf(s), from)
    ensures Rising(Records(s, sizes), from, from + |SymbolsOf(s)|)
    decreases s, 1
  {
    hide RecordsAll, SymbolsAll;
    match s
    case SWord(_, _) =>
    case SBlob(_, length, _, blob, _) =>
      assert SymbolsOf(s)[1] == length;
    case SArray(_, length, items) =>
      var all := SymbolsOf(s);
      assert all[0] == length && all[1..] == SymbolsAll(items);
      assert forall i | 0 <= i < |SymbolsAll(items)| :: SymbolsAll(items)[i] == all[i + 1];
      AllRise(items, sizes, from + 1);
      RisingBoth(Records(s, sizes)[..1], RecordsAll(items, sizes), from, from + 1, from + |all|);
    case STuple(_, items) =>
      AllRise(items, sizes, from);
  }

  lemma {:induction false} AllRise(ss: seq<Shape>, sizes: (Path, bool) -> seq<nat>, from: nat)
    requires Numbered(SymbolsAll(ss), from)
    ensures Rising(RecordsAll(ss, sizes), from, from + |SymbolsAll(ss)|)
    decreases ss, 0
  {
    hide Records, SymbolsOf, Rising;
    if ss == [] {
      NothingRises(from);
    } else {
      var n := |ss| - 1;
      var front, last := SymbolsAll(ss[..n]), SymbolsOf(ss[n]);
      assert forall i | 0 <= i < |front| :: front[i] == SymbolsAll(ss)[i];
      assert forall i | 0 <= i < |last| :: last[i] == SymbolsAll(ss)[|front| + i];
      AllRise(ss[..n], sizes, from);
      RecordsRise(ss[n], sizes, from + |front|);
      RisingBoth(RecordsAll(ss[..n], sizes), Records(ss[n], sizes), from, from + |front|, from + |SymbolsAll(ss)|);
    }
  }

  lemma NothingRises(from: nat)
    ensures Rising([], from, from)
  {
  }

  /** One candidate for each record. */
  predicate Picks(rs: seq<DynamicParam>, picks: seq<nat>) {
    |picks| == |rs| && forall k | 0 <= k < |rs| :: picks[k] in rs[k].sizes && picks[k] < Modulus()
  }

  function PickOf(rs: seq<DynamicParam>, picks: seq<nat>, x: Symbol): nat
    requires |picks| == |rs|
  {
    if rs == [] then 0 else
    var n := |rs| - 1;
    if rs[n].symbol == x then picks[n] else PickOf(rs[..n], picks[..n], x)
  }

  /** The choice of these sizes. */
  ghost function Picking(rs: seq<DynamicParam>, picks: seq<nat>): Choice
    requires |picks| == |rs|
  {
    Choice(imap x: Symbol :: PickOf(rs, picks, x), imap[])
  }

  lemma {:induction false} PickOfRecord(rs: seq<DynamicParam>, picks: seq<nat>, from: nat, to: nat, k: nat)
    requires |picks| == |rs| && Rising(rs, from, to) && k < |rs|
    ensures PickOf(rs, picks, rs[k].symbol) == picks[k]
    decreases |rs|
  {
    var n := |rs| - 1;
    if k < n {
      assert rs[..n][k] == rs[k];
      PickOfRecord(rs[..n], picks[..n], from, to, k);
    }
  }

  /** Every combination of candidates is an allowed choice of the lengths. */
  lemma PicksAllowed(s: Shape, sizes: (Path, bool) -> seq<nat>, from: nat, picks: seq<nat>)
    requires HasRoom(s, sizes) && Numbered(SymbolsOf(s), from) && Picks(Records(s, sizes), picks)
    ensures var rs := Records(s, sizes); var c := Picking(rs, picks);
      Allowed(s, c) && forall k | 0 <= k < |rs| :: WordOf(c, rs[k].symbol) == picks[k]
  {
    hide Records, SymbolsOf, HasRoom, Numbered, Allowed, Rising, PickOf, Modulus;
    var rs := Records(s, sizes);
    var c := Picking(rs, picks);
    RecordsRise(s, sizes, from);
    forall k | 0 <= k < |rs| ensures WordOf(c, rs[k].symbol) == picks[k] {
      PickOfRecord(rs, picks, from, from + |SymbolsOf(s)|, k);
    }
    CandidatesAllowed(s, sizes, c);
  }

  /** As many elements or bytes as the length says. */
  lemma ChosenLength(s: Shape, c: Choice)
    requires WfShape(s) && Allowed(s, c)
    ensures s.SArray? ==> Chosen(s, c).Items? && |Chosen(s, c).items| == WordOf(c, s.length)
    ensures s.SBlob? ==> Chosen(s, c).Blob? && |Chosen(s, c).data| == WordOf(c, s.length)
  {
    hide WordOf, BlobOf, ChosenAll;
  }

  // ---- decoding ----

  /**
   * One encoding serves every choice of sizes: strict decoding, at any offset inside larger data,
   * yields exactly the first elements and bytes that the lengths ask for, if it does not give up.
   */
  lemma GeneralizedEncoding(r: EncodingResult, s: Shape, c: Choice, before: seq<byte>, after: seq<byte>)
    requires Represents(r, s) && Allowed(s, c) && |before + DataOf(r.data, c) + after| < Modulus()
    ensures var data := before + DataOf(r.data, c) + after;
      WfShape(s) && Decode(s.t, data, |before|) ==
      if Reach(LayoutOf(s, c), |before|, |data|) then Some(Chosen(s, c)) else None
  {
    hide Modulus, WfShape, Allowed, LayoutOf, Bytes, Decode, Chosen, Shown, WfLayout, Reach;
    LayoutShows(s, c);
    var data := before + DataOf(r.data, c) + after;
    assert data[|before|..|before| + |DataOf(r.data, c)|] == DataOf(r.data, c);
    DecodesLayout(LayoutOf(s, c), data, |before|);
  }

  /** No array has more elements than the decoder accepts. */
  predicate Within(s: Shape) {
    match s
    case SWord(_, _) => true
    case SBlob(_, _, _, _, _) => true
    case SArray(_, _, items) => |items| <= MAX_ARRAY_LENGTH && forall i | 0 <= i < |items| :: Within(items[i])
    case STuple(_, items) => forall i | 0 <= i < |items| :: Within(items[i])
  }

  /** Candidates up to the limit make such encodings. */
  lemma {:induction false} CandidatesWithin(s: Shape, p: ParamType, sizes: (Path, bool) -> seq<nat>, path: Path)
    requires WfParam(p) && ShapeOf(s, p, sizes, path) && Decodable(sizes)
    ensures Within(s)
    decreases p
  {
    match p
    case BaseType(_) =>
    case BytesType(_) =>
    case ArrayType(b) =>
      forall i | 0 <= i < |s.items| ensures Within(s.items[i]) {
        CandidatesWithin(s.items[i], b, sizes, Index(path, i));
      }
    case FixedType(b, _) =>
      forall i | 0 <= i < |s.items| ensures Within(s.items[i]) {
        CandidatesWithin(s.items[i], b, sizes, Index(path, i));
      }
    case TupleType(names, items) =>
      forall i | 0 <= i < |s.items| ensures Within(s.items[i]) {
        CandidatesWithin(s.items[i], items[i], sizes, Field(path, names[i]));
      }
  }

  lemma {:induction false} LayoutShort(s: Shape, c: Choice)
    requires Within(s) && Allowed(s, c)
    ensures ShortLayout(LayoutOf(s, c))
    decreases s, 1
  {
    hide WordOf, BlobOf, LayoutsOf;
    match s
    case SWord(_, _) =>
    case SBlob(_, _, _, _, _) =>
    case SArray(_, _, items) => LayoutsShort(items, c);
    case STuple(_, items) => LayoutsShort(items, c);
  }

  lemma {:induction false} LayoutsShort(ss: seq<Shape>, c: Choice)
    requires forall i | 0 <= i < |ss| :: Within(ss[i]) && Allowed(ss[i], c)
    ensures forall i | 0 <= i < |ss| :: ShortLayout(LayoutsOf(ss, c)[i])
    decreases ss, 0
  {
    hide Within, Allowed, LayoutOf, ShortLayout;
    if ss != [] {
      var n := |ss| - 1;
      LayoutsShort(ss[..n], c);
      LayoutShort(ss[n], c);
      assert LayoutsOf(ss, c)[..n] == LayoutsOf(ss[..n], c);
    }
  }

  /** It never gives up without zero-sized parts, with candidates up to the limit for arrays. */
  lemma SizedEncoding(r: EncodingResult, s: Shape, c: Choice, before: seq<byte>, after: seq<byte>)
    requires Represents(r, s) && Sized(s.t) && Within(s) && Allowed(s, c)
    requires |before + DataOf(r.data, c) + after| < Modulus()
    ensures WfShape(s) && Decode(s.t, before + DataOf(r.data, c) + after, |before|) == Some(Chosen(s, c))
  {
    hide Modulus, WfShape, Allowed, Sized, LayoutOf, Bytes, Decode, Chosen, Shown, WfLayout, ShortLayout, Reach,
         Within, DataOf;
    GeneralizedEncoding(r, s, c, before, after);
    LayoutShows(s, c);
    LayoutShort(s, c);
    assert DataOf(r.data, c) == Bytes(LayoutOf(s, c));
    SizedReach(LayoutOf(s, c), |before|, |before + DataOf(r.data, c) + after|);
  }

  /** For every combination of candidates there is a choice for which decoding yields values of exactly these lengths. */
  lemma EverySizeDecodes(r: EncodingResult, s: Shape, sizes: (Path, bool) -> seq<nat>, from: nat, picks: seq<nat>,
                         before: seq<byte>, after: seq<byte>)
    requires Represents(r, s) && Sized(s.t) && Within(s) && HasRoom(s, sizes) && Numbered(SymbolsOf(s), from)
    requires Picks(Records(s, sizes), picks)
    requires |before| + r.size + |after| < Modulus()
    ensures var rs := Records(s, sizes); var c := Picking(rs, picks);
      && (forall k | 0 <= k < |rs| :: WordOf(c, rs[k].symbol) == picks[k])
      && WfShape(s) && Allowed(s, c)
      && Decode(s.t, before + DataOf(r.data, c) + after, |before|) == Some(Chosen(s, c))
  {
    hide Modulus, WfShape, Allowed, Sized, LayoutOf, Bytes, Decode, Chosen, HasRoom, Within, DataOf, Records, SymbolsOf,
         Numbered, Picking;
    PicksAllowed(s, sizes, from, picks);
    var c := Picking(Records(s, sizes), picks);
    assert r.size == |DataOf(r.data, c)|;
    SizedEncoding(r, s, c, before, after);
  }

  // ---- arrays of length zero ----

  lemma {:induction false} WordlessDecoded(t: AbiType, pos: nat)
    requires Wordless(t) && !IsDynamic(t)
    ensures Decode(t, [], pos).Some?
    decreases t, 1
  {
    match t
    case Base(_) =>
    case Dynamic(_) =>
    case Array(_) =>
    case Fixed(elem, n) =>
      if n > 0 {
        WordlessDecoded(elem, pos);
      }
      FixedDecoded(elem, n, pos);
    case Tuple(ts) =>
      TupleDecoded(ts, pos, Depths(ts));
  }

  lemma {:induction false} FixedDecoded(elem: AbiType, n: nat, pos: nat)
    requires n > 0 ==> Wordless(elem) && !IsDynamic(elem)
    ensures DecodeTuple(Repeated(elem, n), [], pos, Depth(elem)).Some?
    decreases elem, 2, n
  {
    if n > 0 {
      FixedDecoded(elem, n - 1, pos);
      var ts := Repeated(elem, n);
      assert ts[..n - 1] == Repeated(elem, n - 1) && ts[n - 1] == elem;
      WordlessDecoded(elem, pos + HeadSizes(ts[..n - 1]));
    }
  }

  lemma {:induction false} TupleDecoded(ts: seq<AbiType>, pos: nat, depth: nat)
    requires forall i | 0 <= i < |ts| :: Wordless(ts[i]) && !IsDynamic(ts[i]) && Depth(ts[i]) <= depth
    ensures DecodeTuple(ts, [], pos, depth).Some?
    decreases ts, 0
  {
    if ts != [] {
      var n := |ts| - 1;
      TupleDecoded(ts[..n], pos, depth);
      WordlessDecoded(ts[n], pos + HeadSizes(ts[..n]));
    }
  }

  /** Arrays of length zero, alone, in an array and in a tuple: the element decides. */
  lemma EmptyFixedTypes(elem: AbiType, t: AbiType, n: nat)
    requires n > 0 && (t == Fixed(elem, 0) || t == Fixed(Fixed(elem, 0), n) || t == Tuple([Fixed(elem, 0)]))
    ensures Wordless(t) && TakenStatic(t) && (Right(t) <==> !IsDynamic(elem))
  {
    var inner := Fixed(elem, 0);
    assert Wordless(inner) && TakenStatic(inner) && IsDynamic(inner) == IsDynamic(elem);
    assert IsDynamic(Tuple([inner])) == IsDynamic([inner][0]);
  }

  /**
   * Parameters without words, such as T[0], T[0][3] and (T[0]), are encoded as nothing. Strict
   * decoding fails exactly if the specification calls one of them dynamic, as it looks for an
   * offset that is not there.
   */
  lemma EmptyFixedArray(r: EncodingResult, s: Shape, c: Choice)
    requires Coded(r, s) && s.t.Tuple? && Wordless(s.t)
    ensures r.isStatic && DataOf(r.data, c) == []
    ensures Decode(s.t, DataOf(r.data, c), 0) == None <==> IsDynamic(s.t)
  {
    hide Depths;
    WordlessIsTaken(s.t);
    var ts := s.t.components;
    if i :| 0 <= i < |ts| && IsDynamic(ts[i]) {
      assert WordAt([], HeadSizes(ts[..i])) == None;
      Fails(ts, [], 0, Depths(ts), i);
    } else {
      WordlessDecoded(s.t, 0);
    }
  }
}
