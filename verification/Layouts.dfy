// Encodings with surplus elements, and decoding them.
module Layouts {
  import opened Options
  import opened Chunks
  import opened Words32
  import opened Abi

  datatype Layout =
    | LWord(t: AbiType, word: nat)
    | LBlob(t: AbiType, length: nat, bytes: seq<byte>)         // the first `length` bytes count
    | LArray(t: AbiType, length: nat, items: seq<Layout>)      // the first `length` items count
    | LTuple(t: AbiType, items: seq<Layout>)

  predicate WfLayout(l: Layout) {
    match l
    case LWord(t, w) => t.Base? && w < Modulus()
    case LBlob(t, n, bytes) => t.Dynamic? && n <= |bytes| && n < Modulus()
    case LArray(t, n, items) =>
      && t.Array? && n <= |items| && n < Modulus()
      && forall i | 0 <= i < |items| :: WfLayout(items[i]) && items[i].t == t.elem
    case LTuple(t, items) =>
      && (forall i | 0 <= i < |items| :: WfLayout(items[i]))
      && match t
         case Fixed(elem, n) => |items| == n && forall i | 0 <= i < |items| :: items[i].t == elem
         case Tuple(ts) => |items| == |ts| && forall i | 0 <= i < |items| :: items[i].t == ts[i]
         case _ => false
  }

  function Types(ls: seq<Layout>): (ts: seq<AbiType>)
    ensures |ts| == |ls|
  {
    seq(|ls|, i requires 0 <= i < |ls| => ls[i].t)
  }

  /** The value that a layout stands for. */
  function Shown(l: Layout): Val
    requires WfLayout(l)
    decreases l, 1
  {
    match l
    case LWord(t, w) => Word(t, w)
    case LBlob(t, n, bytes) => Blob(t, bytes[..n])
    case LArray(t, n, items) => Items(t, ShownAll(items)[..n])
    case LTuple(t, items) => Items(t, ShownAll(items))
  }

  function ShownAll(ls: seq<Layout>): (vs: seq<Val>)
    requires forall i | 0 <= i < |ls| :: WfLayout(ls[i])
    ensures |vs| == |ls|
    decreases ls, 0
  {
    if ls == [] then [] else ShownAll(ls[..|ls| - 1]) + [Shown(ls[|ls| - 1])]
  }

  lemma {:induction false} ShownTake(ls: seq<Layout>, n: nat)
    requires (forall i | 0 <= i < |ls| :: WfLayout(ls[i])) && n <= |ls|
    ensures ShownAll(ls)[..n] == ShownAll(ls[..n])
    decreases |ls|
  {
    if n == |ls| {
      assert ls[..n] == ls;
    } else {
      var m := |ls| - 1;
      ShownTake(ls[..m], n);
      assert ls[..m][..n] == ls[..n];
    }
  }

  // ---- the bytes of a layout ----

  function Bytes(l: Layout): seq<byte>
    decreases l, 1
  {
    match l
    case LWord(_, w) => Word32(w)
    case LBlob(_, n, bytes) => Word32(n) + bytes
    case LArray(_, n, items) => Word32(n) + TupleBytes(items)
    case LTuple(_, items) => TupleBytes(items)
  }

  function HeadsSize(ls: seq<Layout>): nat {
    HeadSizes(Types(ls))
  }

  /** Heads point past all heads and the tails before them. */
  function TupleBytes(ls: seq<Layout>): seq<byte>
    decreases ls, 3
  {
    Heads(ls, HeadsSize(ls)) + Tails(ls)
  }

  function Heads(ls: seq<Layout>, size: nat): seq<byte>
    decreases ls, 2
  {
    if ls == [] then [] else
    var n := |ls| - 1;
    Heads(ls[..n], size) +
    if IsDynamic(ls[n].t) then Word32(size + |Tails(ls[..n])|) else Bytes(ls[n])
  }

  function Tails(ls: seq<Layout>): seq<byte>
    decreases ls, 1
  {
    if ls == [] then [] else
    var n := |ls| - 1;
    Tails(ls[..n]) + if IsDynamic(ls[n].t) then Bytes(ls[n]) else []
  }

  // ---- sizes ----

  lemma HeadsSnoc(ls: seq<Layout>)
    requires ls != []
    ensures HeadsSize(ls) == HeadsSize(ls[..|ls| - 1]) + HeadSize(ls[|ls| - 1].t)
  {
    hide HeadSize;
    var n := |ls| - 1;
    assert Types(ls)[..n] == Types(ls[..n]);
    assert Types(ls)[n] == ls[n].t;
  }

  /** The part of the heads that belongs to one component. */
  function HeadOf(l: Layout, offset: nat): seq<byte> {
    if IsDynamic(l.t) then Word32(offset) else Bytes(l)
  }

  lemma HeadOfLength(l: Layout, offset: nat)
    requires WfLayout(l)
    ensures |HeadOf(l, offset)| == HeadSize(l.t)
  {
    hide WfLayout, Bytes, StaticSize;
    StaticBytes(l);
  }

  lemma {:induction false} StaticBytes(l: Layout)
    requires WfLayout(l)
    ensures !IsDynamic(l.t) ==> |Bytes(l)| == StaticSize(l.t)
    decreases l, 1
  {
    match l
    case LWord(_, _) =>
    case LBlob(_, _, _) =>
    case LArray(_, _, _) =>
    case LTuple(t, items) =>
      if !IsDynamic(t) {
        HeadsLength(items, HeadsSize(items));
        NoTails(items);
        match t
        case Fixed(elem, n) => FixedHeads(items, elem);
        case Tuple(ts) => assert Types(items) == ts;
      }
  }

  /** A dynamic encoding with no zero-sized part takes at least a word. */
  lemma DynamicBytes(l: Layout)
    requires WfLayout(l) && IsDynamic(l.t) && Sized(l.t)
    ensures |Bytes(l)| >= 32
  {
    match l
    case LWord(_, _) =>
    case LBlob(_, _, _) =>
    case LArray(_, _, _) =>
    case LTuple(t, items) =>
      HeadsLength(items, HeadsSize(items));
      match t
      case Fixed(_, _) => DynamicItem(items, 0);
      case Tuple(ts) =>
        var i :| 0 <= i < |ts| && IsDynamic(ts[i]);
        DynamicItem(items, i);
  }

  lemma {:induction false} HeadsLength(ls: seq<Layout>, size: nat)
    requires forall i | 0 <= i < |ls| :: WfLayout(ls[i])
    ensures |Heads(ls, size)| == HeadsSize(ls)
    decreases ls, 0
  {
    hide WfLayout, Bytes, StaticSize, IsDynamic;
    if ls != [] {
      var n := |ls| - 1;
      HeadsLength(ls[..n], size);
      HeadsSnoc(ls);
      StaticBytes(ls[n]);
    }
  }

  lemma {:induction false} FixedHeads(ls: seq<Layout>, elem: AbiType)
    requires forall i | 0 <= i < |ls| :: ls[i].t == elem
    ensures HeadsSize(ls) == Multiple(|ls|, HeadSize(elem))
  {
    if ls != [] {
      var n := |ls| - 1;
      FixedHeads(ls[..n], elem);
      HeadsSnoc(ls);
    }
  }

  lemma {:induction false} NoTails(ls: seq<Layout>)
    requires forall i | 0 <= i < |ls| :: !IsDynamic(ls[i].t)
    ensures Tails(ls) == []
  {
    if ls != [] {
      NoTails(ls[..|ls| - 1]);
    }
  }

  /** A dynamic component takes a head of 32 bytes. */
  lemma {:induction false} DynamicItem(ls: seq<Layout>, i: nat)
    requires i < |ls| && IsDynamic(ls[i].t)
    ensures HeadsSize(ls) >= 32
  {
    var n := |ls| - 1;
    HeadsSnoc(ls);
    if i < n {
      DynamicItem(ls[..n], i);
    }
  }

  lemma {:induction false} HeadsAtLeast(ls: seq<Layout>)
    requires forall i | 0 <= i < |ls| :: WfLayout(ls[i]) && Sized(ls[i].t)
    ensures HeadsSize(ls) >= 32 * |ls|
  {
    if ls != [] {
      var n := |ls| - 1;
      HeadsAtLeast(ls[..n]);
      HeadsSnoc(ls);
      SizedHead(ls[n].t);
    }
  }

  // ---- where the components are ----

  /** The head of the i-th component. */
  lemma {:induction false} HeadAt(ls: seq<Layout>, size: nat, i: nat)
    requires (forall i | 0 <= i < |ls| :: WfLayout(ls[i])) && i < |ls|
    ensures var at := HeadsSize(ls[..i]); var next := at + HeadSize(ls[i].t);
      next <= |Heads(ls, size)| && Heads(ls, size)[at..next] == HeadOf(ls[i], size + |Tails(ls[..i])|)
    decreases |ls|
  {
    hide WfLayout, HeadOf, HeadSize, Tails, Word32, HeadsSize;
    var n := |ls| - 1;
    HeadsLength(ls[..n], size);
    HeadOfLength(ls[n], size + |Tails(ls[..n])|);
    HeadsUnfold(ls, size);
    var front, last := Heads(ls[..n], size), HeadOf(ls[n], size + |Tails(ls[..n])|);
    if i < n {
      HeadAt(ls[..n], size, i);
      assert ls[..n][..i] == ls[..i];
      var at := HeadsSize(ls[..i]);
      assert (front + last)[at..at + HeadSize(ls[i].t)] == front[at..at + HeadSize(ls[i].t)];
    } else {
      assert (front + last)[|front|..] == last;
    }
  }

  lemma HeadsUnfold(ls: seq<Layout>, size: nat)
    requires ls != []
    ensures var n := |ls| - 1; Heads(ls, size) == Heads(ls[..n], size) + HeadOf(ls[n], size + |Tails(ls[..n])|)
  {
    hide Tails, Word32, Bytes;
  }

  /** The tail of the i-th component. */
  lemma {:induction false} TailAt(ls: seq<Layout>, i: nat)
    requires i < |ls| && IsDynamic(ls[i].t)
    ensures var at := |Tails(ls[..i])|; var next := at + |Bytes(ls[i])|;
      next <= |Tails(ls)| && Tails(ls)[at..next] == Bytes(ls[i])
    decreases |ls|
  {
    hide Bytes;
    var n := |ls| - 1;
    if i < n {
      TailAt(ls[..n], i);
      assert ls[..n][..i] == ls[..i];
    }
  }

  // ---- decoding a layout ----

  /** The bytes s are in the data at a position. */
  predicate Embedded(data: seq<byte>, pos: nat, s: seq<byte>) {
    pos + |s| <= |data| && data[pos..pos + |s|] == s
  }

  lemma EmbeddedPart(data: seq<byte>, pos: nat, s: seq<byte>, from: nat, to: nat)
    requires Embedded(data, pos, s) && from <= to <= |s|
    ensures Embedded(data, pos + from, s[from..to])
  {
    var d := data[pos..pos + |s|];
    forall i | from <= i < to
      ensures data[pos + i] == s[i]
    {
      assert d[i] == data[pos + i];
    }
  }

  lemma EmbeddedConcat(data: seq<byte>, pos: nat, a: seq<byte>, b: seq<byte>)
    requires Embedded(data, pos, a + b)
    ensures Embedded(data, pos, a) && Embedded(data, pos + |a|, b)
  {
    EmbeddedPart(data, pos, a + b, 0, |a|);
    EmbeddedPart(data, pos, a + b, |a|, |a| + |b|);
    assert (a + b)[0..|a|] == a && (a + b)[|a|..|a| + |b|] == b;
  }

  lemma WordEmbedded(data: seq<byte>, pos: nat, n: nat)
    requires Embedded(data, pos, Word32(n)) && n < Modulus()
    ensures WordAt(data, pos) == Some(n)
  {
    WordValue(n);
  }

  /**
   * The decoder does not give up on a layout: each array has no more elements than words follow,
   * nor than the limit, and each offset is less than the length of the data.
   */
  predicate Reach(l: Layout, pos: nat, len: nat)
    decreases l, 1
  {
    match l
    case LWord(_, _) => true
    case LBlob(_, _, _) => true
    case LArray(_, n, items) =>
      && n <= |items| && n <= MAX_ARRAY_LENGTH && 32 * n <= len - pos - 32
      && ReachItems(items, n, pos + 32, len)
    case LTuple(_, items) => ReachItems(items, |items|, pos, len)
  }

  /** The first k components of a tuple. */
  predicate ReachItems(ls: seq<Layout>, k: nat, base: nat, len: nat)
    requires k <= |ls|
    decreases ls, 0, k
  {
    k == 0 || (ReachItems(ls, k - 1, base, len) && ReachItem(ls, k - 1, base, len))
  }

  predicate ReachItem(ls: seq<Layout>, i: nat, base: nat, len: nat)
    requires i < |ls|
    decreases ls, 0, 0
  {
    var offset := OffsetOf(ls, i);
    (IsDynamic(ls[i].t) ==> offset < len) && Reach(ls[i], base + offset, len)
  }

  /** Where a component starts, from the start of the tuple. */
  function OffsetOf(ls: seq<Layout>, i: nat): nat
    requires i < |ls|
  {
    if IsDynamic(ls[i].t) then HeadsSize(ls) + |Tails(ls[..i])| else HeadsSize(ls[..i])
  }

  /** Strict decoding returns the value of a layout within reach, wherever it is in the data, and fails otherwise. */
  lemma {:induction false} DecodesLayout(l: Layout, data: seq<byte>, pos: nat)
    requires WfLayout(l) && Embedded(data, pos, Bytes(l)) && |data| < Modulus()
    ensures Decode(l.t, data, pos) == if Reach(l, pos, |data|) then Some(Shown(l)) else None
    decreases l, 1
  {
    hide Embedded, Word32, Modulus, Heads, Tails, Decode, Shown, DecodeTuple, TupleBytes, ReachItems;
    match l
    case LWord(_, w) =>
      DecodesWord(l, data, pos);
    case LBlob(_, n, bytes) =>
      DecodesBlob(l, data, pos);
    case LArray(t, n, items) =>
      EmbeddedConcat(data, pos, Word32(n), TupleBytes(items));
      WordEmbedded(data, pos, n);
      SameTypes(items, t.elem, n);
      DecodesTuple(items, n, data, pos + 32, Depth(t.elem));
      DecodesArray(l, data, pos);
    case LTuple(t, items) =>
      var n := |items|;
      assert items[..n] == items && Types(items)[..n] == Types(items);
      if t.Fixed? {
        SameTypes(items, t.elem, n);
        DecodesTuple(items, n, data, pos, Depth(t.elem));
      } else {
        assert Types(items) == t.components;
        DecodesTuple(items, n, data, pos, Depths(t.components));
      }
      DecodesItems(l, data, pos);
  }

  lemma DecodesWord(l: Layout, data: seq<byte>, pos: nat)
    requires WfLayout(l) && l.LWord? && Embedded(data, pos, Bytes(l))
    ensures Decode(l.t, data, pos) == Some(Shown(l))
  {
    hide Word32, Modulus, Embedded;
    WordEmbedded(data, pos, l.word);
  }

  lemma SameTypes(ls: seq<Layout>, elem: AbiType, n: nat)
    requires n <= |ls| && forall i | 0 <= i < |ls| :: ls[i].t == elem
    ensures Types(ls)[..n] == Repeated(elem, n)
    ensures forall i | 0 <= i < n :: Types(ls)[..n][i] == elem
  {
  }

  /** The components that are decoded, if they are within reach. */
  function Seen(ls: seq<Layout>, k: nat, base: nat, len: nat): Option<seq<Val>>
    requires k <= |ls| && forall i | 0 <= i < |ls| :: WfLayout(ls[i])
  {
    if ReachItems(ls, k, base, len) then Some(ShownAll(ls[..k])) else None
  }

  lemma DecodesArray(l: Layout, data: seq<byte>, pos: nat)
    requires WfLayout(l) && l.LArray? && WordAt(data, pos) == Some(l.length)
    requires DecodeTuple(Repeated(l.t.elem, l.length), data, pos + 32, Depth(l.t.elem)) ==
             Seen(l.items, l.length, pos + 32, |data|)
    ensures Decode(l.t, data, pos) == if Reach(l, pos, |data|) then Some(Shown(l)) else None
  {
    hide ShownAll, DecodeTuple, ReachItems;
    ShownTake(l.items, l.length);
    WordFits(l.length, |data| - pos - 32);
  }

  lemma WordFits(n: nat, room: nat)
    ensures n <= room / 32 <==> 32 * n <= room
  {
  }

  lemma DecodesItems(l: Layout, data: seq<byte>, pos: nat)
    requires WfLayout(l) && l.LTuple?
    requires var seen := Seen(l.items, |l.items|, pos, |data|);
      && (l.t.Fixed? ==> DecodeTuple(Repeated(l.t.elem, l.t.length), data, pos, Depth(l.t.elem)) == seen)
      && (l.t.Tuple? ==> DecodeTuple(l.t.components, data, pos, Depths(l.t.components)) == seen)
    ensures Decode(l.t, data, pos) == if Reach(l, pos, |data|) then Some(Shown(l)) else None
  {
    hide ShownAll, DecodeTuple, Depths, ReachItems;
    assert l.items[..|l.items|] == l.items;
  }

  lemma DecodesBlob(l: Layout, data: seq<byte>, pos: nat)
    requires WfLayout(l) && l.LBlob? && Embedded(data, pos, Bytes(l))
    ensures Decode(l.t, data, pos) == Some(Shown(l))
  {
    hide Word32, Modulus;
    EmbeddedConcat(data, pos, Word32(l.length), l.bytes);
    WordEmbedded(data, pos, l.length);
    EmbeddedPart(data, pos + 32, l.bytes, 0, l.length);
    assert l.bytes[0..l.length] == l.bytes[..l.length];
  }

  /** The first k components are decoded from the bytes of all of them. */
  lemma {:induction false} DecodesTuple(ls: seq<Layout>, k: nat, data: seq<byte>, base: nat, depth: nat)
    requires (forall i | 0 <= i < |ls| :: WfLayout(ls[i])) && k <= |ls|
    requires forall i | 0 <= i < k :: Depth(Types(ls)[..k][i]) <= depth
    requires Embedded(data, base, TupleBytes(ls)) && |data| < Modulus()
    ensures DecodeTuple(Types(ls)[..k], data, base, depth) == Seen(ls, k, base, |data|)
    decreases ls, 0, k
  {
    hide Embedded, Word32, Modulus, Heads, Tails, WfLayout, Bytes, Decode, TupleBytes, ReachItem;
    var ts := Types(ls)[..k];
    if k > 0 {
      var n := k - 1;
      assert ts[..n] == Types(ls)[..n] && ls[..k][..n] == ls[..n];
      assert forall i | 0 <= i < n :: Types(ls)[..n][i] == Types(ls)[..k][i];
      DecodesTuple(ls, n, data, base, depth);
      assert Types(ls)[..n] == Types(ls[..n]);
      assert Types(ls)[..k][n] == ls[n].t;
      DecodesItem(ls, n, data, base, depth);
      assert ts[n] == ls[n].t && ls[..k][n] == ls[n];
      assert HeadSizes(ts[..n]) == HeadsSize(ls[..n]);
    }
  }

  lemma {:induction false} DecodesItem(ls: seq<Layout>, i: nat, data: seq<byte>, base: nat, depth: nat)
    requires (forall i | 0 <= i < |ls| :: WfLayout(ls[i])) && i < |ls| && Depth(ls[i].t) <= depth
    requires Embedded(data, base, TupleBytes(ls)) && |data| < Modulus()
    ensures DecodeItem(ls[i].t, data, base, base + HeadsSize(ls[..i]), depth) ==
            if ReachItem(ls, i, base, |data|) then Some(Shown(ls[i])) else None
    decreases ls, 0, 0
  {
    hide Embedded, Word32, Modulus, Heads, Tails, WfLayout, Bytes, Decode, Reach, HeadSize, IsDynamic;
    var at := HeadsSize(ls[..i]);
    ItemEmbedded(ls, i, data, base);
    DecodesLayout(ls[i], data, base + OffsetOf(ls, i));
    if IsDynamic(ls[i].t) {
      EmbeddedBound(data, base + OffsetOf(ls, i), Bytes(ls[i]));
      WordEmbedded(data, base + at, OffsetOf(ls, i));
    }
  }

  /** The head of a component is in the data. */
  lemma HeadEmbedded(ls: seq<Layout>, i: nat, data: seq<byte>, base: nat)
    requires (forall i | 0 <= i < |ls| :: WfLayout(ls[i])) && i < |ls| && Embedded(data, base, TupleBytes(ls))
    ensures Embedded(data, base + HeadsSize(ls[..i]), HeadOf(ls[i], HeadsSize(ls) + |Tails(ls[..i])|))
  {
    hide Embedded, Word32, Heads, Tails, WfLayout, Bytes, HeadSize, IsDynamic, HeadsSize, HeadOf;
    var size, at := HeadsSize(ls), HeadsSize(ls[..i]);
    EmbeddedConcat(data, base, Heads(ls, size), Tails(ls));
    HeadAt(ls, size, i);
    EmbeddedPart(data, base, Heads(ls, size), at, at + HeadSize(ls[i].t));
  }

  /** The bytes of a component are in the data, and so is the head of a dynamic one. */
  lemma ItemEmbedded(ls: seq<Layout>, i: nat, data: seq<byte>, base: nat)
    requires (forall i | 0 <= i < |ls| :: WfLayout(ls[i])) && i < |ls| && Embedded(data, base, TupleBytes(ls))
    ensures Embedded(data, base + OffsetOf(ls, i), Bytes(ls[i]))
    ensures IsDynamic(ls[i].t) ==> Embedded(data, base + HeadsSize(ls[..i]), Word32(OffsetOf(ls, i)))
  {
    hide Embedded, Word32, Heads, Tails, WfLayout, Bytes, IsDynamic, HeadsSize;
    HeadEmbedded(ls, i, data, base);
    if IsDynamic(ls[i].t) {
      var size, tail := HeadsSize(ls), |Tails(ls[..i])|;
      EmbeddedConcat(data, base, Heads(ls, size), Tails(ls));
      HeadsLength(ls, size);
      TailAt(ls, i);
      EmbeddedPart(data, base + size, Tails(ls), tail, tail + |Bytes(ls[i])|);
      assert base + OffsetOf(ls, i) == base + size + tail;
    }
  }

  lemma EmbeddedBound(data: seq<byte>, pos: nat, s: seq<byte>)
    requires Embedded(data, pos, s)
    ensures pos + |s| <= |data|
  {
  }

  // ---- layouts without zero-sized parts ----

  /** No array selects more elements than the limit. */
  predicate ShortLayout(l: Layout) {
    match l
    case LWord(_, _) => true
    case LBlob(_, _, _) => true
    case LArray(_, n, items) => n <= MAX_ARRAY_LENGTH && forall i | 0 <= i < |items| :: ShortLayout(items[i])
    case LTuple(_, items) => forall i | 0 <= i < |items| :: ShortLayout(items[i])
  }

  predicate ShortEach(ls: seq<Layout>) {
    forall i | 0 <= i < |ls| :: WfLayout(ls[i]) && Sized(ls[i].t) && ShortLayout(ls[i])
  }

  /** They are within reach wherever they fit. */
  lemma {:induction false} SizedReach(l: Layout, pos: nat, len: nat)
    requires WfLayout(l) && Sized(l.t) && ShortLayout(l) && pos + |Bytes(l)| <= len
    ensures Reach(l, pos, len)
    decreases l, 1
  {
    hide Heads, Tails, Word32, ReachItems;
    match l
    case LWord(_, _) =>
    case LBlob(_, _, _) =>
    case LArray(_, n, items) =>
      HeadsAtLeast(items);
      HeadsLength(items, HeadsSize(items));
      SizedReachItems(items, n, pos + 32, len);
    case LTuple(_, items) =>
      SizedReachItems(items, |items|, pos, len);
  }

  lemma {:induction false} SizedReachItems(ls: seq<Layout>, k: nat, base: nat, len: nat)
    requires k <= |ls| && ShortEach(ls) && base + |TupleBytes(ls)| <= len
    ensures ReachItems(ls, k, base, len)
    decreases ls, 0, k
  {
    hide Heads, Tails, TupleBytes, ShortEach, ReachItem, Reach, OffsetOf;
    if k > 0 {
      SizedReachItems(ls, k - 1, base, len);
      assert WfLayout(ls[k - 1]) && Sized(ls[k - 1].t) && ShortLayout(ls[k - 1]) by {
        ShortAt(ls, k - 1);
      }
      ItemFits(ls, k - 1);
      SizedReach(ls[k - 1], base + OffsetOf(ls, k - 1), len);
      SizedReachItem(ls, k - 1, base, len);
    }
  }

  lemma ShortAt(ls: seq<Layout>, i: nat)
    requires ShortEach(ls) && i < |ls|
    ensures WfLayout(ls[i]) && Sized(ls[i].t) && ShortLayout(ls[i])
  {
    hide WfLayout, Sized, ShortLayout;
  }

  lemma SizedReachItem(ls: seq<Layout>, i: nat, base: nat, len: nat)
    requires i < |ls| && WfLayout(ls[i]) && Sized(ls[i].t) && Reach(ls[i], base + OffsetOf(ls, i), len)
    requires base + OffsetOf(ls, i) + |Bytes(ls[i])| <= len
    ensures ReachItem(ls, i, base, len)
  {
    hide Reach, OffsetOf, WfLayout, Sized, Bytes, IsDynamic;
    if IsDynamic(ls[i].t) {
      DynamicBytes(ls[i]);
    }
  }

  /** A component is inside the bytes of its tuple. */
  lemma ItemFits(ls: seq<Layout>, i: nat)
    requires ShortEach(ls) && i < |ls|
    ensures OffsetOf(ls, i) + |Bytes(ls[i])| <= |TupleBytes(ls)|
  {
    hide WfLayout, Sized, ShortLayout, Embedded, Bytes, OffsetOf;
    var s := TupleBytes(ls);
    assert Embedded(s, 0, s) by {
      Whole(s);
    }
    ItemEmbedded(ls, i, s, 0);
    EmbeddedBound(s, OffsetOf(ls, i), Bytes(ls[i]));
  }

  lemma Whole(s: seq<byte>)
    ensures Embedded(s, 0, s)
  {
    assert s[0..|s|] == s;
  }

  // ---- ordinary encodings ----

  /** As many zeros as the next word boundary is away. */
  function Padding(n: nat): (s: seq<byte>)
    ensures |s| < 32 && (n + |s|) % 32 == 0 && forall i | 0 <= i < |s| :: s[i] == 0
  {
    Zeros((32 - n % 32) % 32)
  }

  function Encode(v: Val): seq<byte>
    decreases v, 1
  {
    match v
    case Word(_, w) => Word32(w % Modulus())
    case Blob(_, data) => Word32(|data|) + data + Padding(|data|)
    case Items(t, vs) => (if t.Array? then Word32(|vs|) else []) + EncodeTuple(vs)
  }

  function EncodeTuple(vs: seq<Val>): seq<byte>
    decreases vs, 3
  {
    EncodeHeads(vs, HeadSizes(TypesOf(vs))) + EncodeTails(vs)
  }

  /** head(X(i)) is the encoding, or the offset of the tail. */
  function EncodeHeads(vs: seq<Val>, size: nat): seq<byte>
    decreases vs, 2
  {
    if vs == [] then [] else
    var n := |vs| - 1;
    EncodeHeads(vs[..n], size) +
    if IsDynamic(vs[n].t) then Word32(size + |EncodeTails(vs[..n])|) else Encode(vs[n])
  }

  /** tail(X(i)) is the encoding of a dynamic component. */
  function EncodeTails(vs: seq<Val>): seq<byte>
    decreases vs, 1
  {
    if vs == [] then [] else
    var n := |vs| - 1;
    EncodeTails(vs[..n]) + if IsDynamic(vs[n].t) then Encode(vs[n]) else []
  }

  /** Encodings are words. */
  lemma {:induction false} EncodeWords(v: Val)
    ensures |Encode(v)| % 32 == 0
    decreases v, 1
  {
    hide Word32, Padding, IsDynamic, HeadSizes, EncodeHeads, EncodeTails;
    match v
    case Word(_, _) =>
    case Blob(_, _) =>
    case Items(_, vs) => EncodeTupleWords(vs, HeadSizes(TypesOf(vs)));
  }

  lemma {:induction false} EncodeTupleWords(vs: seq<Val>, size: nat)
    ensures |EncodeHeads(vs, size)| % 32 == 0 && |EncodeTails(vs)| % 32 == 0
    decreases vs, 0
  {
    hide Word32, Padding, IsDynamic, Encode;
    if vs != [] {
      EncodeTupleWords(vs[..|vs| - 1], size);
      EncodeWords(vs[|vs| - 1]);
    }
  }

  method EncodeValue(v: Val) returns (s: seq<byte>)
    requires WfVal(v)
    ensures s == Encode(v)
    decreases v, 1
  {
    match v
    case Word(_, w) => s := Word32(w % Modulus());
    case Blob(_, data) => s := Word32(|data|) + data + Padding(|data|);
    case Items(t, vs) =>
      var items := EncodeItems(vs);
      s := (if t.Array? then Word32(|vs|) else []) + items;
  }

  method EncodeItems(items: seq<Val>) returns (s: seq<byte>)
    requires forall i | 0 <= i < |items| :: WfVal(items[i])
    ensures s == EncodeTuple(items)
    decreases items, 0
  {
    hide Encode, EncodeHeads, EncodeTails, Word32, HeadSizes, WfVal, IsDynamic;
    var headSize := HeadSizes(TypesOf(items));
    var heads: seq<byte>, tails: seq<byte>, tailSize := [], [], 0;
    EncodeNone(headSize);
    for i := 0 to |items|
      invariant heads == EncodeHeads(items[..i], headSize)
      invariant tails == EncodeTails(items[..i]) && tailSize == |tails|
    {
      EncodeNext(items, i, headSize);
      var encoded := EncodeValue(items[i]);
      if IsDynamic(items[i].t) {
        heads := heads + Word32(headSize + tailSize);
        tails := tails + encoded;
        tailSize := tailSize + |encoded|;
      } else {
        heads := heads + encoded;
      }
    }
    assert items[..|items|] == items;
    s := heads + tails;
  }

  lemma EncodeNone(size: nat)
    ensures EncodeHeads([], size) == [] && EncodeTails([]) == []
  {
  }

  lemma EncodeNext(vs: seq<Val>, i: nat, size: nat)
    requires i < |vs|
    ensures EncodeHeads(vs[..i + 1], size) == EncodeHeads(vs[..i], size) +
              if IsDynamic(vs[i].t) then Word32(size + |EncodeTails(vs[..i])|) else Encode(vs[i])
    ensures EncodeTails(vs[..i + 1]) == EncodeTails(vs[..i]) + if IsDynamic(vs[i].t) then Encode(vs[i]) else []
  {
    hide Encode, Word32, IsDynamic;
    assert vs[..i + 1][..i] == vs[..i];
  }

  /** A value as a layout without surplus. */
  function Exact(v: Val): (l: Layout)
    ensures l.t == v.t
    decreases v, 1
  {
    match v
    case Word(t, w) => LWord(t, w)
    case Blob(t, data) => LBlob(t, |data|, data + Padding(|data|))
    case Items(t, vs) => if t.Array? then LArray(t, |vs|, ExactAll(vs)) else LTuple(t, ExactAll(vs))
  }

  function ExactAll(vs: seq<Val>): (ls: seq<Layout>)
    ensures |ls| == |vs| && forall i | 0 <= i < |vs| :: ls[i].t == vs[i].t
    decreases vs, 0
  {
    if vs == [] then [] else
    assert vs == vs[..|vs| - 1] + [vs[|vs| - 1]];
    ExactAll(vs[..|vs| - 1]) + [Exact(vs[|vs| - 1])]
  }

  /** All lengths fit in a word. */
  predicate Encodable(v: Val) {
    match v
    case Word(_, _) => true
    case Blob(_, data) => |data| < Modulus()
    case Items(t, vs) => (t.Array? ==> |vs| < Modulus()) && forall i | 0 <= i < |vs| :: Encodable(vs[i])
  }

  lemma {:induction false} ExactMeans(v: Val)
    requires WfVal(v) && Encodable(v)
    ensures WfLayout(Exact(v)) && Shown(Exact(v)) == v && Bytes(Exact(v)) == Encode(v)
    decreases v, 1
  {
    hide Word32, Modulus, Heads, Tails, Shown, WfLayout, Encode, Bytes, Exact, ExactAll;
    match v
    case Word(_, w) => ExactWord(v);
    case Blob(t, data) => ExactBlob(v);
    case Items(t, vs) =>
      ExactAllMeans(vs, HeadSizes(TypesOf(vs)));
      ExactItems(v);
  }

  lemma ExactWord(v: Val)
    requires WfVal(v) && v.Word?
    ensures WfLayout(Exact(v)) && Shown(Exact(v)) == v && Bytes(Exact(v)) == Encode(v)
  {
    hide Word32, Modulus;
    Reduced(v.word);
  }

  lemma ExactBlob(v: Val)
    requires WfVal(v) && v.Blob? && Encodable(v)
    ensures WfLayout(Exact(v)) && Shown(Exact(v)) == v && Bytes(Exact(v)) == Encode(v)
  {
    hide Word32, Modulus;
    var data := v.data;
    assert (data + Padding(|data|))[..|data|] == data;
    assert Word32(|data|) + (data + Padding(|data|)) == Word32(|data|) + data + Padding(|data|);
  }

  lemma ExactItems(v: Val)
    requires WfVal(v) && v.Items? && Encodable(v)
    requires var ls := ExactAll(v.items); var size := HeadSizes(TypesOf(v.items));
      && (forall i | 0 <= i < |ls| :: WfLayout(ls[i]))
      && ShownAll(ls) == v.items
      && Tails(ls) == EncodeTails(v.items)
      && Heads(ls, size) == EncodeHeads(v.items, size)
    ensures WfLayout(Exact(v)) && Shown(Exact(v)) == v && Bytes(Exact(v)) == Encode(v)
  {
    hide Word32, Modulus, Heads, Tails, EncodeHeads, EncodeTails, ShownAll, ExactAll, HeadSizes, IsDynamic, StaticSize;
    var ls, vs := ExactAll(v.items), v.items;
    assert Types(ls) == TypesOf(vs);
    assert ShownAll(ls)[..|vs|] == vs;
    assert [] + EncodeTuple(vs) == EncodeTuple(vs);
  }

  lemma Reduced(w: nat)
    requires w < Modulus()
    ensures w % Modulus() == w
  {
    hide Pow256;
  }

  lemma {:induction false} ExactAllMeans(vs: seq<Val>, size: nat)
    requires forall i | 0 <= i < |vs| :: WfVal(vs[i]) && Encodable(vs[i])
    ensures var ls := ExactAll(vs);
      && (forall i | 0 <= i < |ls| :: WfLayout(ls[i]))
      && ShownAll(ls) == vs
      && Tails(ls) == EncodeTails(vs)
      && Heads(ls, size) == EncodeHeads(vs, size)
    decreases vs, 0
  {
    hide Word32, Modulus, WfVal, Encodable, WfLayout, Bytes, Shown, Encode, Exact, IsDynamic;
    if vs != [] {
      var n := |vs| - 1;
      ExactAllMeans(vs[..n], size);
      ExactMeans(vs[n]);
      ExactAllStep(vs, size);
    }
  }

  lemma ExactAllStep(vs: seq<Val>, size: nat)
    requires vs != []
    requires var n := |vs| - 1; var ls := ExactAll(vs[..n]);
      && (forall i | 0 <= i < |ls| :: WfLayout(ls[i]))
      && ShownAll(ls) == vs[..n]
      && Tails(ls) == EncodeTails(vs[..n])
      && Heads(ls, size) == EncodeHeads(vs[..n], size)
      && WfLayout(Exact(vs[n])) && Shown(Exact(vs[n])) == vs[n] && Bytes(Exact(vs[n])) == Encode(vs[n])
    ensures var ls := ExactAll(vs);
      && (forall i | 0 <= i < |ls| :: WfLayout(ls[i]))
      && ShownAll(ls) == vs
      && Tails(ls) == EncodeTails(vs)
      && Heads(ls, size) == EncodeHeads(vs, size)
  {
    hide Word32, WfLayout, Bytes, Shown, Encode, Exact, IsDynamic;
    var n := |vs| - 1;
    var ls := ExactAll(vs);
    assert ls == ExactAll(vs[..n]) + [Exact(vs[n])];
    assert ls[..n] == ExactAll(vs[..n]) && ls[n] == Exact(vs[n]);
    assert vs == vs[..n] + [vs[n]];
  }

  /**
   * Decoding what was encoded, at any offset inside larger data: it returns the value exactly if
   * the decoder does not give up on an array or an offset.
   */
  lemma DecodesEncoding(v: Val, before: seq<byte>, after: seq<byte>)
    requires WfVal(v) && Encodable(v) && |before + Encode(v) + after| < Modulus()
    ensures var data := before + Encode(v) + after;
      Decode(v.t, data, |before|) == if Reach(Exact(v), |before|, |data|) then Some(v) else None
  {
    hide Word32, Modulus, WfVal, Encodable, WfLayout, Bytes, Shown, Encode, Exact, Decode, Reach;
    ExactMeans(v);
    var data := before + Encode(v) + after;
    assert data[|before|..|before| + |Encode(v)|] == Encode(v);
    DecodesLayout(Exact(v), data, |before|);
  }

  /** It always does without zero-sized components, with arrays up to the limit. */
  lemma RoundTrip(v: Val, before: seq<byte>, after: seq<byte>)
    requires WfVal(v) && Sized(v.t) && Short(v)
    requires |before + Encode(v) + after| < Modulus()
    ensures Decode(v.t, before + Encode(v) + after, |before|) == Some(v)
  {
    hide Word32, Modulus, WfVal, Sized, Short, Encodable, WfLayout, ShortLayout, Bytes, Shown, Encode, Exact, Decode,
         Reach;
    EncodableBySize(v, |before + Encode(v) + after|);
    ExactMeans(v);
    ExactShort(v);
    SizedReach(Exact(v), |before|, |before + Encode(v) + after|);
    DecodesEncoding(v, before, after);
  }

  lemma {:induction false} ExactShort(v: Val)
    requires Short(v)
    ensures ShortLayout(Exact(v))
    decreases v, 1
  {
    hide Padding, ExactAll;
    if v.Items? {
      ExactAllShort(v.items);
    }
  }

  lemma {:induction false} ExactAllShort(vs: seq<Val>)
    requires forall i | 0 <= i < |vs| :: Short(vs[i])
    ensures forall i | 0 <= i < |vs| :: ShortLayout(ExactAll(vs)[i])
    decreases vs, 0
  {
    hide Short, ShortLayout, Exact;
    if vs != [] {
      var n := |vs| - 1;
      ExactAllShort(vs[..n]);
      ExactShort(vs[n]);
    }
  }

  /** A value whose encoding fits has lengths that fit. */
  lemma {:induction false} EncodableBySize(v: Val, size: nat)
    requires WfVal(v) && Short(v) && |Encode(v)| <= size < Modulus()
    ensures Encodable(v)
    decreases v, 1
  {
    hide Word32, Modulus;
    match v
    case Word(_, _) =>
    case Blob(_, _) =>
    case Items(t, vs) =>
      ModulusIsLarge();
      forall i | 0 <= i < |vs|
        ensures Encodable(vs[i])
      {
        PartSize(vs, HeadSizes(TypesOf(vs)), i);
        EncodableBySize(vs[i], size);
      }
  }

  lemma {:induction false} PartSize(vs: seq<Val>, size: nat, i: nat)
    requires i < |vs|
    ensures |Encode(vs[i])| <= |EncodeHeads(vs, size)| + |EncodeTails(vs)|
  {
    hide Encode, Word32;
    var n := |vs| - 1;
    if i < n {
      PartSize(vs[..n], size, i);
    }
  }

  // ---- zero-sized components ----

  function Empty(): Val {
    Items(Tuple([]), [])
  }

  /** An array of n empty tuples. */
  function Empties(n: nat): Val {
    Items(Array(Tuple([])), seq(n, i => Empty()))
  }

  function NoBlob(): Val {
    Items(Fixed(Dynamic(false), 0), [])
  }

  /** The tuple of bytes[0]. */
  function NoBlobs(): Val {
    Items(Tuple([Fixed(Dynamic(false), 0)]), [NoBlob()])
  }

  /** Static components of size zero have no bytes at all. */
  lemma NoBytes(ls: seq<Layout>)
    requires forall i | 0 <= i < |ls| :: WfLayout(ls[i]) && ls[i].t == Tuple([])
    ensures TupleBytes(ls) == []
  {
    hide WfLayout;
    assert !IsDynamic(Tuple([])) && HeadSize(Tuple([])) == 0;
    HeadsLength(ls, HeadsSize(ls));
    FixedHeads(ls, Tuple([]));
    NoTails(ls);
    MultipleOfZero(|ls|);
  }

  lemma {:induction false} MultipleOfZero(n: nat)
    ensures Multiple(n, 0) == 0
  {
    if n > 0 {
      MultipleOfZero(n - 1);
    }
  }

  lemma EmptiesMean(n: nat)
    requires 0 < n < Modulus()
    ensures var v := Empties(n);
      WfVal(v) && Encodable(v) && |Encode(v)| == 32 && !Reach(Exact(v), 0, 32)
  {
    hide Modulus, Word32, Bytes, Encode, ExactAll, TupleBytes, ReachItems;
    var v := Empties(n);
    assert forall i | 0 <= i < n :: WfVal(v.items[i]) && Encodable(v.items[i]);
    ExactMeans(v);
    EmptiesBytes(v, Exact(v).items);
  }

  lemma EmptiesBytes(v: Val, ls: seq<Layout>)
    requires Exact(v) == LArray(v.t, |ls|, ls) && v.t == Array(Tuple([])) && WfLayout(Exact(v))
    ensures |Bytes(Exact(v))| == 32
  {
    hide Modulus, Word32, TupleBytes, ExactAll;
    NoBytes(ls);
  }

  lemma NoBlobsMeans()
    ensures var v := NoBlobs();
      WfVal(v) && Encodable(v) && |Encode(v)| == 32 && !Reach(Exact(v), 0, 32)
  {
    hide Modulus, Word32, Encode, TupleBytes, ReachItems, WfLayout, Exact;
    var v, l := NoBlobs(), Exact(NoBlob());
    assert WfVal(NoBlob()) && Encodable(NoBlob());
    ExactMeans(v);
    ExactNoBlobs();
    NoBlobLayout(l);
  }

  lemma ExactNoBlobs()
    ensures Exact(NoBlobs()) == LTuple(NoBlobs().t, [Exact(NoBlob())])
    ensures Exact(NoBlob()) == LTuple(NoBlob().t, [])
  {
    assert [NoBlob()][..0] == [];
    assert ExactAll([NoBlob()]) == [Exact(NoBlob())];
  }

  lemma NoBlobLayout(l: Layout)
    requires l == LTuple(Fixed(Dynamic(false), 0), [])
    ensures |TupleBytes([l])| == 32 && !ReachItems([l], 1, 0, 32)
  {
    hide Word32, Reach;
    assert IsDynamic(l.t) && [l][..0] == [];
    HeadsSnoc([l]);
    assert HeadsSize([]) == 0 && HeadsSize([l]) == 32;
    HeadsLength([l], 32);
    assert Heads([], 0) == [] && Tails([]) == [];
    assert Bytes(l) == [] && Tails([l]) == Tails([]) + Bytes(l);
    assert OffsetOf([l], 0) == 32;
    assert !ReachItem([l], 0, 0, 32);
  }

  /** Without trailing data the round trip fails for an array of empty tuples, and for the tuple of bytes[0]. */
  lemma ZeroSizedFails(n: nat)
    requires 0 < n < Modulus()
    ensures Decode(Array(Tuple([])), Encode(Empties(n)), 0) == None
    ensures Decode(NoBlobs().t, Encode(NoBlobs()), 0) == None
  {
    hide Modulus, Word32, Encode, Exact, Reach, Decode;
    ModulusIsLarge();
    EmptiesMean(n);
    DecodesAlone(Empties(n));
    NoBlobsMeans();
    DecodesAlone(NoBlobs());
  }

  lemma DecodesAlone(v: Val)
    requires WfVal(v) && Encodable(v) && |Encode(v)| < Modulus()
    ensures Decode(v.t, Encode(v), 0) == if Reach(Exact(v), 0, |Encode(v)|) then Some(v) else None
  {
    hide Modulus, WfVal, Encodable, Encode, Exact, Reach, Decode;
    assert [] + Encode(v) + [] == Encode(v);
    DecodesEncoding(v, [], []);
  }
}
