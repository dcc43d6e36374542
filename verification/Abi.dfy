// Strict decoding, after the Solidity ABI Specification.
module Abi {
  import opened Options
  import opened Chunks
  import opened Words32

  const MAX_ARRAY_LENGTH: nat := 4096

  // ---- types ----

  datatype AbiType =
    | Base(abi: string)          // uintN, intN, address, bool, bytesN
    | Dynamic(isString: bool)    // bytes, string
    | Array(elem: AbiType)       // T[]
    | Fixed(elem: AbiType, length: nat)
    | Tuple(components: seq<AbiType>)

  predicate IsDynamic(t: AbiType) {
    match t
    case Base(_) => false
    case Dynamic(_) => true
    case Array(_) => true
    case Fixed(elem, _) => IsDynamic(elem)
    case Tuple(ts) => exists i :: 0 <= i < |ts| && IsDynamic(ts[i])
  }

  function StaticSize(t: AbiType): nat
    decreases t, 0
  {
    match t
    case Fixed(elem, n) => Multiple(n, StaticSize(elem))
    case Tuple(ts) => HeadSizes(ts)
    case _ => 32
  }

  function HeadSize(t: AbiType): nat
    decreases t, 1
  {
    if IsDynamic(t) then 32 else StaticSize(t)
  }

  function HeadSizes(ts: seq<AbiType>): nat
    decreases ts
  {
    if ts == [] then 0 else HeadSizes(ts[..|ts| - 1]) + HeadSize(ts[|ts| - 1])
  }

  function Multiple(n: nat, k: nat): nat {
    if n == 0 then 0 else Multiple(n - 1, k) + k
  }

  /** Nothing takes zero bytes: no T[0] and no empty tuple inside. */
  predicate Sized(t: AbiType) {
    match t
    case Base(_) => true
    case Dynamic(_) => true
    case Array(elem) => Sized(elem)
    case Fixed(elem, n) => Sized(elem) && n > 0
    case Tuple(ts) => ts != [] && forall i | 0 <= i < |ts| :: Sized(ts[i])
  }

  lemma {:induction false} SizedHead(t: AbiType)
    requires Sized(t)
    ensures HeadSize(t) >= 32
    decreases t
  {
    match t
    case Base(_) =>
    case Dynamic(_) =>
    case Array(_) =>
    case Fixed(elem, n) =>
      SizedHead(elem);
    case Tuple(ts) =>
      assert HeadSizes(ts) == HeadSizes(ts[..|ts| - 1]) + HeadSize(ts[|ts| - 1]);
      SizedHead(ts[|ts| - 1]);
  }

  function Repeated(t: AbiType, n: nat): (ts: seq<AbiType>)
    ensures |ts| == n
  {
    seq(n, i => t)
  }

  function Depth(t: AbiType): nat
    decreases t
  {
    match t
    case Base(_) => 0
    case Dynamic(_) => 0
    case Array(elem) => 1 + Depth(elem)
    case Fixed(elem, _) => 1 + Depth(elem)
    case Tuple(ts) => 1 + Depths(ts)
  }

  function Depths(ts: seq<AbiType>): (d: nat)
    ensures forall i | 0 <= i < |ts| :: Depth(ts[i]) <= d
    decreases ts
  {
    if ts == [] then 0 else
    assert ts == ts[..|ts| - 1] + [ts[|ts| - 1]];
    var d, e := Depths(ts[..|ts| - 1]), Depth(ts[|ts| - 1]);
    if d < e then e else d
  }

  // ---- values ----

  datatype Val =
    | Word(t: AbiType, word: nat)
    | Blob(t: AbiType, data: seq<byte>)
    | Items(t: AbiType, items: seq<Val>)

  function TypesOf(vs: seq<Val>): (ts: seq<AbiType>)
    ensures |ts| == |vs|
  {
    seq(|vs|, i requires 0 <= i < |vs| => vs[i].t)
  }

  predicate WfVal(v: Val) {
    match v
    case Word(t, w) => t.Base? && w < Modulus()
    case Blob(t, _) => t.Dynamic?
    case Items(t, vs) =>
      && (forall i | 0 <= i < |vs| :: WfVal(vs[i]))
      && match t
         case Array(elem) => forall i | 0 <= i < |vs| :: vs[i].t == elem
         case Fixed(elem, n) => |vs| == n && forall i | 0 <= i < |vs| :: vs[i].t == elem
         case Tuple(ts) => |vs| == |ts| && forall i | 0 <= i < |vs| :: vs[i].t == ts[i]
         case _ => false
  }

  // ---- decoding ----

  function WordAt(data: seq<byte>, pos: nat): Option<nat> {
    if pos + 32 > |data| then None else Some(FromBytes(data[pos..pos + 32]))
  }

  /** The value of type t encoded at a position; None stands for a decoding error. */
  function Decode(t: AbiType, data: seq<byte>, pos: nat): Option<Val>
    decreases Depth(t), 0, 1
  {
    match t
    case Base(_) =>
      (match WordAt(data, pos) case Some(w) => Some(Word(t, w)) case None => None)
    case Dynamic(_) =>
      (match WordAt(data, pos)
       case Some(n) => if pos + 32 + n > |data| then None else Some(Blob(t, data[pos + 32..pos + 32 + n]))
       case None => None)
    case Array(elem) =>
      (match WordAt(data, pos)
       case Some(n) =>
         if n > (|data| - pos - 32) / 32 || n > MAX_ARRAY_LENGTH then None
         else WithType(t, DecodeTuple(Repeated(elem, n), data, pos + 32, Depth(elem)))
       case None => None)
    case Fixed(elem, n) => WithType(t, DecodeTuple(Repeated(elem, n), data, pos, Depth(elem)))
    case Tuple(ts) => WithType(t, DecodeTuple(ts, data, pos, Depths(ts)))
  }

  function WithType(t: AbiType, items: Option<seq<Val>>): Option<Val> {
    if items.Some? then Some(Items(t, items.value)) else None
  }

  function DecodeTuple(ts: seq<AbiType>, data: seq<byte>, base: nat, ghost depth: nat): (r: Option<seq<Val>>)
    requires forall i | 0 <= i < |ts| :: Depth(ts[i]) <= depth
    ensures r.Some? ==> |r.value| == |ts|
    decreases depth, 1, |ts|
  {
    if ts == [] then Some([]) else
    var n := |ts| - 1;
    match DecodeTuple(ts[..n], data, base, depth)
    case None => None
    case Some(vs) =>
      (match DecodeItem(ts[n], data, base, base + HeadSizes(ts[..n]), depth)
       case None => None
       case Some(v) => Some(vs + [v]))
  }

  /** One component: in place, or where its head points to. */
  function DecodeItem(t: AbiType, data: seq<byte>, base: nat, head: nat, ghost depth: nat): Option<Val>
    requires Depth(t) <= depth
    decreases depth, 1, 0
  {
    if !IsDynamic(t) then Decode(t, data, head) else
    match WordAt(data, head)
    case None => None
    case Some(offset) => if offset >= |data| then None else Decode(t, data, base + offset)
  }

  method DecodeValue(t: AbiType, data: seq<byte>, pos: nat) returns (v: Option<Val>)
    ensures v == Decode(t, data, pos)
    decreases Depth(t), 0, 1
  {
    match t
    case Base(_) =>
      var w := WordAt(data, pos);
      v := if w.Some? then Some(Word(t, w.value)) else None;
    case Dynamic(_) =>
      var n := WordAt(data, pos);
      if n.None? || pos + 32 + n.value > |data| {
        return None;
      }
      v := Some(Blob(t, data[pos + 32..pos + 32 + n.value]));
    case Array(elem) =>
      var n := WordAt(data, pos);
      if n.None? || n.value > (|data| - pos - 32) / 32 || n.value > MAX_ARRAY_LENGTH {
        return None;
      }
      var items := DecodeItems(Repeated(elem, n.value), data, pos + 32, Depth(elem));
      v := WithType(t, items);
    case Fixed(elem, n) =>
      var items := DecodeItems(Repeated(elem, n), data, pos, Depth(elem));
      v := WithType(t, items);
    case Tuple(ts) =>
      var items := DecodeItems(ts, data, pos, Depths(ts));
      v := WithType(t, items);
  }

  method DecodeItems(ts: seq<AbiType>, data: seq<byte>, base: nat, ghost depth: nat) returns (r: Option<seq<Val>>)
    requires forall i | 0 <= i < |ts| :: Depth(ts[i]) <= depth
    ensures r == DecodeTuple(ts, data, base, depth)
    decreases depth, 1, 0
  {
    var items: seq<Val> := [];
    var head := base;
    for i := 0 to |ts|
      invariant DecodeTuple(ts[..i], data, base, depth) == Some(items)
      invariant head == base + HeadSizes(ts[..i])
    {
      assert ts[..i + 1][..i] == ts[..i];
      ghost var rest := DecodeItem(ts[i], data, base, head, depth);
      var v: Option<Val>;
      if IsDynamic(ts[i]) {
        var offset := WordAt(data, head);
        if offset.None? || offset.value >= |data| {
          Fails(ts, data, base, depth, i);
          return None;
        }
        v := DecodeValue(ts[i], data, base + offset.value);
      } else {
        v := DecodeValue(ts[i], data, head);
      }
      if v.None? {
        Fails(ts, data, base, depth, i);
        return None;
      }
      items := items + [v.value];
      head := head + HeadSize(ts[i]);
    }
    assert ts[..|ts|] == ts;
    r := Some(items);
  }

  /** One component that cannot be decoded makes the whole fail. */
  lemma {:induction false} Fails(ts: seq<AbiType>, data: seq<byte>, base: nat, depth: nat, i: nat)
    requires forall i | 0 <= i < |ts| :: Depth(ts[i]) <= depth
    requires i < |ts| && DecodeItem(ts[i], data, base, base + HeadSizes(ts[..i]), depth).None?
    ensures DecodeTuple(ts, data, base, depth).None?
    decreases |ts|
  {
    var n := |ts| - 1;
    if i < n {
      assert ts[..n][..i] == ts[..i];
      Fails(ts[..n], data, base, depth, i);
    }
  }

  /** Decoded values have the type asked for, and no array is too long. */
  lemma {:induction false} DecodeWf(t: AbiType, data: seq<byte>, pos: nat)
    requires Decode(t, data, pos).Some?
    ensures var v := Decode(t, data, pos).value; v.t == t && WfVal(v) && Short(v)
    decreases Depth(t), 0, 1
  {
    match t
    case Base(_) => FromBytesBound(data[pos..pos + 32]);
    case Dynamic(_) =>
    case Array(elem) =>
      var n := WordAt(data, pos).value;
      DecodeTupleWf(Repeated(elem, n), data, pos + 32, Depth(elem));
    case Fixed(elem, n) => DecodeTupleWf(Repeated(elem, n), data, pos, Depth(elem));
    case Tuple(ts) => DecodeTupleWf(ts, data, pos, Depths(ts));
  }

  lemma {:induction false} DecodeTupleWf(ts: seq<AbiType>, data: seq<byte>, base: nat, depth: nat)
    requires forall i | 0 <= i < |ts| :: Depth(ts[i]) <= depth
    requires DecodeTuple(ts, data, base, depth).Some?
    ensures var vs := DecodeTuple(ts, data, base, depth).value;
      forall i | 0 <= i < |ts| :: vs[i].t == ts[i] && WfVal(vs[i]) && Short(vs[i])
    decreases depth, 1, |ts|
  {
    if ts != [] {
      var n := |ts| - 1;
      DecodeTupleWf(ts[..n], data, base, depth);
      var head := base + HeadSizes(ts[..n]);
      if IsDynamic(ts[n]) {
        DecodeWf(ts[n], data, base + WordAt(data, head).value);
      } else {
        DecodeWf(ts[n], data, head);
      }
    }
  }

  /** Nothing beyond the data is read: what is decoded stays the same whatever follows. */
  lemma {:induction false} DecodeInside(t: AbiType, data: seq<byte>, more: seq<byte>, pos: nat)
    requires Decode(t, data, pos).Some?
    ensures Decode(t, data + more, pos) == Decode(t, data, pos)
    decreases Depth(t), 0, 1
  {
    assert pos + 32 <= |data| ==> (data + more)[pos..pos + 32] == data[pos..pos + 32];
    match t
    case Base(_) =>
    case Dynamic(_) =>
      var n := WordAt(data, pos).value;
      assert (data + more)[pos + 32..pos + 32 + n] == data[pos + 32..pos + 32 + n];
    case Array(elem) =>
      DecodeTupleInside(Repeated(elem, WordAt(data, pos).value), data, more, pos + 32, Depth(elem));
    case Fixed(elem, n) => DecodeTupleInside(Repeated(elem, n), data, more, pos, Depth(elem));
    case Tuple(ts) => DecodeTupleInside(ts, data, more, pos, Depths(ts));
  }

  lemma {:induction false} DecodeTupleInside(ts: seq<AbiType>, data: seq<byte>, more: seq<byte>, base: nat, depth: nat)
    requires forall i | 0 <= i < |ts| :: Depth(ts[i]) <= depth
    requires DecodeTuple(ts, data, base, depth).Some?
    ensures DecodeTuple(ts, data + more, base, depth) == DecodeTuple(ts, data, base, depth)
    decreases depth, 1, |ts|
  {
    if ts != [] {
      var n := |ts| - 1;
      DecodeTupleInside(ts[..n], data, more, base, depth);
      var head := base + HeadSizes(ts[..n]);
      if IsDynamic(ts[n]) {
        assert (data + more)[head..head + 32] == data[head..head + 32];
        DecodeInside(ts[n], data, more, base + WordAt(data, head).value);
      } else {
        DecodeInside(ts[n], data, more, head);
      }
    }
  }

  /** No array in the value exceeds the limit. */
  predicate Short(v: Val) {
    v.Items? ==> (v.t.Array? ==> |v.items| <= MAX_ARRAY_LENGTH) && forall i | 0 <= i < |v.items| :: Short(v.items[i])
  }
}
