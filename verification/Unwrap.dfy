// Reading a whole vector as one value, and replacing its symbols by other terms.
module Unwrapping {
  import opened Chunks
  import opened ByteVecs

  /** Native bytes or a term. */
  datatype Item = Native(bytes: seq<byte>) | Symbol(data: Data)

  predicate WfItem(x: Item) {
    x.Symbol? ==> WfData(x.data)
  }

  ghost function ItemBytes(x: Item, env: Env): seq<byte>
    requires WfItem(x)
  {
    match x
    case Native(bytes) => bytes
    case Symbol(d) => DataBytes(d, env)
  }

  ghost function ItemsBytes(xs: seq<Item>, env: Env): seq<byte>
    requires forall i | 0 <= i < |xs| :: WfItem(xs[i])
  {
    if xs == [] then [] else ItemsBytes(xs[..|xs| - 1], env) + ItemBytes(xs[|xs| - 1], env)
  }

  predicate WfItems(xs: seq<Item>) {
    forall i | 0 <= i < |xs| :: WfItem(xs[i])
  }

  lemma ItemsSnoc(xs: seq<Item>, x: Item, env: Env)
    requires WfItems(xs) && WfItem(x)
    ensures WfItems(xs + [x]) && ItemsBytes(xs + [x], env) == ItemsBytes(xs, env) + ItemBytes(x, env)
  {
    assert (xs + [x])[..|xs|] == xs;
  }

  /** The simplifier keeps the size and the value of a term. */
  ghost predicate Sound(simplify: Data -> Data) {
    forall d | WfData(d) ::
      WfData(simplify(d)) && Size(simplify(d)) == Size(d) && forall env :: DataBytes(simplify(d), env) == DataBytes(d, env)
  }

  // ---- merging ----

  predicate NoAdjacentNative(xs: seq<Item>) {
    forall i | 0 <= i < |xs| - 1 :: xs[i].Symbol? || xs[i + 1].Symbol?
  }

  /** Merges adjacent native bytes. */
  method Defrag(data: seq<Item>) returns (output: seq<Item>)
    requires WfItems(data)
    ensures WfItems(output) && NoAdjacentNative(output)
    ensures forall env :: ItemsBytes(output, env) == ItemsBytes(data, env)
    ensures (output == [] <==> data == []) && |output| <= |data|
    ensures (forall i | 0 <= i < |data| :: data[i].Native?) ==> |output| <= 1 && forall i | 0 <= i < |output| :: output[i].Native?
  {
    hide WfItem, ItemBytes, ItemsBytes, NoAdjacentNative;
    if |data| <= 1 {
      FewItems(data);
      return data;
    }
    output := [];
    var acc := data[0];
    FirstItem(data);
    for i := 1 to |data|
      invariant WfItems(output) && WfItem(acc) && |output| < i
      invariant NoAdjacentNative(output + [acc])
      invariant forall env :: ItemsBytes(output, env) + ItemBytes(acc, env) == ItemsBytes(data[..i], env)
      invariant (forall j | 0 <= j < i :: data[j].Native?) ==> output == [] && acc.Native?
    {
      ghost var before, was := output, acc;
      if acc.Native? && data[i].Native? {
        acc := Native(acc.bytes + data[i].bytes);
        NativeWf(acc.bytes);
      } else {
        output := output + [acc];
        acc := data[i];
      }
      MergedStep(data, i, before, was, output, acc);
    }
    LastItem(data, output, acc);
    output := output + [acc];
  }

  lemma FewItems(data: seq<Item>)
    requires |data| <= 1
    ensures NoAdjacentNative(data)
  {
  }

  lemma FirstItem(data: seq<Item>)
    requires WfItems(data) && data != []
    ensures WfItem(data[0]) && NoAdjacentNative([] + [data[0]])
    ensures forall env :: ItemsBytes([], env) + ItemBytes(data[0], env) == ItemsBytes(data[..1], env)
  {
    hide ItemBytes;
    assert data[..1] == [] + [data[0]];
    forall env
      ensures ItemsBytes([], env) + ItemBytes(data[0], env) == ItemsBytes(data[..1], env)
    {
      ItemsSnoc([], data[0], env);
    }
  }

  lemma LastItem(data: seq<Item>, output: seq<Item>, acc: Item)
    requires WfItems(data) && WfItems(output) && WfItem(acc)
    requires forall env :: ItemsBytes(output, env) + ItemBytes(acc, env) == ItemsBytes(data[..|data|], env)
    ensures WfItems(output + [acc])
    ensures forall env :: ItemsBytes(output + [acc], env) == ItemsBytes(data, env)
  {
    hide WfItem, ItemBytes, ItemsBytes;
    assert data[..|data|] == data;
    ItemsSnoc(output, acc, imap[]);
    forall env
      ensures ItemsBytes(output + [acc], env) == ItemsBytes(data, env)
    {
      ItemsSnoc(output, acc, env);
    }
  }

  lemma NativeWf(bytes: seq<byte>)
    ensures WfItem(Native(bytes))
  {
  }

  lemma Separated(output: seq<Item>, acc: Item, output': seq<Item>, acc': Item)
    requires NoAdjacentNative(output + [acc])
    requires if output' == output then acc.Native? else output' == output + [acc] && (acc.Symbol? || acc'.Symbol?)
    ensures NoAdjacentNative(output' + [acc'])
  {
    var xs, ys := output + [acc], output' + [acc'];
    forall i | 0 <= i < |ys| - 1
      ensures ys[i].Symbol? || ys[i + 1].Symbol?
    {
      assert i < |output| ==> ys[i] == xs[i];
      assert i + 1 < |output| ==> ys[i + 1] == xs[i + 1];
      assert i < |xs| - 1 ==> xs[i].Symbol? || xs[i + 1].Symbol?;
    }
  }

  lemma MergedStep(data: seq<Item>, i: nat, output: seq<Item>, acc: Item, output': seq<Item>, acc': Item)
    requires 0 < i < |data| && WfItems(data) && WfItems(output) && WfItem(acc) && WfItems(output') && WfItem(acc')
    requires forall env :: ItemsBytes(output, env) + ItemBytes(acc, env) == ItemsBytes(data[..i], env)
    requires if acc.Native? && data[i].Native? then output' == output && acc' == Native(acc.bytes + data[i].bytes)
             else output' == output + [acc] && acc' == data[i]
    requires NoAdjacentNative(output + [acc])
    ensures NoAdjacentNative(output' + [acc'])
    ensures forall env :: ItemsBytes(output', env) + ItemBytes(acc', env) == ItemsBytes(data[..i + 1], env)
  {
    Separated(output, acc, output', acc');
    assert data[..i + 1] == data[..i] + [data[i]];
    forall env
      ensures ItemsBytes(output', env) + ItemBytes(acc', env) == ItemsBytes(data[..i + 1], env)
    {
      ItemsSnoc(data[..i], data[i], env);
      if acc.Native? && data[i].Native? {
        Associates(ItemsBytes(output, env), acc.bytes, data[i].bytes);
      } else {
        ItemsSnoc(output, acc, env);
      }
    }
  }

  // ---- joining ----

  function AsData(xs: seq<Item>): (ds: seq<Data>)
    ensures |ds| == |xs|
  {
    seq(|xs|, i requires 0 <= i < |xs| => if xs[i].Native? then Value(xs[i].bytes) else xs[i].data)
  }

  lemma {:induction false} JoinSnoc(ds: seq<Data>, d: Data, env: Env)
    requires (forall i | 0 <= i < |ds| :: WfData(ds[i])) && WfData(d)
    ensures JoinBytes(ds + [d], env) == JoinBytes(ds, env) + DataBytes(d, env)
  {
    hide DataBytes;
    if ds == [] {
      assert ds + [d] == [d] && [d][1..] == [];
    } else {
      assert (ds + [d])[1..] == ds[1..] + [d];
      JoinSnoc(ds[1..], d, env);
      Associates(DataBytes(ds[0], env), JoinBytes(ds[1..], env), DataBytes(d, env));
    }
  }

  lemma {:induction false} JoinedBytes(xs: seq<Item>, env: Env)
    requires WfItems(xs)
    ensures WfData(Join(AsData(xs))) && DataBytes(Join(AsData(xs)), env) == ItemsBytes(xs, env)
  {
    if xs == [] {
    } else {
      var n := |xs| - 1;
      JoinedBytes(xs[..n], env);
      assert AsData(xs) == AsData(xs[..n]) + [AsData(xs)[n]];
      JoinSnoc(AsData(xs[..n]), AsData(xs)[n], env);
    }
  }

  // ---- vectors as one value ----

  ghost predicate Reads(es: seq<Entry>, base: nat, x: Item) {
    Contiguous(es, base) && WfItem(x) && forall env :: ItemBytes(x, env) == Flat(es, base, env)
  }

  ghost predicate ReadsChunk(c: Chunk, x: Item) {
    WfChunk(c) && WfItem(x) && forall env :: ItemBytes(x, env) == ChunkBytes(c, env)
  }

  /** Whether a chunk has only native bytes. */
  predicate IsNative(c: Chunk)
    decreases c
  {
    match c
    case Concrete(_, _, _) => true
    case Symbolic(d, _, n) => d.Value? && n == Size(d)
    case Nested(es, _) => AllNative(es)
  }

  predicate AllNative(es: seq<Entry>)
    decreases es
  {
    es == [] || (NativeEntry(es[0]) && AllNative(es[1..]))
  }

  predicate NativeEntry(e: Entry)
    decreases e
  {
    IsNative(e.chunk)
  }

  /** All bytes as a single value: native bytes if there is nothing symbolic. */
  method Unwrap(es: seq<Entry>, ghost base: nat, simplify: Data -> Data) returns (x: Item)
    requires Contiguous(es, base) && Sound(simplify)
    ensures Reads(es, base, x)
    ensures AllNative(es) ==> x.Native?
    decreases es, 3
  {
    hide Contiguous, Flat, Sound, WfItem, WfData, DataBytes, ItemBytes, NoAdjacentNative, Reads;
    if es == [] {
      NothingRead(es, base);
      return Native([]);
    }
    var data := UnwrapAll(es, base, simplify);
    var merged := Defrag(data);
    if |merged| == 1 {
      SingleItem(es, base, merged, simplify);
      x := merged[0];
      if x.Symbol? {
        x := Symbol(simplify(x.data));
      }
    } else {
      JoinedItems(es, base, merged, simplify);
      x := Symbol(simplify(Join(AsData(merged))));
    }
  }

  /** The items of the chunks; terms that are literals become native bytes. */
  method UnwrapAll(es: seq<Entry>, ghost base: nat, simplify: Data -> Data) returns (data: seq<Item>)
    requires Contiguous(es, base) && Sound(simplify)
    ensures WfItems(data) && |data| == |es|
    ensures forall env :: ItemsBytes(data, env) == Flat(es, base, env)
    ensures AllNative(es) ==> forall i | 0 <= i < |data| :: data[i].Native?
    decreases es, 2
  {
    hide Contiguous, Flat, Sound, WfItem, WfData, DataBytes, ItemBytes, WfChunk, ChunkBytes, IsNative;
    data := [];
    NothingUnwrapped(es, base);
    for i := 0 to |es|
      invariant |data| == i && WfItems(data)
      invariant Contiguous(es[..i], base)
      invariant forall env :: ItemsBytes(data, env) == Flat(es[..i], base, env)
      invariant AllNative(es) ==> forall j | 0 <= j < i :: data[j].Native?
    {
      At(es, base, i);
      NativeAt(es, i);
      var item := UnwrapEntry(es[i], simplify);
      UnwrappedStep(es, base, i, data, item);
      data := data + [item];
    }
    assert es[..|es|] == es;
  }

  method UnwrapEntry(e: Entry, simplify: Data -> Data) returns (x: Item)
    requires WfEntry(e) && Sound(simplify)
    ensures ReadsChunk(e.chunk, x) && WfItem(x)
    ensures IsNative(e.chunk) ==> x.Native?
    decreases e, 1
  {
    hide Contiguous, Flat, Sound, WfData, DataBytes;
    x := UnwrapChunk(e.chunk, simplify);
  }

  method UnwrapChunk(c: Chunk, simplify: Data -> Data) returns (x: Item)
    requires WfChunk(c) && Sound(simplify)
    ensures ReadsChunk(c, x)
    ensures IsNative(c) ==> x.Native?
    decreases c, 1
  {
    hide Sound;
    if c.Nested? {
      x := Unwrap(c.entries, 0, simplify);
    } else if c.Concrete? {
      assert c.data[0..0 + |c.data|] == c.data;
      x := Native(if c.length == |c.data| then c.data else c.data[c.start..c.start + c.length]);
    } else {
      forall env
        ensures DataBytes(c.term, env)[0..0 + Size(c.term)] == DataBytes(c.term, env)
      {
      }
      var d := if c.length == Size(c.term) then c.term else Part(c.term, c.start, c.length);
      x := if d.Value? then Native(d.bytes) else Symbol(d);
    }
  }

  lemma {:induction false} NativeAt(es: seq<Entry>, i: nat)
    requires i < |es|
    ensures AllNative(es) ==> IsNative(es[i].chunk)
  {
    if AllNative(es) {
      assert NativeEntry(es[0]);
      if i > 0 {
        NativeAt(es[1..], i - 1);
        assert es[1..][i - 1] == es[i];
      }
    }
  }

  lemma NothingRead(es: seq<Entry>, base: nat)
    requires es == []
    ensures Reads(es, base, Native([])) && Contiguous(es, base)
  {
  }

  lemma NothingUnwrapped(es: seq<Entry>, base: nat)
    ensures Contiguous(es[..0], base) && forall env :: ItemsBytes([], env) == Flat(es[..0], base, env)
  {
    assert es[..0] == [];
  }

  lemma UnwrappedStep(es: seq<Entry>, base: nat, i: nat, data: seq<Item>, item: Item)
    requires Contiguous(es, base) && i < |es| && WfItems(data) && ReadsChunk(es[i].chunk, item)
    requires Contiguous(es[..i], base) && forall env :: ItemsBytes(data, env) == Flat(es[..i], base, env)
    ensures WfItems(data + [item]) && Contiguous(es[..i + 1], base)
    ensures forall env :: ItemsBytes(data + [item], env) == Flat(es[..i + 1], base, env)
  {
    hide Contiguous, Flat, WfItem, ItemBytes, WfChunk, ChunkBytes;
    At(es, base, i);
    assert es[..i + 1] == es[..i] + [es[i]];
    forall env
      ensures Contiguous(es[..i + 1], base) && WfItems(data + [item])
      ensures ItemsBytes(data + [item], env) == Flat(es[..i + 1], base, env)
    {
      StepFlat(es[..i], base, es[i], env);
      ItemsSnoc(data, item, env);
    }
    StepFlat(es[..i], base, es[i], imap[]);
    ItemsSnoc(data, item, imap[]);
  }

  lemma SingleItem(es: seq<Entry>, base: nat, merged: seq<Item>, simplify: Data -> Data)
    requires Contiguous(es, base) && Sound(simplify) && WfItems(merged) && |merged| == 1
    requires forall env :: ItemsBytes(merged, env) == Flat(es, base, env)
    ensures Reads(es, base, merged[0])
    ensures merged[0].Symbol? ==> Reads(es, base, Symbol(simplify(merged[0].data)))
  {
    hide Contiguous, Flat, WfData, DataBytes;
    var x := merged[0];
    assert merged == [] + [x];
    forall env
      ensures ItemBytes(x, env) == Flat(es, base, env)
    {
      ItemsSnoc([], x, env);
      assert ItemsBytes([], env) == [];
    }
  }

  lemma JoinedItems(es: seq<Entry>, base: nat, merged: seq<Item>, simplify: Data -> Data)
    requires Contiguous(es, base) && Sound(simplify) && WfItems(merged)
    requires forall env :: ItemsBytes(merged, env) == Flat(es, base, env)
    ensures Reads(es, base, Symbol(simplify(Join(AsData(merged)))))
  {
    hide Contiguous, Flat, WfData, DataBytes;
    var d := Join(AsData(merged));
    JoinedBytes(merged, imap[]);
    forall env
      ensures DataBytes(simplify(d), env) == Flat(es, base, env)
    {
      JoinedBytes(merged, env);
    }
  }

  // ---- concretization ----

  ghost predicate Concretized(es: seq<Entry>, base: nat, r: seq<Entry>, subst: map<Data, Data>)
    requires WfSubst(subst)
  {
    && Contiguous(es, base) && Contiguous(r, 0)
    && forall env :: Flat(r, 0, env) == Flat(es, base, Replaced(subst, env))
  }

  ghost predicate ConcretizedChunk(c: Chunk, r: Chunk, subst: map<Data, Data>)
    requires WfSubst(subst)
  {
    && WfChunk(c) && WfChunk(r) && r.length == c.length
    && forall env :: ChunkBytes(r, env) == ChunkBytes(c, Replaced(subst, env))
  }

  /** The vector with its symbols replaced, always as a new vector. */
  method Concretize(es: seq<Entry>, ghost base: nat, subst: map<Data, Data>, simplify: Data -> Data) returns (result: ByteVec)
    requires Contiguous(es, base) && WfSubst(subst) && Sound(simplify)
    ensures fresh(result) && result.Valid() && result.length == Total(es)
    ensures Concretized(es, base, result.chunks, subst)
    decreases es, 0
  {
    hide Contiguous, Flat, Sound, WfChunk, ChunkBytes, Total, WfSubst, Replaced, Concretized, ConcretizedChunk,
         Appended;
    result := new ByteVec();
    NothingConcretized(es, base, subst);
    for i := 0 to |es|
      invariant fresh(result) && result.Valid() && Contiguous(es[..i], base) && result.length == Total(es[..i])
      invariant Concretized(es[..i], base, result.chunks, subst)
    {
      At(es, base, i);
      var c := ConcretizeEntry(es[i], subst, simplify);
      ghost var before := result.chunks;
      result.AppendChunk(c);
      ConcretizedStep(es, base, i, before, result.chunks, c, subst);
    }
    assert es[..|es|] == es;
  }

  method ConcretizeEntry(e: Entry, subst: map<Data, Data>, simplify: Data -> Data) returns (r: Chunk)
    requires WfEntry(e) && WfSubst(subst) && Sound(simplify)
    ensures ConcretizedChunk(e.chunk, r, subst) && WfChunk(r)
    decreases e, 1
  {
    hide Contiguous, Flat, Sound, ChunkBytes, WfSubst, Replaced;
    r := ConcretizeChunk(e.chunk, subst, simplify);
  }

  method ConcretizeChunk(c: Chunk, subst: map<Data, Data>, simplify: Data -> Data) returns (r: Chunk)
    requires WfChunk(c) && WfSubst(subst) && Sound(simplify)
    ensures ConcretizedChunk(c, r, subst)
    decreases c, 1
  {
    hide Contiguous, Flat, WfSubst, Replaced, Total, ConcretizedChunk, Concretized, Sound;
    if c.Nested? {
      var v := Concretize(c.entries, 0, subst, simplify);
      ConcretizedNested(c, v.chunks, subst);
      r := Nested(v.chunks, v.length);
    } else if c.Concrete? {
      r := c;
      ConcreteStays(c, subst);
    } else {
      var d := Substitute(c.term, subst);
      ConcretizedTerm(c, subst, simplify);
      if d == c.term {
        r := c;
      } else {
        d := simplify(d);
        r := if d.Value? then Concrete(d.bytes, c.start, c.length) else Symbolic(d, c.start, c.length);
      }
    }
  }

  /** A term with the substituted value, at the same place. */
  lemma TermReplaced(c: Chunk, d: Data, subst: map<Data, Data>)
    requires WfChunk(c) && c.Symbolic? && WfSubst(subst) && WfData(d) && Size(d) == Size(c.term)
    requires forall env :: DataBytes(d, env) == DataBytes(c.term, Replaced(subst, env))
    ensures ConcretizedChunk(c, Symbolic(d, c.start, c.length), subst)
    ensures d.Value? ==> ConcretizedChunk(c, Concrete(d.bytes, c.start, c.length), subst)
  {
    hide WfSubst, Replaced, Size, WfChunk, ChunkBytes, DataBytes, WfData;
    PartWf(c, d);
    forall env
      ensures ChunkBytes(Symbolic(d, c.start, c.length), env) == ChunkBytes(c, Replaced(subst, env))
    {
      PartBytes(c, d, env, Replaced(subst, env));
    }
    if d.Value? {
      ValuePart(c, d);
      forall env
        ensures ChunkBytes(Concrete(d.bytes, c.start, c.length), env) == ChunkBytes(c, Replaced(subst, env))
      {
        ValuePartBytes(c, d, env);
      }
    }
  }

  lemma PartWf(c: Chunk, d: Data)
    requires WfChunk(c) && c.Symbolic? && WfData(d) && Size(d) == Size(c.term)
    ensures WfChunk(Symbolic(d, c.start, c.length))
  {
    hide Size, WfData;
  }

  lemma PartBytes(c: Chunk, d: Data, env: Env, env': Env)
    requires WfChunk(c) && c.Symbolic? && WfData(d) && Size(d) == Size(c.term)
    requires DataBytes(d, env) == DataBytes(c.term, env')
    ensures WfChunk(Symbolic(d, c.start, c.length))
    ensures ChunkBytes(Symbolic(d, c.start, c.length), env) == ChunkBytes(c, env')
  {
    hide Size, WfData, DataBytes;
  }

  lemma ValuePart(c: Chunk, d: Data)
    requires WfChunk(c) && c.Symbolic? && WfData(d) && Size(d) == Size(c.term) && d.Value?
    ensures WfChunk(Concrete(d.bytes, c.start, c.length))
  {
    hide WfData;
    ValueSize(d);
  }

  lemma ValuePartBytes(c: Chunk, d: Data, env: Env)
    requires c.Symbolic? && d.Value?
    requires WfChunk(Symbolic(d, c.start, c.length)) && WfChunk(Concrete(d.bytes, c.start, c.length))
    ensures ChunkBytes(Concrete(d.bytes, c.start, c.length), env) == ChunkBytes(Symbolic(d, c.start, c.length), env)
  {
    hide WfData;
    ValueSize(d);
  }

  lemma ValueSize(d: Data)
    requires d.Value?
    ensures Size(d) == |d.bytes| && forall env :: DataBytes(d, env) == d.bytes
  {
  }

  lemma ConcretizedTerm(c: Chunk, subst: map<Data, Data>, simplify: Data -> Data)
    requires WfChunk(c) && c.Symbolic? && WfSubst(subst) && Sound(simplify)
    ensures var d := Substitute(c.term, subst);
      && (d == c.term ==> ConcretizedChunk(c, c, subst))
      && var d' := simplify(d);
         ConcretizedChunk(c, if d'.Value? then Concrete(d'.bytes, c.start, c.length) else Symbolic(d', c.start, c.length), subst)
  {
    hide WfSubst, Replaced, Substitute, WfData, DataBytes, Size, ConcretizedChunk;
    var d := Substitute(c.term, subst);
    SubstituteMeans(c.term, subst, imap[]);
    forall env
      ensures DataBytes(d, env) == DataBytes(c.term, Replaced(subst, env))
    {
      SubstituteMeans(c.term, subst, env);
    }
    SymbolicWf(c);
    TermReplaced(c, d, subst);
    TermReplaced(c, simplify(d), subst);
  }

  lemma SymbolicWf(c: Chunk)
    requires WfChunk(c) && c.Symbolic?
    ensures WfData(c.term) && Symbolic(c.term, c.start, c.length) == c
  {
  }

  lemma ConcreteStays(c: Chunk, subst: map<Data, Data>)
    requires WfChunk(c) && c.Concrete? && WfSubst(subst)
    ensures ConcretizedChunk(c, c, subst)
  {
    hide WfSubst, Replaced;
  }

  lemma ConcretizedNested(c: Chunk, r: seq<Entry>, subst: map<Data, Data>)
    requires WfChunk(c) && c.Nested? && WfSubst(subst) && Concretized(c.entries, 0, r, subst) && Total(r) == Total(c.entries)
    ensures ConcretizedChunk(c, Nested(r, Total(r)), subst)
  {
    hide Contiguous, Flat, WfSubst, Replaced, Total;
  }

  lemma NothingConcretized(es: seq<Entry>, base: nat, subst: map<Data, Data>)
    requires WfSubst(subst)
    ensures Contiguous(es[..0], base) && Total(es[..0]) == 0 && Concretized(es[..0], base, [], subst)
  {
    assert es[..0] == [];
  }

  lemma ConcretizedStep(es: seq<Entry>, base: nat, i: nat, r: seq<Entry>, r': seq<Entry>, c: Chunk, subst: map<Data, Data>)
    requires WfSubst(subst) && Contiguous(es, base) && i < |es|
    requires Concretized(es[..i], base, r, subst) && ConcretizedChunk(es[i].chunk, c, subst) && Appended(r, r', c)
    requires Total(r) == Total(es[..i])
    ensures Contiguous(es[..i + 1], base) && Concretized(es[..i + 1], base, r', subst)
    ensures Total(r') == Total(es[..i + 1])
  {
    hide Contiguous, Flat, WfChunk, ChunkBytes, Total, WfSubst, Replaced;
    At(es, base, i);
    assert es[..i + 1] == es[..i] + [es[i]];
    forall env
      ensures Contiguous(es[..i + 1], base) && Flat(r', 0, env) == Flat(es[..i + 1], base, Replaced(subst, env))
    {
      StepFlat(es[..i], base, es[i], Replaced(subst, env));
    }
    StepFlat(es[..i], base, es[i], imap[]);
  }
}
