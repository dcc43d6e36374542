// Storage with structured keys behind a plain slot map.
module SolidityStorage {
  import opened Options

  /** Data whose hash is a storage slot: a mapping entry (with its key width) or an array. */
  datatype Preimage = MapSlot(base: nat, key: nat, bits: nat) | ArraySlot(base: nat)

  type Hash = Preimage -> nat

  /** A single hash over a base slot that is not itself a hash. */
  ghost predicate OneDeep(hash: Hash, p: Preimage) {
    (p.MapSlot? ==> p.bits > 0) && forall q :: hash(q) != p.base
  }

  ghost predicate Injective(hash: Hash) {
    forall p, q | hash(p) == hash(q) :: p == q
  }

  // ---- the registry of known preimages ----

  class KeccakRegistry {
    const hash: Hash
    var known: map<nat, Preimage>

    ghost predicate Valid()
      reads this
    {
      Injective(hash) && forall h | h in known :: hash(known[h]) == h && OneDeep(hash, known[h])
    }

    constructor (hash: Hash)
      requires Injective(hash)
      ensures Valid() && this.hash == hash && known == map[]
    {
      this.hash, known := hash, map[];
    }

    /** A hash has been computed: its preimage is known from now on. */
    method Register(p: Preimage)
      requires Valid() && OneDeep(hash, p)
      modifies this
      ensures Valid() && known == old(known)[hash(p) := p]
    {
      if hash(p) !in known {
        known := known[hash(p) := p];
      } else {
        assert known[hash(p)] == p;
      }
    }

    method ReverseLookup(h: nat) returns (p: Option<Preimage>)
      ensures p == if h in known then Some(known[h]) else None
    {
      p := if h in known then Some(known[h]) else None;
    }
  }

  // ---- chunks ----

  /** The place of a chunk: base slot, number of keys and their total width. */
  datatype ChunkId = ChunkId(slot: nat, numKeys: nat, sizeKeys: nat)

  /** A value, or the stores into an array, oldest first. */
  datatype Chunk = Scalar(value: nat) | Stores(stores: seq<(nat, nat)>)

  function FlatId(loc: nat): ChunkId {
    ChunkId(loc, 0, 0)
  }

  /** m[k]: the key and an offset of zero; a[i]: an offset of zero. */
  function IdOf(p: Preimage): ChunkId {
    match p
    case MapSlot(base, _, bits) => ChunkId(base, 2, bits + 256)
    case ArraySlot(base) => ChunkId(base, 1, 256)
  }

  function KeyOf(p: Preimage): nat {
    if p.MapSlot? then p.key else 0
  }

  /** The last value stored under a key. */
  function Select(stores: seq<(nat, nat)>, key: nat): Option<nat> {
    if stores == [] then None else
    var last := stores[|stores| - 1];
    if last.0 == key then Some(last.1) else Select(stores[..|stores| - 1], key)
  }

  lemma SelectStored(stores: seq<(nat, nat)>, key: nat, value: nat, other: nat)
    ensures Select(stores + [(key, value)], other) == if other == key then Some(value) else Select(stores, other)
  {
    assert (stores + [(key, value)])[..|stores|] == stores;
  }

  class StorageData {
    const registry: KeccakRegistry
    var mapping: map<ChunkId, Chunk>

    ghost function Entry(p: Preimage): Option<nat>
      reads this
    {
      var id := IdOf(p);
      if id in mapping && mapping[id].Stores? then Select(mapping[id].stores, KeyOf(p)) else None
    }

    /** The plain slot map that the storage stands for. */
    ghost function Value(loc: nat): nat
      reads this, registry
    {
      if FlatId(loc) in mapping && mapping[FlatId(loc)].Scalar? then mapping[FlatId(loc)].value
      else if loc in registry.known && Entry(registry.known[loc]).Some? then Entry(registry.known[loc]).value
      else 0
    }

    /** Entries have known preimages, and are not shadowed by a flat slot. */
    ghost predicate Valid()
      reads this, registry
    {
      && registry.Valid()
      && (forall id | id in mapping :: mapping[id].Scalar? <==> id.numKeys == 0)
      && (forall p | OneDeep(registry.hash, p) && Entry(p).Some? ::
            registry.hash(p) in registry.known && FlatId(registry.hash(p)) !in mapping)
    }

    constructor (registry: KeccakRegistry)
      requires registry.Valid()
      ensures Valid() && this.registry == registry && mapping == map[]
      ensures forall loc :: Value(loc) == 0
    {
      this.registry, mapping := registry, map[];
    }

    /** A chunk that does not exist yet is zero or an empty array. */
    method Init(id: ChunkId)
      requires Valid()
      modifies this
      ensures Valid() && id in mapping && registry.known == old(registry.known)
      ensures forall loc :: Value(loc) == old(Value(loc))
      ensures id.numKeys == 0 && id !in old(mapping) ==> mapping == old(mapping)[id := Scalar(0)]
      ensures id.numKeys > 0 && id !in old(mapping) ==> mapping == old(mapping)[id := Stores([])]
      ensures id in old(mapping) ==> mapping == old(mapping)
      requires id.numKeys == 0 ==> id == FlatId(id.slot) && id.slot !in registry.known
    {
      if id in mapping {
        return;
      }
      ghost var before := mapping;
      mapping := mapping[id := if id.numKeys == 0 then Scalar(0) else Stores([])];
      forall p
        ensures Entry(p) == old(Entry(p))
      {
        assert id.numKeys == 0 ==> id != IdOf(p);
        assert Select([], KeyOf(p)) == None;
      }
      if id.numKeys == 0 {
        forall p | OneDeep(registry.hash, p) && Entry(p).Some?
          ensures FlatId(registry.hash(p)) !in mapping
        {
          assert registry.hash(p) in registry.known;
        }
      }
    }

    /** Computing a hash does not change what is stored. */
    method Learn(p: Preimage)
      requires Valid() && OneDeep(registry.hash, p)
      modifies registry
      ensures Valid() && registry.known == old(registry.known)[registry.hash(p) := p]
      ensures forall loc :: Value(loc) == old(Value(loc))
    {
      registry.Register(p);
      forall loc
        ensures Value(loc) == old(Value(loc))
      {
        assert Entry(p) == old(Entry(p));
        assert loc != registry.hash(p) ==> (loc in registry.known <==> loc in old(registry.known));
      }
    }

    /** Stores under the structured key of a known preimage. */
    method AddStore(p: Preimage, value: nat)
      requires Valid() && OneDeep(registry.hash, p)
      requires registry.hash(p) in registry.known && FlatId(registry.hash(p)) !in mapping
      requires IdOf(p) in mapping
      modifies this
      ensures Valid()
      ensures forall loc :: Value(loc) == if loc == registry.hash(p) then value else old(Value(loc))
      ensures mapping.Keys == old(mapping.Keys)
    {
      var id := IdOf(p);
      ghost var stores := mapping[id].stores;
      mapping := mapping[id := Stores(mapping[id].stores + [(KeyOf(p), value)])];
      assert registry.known[registry.hash(p)] == p;
      forall q
        ensures Entry(q) == if q == p then Some(value) else old(Entry(q))
      {
        SelectStored(stores, KeyOf(p), value, KeyOf(q));
        if IdOf(q) == id && KeyOf(q) == KeyOf(p) {
          assert q == p;
        }
      }
      forall loc
        ensures Value(loc) == if loc == registry.hash(p) then value else old(Value(loc))
      {
        if loc in registry.known && registry.known[loc] == p {
          assert registry.hash(p) == loc;
        }
      }
    }

    /** Moves a value stored under the raw slot to its structured place, once the preimage is known. */
    method MigrateFlatSlot(loc: nat, p: Preimage)
      requires Valid() && OneDeep(registry.hash, p) && registry.hash(p) == loc && loc in registry.known
      modifies this
      ensures Valid() && FlatId(loc) !in mapping
      ensures forall l :: Value(l) == old(Value(l))
    {
      if FlatId(loc) !in mapping {
        return;
      }
      var value := mapping[FlatId(loc)].value;
      Unflatten(loc, p);
      Init(IdOf(p));
      AddStore(p, value);
    }

    /** Removes the flat entry. */
    method Unflatten(loc: nat, ghost p: Preimage)
      requires Valid() && OneDeep(registry.hash, p) && registry.hash(p) == loc && loc in registry.known
      requires FlatId(loc) in mapping
      modifies this
      ensures Valid() && mapping == old(mapping) - {FlatId(loc)}
      ensures forall l :: Value(l) == if l == loc then 0 else old(Value(l))
    {
      assert registry.known[loc] == p;
      assert Entry(p) == None;
      mapping := mapping - {FlatId(loc)};
      forall q
        ensures Entry(q) == old(Entry(q))
      {
        assert IdOf(q) != FlatId(loc);
      }
    }

    /** A load returns the last value stored at the slot, or zero. */
    method Load(loc: nat) returns (value: nat)
      requires Valid()
      modifies this
      ensures Valid() && value == old(Value(loc))
      ensures forall l :: Value(l) == old(Value(l))
    {
      var p := registry.ReverseLookup(loc);
      if p.None? {
        Init(FlatId(loc));
        assert mapping[FlatId(loc)].Scalar?;
        return mapping[FlatId(loc)].value;
      }
      MigrateFlatSlot(loc, p.value);
      Init(IdOf(p.value));
      var found := Select(mapping[IdOf(p.value)].stores, KeyOf(p.value));
      value := if found.Some? then found.value else 0;
      assert found == Entry(p.value) && FlatId(loc) !in mapping;
      assert Value(loc) == value;
    }

    /** A store changes exactly its slot. */
    method Store(loc: nat, value: nat)
      requires Valid()
      modifies this
      ensures Valid()
      ensures forall l :: Value(l) == if l == loc then value else old(Value(l))
    {
      var p := registry.ReverseLookup(loc);
      if p.None? {
        Init(FlatId(loc));
        ghost var before := mapping;
        mapping := mapping[FlatId(loc) := Scalar(value)];
        forall q
          ensures Entry(q) == old(Entry(q))
        {
          assert IdOf(q) != FlatId(loc);
        }
        return;
      }
      MigrateFlatSlot(loc, p.value);
      Init(IdOf(p.value));
      AddStore(p.value, value);
    }
  }
}
