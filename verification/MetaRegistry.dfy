/** The type registry of `lib/vd_meta.h`. */
module MetaTypes {
  import opened Wrappers

  datatype Prim = I8 | U8 | I16 | U16 | I32 | U32 | I64 | U64 | Char8

  /** A field with no array flag. */
  datatype Field = Field(name: string, typ: nat)

  /** `Untouched` stands for the classes that neither the writer nor the reader handles. */
  datatype TypeClass = Primitive(prim: Prim) | CString | Object(fields: seq<Field>) | Untouched

  /** An `id` of 0 asks the registry to issue one. */
  datatype Descriptor = Descriptor(name: string, id: nat, cls: TypeClass)

  /** The id of the first of `list` that is called `name`. */
  function FirstId(list: seq<Descriptor>, name: string): Option<nat> {
    if list == [] then None
    else
      var earlier := FirstId(list[..|list| - 1], name);
      var d := list[|list| - 1];
      if earlier.Some? then earlier else if d.name == name then Some(d.id) else None
  }

  /** The first of `list` that has the id `id`. */
  function FirstDescriptor(list: seq<Descriptor>, id: nat): Option<Descriptor> {
    if list == [] then None
    else
      var earlier := FirstDescriptor(list[..|list| - 1], id);
      var d := list[|list| - 1];
      if earlier.Some? then earlier else if d.id == id then Some(d) else None
  }

  /** The `i`-th is the first of `list` that is called `name`. */
  ghost predicate FirstNamed(list: seq<Descriptor>, name: string, i: nat) {
    i < |list| && list[i].name == name && forall j | 0 <= j < i :: list[j].name != name
  }

  /** The `i`-th is the first of `list` that has the id `id`. */
  ghost predicate FirstWithId(list: seq<Descriptor>, id: nat, i: nat) {
    i < |list| && list[i].id == id && forall j | 0 <= j < i :: list[j].id != id
  }

  /** A name is found exactly when something has it, and then it is the first such that is found. */
  lemma {:induction false} FindsFirstId(list: seq<Descriptor>, name: string)
    ensures FirstId(list, name).None? <==> forall i | 0 <= i < |list| :: list[i].name != name
    ensures FirstId(list, name).Some? ==> exists i: nat :: FirstNamed(list, name, i) && list[i].id == FirstId(list, name).value
    ensures forall i: nat | FirstNamed(list, name, i) :: FirstId(list, name) == Some(list[i].id)
  {
    if list != [] {
      var rest, n := list[..|list| - 1], |list| - 1;
      assert forall i | 0 <= i < n :: list[i] == rest[i];
      FindsFirstId(rest, name);
      forall i: nat | i < n ensures FirstNamed(list, name, i) <==> FirstNamed(rest, name, i) {
      }
      if FirstId(rest, name).Some? {
        var i: nat :| FirstNamed(rest, name, i);
        assert FirstNamed(list, name, i);
      } else if list[n].name == name {
        assert FirstNamed(list, name, n);
      } else {
        assert forall i | 0 <= i < |list| :: i < n ==> list[i].name == rest[i].name;
      }
    }
  }

  lemma {:induction false} FindsFirstDescriptor(list: seq<Descriptor>, id: nat)
    ensures FirstDescriptor(list, id).None? <==> forall i | 0 <= i < |list| :: list[i].id != id
    ensures FirstDescriptor(list, id).Some? ==>
              exists i: nat :: FirstWithId(list, id, i) && list[i] == FirstDescriptor(list, id).value
    ensures forall i: nat | FirstWithId(list, id, i) :: FirstDescriptor(list, id) == Some(list[i])
  {
    if list != [] {
      var rest, n := list[..|list| - 1], |list| - 1;
      assert forall i | 0 <= i < n :: list[i] == rest[i];
      FindsFirstDescriptor(rest, id);
      forall i: nat | i < n ensures FirstWithId(list, id, i) <==> FirstWithId(rest, id, i) {
      }
      if FirstDescriptor(rest, id).Some? {
        var i: nat :| FirstWithId(rest, id, i);
        assert FirstWithId(list, id, i);
      } else if list[n].id == id {
        assert FirstWithId(list, id, n);
      }
    }
  }

  /** Later registrations do not change what was found before. */
  lemma {:induction false} AnswersStay(list: seq<Descriptor>, more: seq<Descriptor>, name: string, id: nat)
    ensures FirstId(list, name).Some? ==> FirstId(list + more, name) == FirstId(list, name)
    ensures FirstDescriptor(list, id).Some? ==> FirstDescriptor(list + more, id) == FirstDescriptor(list, id)
  {
    if more == [] {
      assert list + more == list;
    } else {
      var all := list + more;
      assert all[..|all| - 1] == list + more[..|more| - 1];
      AnswersStay(list, more[..|more| - 1], name, id);
    }
  }

  /** A registered name that no earlier descriptor has finds its own id, whatever comes later. */
  lemma RegisteredIsFound(before: seq<Descriptor>, d: Descriptor, after: seq<Descriptor>)
    requires FirstId(before, d.name).None? && FirstDescriptor(before, d.id).None?
    ensures FirstId(before + [d] + after, d.name) == Some(d.id)
    ensures FirstDescriptor(before + [d] + after, d.id) == Some(d)
  {
    assert (before + [d])[..|before|] == before;
    AnswersStay(before + [d], after, d.name, d.id);
  }

  /** The slot of a table of `cap` buckets for a hash. */
  function Slot(h: nat, cap: nat): (b: nat)
    requires cap > 0
    ensures b < cap
  {
    h % cap
  }

  function ByName(nameHash: string -> nat): Descriptor -> nat {
    (d: Descriptor) => nameHash(d.name)
  }

  function ById(idHash: nat -> nat): Descriptor -> nat {
    (d: Descriptor) => idHash(d.id)
  }

  /** The members of `list` that hash to bucket `b`, in order. */
  function Bucket(list: seq<Descriptor>, hash: Descriptor -> nat, cap: nat, b: nat): seq<Descriptor>
    requires cap > 0
  {
    if list == [] then []
    else
      var d := list[|list| - 1];
      Bucket(list[..|list| - 1], hash, cap, b) + (if Slot(hash(d), cap) == b then [d] else [])
  }

  /** The buckets of a table hold the members of `list` by hash, in order. */
  ghost predicate Indexes(buckets: seq<seq<Descriptor>>, list: seq<Descriptor>, hash: Descriptor -> nat) {
    |buckets| > 0 && forall b: nat | b < |buckets| :: buckets[b] == Bucket(list, hash, |buckets|, b)
  }

  lemma IndexesAppend(buckets: seq<seq<Descriptor>>, list: seq<Descriptor>, hash: Descriptor -> nat, d: Descriptor)
    requires Indexes(buckets, list, hash)
    ensures var b := Slot(hash(d), |buckets|); Indexes(buckets[b := buckets[b] + [d]], list + [d], hash)
  {
    var cap := |buckets|;
    var s := Slot(hash(d), cap);
    forall b: nat | b < cap ensures buckets[s := buckets[s] + [d]][b] == Bucket(list + [d], hash, cap, b) {
      BucketAppend(list, d, hash, cap, b);
      hide Bucket, Slot;
    }
  }

  lemma BucketAppend(list: seq<Descriptor>, d: Descriptor, hash: Descriptor -> nat, cap: nat, b: nat)
    requires cap > 0
    ensures Bucket(list + [d], hash, cap, b) == Bucket(list, hash, cap, b) + (if Slot(hash(d), cap) == b then [d] else [])
  {
    assert (list + [d])[..|list|] == list;
  }

  /** The bucket of a name answers for the whole list. */
  lemma {:induction false} BucketFindsId(list: seq<Descriptor>, nameHash: string -> nat, cap: nat, name: string)
    requires cap > 0
    ensures FirstId(Bucket(list, ByName(nameHash), cap, Slot(nameHash(name), cap)), name) == FirstId(list, name)
  {
    if list != [] {
      var hash := ByName(nameHash);
      var b := Slot(nameHash(name), cap);
      var rest := list[..|list| - 1];
      BucketFindsId(rest, nameHash, cap, name);
      hide Slot;
      var bucket := Bucket(rest, hash, cap, b);
      var d := list[|list| - 1];
      assert (bucket + [d])[..|bucket|] == bucket;
      assert bucket + [] == bucket;
    }
  }

  lemma {:induction false} BucketFindsDescriptor(list: seq<Descriptor>, idHash: nat -> nat, cap: nat, id: nat)
    requires cap > 0
    ensures FirstDescriptor(Bucket(list, ById(idHash), cap, Slot(idHash(id), cap)), id) == FirstDescriptor(list, id)
  {
    if list != [] {
      var hash := ById(idHash);
      var b := Slot(idHash(id), cap);
      var rest := list[..|list| - 1];
      BucketFindsDescriptor(rest, idHash, cap, id);
      hide Slot;
      var bucket := Bucket(rest, hash, cap, b);
      var d := list[|list| - 1];
      assert (bucket + [d])[..|bucket|] == bucket;
      assert bucket + [] == bucket;
    }
  }
}

module MetaRegistry {
  import opened Wrappers
  import opened MetaTypes

  const TABLE_CAP: nat := 256

  class Registry {
    const nameHash: string -> nat
    const idHash: nat -> nat
    const table: array<seq<Descriptor>>
    const typeIds: array<seq<Descriptor>>
    var nextId: nat

    /** The descriptors in the order of registration. */
    ghost var list: seq<Descriptor>
    /** The ids that the registry has issued by itself. */
    ghost var issued: set<nat>

    ghost predicate Valid()
      reads this, table, typeIds
    {
      && table.Length == typeIds.Length == TABLE_CAP && table != typeIds
      && nextId > 0 && (forall id | id in issued :: 0 < id < nextId)
      && Indexes(table[..], list, ById(idHash))
      && Indexes(typeIds[..], list, ByName(nameHash))
    }

    /** `vd_meta_init`, without the default types. */
    constructor (nameHash: string -> nat, idHash: nat -> nat)
      ensures Valid() && list == [] && issued == {}
      ensures fresh(table) && fresh(typeIds)
    {
      this.nameHash, this.idHash := nameHash, idHash;
      table := new seq<Descriptor>[TABLE_CAP](_ => []);
      typeIds := new seq<Descriptor>[TABLE_CAP](_ => []);
      nextId := 1;
      list, issued := [], {};
    }

    /** `vd_meta_register` */
    method Register(descriptor: Descriptor) returns (id: nat)
      requires Valid()
      modifies this, table, typeIds
      ensures Valid()
      ensures list == old(list) + [descriptor.(id := id)]
      ensures descriptor.id != 0 ==> id == descriptor.id && issued == old(issued)
      ensures descriptor.id == 0 ==> id !in old(issued) && id > 0 && issued == old(issued) + {id}
    {
      var copy := descriptor;
      if copy.id == 0 {
        copy := copy.(id := nextId);
        issued := issued + {nextId};
        nextId := nextId + 1;
      }

      AddToBuckets(copy);
      id := copy.id;
    }

    method AddToBuckets(copy: Descriptor)
      requires table.Length == typeIds.Length == TABLE_CAP && table != typeIds
      requires Indexes(table[..], list, ById(idHash)) && Indexes(typeIds[..], list, ByName(nameHash))
      modifies this`list, table, typeIds
      ensures list == old(list) + [copy]
      ensures Indexes(table[..], list, ById(idHash)) && Indexes(typeIds[..], list, ByName(nameHash))
    {
      hide Indexes, Slot;
      ghost var ids, names := table[..], typeIds[..];
      IndexesAppend(ids, list, ById(idHash), copy);
      IndexesAppend(names, list, ByName(nameHash), copy);
      var nameIndex := Slot(nameHash(copy.name), TABLE_CAP);
      typeIds[nameIndex] := typeIds[nameIndex] + [copy];
      assert typeIds[..] == names[nameIndex := names[nameIndex] + [copy]];
      var idIndex := Slot(idHash(copy.id), TABLE_CAP);
      table[idIndex] := table[idIndex] + [copy];
      assert table[..] == ids[idIndex := ids[idIndex] + [copy]];
      list := list + [copy];
    }

    /** `vd_meta_get_id`: 0 when the name is not registered. */
    method GetId(name: string) returns (id: nat)
      requires Valid()
      ensures id == match FirstId(list, name) case Some(i) => i case None => 0
      ensures forall i: nat | FirstNamed(list, name, i) :: id == list[i].id
      ensures (forall i | 0 <= i < |list| :: list[i].name != name) ==> id == 0
    {
      FindsFirstId(list, name);
      var bucket := typeIds[Slot(nameHash(name), TABLE_CAP)];
      BucketFindsId(list, nameHash, TABLE_CAP, name);
      var i := 0;
      while i < |bucket|
        invariant 0 <= i <= |bucket| && FirstId(bucket[..i], name) == None
      {
        assert bucket[..i + 1][..i] == bucket[..i];
        if bucket[i].name == name {
          FoundId(bucket, i, name);
          return bucket[i].id;
        }
        i := i + 1;
      }
      assert bucket[..i] == bucket;
      return 0;
    }

    lemma FoundId(bucket: seq<Descriptor>, i: nat, name: string)
      requires i < |bucket| && FirstId(bucket[..i], name) == None && bucket[i].name == name
      ensures FirstId(bucket, name) == Some(bucket[i].id)
    {
      assert bucket[..i + 1][..i] == bucket[..i];
      assert bucket == bucket[..i + 1] + bucket[i + 1..];
      AnswersStay(bucket[..i + 1], bucket[i + 1..], name, 0);
    }

    /** `vd_meta_get_descriptor` */
    method GetDescriptor(id: nat) returns (desc: Option<Descriptor>)
      requires Valid()
      ensures desc == FirstDescriptor(list, id)
      ensures forall i: nat | FirstWithId(list, id, i) :: desc == Some(list[i])
      ensures desc.None? <==> forall i | 0 <= i < |list| :: list[i].id != id
    {
      FindsFirstDescriptor(list, id);
      var bucket := table[Slot(idHash(id), TABLE_CAP)];
      BucketFindsDescriptor(list, idHash, TABLE_CAP, id);
      var i := 0;
      while i < |bucket|
        invariant 0 <= i <= |bucket| && FirstDescriptor(bucket[..i], id) == None
      {
        assert bucket[..i + 1][..i] == bucket[..i];
        if bucket[i].id == id {
          FoundDescriptor(bucket, i, id);
          return Some(bucket[i]);
        }
        i := i + 1;
      }
      assert bucket[..i] == bucket;
      return None;
    }

    lemma FoundDescriptor(bucket: seq<Descriptor>, i: nat, id: nat)
      requires i < |bucket| && FirstDescriptor(bucket[..i], id) == None && bucket[i].id == id
      ensures FirstDescriptor(bucket, id) == Some(bucket[i])
    {
      assert bucket[..i + 1][..i] == bucket[..i];
      assert bucket == bucket[..i + 1] + bucket[i + 1..];
      AnswersStay(bucket[..i + 1], bucket[i + 1..], "", id);
    }
  }
}
