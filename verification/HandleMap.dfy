/** The reference-counted handle map of `lib/handlemap.c`. */
module HandleMaps {
  import opened Wrappers
  import opened IntChains
  import opened IntMaps

  datatype RefMode = Always | Count

  /** One element of `arr`: its `EntryMetadata` and the object. */
  datatype Slot<T> = Slot(refcount: int, refmode: RefMode, id: u64, value: T)

  /** What `vd_handlemap__register` was given. */
  datatype Registered<T> = Registered(value: T, refmode: RefMode)

  /** Ids are issued from 1, and slots from 0, in step. */
  function SlotOfId(len: nat): map<u64, u64>
    requires len <= WORD_MAX
  {
    map id: u64 | 1 <= id <= len :: SlotOf(id)
  }

  function SlotOf(id: u64): u64
    requires id > 0
  {
    id - 1
  }

  lemma NextId(len: nat)
    requires len < WORD_MAX
    ensures len + 1 !in SlotOfId(len)
    ensures SlotOfId(len + 1) == SlotOfId(len)[len + 1 := len]
  {
    assert SlotOf(len + 1) == len;
  }

  lemma IdKnown(len: nat, id: u64)
    requires len <= WORD_MAX && 1 <= id <= len
    ensures id in SlotOfId(len) && SlotOfId(len)[id] == id - 1
  {
    assert SlotOf(id) == id - 1;
  }

  /** Slot `i` holds what was registered there. A counted slot counts the live handles to it, and has
      been freed, once, if and only if there are none; any other slot keeps its count of one and has
      not been freed. */
  ghost predicate SlotOk<T(!new)>(slot: Slot<T>, i: nat, registered: seq<Registered<T>>, handles: multiset<u64>, freed: multiset<nat>)
    requires i < |registered| <= WORD_MAX
  {
    && slot.value == registered[i].value && slot.refmode == registered[i].refmode
    && slot.refcount == (if slot.refmode == Count then handles[i + 1] else 1)
    && slot.id == (if slot.refmode == Count && slot.refcount == 0 then 0 else i + 1)
    && freed[i] == (if slot.id == 0 then 1 else 0)
  }

  /** The state of the slots in use. */
  ghost predicate Consistent<T(!new)>(slots: seq<Slot<T>>, registered: seq<Registered<T>>, handles: multiset<u64>, freed: multiset<nat>) {
    && |slots| == |registered| < WORD_MAX
    && (forall i: nat {:trigger SlotOk(slots[i], i, registered, handles, freed)} | i < |slots| ::
          SlotOk(slots[i], i, registered, handles, freed))
    && (forall id | id in handles :: 1 <= id <= |slots|)
    && (forall i | i in freed :: i < |slots|)
  }

  lemma Registering<T(!new)>(slots: seq<Slot<T>>, registered: seq<Registered<T>>, handles: multiset<u64>, freed: multiset<nat>,
                             mode: RefMode, value: T)
    requires Consistent(slots, registered, handles, freed) && |slots| + 1 < WORD_MAX
    ensures handles[|slots| + 1] == 0
    ensures Consistent(slots + [Slot(1, mode, |slots| + 1, value)], registered + [Registered(value, mode)],
                       handles + multiset{|slots| + 1}, freed)
  {
    var slots', registered', handles' :=
      slots + [Slot(1, mode, |slots| + 1, value)], registered + [Registered(value, mode)], handles + multiset{|slots| + 1};
    forall i: nat | i < |slots'| ensures SlotOk(slots'[i], i, registered', handles', freed) {
      if i < |slots| {
        assert SlotOk(slots[i], i, registered, handles, freed);
      }
    }
  }

  lemma Appended<T>(slots: seq<Slot<T>>, slots': seq<Slot<T>>, s: Slot<T>)
    requires |slots'| == |slots| + 1 && slots'[..|slots|] == slots && slots'[|slots|] == s
    ensures slots' == slots + [s]
  {
  }

  lemma Copying<T(!new)>(slots: seq<Slot<T>>, registered: seq<Registered<T>>, handles: multiset<u64>, freed: multiset<nat>, id: u64)
    requires Consistent(slots, registered, handles, freed) && id in handles
    ensures 1 <= id <= |slots|
    ensures var s := slots[id - 1];
            Consistent(if s.refmode == Count then slots[id - 1 := s.(refcount := s.refcount + 1)] else slots,
                       registered, handles + multiset{id}, freed)
  {
    var s := slots[id - 1];
    var slots' := if s.refmode == Count then slots[id - 1 := s.(refcount := s.refcount + 1)] else slots;
    var handles' := handles + multiset{id};
    forall i: nat | i < |slots'| ensures SlotOk(slots'[i], i, registered, handles', freed) {
      assert SlotOk(slots[i], i, registered, handles, freed);
    }
  }

  /** The slot after one of its handles has been dropped. */
  function Dropped<T>(s: Slot<T>): Slot<T> {
    if s.refmode == Count then
      var t := s.(refcount := s.refcount - 1);
      if t.refcount == 0 then t.(id := 0) else t
    else s
  }

  /** `id` leads to a counted slot, and only one live handle has it. */
  predicate LastOfCounted<T>(slots: seq<Slot<T>>, handles: multiset<u64>, id: u64) {
    1 <= id <= |slots| && slots[id - 1].refmode == Count && handles[id] == 1
  }

  lemma Dropping<T(!new)>(slots: seq<Slot<T>>, registered: seq<Registered<T>>, handles: multiset<u64>, freed: multiset<nat>, id: u64)
    requires Consistent(slots, registered, handles, freed) && id in handles
    ensures 1 <= id <= |slots|
    ensures var s := slots[id - 1];
            && (s.refmode == Count ==> s.refcount > 0)
            && (s.refmode == Count && s.refcount == 1 <==> LastOfCounted(slots, handles, id))
            && Consistent(slots[id - 1 := Dropped(s)], registered, handles - multiset{id},
                          freed + (if LastOfCounted(slots, handles, id) then multiset{id - 1} else multiset{}))
  {
    var s := slots[id - 1];
    assert SlotOk(s, id - 1, registered, handles, freed);
    var slots', handles' := slots[id - 1 := Dropped(s)], handles - multiset{id};
    var freed' := freed + (if LastOfCounted(slots, handles, id) then multiset{id - 1} else multiset{});
    forall i: nat | i < |slots'| ensures SlotOk(slots'[i], i, registered, handles', freed') {
      assert SlotOk(slots[i], i, registered, handles, freed);
    }
  }

  lemma FreedIffCleared<T(!new)>(slots: seq<Slot<T>>, registered: seq<Registered<T>>, handles: multiset<u64>, freed: multiset<nat>, i: nat)
    requires Consistent(slots, registered, handles, freed)
    ensures freed[i] == if i < |slots| && slots[i].id == 0 then 1 else 0
    ensures i in freed ==> i < |slots| && slots[i].refmode == Count && handles[i + 1] == 0
    ensures i < |slots| ==> slots[i].value == registered[i].value && slots[i].refmode == registered[i].refmode
  {
    if i < |slots| {
      assert SlotOk(slots[i], i, registered, handles, freed);
    }
  }

  lemma {:induction false} OnceEach(freed: multiset<nat>, n: nat)
    requires forall i: nat :: freed[i] == if i < n then 1 else 0
    ensures |freed| == n
  {
    if n == 0 {
      assert freed == multiset{};
    } else {
      var rest := freed - multiset{n - 1};
      forall i: nat ensures rest[i] == if i < n - 1 then 1 else 0 {
        assert freed[i] == if i < n then 1 else 0;
      }
      OnceEach(rest, n - 1);
      assert freed == rest + multiset{n - 1};
    }
  }

  class Handle {
    var id: u64

    constructor (id: u64)
      ensures this.id == id
    {
      this.id := id;
    }
  }

  class HandleMap<T(0,!new)> {
    var arr: array<Slot<T>>
    var arrLen: nat
    var nextId: nat
    const idmap: IntMap

    /** The ids of the handles that register and copy have given out and that have not been dropped. */
    ghost var handles: multiset<u64>
    /** The objects in the order in which they were registered. */
    ghost var registered: seq<Registered<T>>
    /** The slots for which `on_free_object` has run. */
    ghost var freed: multiset<nat>

    ghost predicate Valid()
      reads this, arr, idmap, idmap.table
    {
      && 0 < arr.Length && arrLen <= arr.Length && arrLen < WORD_MAX && nextId == arrLen + 1
      && idmap.Valid() && !idmap.noAutogrow && idmap.Model() == SlotOfId(arrLen)
      && Consistent(arr[..arrLen], registered, handles, freed)
    }

    /** `vd_handlemap__init` */
    constructor (hash: Hash, initialCapacity: nat)
      requires initialCapacity > 0
      ensures Valid() && handles == multiset{} && registered == [] && freed == multiset{}
      ensures fresh(arr) && fresh(idmap) && fresh(idmap.table)
    {
      arr := new Slot<T>[initialCapacity];
      arrLen := 0;
      nextId := 1;
      idmap := new IntMap(hash, initialCapacity, false);
      handles, registered, freed := multiset{}, [], multiset{};
    }

    /** `allocate_slot` */
    method AllocateSlot() returns (slot: nat)
      requires 0 < arr.Length && arrLen <= arr.Length
      modifies this`arr, this`arrLen
      ensures slot == old(arrLen) && arrLen == slot + 1 <= arr.Length
      ensures if old(arrLen == arr.Length) then fresh(arr) && arr.Length == 2 * old(arr.Length) else arr == old(arr)
      ensures arr[..slot] == old(arr[..arrLen])
    {
      if arrLen == arr.Length {
        var grown := new Slot<T>[2 * arr.Length];
        forall i | 0 <= i < arrLen {
          grown[i] := arr[i];
        }
        arr := grown;
      }

      slot := arrLen;
      arrLen := arrLen + 1;
    }

    method Write(slot: nat, s: Slot<T>)
      requires slot < arrLen <= arr.Length
      modifies arr
      ensures arr[..arrLen] == old(arr[..arrLen])[slot := s] && arr[slot] == s
    {
      arr[slot] := s;
    }

    lemma Parts()
      requires Valid()
      ensures 0 < arr.Length && arrLen <= arr.Length && arrLen == |registered| < WORD_MAX && nextId == arrLen + 1
      ensures idmap.Valid() && !idmap.noAutogrow && idmap.Model() == SlotOfId(arrLen)
      ensures Consistent(arr[..arrLen], registered, handles, freed)
    {
    }

    lemma IsValid()
      requires 0 < arr.Length && arrLen <= arr.Length && arrLen < WORD_MAX && nextId == arrLen + 1
      requires idmap.Valid() && !idmap.noAutogrow && idmap.Model() == SlotOfId(arrLen)
      requires Consistent(arr[..arrLen], registered, handles, freed)
      ensures Valid()
    {
    }

    /** `vd_handlemap__register` */
    method Register(value: T, refMode: RefMode) returns (h: Handle)
      requires Valid() && arrLen + 1 < WORD_MAX
      modifies this, arr, idmap, idmap.table
      ensures Valid() && fresh(h) && (arr == old(arr) || fresh(arr))
      ensures idmap.table == old(idmap.table) || fresh(idmap.table)
      ensures registered == old(registered) + [Registered(value, refMode)] && h.id == |registered|
      ensures handles == old(handles) + multiset{h.id} && old(handles)[h.id] == 0
      ensures freed == old(freed) && arrLen == old(arrLen) + 1 <= arr.Length
      ensures arr[..arrLen] == old(arr[..arrLen]) + [Slot(1, refMode, h.id, value)]
    {
      Parts();
      NextId(arrLen);
      Registering(arr[..arrLen], registered, handles, freed, refMode, value);
      ghost var slots := arr[..arrLen];
      hide *;
      var id: u64 := nextId;
      var slot := AllocateSlot();
      var _ := idmap.Set(id, slot);
      Fill(slots, slot, id, value, refMode);
      h := new Handle(id);
    }

    /** Writes the metadata and the object of a new slot. */
    method Fill(ghost slots: seq<Slot<T>>, slot: nat, id: u64, value: T, refMode: RefMode)
      requires slot == |slots| && arrLen == slot + 1 <= arr.Length && arrLen < WORD_MAX && arr[..slot] == slots
      requires nextId == id == slot + 1
      requires idmap.Valid() && !idmap.noAutogrow && idmap.Model() == SlotOfId(arrLen)
      requires Consistent(slots + [Slot(1, refMode, id, value)], registered + [Registered(value, refMode)], handles + multiset{id}, freed)
      modifies this`nextId, this`registered, this`handles, arr
      ensures Valid() && arr[..arrLen] == slots + [Slot(1, refMode, id, value)]
      ensures registered == old(registered) + [Registered(value, refMode)] && handles == old(handles) + multiset{id}
    {
      hide *;
      Write(slot, Slot(1, refMode, id, value));
      Appended(slots, arr[..arrLen], Slot(1, refMode, id, value));
      nextId := nextId + 1;
      registered := registered + [Registered(value, refMode)];
      handles := handles + multiset{id};
      IsValid();
    }

    /** The id has not been issued, and the id map says so. It does unless the home slot of the id is empty. */
    ghost predicate Unknown(id: u64)
      reads this, idmap, idmap.table
    {
      && !(1 <= id <= arrLen)
      && 0 < idmap.cap <= idmap.table.Length && idmap.table[HomeSlot(idmap.hash, idmap.cap, id)].used
    }

    /** `vd_handle_use`: the slot that the handle resolves to. An id that has not been issued resolves to
        slot 0 if its home slot in the id map is empty. */
    method Use(h: Handle) returns (slot: Option<nat>)
      requires Valid()
      ensures 1 <= h.id <= arrLen ==>
                && slot == Some(h.id - 1) && h.id <= arr.Length && |registered| == arrLen
                && arr[h.id - 1].value == registered[h.id - 1].value
      ensures h.id in handles ==> 1 <= h.id <= arrLen
      ensures !(1 <= h.id <= arrLen) ==> slot == if Unknown(h.id) then None else Some(0)
    {
      Parts();
      idmap.Parts();
      var found, s := idmap.TryGet(h.id);
      if 1 <= h.id <= arrLen {
        IdKnown(arrLen, h.id);
        FreedIffCleared(arr[..arrLen], registered, handles, freed, h.id - 1);
      } else {
        assert h.id !in idmap.Model();
      }
      slot := if found then Some(s) else None;
    }

    /** `vd_handlemap_copy` of a live handle, or of one that is unknown. */
    method Copy(h: Handle) returns (c: Handle)
      requires Valid() && (h.id in handles || Unknown(h.id))
      modifies this`handles, arr
      ensures Valid() && fresh(c)
      ensures h.id in old(handles) ==> c.id == h.id && handles == old(handles) + multiset{h.id}
      ensures h.id !in old(handles) ==> c.id == 0 && handles == old(handles) && unchanged(arr)
    {
      hide *;
      var slot := Resolve(h);
      if slot.None? {
        return new Handle(0);
      }
      Retain(slot.value, h.id);
      c := new Handle(h.id);
    }

    /** One more handle to the slot of a live one. */
    method Retain(slot: nat, ghost id: u64)
      requires Valid() && id in handles && slot == id - 1 && slot < arrLen <= arr.Length
      modifies this`handles, arr
      ensures Valid() && handles == old(handles) + multiset{id}
    {
      hide *;
      Parts();
      ghost var slots := arr[..arrLen];
      Copying(slots, registered, handles, freed, id);
      assert arr[slot] == slots[slot];
      if arr[slot].refmode == Count {
        Write(slot, arr[slot].(refcount := arr[slot].refcount + 1));
      }
      handles := handles + multiset{id};
      IsValid();
    }

    method Resolve(h: Handle) returns (slot: Option<nat>)
      requires Valid() && (h.id in handles || Unknown(h.id))
      ensures slot == if h.id in handles then Some(h.id - 1) else None
      ensures h.id in handles ==> 1 <= h.id <= arrLen <= arr.Length
    {
      var found, s := idmap.TryGet(h.id);
      Parts();
      idmap.Parts();
      if h.id in handles {
        IdKnown(arrLen, h.id);
      } else {
        assert h.id !in idmap.Model();
      }
      slot := if found then Some(s) else None;
    }

    /** `vd_handle_drop` of a live handle, or of one that is unknown. The object is freed exactly when this is
        the last handle to a counted slot. */
    method Drop(h: Handle)
      requires Valid() && (h.id in handles || Unknown(h.id))
      modifies this`handles, this`freed, arr, h
      ensures Valid()
      ensures old(h.id) in old(handles) ==>
                && h.id == 0 && handles == old(handles) - multiset{old(h.id)}
                && freed == old(freed) + (if LastOfCounted(old(arr[..arrLen]), old(handles), old(h.id))
                                          then multiset{old(h.id) - 1} else multiset{})
      ensures old(h.id) !in old(handles) ==>
                h.id == old(h.id) && handles == old(handles) && freed == old(freed) && unchanged(arr)
    {
      hide *;
      Parts();
      var slot := Resolve(h);
      if slot.None? {
        return;
      }
      DropSlot(slot.value, h.id);
      Clear(h);
    }

    method Clear(h: Handle)
      requires Valid()
      modifies h
      ensures Valid() && h.id == 0
    {
      hide *;
      Parts();
      h.id := 0;
      IsValid();
    }

    /** One handle fewer to the slot of a live one. */
    method DropSlot(slot: nat, ghost id: u64)
      requires Valid() && id in handles && slot == id - 1 && slot < arrLen <= arr.Length
      modifies this`handles, this`freed, arr
      ensures Valid() && handles == old(handles) - multiset{id}
      ensures freed == old(freed) + (if LastOfCounted(old(arr[..arrLen]), old(handles), id)
                                     then multiset{slot} else multiset{})
    {
      hide *;
      Parts();
      ghost var slots := arr[..arrLen];
      Dropping(slots, registered, handles, freed, id);
      assert arr[slot] == slots[slot];
      Release(slot);
      handles := handles - multiset{id};
      IsValid();
    }

    /** Drops one reference to a counted slot. The assertion is the one of the C. */
    method Release(slot: nat)
      requires slot < arrLen <= arr.Length && (arr[slot].refmode == Count ==> arr[slot].refcount > 0)
      modifies this`freed, arr
      ensures arr[..arrLen] == old(arr[..arrLen])[slot := Dropped(old(arr[slot]))]
      ensures freed == old(freed) + (if old(arr[slot].refmode == Count && arr[slot].refcount == 1)
                                     then multiset{slot} else multiset{})
    {
      if arr[slot].refmode == Count {
        arr[slot] := arr[slot].(refcount := arr[slot].refcount - 1);

        assert !(arr[slot].refcount < 0);
        if arr[slot].refcount == 0 {
          freed := freed + multiset{slot};
          arr[slot] := arr[slot].(id := 0);
        }
      }
    }

    /** `vd_handlemap__deinit`: afterwards every object has been freed exactly once. */
    method Deinit()
      requires Valid()
      modifies this`freed
      ensures forall i: nat :: freed[i] == if i < |registered| then 1 else 0
      ensures |freed| == |registered|
    {
      Parts();
      ghost var slots, freed0 := arr[..arrLen], freed;
      forall i: nat ensures freed[i] == if i < |slots| && slots[i].id == 0 then 1 else 0 {
        FreedIffCleared(slots, registered, handles, freed, i);
      }
      hide *;
      var i := 0;
      while i < arrLen
        invariant 0 <= i <= arrLen
        invariant forall j: nat :: freed[j] == if j < i then 1 else freed0[j]
      {
        assert arr[i] == slots[i] && freed0[i] == if slots[i].id == 0 then 1 else 0;
        if arr[i].id != 0 {
          freed := freed + multiset{i};
        }
        i := i + 1;
      }
      OnceEach(freed, |registered|);
    }

    /** A slot that has been freed is a counted one, and no live handle leads to it. */
    lemma FreedHasNoHandle(i: nat)
      requires Valid() && i in freed
      ensures i < arrLen && arr[i].refmode == Count && handles[i + 1] == 0 && freed[i] == 1
    {
      FreedIffCleared(arr[..arrLen], registered, handles, freed, i);
    }
  }
}
