/** Coalesced chains, the layout behind `lib/intmap.c`. Entries refer to one another by index; a null
    `next` is `None`. */
module IntChains {
  import opened Wrappers

  const WORD_MAX := 0xFFFF_FFFF_FFFF_FFFF

  type u64 = x: nat | x <= WORD_MAX

  datatype Entry = Entry(next: Option<nat>, used: bool, k: u64, v: u64)

  const EMPTY: Entry := Entry(None, false, 0, 0)

  type Hash = u64 -> nat

  function HomeSlot(hash: Hash, cap: nat, k: u64): (h: nat)
    requires cap > 0
    ensures h < cap
  {
    hash(k) % cap
  }

  /** From entry `i` the links lead to entry `j`. Each link leads to an entry with a later stamp, below `n`. */
  ghost predicate Leads(table: seq<Entry>, stamp: seq<nat>, n: nat, i: nat, j: nat)
    requires |table| == |stamp|
    decreases if i < |stamp| && stamp[i] < n then n - stamp[i] else 0
  {
    i < |table| &&
    (i == j ||
     (table[i].next.Some? &&
      var s := table[i].next.value;
      s < |table| && stamp[i] < stamp[s] < n && Leads(table, stamp, n, s, j)))
  }

  /** The invariant of a table with home region `cap` and `n` used entries. `stamp` orders the entries
      by insertion, and `slots` tells where each bound key is. */
  ghost predicate Chained(hash: Hash, cap: nat, table: seq<Entry>, stamp: seq<nat>, slots: map<u64, nat>, n: nat) {
    && 0 < cap <= |table| == |stamp|
    && n == CountUsed(table)
    && (forall i: nat {:trigger IsEntry(table, stamp, slots, n, i)} | i < |table| :: IsEntry(table, stamp, slots, n, i))
    && (forall k {:trigger IsBound(hash, cap, table, stamp, slots, n, k)} | k in slots ::
          IsBound(hash, cap, table, stamp, slots, n, k))
  }

  /** A used entry holds a bound key and links only to a later used entry; an unused one is zeroed. */
  ghost predicate IsEntry(table: seq<Entry>, stamp: seq<nat>, slots: map<u64, nat>, n: nat, i: nat)
    requires i < |table| == |stamp|
  {
    if table[i].used then
      && stamp[i] < n
      && table[i].k in slots && slots[table[i].k] == i
      && (table[i].next.Some? ==>
            var s := table[i].next.value;
            s < |table| && table[s].used && stamp[i] < stamp[s] < n)
    else table[i] == EMPTY
  }

  /** A bound key is in a used entry to which its home slot leads. */
  ghost predicate IsBound(hash: Hash, cap: nat, table: seq<Entry>, stamp: seq<nat>, slots: map<u64, nat>, n: nat, k: u64)
    requires cap > 0 && |table| == |stamp| && k in slots
  {
    && slots[k] < |table| && table[slots[k]].used && table[slots[k]].k == k
    && Leads(table, stamp, n, HomeSlot(hash, cap, k), slots[k])
  }

  function CountUsed(table: seq<Entry>): nat {
    if table == [] then 0 else CountUsed(table[..|table| - 1]) + (if table[|table| - 1].used then 1 else 0)
  }

  lemma {:induction false} CountBounds(table: seq<Entry>)
    ensures CountUsed(table) <= |table|
    ensures CountUsed(table) == |table| <==> forall i | 0 <= i < |table| :: table[i].used
  {
    if table != [] {
      var t := table[..|table| - 1];
      CountBounds(t);
      if forall i | 0 <= i < |t| :: t[i].used {
        assert forall i | 0 <= i < |table| - 1 :: table[i] == t[i];
      } else {
        var i :| 0 <= i < |t| && !t[i].used;
        assert !table[i].used;
      }
    }
  }

  lemma {:induction false} CountUpdate(table: seq<Entry>, i: nat, e: Entry)
    requires i < |table|
    ensures CountUsed(table[i := e]) ==
            CountUsed(table) - (if table[i].used then 1 else 0) + (if e.used then 1 else 0)
  {
    var t := table[..|table| - 1];
    if i == |table| - 1 {
      assert table[i := e][..|table| - 1] == t;
    } else {
      assert table[i := e][..|table| - 1] == t[i := e];
      CountUpdate(t, i, e);
    }
  }

  lemma {:induction false} CountEmpty(table: seq<Entry>)
    requires forall i | 0 <= i < |table| :: !table[i].used
    ensures CountUsed(table) == 0
  {
    if table != [] {
      CountEmpty(table[..|table| - 1]);
    }
  }

  /** Following one more link. */
  lemma {:induction false} LeadsOn(table: seq<Entry>, stamp: seq<nat>, n: nat, i: nat, c: nat)
    requires |table| == |stamp| && Leads(table, stamp, n, i, c)
    requires c < |table| && table[c].next.Some?
    requires var s := table[c].next.value; s < |table| && stamp[c] < stamp[s] < n
    ensures Leads(table, stamp, n, i, table[c].next.value)
    decreases if i < |stamp| && stamp[i] < n then n - stamp[i] else 0
  {
    if i == c {
      var s := table[c].next.value;
      assert Leads(table, stamp, n, s, s);
    } else {
      LeadsOn(table, stamp, n, table[i].next.value, c);
    }
  }

  /** Links run forward in insertion order. */
  lemma {:induction false} LeadsLater(table: seq<Entry>, stamp: seq<nat>, n: nat, i: nat, j: nat)
    requires |table| == |stamp| && Leads(table, stamp, n, i, j)
    ensures i != j ==> j < |stamp| && stamp[i] < stamp[j]
    decreases if i < |stamp| && stamp[i] < n then n - stamp[i] else 0
  {
    if i != j {
      LeadsLater(table, stamp, n, table[i].next.value, j);
    }
  }

  /** Links stay in the table, lead to used entries only, and never lead back. */
  lemma LinksAcyclic(hash: Hash, cap: nat, table: seq<Entry>, stamp: seq<nat>, slots: map<u64, nat>, n: nat, i: nat)
    requires Chained(hash, cap, table, stamp, slots, n) && i < |table| && table[i].next.Some?
    ensures var s := table[i].next.value;
            table[i].used && s < |table| && table[s].used && !Leads(table, stamp, n, s, i)
  {
    assert IsEntry(table, stamp, slots, n, i);
    if Leads(table, stamp, n, table[i].next.value, i) {
      LeadsLater(table, stamp, n, table[i].next.value, i);
    }
  }

  /** Every used entry is reached from the home slot of its key. */
  lemma UsedReachable(hash: Hash, cap: nat, table: seq<Entry>, stamp: seq<nat>, slots: map<u64, nat>, n: nat, i: nat)
    requires Chained(hash, cap, table, stamp, slots, n) && i < |table| && table[i].used
    ensures Leads(table, stamp, n, HomeSlot(hash, cap, table[i].k), i)
  {
    assert IsEntry(table, stamp, slots, n, i);
    assert IsBound(hash, cap, table, stamp, slots, n, table[i].k);
  }

  /** The table after `k := v` has gone to the unused entry `f`, behind the chain end `t` unless `f` is
      the home slot itself. */
  function Inserted(table: seq<Entry>, t: Option<nat>, f: nat, k: u64, v: u64): seq<Entry>
    requires f < |table| && (t.Some? ==> t.value < |table|)
  {
    (if t.Some? then table[t.value := table[t.value].(next := Some(f))] else table)[f := Entry(None, true, k, v)]
  }

  lemma InsertedAt(table: seq<Entry>, t: Option<nat>, f: nat, k: u64, v: u64, i: nat)
    requires f < |table| && (t.Some? ==> t.value < |table| && t.value != f) && i < |table|
    ensures |Inserted(table, t, f, k, v)| == |table|
    ensures Inserted(table, t, f, k, v)[i] ==
            if i == f then Entry(None, true, k, v)
            else if t == Some(i) then table[i].(next := Some(f))
            else table[i]
  {
  }

  /** Insertion breaks no way between entries. */
  lemma {:induction false} LeadsStill(hash: Hash, cap: nat, table: seq<Entry>, stamp: seq<nat>, slots: map<u64, nat>, n: nat,
                                      t: Option<nat>, f: nat, k: u64, v: u64, i: nat, j: nat)
    requires Chained(hash, cap, table, stamp, slots, n)
    requires f < |table| && !table[f].used && (t.Some? ==> t.value < |table| && table[t.value].next.None?)
    requires t.Some? ==> t.value != f
    requires i < |table| && table[i].used && Leads(table, stamp, n, i, j)
    ensures |Inserted(table, t, f, k, v)| == |stamp[f := n]|
    ensures Leads(Inserted(table, t, f, k, v), stamp[f := n], n + 1, i, j)
    decreases if stamp[i] < n then n - stamp[i] else 0
  {
    InsertedAt(table, t, f, k, v, i);
    if i != j {
      assert IsEntry(table, stamp, slots, n, i);
      LeadsStill(hash, cap, table, stamp, slots, n, t, f, k, v, table[i].next.value, j);
    }
  }

  lemma InsertEntry(table: seq<Entry>, stamp: seq<nat>, slots: map<u64, nat>, n: nat,
                    t: Option<nat>, f: nat, k: u64, v: u64, i: nat)
    requires i < |table| == |stamp| && IsEntry(table, stamp, slots, n, i)
    requires f < |table| && !table[f].used && k !in slots
    requires t.Some? ==> t.value < |table| && table[t.value].used && t.value != f
    ensures |Inserted(table, t, f, k, v)| == |stamp[f := n]|
    ensures IsEntry(Inserted(table, t, f, k, v), stamp[f := n], slots[k := f], n + 1, i)
  {
    var table' := Inserted(table, t, f, k, v);
    InsertedAt(table, t, f, k, v, i);
    if table[i].used && table[i].next.Some? {
      InsertedAt(table, t, f, k, v, table[i].next.value);
    }
    InsertedAt(table, t, f, k, v, f);
  }

  lemma InsertBound(hash: Hash, cap: nat, table: seq<Entry>, stamp: seq<nat>, slots: map<u64, nat>, n: nat,
                    t: Option<nat>, f: nat, k: u64, v: u64, q: u64)
    requires Chained(hash, cap, table, stamp, slots, n)
    requires f < |table| && !table[f].used && k !in slots && q in slots
    requires t.Some? ==> t.value < |table| && table[t.value].used && table[t.value].next.None? && t.value != f
    ensures |Inserted(table, t, f, k, v)| == |stamp[f := n]|
    ensures IsBound(hash, cap, Inserted(table, t, f, k, v), stamp[f := n], slots[k := f], n + 1, q)
  {
    assert IsBound(hash, cap, table, stamp, slots, n, q);
    InsertedAt(table, t, f, k, v, slots[q]);
    var h := HomeSlot(hash, cap, q);
    UsedHome(hash, cap, table, stamp, slots, n, q);
    LeadsStill(hash, cap, table, stamp, slots, n, t, f, k, v, h, slots[q]);
  }

  /** The home slot of a bound key is in use. */
  lemma UsedHome(hash: Hash, cap: nat, table: seq<Entry>, stamp: seq<nat>, slots: map<u64, nat>, n: nat, q: u64)
    requires Chained(hash, cap, table, stamp, slots, n) && q in slots
    ensures table[HomeSlot(hash, cap, q)].used
  {
    assert IsBound(hash, cap, table, stamp, slots, n, q);
    assert IsEntry(table, stamp, slots, n, HomeSlot(hash, cap, q));
  }

  lemma InsertNew(hash: Hash, cap: nat, table: seq<Entry>, stamp: seq<nat>, slots: map<u64, nat>, n: nat,
                  t: Option<nat>, f: nat, k: u64, v: u64)
    requires Chained(hash, cap, table, stamp, slots, n)
    requires f < |table| && !table[f].used && k !in slots
    requires t.Some? ==> t.value < |table| && table[t.value].used && table[t.value].next.None? && t.value != f
    requires if t.Some? then table[HomeSlot(hash, cap, k)].used && Leads(table, stamp, n, HomeSlot(hash, cap, k), t.value)
             else f == HomeSlot(hash, cap, k)
    ensures |Inserted(table, t, f, k, v)| == |stamp[f := n]|
    ensures IsBound(hash, cap, Inserted(table, t, f, k, v), stamp[f := n], slots[k := f], n + 1, k)
  {
    var table', stamp' := Inserted(table, t, f, k, v), stamp[f := n];
    InsertedAt(table, t, f, k, v, f);
    if t.Some? {
      var h := HomeSlot(hash, cap, k);
      LeadsStill(hash, cap, table, stamp, slots, n, t, f, k, v, h, t.value);
      InsertedAt(table, t, f, k, v, t.value);
      assert IsEntry(table, stamp, slots, n, t.value);
      LeadsOn(table', stamp', n + 1, h, t.value);
    }
  }

  lemma Insert(hash: Hash, cap: nat, table: seq<Entry>, stamp: seq<nat>, slots: map<u64, nat>, n: nat,
               t: Option<nat>, f: nat, k: u64, v: u64)
    requires Chained(hash, cap, table, stamp, slots, n)
    requires f < |table| && !table[f].used && k !in slots
    requires t.Some? ==> t.value < |table| && table[t.value].used && table[t.value].next.None? && t.value != f
    requires if t.Some? then table[HomeSlot(hash, cap, k)].used && Leads(table, stamp, n, HomeSlot(hash, cap, k), t.value)
             else f == HomeSlot(hash, cap, k)
    ensures Chained(hash, cap, Inserted(table, t, f, k, v), stamp[f := n], slots[k := f], n + 1)
  {
    var table', stamp', slots', n' := Inserted(table, t, f, k, v), stamp[f := n], slots[k := f], n + 1;
    var linked := if t.Some? then table[t.value := table[t.value].(next := Some(f))] else table;
    if t.Some? {
      CountUpdate(table, t.value, table[t.value].(next := Some(f)));
    }
    CountUpdate(linked, f, Entry(None, true, k, v));
    forall i: nat | i < |table'| ensures IsEntry(table', stamp', slots', n', i) {
      assert IsEntry(table, stamp, slots, n, i);
      InsertEntry(table, stamp, slots, n, t, f, k, v, i);
    }
    forall q | q in slots' ensures IsBound(hash, cap, table', stamp', slots', n', q) {
      if q == k {
        InsertNew(hash, cap, table, stamp, slots, n, t, f, k, v);
      } else {
        InsertBound(hash, cap, table, stamp, slots, n, t, f, k, v, q);
      }
    }
  }

  lemma EmptyTable(hash: Hash, cap: nat, table: seq<Entry>, stamp: seq<nat>)
    requires 0 < cap <= |table| == |stamp| && forall i | 0 <= i < |table| :: table[i] == EMPTY
    ensures Chained(hash, cap, table, stamp, map[], 0)
  {
    CountEmpty(table);
  }

  /** What the table binds. */
  function Bindings(table: seq<Entry>, slots: map<u64, nat>): map<u64, u64> {
    map k | k in slots && slots[k] < |table| :: table[slots[k]].v
  }

  lemma InsertBinding(hash: Hash, cap: nat, table: seq<Entry>, stamp: seq<nat>, slots: map<u64, nat>, n: nat,
                      t: Option<nat>, f: nat, k: u64, v: u64)
    requires Chained(hash, cap, table, stamp, slots, n)
    requires f < |table| && !table[f].used && k !in slots
    requires t.Some? ==> t.value < |table| && table[t.value].used && t.value != f
    ensures Bindings(Inserted(table, t, f, k, v), slots[k := f]) == Bindings(table, slots)[k := v]
    ensures Bindings(table, slots).Keys == slots.Keys
  {
    forall q | q in slots ensures slots[q] < |table| && slots[q] != f {
      assert IsBound(hash, cap, table, stamp, slots, n, q);
    }
    forall q | q in slots ensures Inserted(table, t, f, k, v)[slots[q]].v == table[slots[q]].v {
      InsertedAt(table, t, f, k, v, slots[q]);
    }
    InsertedAt(table, t, f, k, v, f);
  }

  /** A walk for `k` that stands at the used entry `e`: either `k` is bound and still ahead, or it is not bound. */
  ghost predicate Walking(hash: Hash, cap: nat, table: seq<Entry>, stamp: seq<nat>, slots: map<u64, nat>, n: nat, k: u64, e: nat) {
    && Chained(hash, cap, table, stamp, slots, n)
    && e < |table|
    && (k in slots ==> table[e].used && Leads(table, stamp, n, e, slots[k]))
  }

  lemma WalkStart(hash: Hash, cap: nat, table: seq<Entry>, stamp: seq<nat>, slots: map<u64, nat>, n: nat, k: u64)
    requires Chained(hash, cap, table, stamp, slots, n)
    ensures Walking(hash, cap, table, stamp, slots, n, k, HomeSlot(hash, cap, k))
  {
    if k in slots {
      UsedHome(hash, cap, table, stamp, slots, n, k);
      assert IsBound(hash, cap, table, stamp, slots, n, k);
    }
  }

  lemma WalkStep(hash: Hash, cap: nat, table: seq<Entry>, stamp: seq<nat>, slots: map<u64, nat>, n: nat, k: u64, e: nat)
    requires Walking(hash, cap, table, stamp, slots, n, k, e) && table[e].used && table[e].k != k
    ensures table[e].next.Some? ==>
              var s := table[e].next.value;
              && Walking(hash, cap, table, stamp, slots, n, k, s) && table[s].used
              && |stamp| == |table| && stamp[e] < stamp[s] < n
    ensures table[e].next.None? ==> k !in slots
  {
    assert IsEntry(table, stamp, slots, n, e);
    if k in slots {
      assert IsBound(hash, cap, table, stamp, slots, n, k);
    }
  }

  lemma WalkEnd(hash: Hash, cap: nat, table: seq<Entry>, stamp: seq<nat>, slots: map<u64, nat>, n: nat, k: u64, e: nat)
    requires Walking(hash, cap, table, stamp, slots, n, k, e) && (!table[e].used || table[e].k == k)
    ensures table[e].used ==> k in slots && slots[k] == e
    ensures !table[e].used ==> k !in slots && table[e] == EMPTY
    ensures Bindings(table, slots).Keys == slots.Keys
    ensures k in slots ==> Bindings(table, slots)[k] == table[e].v
  {
    assert IsEntry(table, stamp, slots, n, e);
    BoundKeys(hash, cap, table, stamp, slots, n);
  }

  lemma BoundKeys(hash: Hash, cap: nat, table: seq<Entry>, stamp: seq<nat>, slots: map<u64, nat>, n: nat)
    requires Chained(hash, cap, table, stamp, slots, n)
    ensures Bindings(table, slots).Keys == slots.Keys
  {
    forall q | q in slots ensures slots[q] < |table| {
      assert IsBound(hash, cap, table, stamp, slots, n, q);
    }
  }

  lemma IsInserted(table: seq<Entry>, table': seq<Entry>, t: Option<nat>, f: nat, k: u64, v: u64)
    requires |table| == |table'| && f < |table| && (t.Some? ==> t.value < |table| && t.value != f)
    requires forall i | 0 <= i < |table| ::
               table'[i] == if i == f then Entry(None, true, k, v)
                            else if t == Some(i) then table[i].(next := Some(f)) else table[i]
    ensures table' == Inserted(table, t, f, k, v)
  {
  }

  /** The bindings held by the first `i` entries. */
  function Moved(table: seq<Entry>, slots: map<u64, nat>, i: nat): map<u64, u64> {
    map k | k in slots && slots[k] < i && slots[k] < |table| :: table[slots[k]].v
  }

  lemma MovedNone(table: seq<Entry>, slots: map<u64, nat>)
    ensures Moved(table, slots, 0) == map[]
  {
  }

  lemma MovedAll(table: seq<Entry>, slots: map<u64, nat>)
    ensures Moved(table, slots, |table|) == Bindings(table, slots)
  {
  }

  lemma MovedStep(hash: Hash, cap: nat, table: seq<Entry>, stamp: seq<nat>, slots: map<u64, nat>, n: nat, i: nat)
    requires Chained(hash, cap, table, stamp, slots, n) && i < |table|
    ensures table[i].used ==>
              && table[i].k !in Moved(table, slots, i)
              && Moved(table, slots, i + 1) == Moved(table, slots, i)[table[i].k := table[i].v]
    ensures !table[i].used ==> Moved(table, slots, i + 1) == Moved(table, slots, i)
  {
    assert IsEntry(table, stamp, slots, n, i);
    forall k | k in slots && slots[k] == i ensures table[i].used && table[i].k == k {
      assert IsBound(hash, cap, table, stamp, slots, n, k);
    }
  }

  /** One step towards the end of the chain that begins at the used entry `h`. */
  lemma ChainStep(hash: Hash, cap: nat, table: seq<Entry>, stamp: seq<nat>, slots: map<u64, nat>, n: nat, h: nat, c: nat)
    requires Chained(hash, cap, table, stamp, slots, n)
    requires c < |table| && table[c].used && Leads(table, stamp, n, h, c) && table[c].next.Some?
    ensures var s := table[c].next.value;
            && s < |table| == |stamp| && table[s].used && Leads(table, stamp, n, h, s) && stamp[c] < stamp[s] < n
  {
    assert IsEntry(table, stamp, slots, n, c);
    LeadsOn(table, stamp, n, h, c);
  }
}

/** The map of `lib/intmap.c`. */
module IntMaps {
  import opened Wrappers
  import opened IntChains

  /** The part of the table that keys hash to: all but the floor of a fifth. */
  function HomeRegion(capTotal: nat): (cap: nat)
    ensures capTotal > 0 ==> 0 < cap <= capTotal
    ensures 4 * capTotal <= 5 * cap < 4 * capTotal + 5
  {
    capTotal - (capTotal as real * 0.2).Floor
  }

  class IntMap {
    const hash: Hash
    const noAutogrow: bool
    var table: array<Entry>
    var cap: nat
    var usecount: nat
    ghost var stamp: seq<nat>
    ghost var slots: map<u64, nat>

    ghost predicate Valid()
      reads this, table
    {
      && cap == HomeRegion(table.Length)
      && Chained(hash, cap, table[..], stamp, slots, usecount)
    }

    ghost function Model(): map<u64, u64>
      reads this, table
    {
      Bindings(table[..], slots)
    }

    predicate Full()
      reads this
    {
      usecount == table.Length
    }

    /** `vd_intmap_init` */
    constructor (hash: Hash, capTotal: nat, noAutogrow: bool)
      requires capTotal > 0
      ensures Valid() && Model() == map[] && fresh(table)
      ensures table.Length == capTotal && usecount == 0
      ensures forall i | 0 <= i < table.Length :: table[i] == EMPTY
      ensures this.hash == hash && this.noAutogrow == noAutogrow
    {
      this.hash, this.noAutogrow := hash, noAutogrow;
      usecount := 0;
      cap := HomeRegion(capTotal);
      table := new Entry[capTotal](_ => EMPTY);
      stamp := seq(capTotal, _ => 0);
      slots := map[];
      new;
      EmptyTable(hash, cap, table[..], stamp);
    }

    /** `vd_intmap_tryget`. It also answers 1, with value 0, for an unbound key whose home slot is empty. */
    method TryGet(k: u64) returns (found: bool, v: u64)
      requires Valid()
      ensures k in Model() ==> found && v == Model()[k]
      ensures found <==> k in Model() || (0 < cap <= table.Length && !table[HomeSlot(hash, cap, k)].used)
      ensures found && k !in Model() ==> v == 0
    {
      WalkStart(hash, cap, table[..], stamp, slots, usecount, k);
      BoundKeys(hash, cap, table[..], stamp, slots, usecount);
      ghost var tbl := table[..];
      assert 0 < cap <= |tbl| == |stamp|;
      v := 0;
      var entry: nat := HomeSlot(hash, cap, k);
      ghost var home := entry;
      hide *;
      while table[entry].used && table[entry].k != k
        invariant entry < |tbl| && Walking(hash, cap, tbl, stamp, slots, usecount, k, entry)
        invariant tbl[home].used || entry == home
        invariant entry != home ==> tbl[entry].used
        decreases if tbl[entry].used && stamp[entry] < usecount then usecount - stamp[entry] else 0
      {
        WalkStep(hash, cap, tbl, stamp, slots, usecount, k, entry);
        if table[entry].next.Some? {
          entry := table[entry].next.value;
        } else {
          return false, 0;
        }
      }
      WalkEnd(hash, cap, tbl, stamp, slots, usecount, k, entry);
      v := table[entry].v;
      found := true;
    }

    /** Looks for an unused entry from the end of the table down. */
    method FreeSlot(existing: nat) returns (free: Option<nat>)
      requires existing < table.Length && table[existing].used
      ensures free.Some? ==> free.value < table.Length && !table[free.value].used
      ensures free.Some? ==> forall i | free.value < i < table.Length :: table[i].used
      ensures free.None? <==> forall i | 0 <= i < table.Length :: table[i].used
    {
      var curr: nat, cursor := existing, table.Length;
      while table[curr].used && cursor > 0
        invariant curr < table.Length && 0 <= cursor <= table.Length
        invariant curr == cursor || (cursor == table.Length && curr == existing)
        invariant forall i | cursor < i < table.Length :: table[i].used
        decreases cursor
      {
        cursor := cursor - 1;
        curr := cursor;
      }
      free := if table[curr].used then None else Some(curr);
    }

    /** Walks the chain of `existing` to its end. */
    method ChainEnd(existing: nat) returns (chain: nat)
      requires Valid() && existing < table.Length && table[existing].used
      ensures chain < table.Length && table[chain].used && table[chain].next.None?
      ensures |stamp| == table.Length && Leads(table[..], stamp, usecount, existing, chain)
    {
      ghost var tbl := table[..];
      chain := existing;
      assert |stamp| == table.Length && Leads(tbl, stamp, usecount, existing, existing);
      hide *;
      while table[chain].next.Some?
        invariant chain < |tbl| && tbl[chain].used && Leads(tbl, stamp, usecount, existing, chain)
        decreases if stamp[chain] < usecount then usecount - stamp[chain] else 0
      {
        ChainStep(hash, cap, tbl, stamp, slots, usecount, existing, chain);
        chain := table[chain].next.value;
      }
    }

    /** Links the unused entry `f` behind the chain end `t`, if there is one, and fills it. */
    method Fill(t: Option<nat>, f: nat, k: u64, v: u64)
      requires Valid() && k !in slots && f < table.Length && !table[f].used
      requires t.Some? ==> t.value < table.Length && table[t.value].used && table[t.value].next.None?
      requires 0 < cap <= table.Length == |stamp|
      requires if t.Some? then table[HomeSlot(hash, cap, k)].used && Leads(table[..], stamp, usecount, HomeSlot(hash, cap, k), t.value)
               else f == HomeSlot(hash, cap, k)
      modifies this`usecount, this`stamp, this`slots, table
      ensures Valid() && Model() == old(Model())[k := v] && usecount == old(usecount) + 1
    {
      hide *;
      ghost var tbl := table[..];
      Parts();
      Insert(hash, cap, tbl, stamp, slots, usecount, t, f, k, v);
      InsertBinding(hash, cap, tbl, stamp, slots, usecount, t, f, k, v);
      if t.Some? {
        table[t.value] := table[t.value].(next := Some(f));
      }
      table[f] := Entry(None, true, k, v);
      IsInserted(tbl, table[..], t, f, k, v);
      stamp, slots := stamp[f := usecount], slots[k := f];
      usecount := usecount + 1;
      IsValid();
    }

    lemma Parts()
      requires Valid()
      ensures Chained(hash, cap, table[..], stamp, slots, usecount) && Model() == Bindings(table[..], slots)
      ensures 0 < cap <= table.Length == |stamp| && cap == HomeRegion(table.Length)
    {
    }

    lemma IsValid()
      requires cap == HomeRegion(table.Length)
      requires Chained(hash, cap, table[..], stamp, slots, usecount)
      ensures Valid() && Model() == Bindings(table[..], slots)
    {
    }

    /** `vd_intmap_set`, for a key that is not bound yet. */
    method Set(k: u64, v: u64) returns (ok: bool)
      requires Valid() && k !in Model()
      modifies this, table
      ensures Valid()
      ensures ok <==> !noAutogrow || !old(Full())
      ensures Model() == if ok then old(Model())[k := v] else old(Model())
      ensures usecount == old(usecount) + (if ok then 1 else 0)
      ensures if !noAutogrow && old(Full()) then fresh(table) && table.Length == 2 * old(table.Length)
              else table == old(table)
      ensures !ok ==> unchanged(this) && unchanged(table)
      decreases if Full() then 1 else 0, 1
    {
      hide *;
      FullIff();
      if !noAutogrow {
        var _ := CheckGrow();
      }
      FullIff();
      Parts();
      BoundKeys(hash, cap, table[..], stamp, slots, usecount);
      var existing := HomeSlot(hash, cap, k);
      var curr, chain := existing, None;
      if table[existing].used {
        var free := FreeSlot(existing);
        if free.None? {
          return false;
        }
        curr := free.value;
        var last := ChainEnd(existing);
        chain := Some(last);
      }
      Fill(chain, curr, k, v);
      return true;
    }

    /** `vd_intmap_check_grow`. The inserts into the new table cannot find it full, so they do not grow it again. */
    method CheckGrow() returns (grew: bool)
      requires Valid()
      modifies this
      ensures Valid() && Model() == old(Model()) && usecount == old(usecount)
      ensures grew <==> old(Full())
      ensures if grew then fresh(table) && table.Length == 2 * old(table.Length) && !Full() else unchanged(this)
      decreases if Full() then 1 else 0, 0
    {
      if usecount != table.Length {
        return false;
      }

      Parts();
      FullIff();
      var newMap := new IntMap(hash, 2 * table.Length, noAutogrow);
      hide *;
      Rehash(newMap);
      table, cap, usecount := newMap.table, newMap.cap, newMap.usecount;
      stamp, slots := newMap.stamp, newMap.slots;
      newMap.Parts();
      IsValid();
      return true;
    }

    lemma FullIff()
      requires Valid()
      ensures 0 < table.Length && (Full() <==> forall i | 0 <= i < table.Length :: table[i].used)
    {
      CountBounds(table[..]);
      assert forall i | 0 <= i < table.Length :: table[..][i] == table[i];
    }

    /** The loop of `vd_intmap_check_grow`, over a full table. */
    method Rehash(newMap: IntMap)
      requires Valid() && Full() && newMap != this && newMap.table != table
      requires newMap.Valid() && newMap.usecount == 0 && newMap.Model() == map[] && newMap.table.Length == 2 * table.Length
      modifies newMap, newMap.table
      ensures newMap.Valid() && newMap.Model() == Model() && newMap.usecount == table.Length
      ensures newMap.table == old(newMap.table)
      decreases 0, 2
    {
      ghost var tbl := table[..];
      Parts();
      FullIff();
      MovedNone(tbl, slots);
      MovedAll(tbl, slots);
      var i := 0;
      while i < table.Length
        invariant 0 <= i <= |tbl| && table[..] == tbl
        invariant newMap.Valid() && newMap.table == old(newMap.table) && newMap.usecount == i
        invariant newMap.Model() == Moved(tbl, slots, i)
      {
        var entry := table[i];
        MovedStep(hash, cap, tbl, stamp, slots, usecount, i);
        hide *;
        assert entry == tbl[i];
        if entry.used {
          var _ := newMap.Set(entry.k, entry.v);
        }
        i := i + 1;
      }
    }

    /** A new map binds nothing, and yet it answers 1, with value 0, for every key. */
    static method NewMapAnswers(hash: Hash, capTotal: nat, noAutogrow: bool, k: u64) returns (m: IntMap, found: bool, v: u64)
      requires capTotal > 0
      ensures fresh(m) && m.Valid() && k !in m.Model()
      ensures found && v == 0
    {
      m := new IntMap(hash, capTotal, noAutogrow);
      m.Parts();
      found, v := m.TryGet(k);
    }
  }
}
