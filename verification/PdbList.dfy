/** The Palm database of libpdb/pdb.c in memory: its fields, and its records or
    resources on a linked list. */
module PdbList {
  import opened Bytes
  import opened Options
  import opened PdbFormat

  /** A record or a resource on the list: `struct pdb_record` or `struct pdb_resource`. */
  class Entry {
    var next: Entry?
    var offset: udword
    var key: Key
    var data: seq<ubyte>

    /** `new_Record`, `new_Resource`. */
    constructor (key: Key, data: seq<ubyte>)
      ensures this.key == key && this.data == data && next == null && offset == 0
    {
      this.key, this.data, next, offset := key, data, null, 0;
    }

    /** An entry of the index, whose data has not been read yet. */
    constructor FromIndex(key: Key, offset: udword)
      ensures this.key == key && this.offset == offset && next == null && data == []
    {
      this.key, this.offset, next, data := key, offset, null, [];
    }
  }

  /** What a C `int` of 32 bits makes of an unsigned number. */
  function AsInt(n: udword): int { if n < 0x8000_0000 then n else n - 0x1_0000_0000 }

  lemma IndexAsInt(index: uword)
    ensures AsInt(index) == index
  {
  }

  predicate HasID(it: Item, id: udword) { it.key.Rec? && it.key.uid == id }

  /** The first item with this id is item `k`; there is none if `k` is their number. */
  predicate FirstWithID(items: seq<Item>, id: udword, k: nat) {
    && k <= |items|
    && (forall j :: 0 <= j < k ==> !HasID(items[j], id))
    && (k < |items| ==> HasID(items[k], id))
  }

  ghost predicate Distinct(s: seq<Entry>) {
    forall i, j :: 0 <= i < j < |s| ==> s[i] != s[j]
  }

  /** The entry after entry `i`. */
  function After(s: seq<Entry>, i: int): Entry? {
    if 0 <= i + 1 < |s| then s[i + 1] else null
  }

  lemma OnlyOnce(s: seq<Entry>, k: nat)
    requires Distinct(s) && k < |s|
    ensures forall i :: 0 <= i < |s| && i != k ==> s[i] != s[k]
  {
  }

  lemma DistinctWithout(s: seq<Entry>, k: nat)
    requires Distinct(s) && k < |s|
    ensures Distinct(s[..k] + s[k + 1..])
  {
    var t := s[..k] + s[k + 1..];
    forall i, j | 0 <= i < j < |t|
      ensures t[i] != t[j]
    {
      assert t[i] == s[if i < k then i else i + 1] && t[j] == s[if j < k then j else j + 1];
    }
  }

  lemma DistinctWith(s: seq<Entry>, k: nat, e: Entry)
    requires Distinct(s) && k <= |s| && e !in s
    ensures Distinct(s[..k] + [e] + s[k..])
  {
    var t := s[..k] + [e] + s[k..];
    forall i, j | 0 <= i < j < |t|
      ensures t[i] != t[j]
    {
      assert t[i] == if i < k then s[i] else if i == k then e else s[i - 1];
      assert t[j] == if j < k then s[j] else if j == k then e else s[j - 1];
    }
  }

  lemma Neighbours(s: seq<Entry>, k: int)
    requires -1 <= k < |s|
    ensures After(s, k) == if k + 1 < |s| then s[k + 1] else null
    ensures k >= 0 ==> After(s, k - 1) == s[k]
  {
  }

  lemma Without(s: seq<Entry>, k: nat, i: nat)
    requires k < |s| && i < |s| - 1
    ensures var t := s[..k] + s[k + 1..];
            && t[i] == s[if i < k then i else i + 1]
            && After(t, i) == if i + 1 == k then After(s, k) else After(s, if i < k then i else i + 1)
  {
  }

  lemma With(s: seq<Entry>, k: nat, e: Entry, i: nat)
    requires k <= |s| && i <= |s|
    ensures var t := s[..k] + [e] + s[k..];
            && t[i] == (if i < k then s[i] else if i == k then e else s[i - 1])
            && After(t, i) == if i + 1 == k then e else if i < k then After(s, i) else After(s, i - 1)
  {
  }

  /** One more item makes a database, if it is of the right kind. */
  lemma DbWith(db: Db, k: nat, it: Item)
    requires k <= |db.items|
    ensures db.Valid() && |it.data| < 0x1_0000 ==>
              (db.(items := db.items[..k] + [it] + db.items[k..]).Valid() <==> (it.key.Rsrc? <==> db.head.IsRsrc()))
  {
    var t := db.items[..k] + [it] + db.items[k..];
    assert t[k] == it;
    assert forall i :: 0 <= i < |t| ==> t[i] == if i < k then db.items[i] else if i == k then it else db.items[i - 1];
  }

  lemma DbWithout(db: Db, k: nat)
    requires db.Valid() && k < |db.items|
    ensures db.(items := db.items[..k] + db.items[k + 1..]).Valid()
  {
    var t := db.items[..k] + db.items[k + 1..];
    assert forall i :: 0 <= i < |t| ==> t[i] == db.items[if i < k then i else i + 1];
  }

  lemma DbAppended(db: Db, it: Item)
    requires db.Valid() && |it.data| < 0x1_0000 && (it.key.Rsrc? <==> db.head.IsRsrc())
    ensures db.(items := db.items + [it]).Valid()
  {
  }

  class Pdb {
    var fileSize: int
    var head: Head
    var appOffset: udword
    var sortOffset: udword
    var numrecs: uword
    var appinfo: Option<seq<ubyte>>
    var sortinfo: Option<seq<ubyte>>
    var first: Entry?
    ghost var spine: seq<Entry>

    /** The list is the entries of `spine`, in order and each once. */
    ghost predicate Linked()
      reads this`first, this`spine, spine`next
    {
      && Distinct(spine)
      && first == (if spine == [] then null else spine[0])
      && (forall i :: 0 <= i < |spine| ==> spine[i].next == After(spine, i))
    }

    /** ... all records or all resources, as the attributes say, and `numrecs` is
        their number, in 16 bits. */
    ghost predicate Valid()
      reads this, spine
    {
      Linked() && Value().Valid() && numrecs == |spine| % 0x1_0000
    }

    /** The first `n` items on the list. */
    ghost function Front(n: nat): (r: seq<Item>)
      requires n <= |spine|
      reads this`spine, spine`key, spine`data
      ensures |r| == n && forall i :: 0 <= i < n ==> r[i] == Item(spine[i].key, spine[i].data)
    {
      if n == 0 then [] else Front(n - 1) + [Item(spine[n - 1].key, spine[n - 1].data)]
    }

    ghost function Items(): (r: seq<Item>)
      reads this`spine, spine`key, spine`data
      ensures |r| == |spine|
    {
      Front(|spine|)
    }

    lemma EachItem()
      ensures forall i :: 0 <= i < |spine| ==> Items()[i] == Item(spine[i].key, spine[i].data)
    {
    }

    ghost function Value(): Db
      reads this, spine
    {
      Db(head, appinfo, sortinfo, Items())
    }

    /** `new_pdb`: all zeros. */
    constructor ()
      ensures Linked() && spine == [] && numrecs == 0 && appinfo == None && sortinfo == None
    {
      fileSize, appOffset, sortOffset, numrecs := 0, 0, 0, 0;
      head := Head(seq(DBNAMELEN, _ => 0), 0, 0, 0, 0, 0, 0, 0, 0, 0);
      appinfo, sortinfo, first, spine := None, None, null, [];
    }

    /** `pdb_FindRecordByID`. */
    method FindRecordByID(id: udword) returns (rec: Entry?)
      requires Linked()
      ensures rec == null <==> FirstWithID(Items(), id, |spine|)
      ensures rec != null ==> exists k :: 0 <= k < |spine| && rec == spine[k] && FirstWithID(Items(), id, k)
      ensures rec != null ==> rec.key.Rec? && rec.key.uid == id
      ensures rec == null ==> forall e :: e in spine && e.key.Rec? ==> e.key.uid != id
    {
      ghost var k := 0;
      rec := first;
      while rec != null
        invariant k <= |spine| && rec == if k < |spine| then spine[k] else null
        invariant forall j :: 0 <= j < k ==> !HasID(Items()[j], id)
        decreases |spine| - k
      {
        EachItem();
        if rec.key.Rec? && rec.key.uid == id {
          assert FirstWithID(Items(), id, k);
          return;
        }
        rec, k := rec.next, k + 1;
      }
    }

    /** `pdb_FindRecordByIndex`; the index is a `uword`, so that an `int` can hold it. */
    method FindRecordByIndex(index: uword) returns (rec: Entry?)
      requires Linked()
      ensures rec == if index < |spine| then spine[index] else null
    {
      rec := first;
      IndexAsInt(index);
      var i := AsInt(index);
      while i > 0
        invariant 0 <= i <= index && index - i <= |spine|
        invariant rec == if index - i < |spine| then spine[index - i] else null
      {
        if rec == null {
          return;
        }
        rec, i := rec.next, i - 1;
      }
    }

    /** `pdb_DeleteRecordByID`: cuts the first record with this id out of the list, if there is one. */
    method DeleteRecordByID(id: udword) returns (err: int, ghost k: nat)
      requires Valid()
      modifies this`first, this`spine, this`numrecs, spine`next
      ensures Valid() && err == if head.IsRsrc() then -1 else 0
      ensures head.IsRsrc() ==> spine == old(spine) && Items() == old(Items())
      ensures !head.IsRsrc() && k < |old(spine)| ==> old(spine)[k].key.Rec? && old(spine)[k].key.uid == id
      ensures !head.IsRsrc() && k >= |old(spine)| ==> forall e :: e in old(spine) && e.key.Rec? ==> e.key.uid != id
      ensures !head.IsRsrc() ==>
                && FirstWithID(old(Items()), id, k)
                && spine == (if k < |old(spine)| then old(spine)[..k] + old(spine)[k + 1..] else old(spine))
                && Items() == (if k < |old(spine)| then old(Items())[..k] + old(Items())[k + 1..] else old(Items()))
    {
      EachItem();
      hide Items, Db.Valid, Distinct, After;
      k := 0;
      if head.IsRsrc() {
        return -1, 0;
      }
      var rec, last: Entry? := first, null;
      while rec != null
        invariant k <= |spine| && rec == if k < |spine| then spine[k] else null
        invariant last == if k > 0 then spine[k - 1] else null
        invariant forall j :: 0 <= j < k ==> !HasID(Items()[j], id)
        invariant k < |spine| ==> Items()[k] == Item(spine[k].key, spine[k].data)
        decreases |spine| - k
        modifies {}
      {
        if rec.key.Rec? && rec.key.uid == id {
          break;
        }
        Neighbours(spine, k);
        assert rec.next == After(spine, k);
        last, rec, k := rec, rec.next, k + 1;
      }
      if rec != null {
        Cut(last, rec, k);
      }
      err := 0;
    }

    /** Takes entry `k` off the list. */
    method Cut(last: Entry?, rec: Entry, ghost k: nat)
      requires Valid() && k < |spine| && rec == spine[k] && last == if k > 0 then spine[k - 1] else null
      modifies this`first, this`spine, this`numrecs, spine`next
      ensures Valid() && spine == old(spine)[..k] + old(spine)[k + 1..]
      ensures Items() == old(Items())[..k] + old(Items())[k + 1..]
    {
      EachItem();
      hide Distinct, After, Items, Db.Valid;
      ghost var was, items := spine, Items();
      assert forall j :: 0 <= j < |was| ==> items[j] == Item(was[j].key, was[j].data);
      DbWithout(Value(), k);
      Neighbours(was, k);
      OnlyOnce(was, k);
      if last == null {
        first := rec.next;
      } else {
        OnlyOnce(was, k - 1);
        last.next := rec.next;
      }
      OneLess(|was|);
      numrecs := if numrecs == 0 then 0xffff else numrecs - 1;
      spine := was[..k] + was[k + 1..];
      DistinctWithout(was, k);
      forall i | 0 <= i < |spine|
        ensures spine[i].next == After(spine, i)
      {
        Without(was, k, i);
      }
      EachItem();
      forall i | 0 <= i < |spine|
        ensures Items()[i] == (items[..k] + items[k + 1..])[i]
      {
        Without(was, k, i);
      }
      assert Items() == items[..k] + items[k + 1..];
    }

    /** The walk to the end of the list, and the new entry there. */
    method Append(e: Entry)
      requires Linked() && e !in spine
      modifies this`first, this`spine, this`numrecs, spine`next, e`next
      ensures Linked() && spine == old(spine) + [e] && numrecs == (old(numrecs) + 1) % 0x1_0000
      ensures Items() == old(Items()) + [Item(e.key, e.data)]
    {
      EachItem();
      hide Distinct, After, Items;
      ghost var was, items := spine, Items();
      assert forall j :: 0 <= j < |was| ==> items[j] == Item(was[j].key, was[j].data);
      if first == null {
        first := e;
        e.next := null;
      } else {
        var rec := first;
        ghost var k := 0;
        while rec.next != null
          invariant k < |spine| && rec == spine[k]
          invariant Linked() && spine == was && Items() == items && numrecs == old(numrecs) && first == old(first)
          decreases |spine| - k
        {
          Neighbours(was, k);
          rec, k := rec.next, k + 1;
        }
        Neighbours(was, k);
        OnlyOnce(was, k);
        rec.next := e;
        e.next := null;
      }
      numrecs := (numrecs + 1) % 0x1_0000;
      DistinctWith(was, |was|, e);
      assert was[..|was|] + [e] + was[|was|..] == was + [e];
      spine := was + [e];
      Neighbours(was, |was| - 1);
      forall i | 0 <= i < |spine|
        ensures spine[i].next == After(spine, i)
      {
        With(was, |was|, e, i);
      }
      EachItem();
      forall i | 0 <= i < |spine|
        ensures Items()[i] == (items + [Item(e.key, e.data)])[i]
      {
        With(was, |was|, e, i);
      }
    }

    /** `pdb_AppendRecord`. */
    method AppendRecord(newrec: Entry) returns (err: int)
      requires Linked() && newrec !in spine && newrec.key.Rec?
      modifies this`first, this`spine, this`numrecs, spine`next, newrec`next
      ensures Linked() && err == if head.IsRsrc() then -1 else 0
      ensures err == 0 ==> spine == old(spine) + [newrec] && Items() == old(Items()) + [Item(newrec.key, newrec.data)]
      ensures numrecs == if err == 0 then (old(numrecs) + 1) % 0x1_0000 else old(numrecs)
      ensures err != 0 ==> spine == old(spine) && Items() == old(Items())
      ensures err == 0 && old(Valid()) && |newrec.data| < 0x1_0000 ==> Valid()
    {
      hide Linked, Db.Valid, Items;
      if head.IsRsrc() {
        return -1;
      }
      if Value().Valid() && |newrec.data| < 0x1_0000 { DbAppended(Value(), Item(newrec.key, newrec.data)); }
      Append(newrec);
      err := 0;
    }

    /** `pdb_AppendResource`. */
    method AppendResource(newrsrc: Entry) returns (err: int)
      requires Linked() && newrsrc !in spine && newrsrc.key.Rsrc?
      modifies this`first, this`spine, this`numrecs, spine`next, newrsrc`next
      ensures Linked() && err == if head.IsRsrc() then 0 else -1
      ensures err == 0 ==> spine == old(spine) + [newrsrc] && Items() == old(Items()) + [Item(newrsrc.key, newrsrc.data)]
      ensures numrecs == if err == 0 then (old(numrecs) + 1) % 0x1_0000 else old(numrecs)
      ensures err != 0 ==> spine == old(spine) && Items() == old(Items())
      ensures err == 0 && old(Valid()) && |newrsrc.data| < 0x1_0000 ==> Valid()
    {
      hide Linked, Db.Valid, Items;
      if !head.IsRsrc() {
        return -1;
      }
      if Value().Valid() && |newrsrc.data| < 0x1_0000 { DbAppended(Value(), Item(newrsrc.key, newrsrc.data)); }
      Append(newrsrc);
      err := 0;
    }

    /** The new entry goes after `prev`, which is entry `k - 1`, or first. */
    method Insert(prev: Entry?, e: Entry, ghost k: nat)
      requires Linked() && e !in spine
      requires k <= |spine| && prev == if k > 0 then spine[k - 1] else null
      modifies this`first, this`spine, this`numrecs, spine`next, e`next
      ensures Linked() && spine == old(spine)[..k] + [e] + old(spine)[k..]
      ensures Items() == old(Items())[..k] + [Item(e.key, e.data)] + old(Items())[k..]
      ensures numrecs == (old(numrecs) + 1) % 0x1_0000
    {
      EachItem();
      hide Distinct, After, Items;
      ghost var was, items := spine, Items();
      assert forall j :: 0 <= j < |was| ==> items[j] == Item(was[j].key, was[j].data);
      Neighbours(was, k - 1);
      if prev == null {
        e.next := first;
        first := e;
      } else {
        OnlyOnce(was, k - 1);
        e.next := prev.next;
        prev.next := e;
      }
      numrecs := (numrecs + 1) % 0x1_0000;
      spine := was[..k] + [e] + was[k..];
      DistinctWith(was, k, e);
      forall i | 0 <= i < |spine|
        ensures spine[i].next == After(spine, i)
      {
        With(was, k, e, i);
      }
      EachItem();
      forall i | 0 <= i < |spine|
        ensures Items()[i] == (items[..k] + [Item(e.key, e.data)] + items[k..])[i]
      {
        With(was, k, e, i);
      }
    }

    /** `pdb_InsertRecord`, which takes a record into a database of either kind. */
    method InsertRecord(prev: Entry?, newrec: Entry, ghost k: nat) returns (err: int)
      requires Linked() && newrec !in spine && newrec.key.Rec?
      requires k <= |spine| && prev == if k > 0 then spine[k - 1] else null
      modifies this`first, this`spine, this`numrecs, spine`next, newrec`next
      ensures err == 0 && Linked() && spine == old(spine)[..k] + [newrec] + old(spine)[k..]
      ensures Items() == old(Items())[..k] + [Item(newrec.key, newrec.data)] + old(Items())[k..]
      ensures numrecs == (old(numrecs) + 1) % 0x1_0000
      ensures old(Valid()) && |newrec.data| < 0x1_0000 ==> (Valid() <==> !head.IsRsrc())
    {
      hide Linked, Db.Valid, Items, FirstWithID;
      DbWith(Value(), k, Item(newrec.key, newrec.data));
      Insert(prev, newrec, k);
      err := 0;
    }

    /** `pdb_InsertResource`, which takes a resource into a database of either kind. */
    method InsertResource(prev: Entry?, newrsrc: Entry, ghost k: nat) returns (err: int)
      requires Linked() && newrsrc !in spine && newrsrc.key.Rsrc?
      requires k <= |spine| && prev == if k > 0 then spine[k - 1] else null
      modifies this`first, this`spine, this`numrecs, spine`next, newrsrc`next
      ensures err == 0 && Linked() && spine == old(spine)[..k] + [newrsrc] + old(spine)[k..]
      ensures Items() == old(Items())[..k] + [Item(newrsrc.key, newrsrc.data)] + old(Items())[k..]
      ensures numrecs == (old(numrecs) + 1) % 0x1_0000
      ensures old(Valid()) && |newrsrc.data| < 0x1_0000 ==> (Valid() <==> head.IsRsrc())
    {
      hide Linked, Db.Valid, Items, FirstWithID;
      DbWith(Value(), k, Item(newrsrc.key, newrsrc.data));
      Insert(prev, newrsrc, k);
      err := 0;
    }
  }

  lemma OneLess(n: nat)
    requires n > 0
    ensures (n - 1) % 0x1_0000 == if n % 0x1_0000 == 0 then 0xffff else n % 0x1_0000 - 1
  {
  }

  predicate UniqueIDs(items: seq<Item>) {
    forall i, j :: 0 <= i < j < |items| && items[i].key.Rec? && items[j].key.Rec? ==> items[i].key.uid != items[j].key.uid
  }

  function Without1(items: seq<Item>, k: nat): seq<Item> {
    if k < |items| then items[..k] + items[k + 1..] else items
  }

  /** Deleting by id leaves no record with that id exactly when there were not
      two; any other record is found as before, one place earlier if it came later. */
  lemma DeletedIsGone(items: seq<Item>, id: udword, k: nat, other: udword, j: nat)
    requires FirstWithID(items, id, k) && FirstWithID(items, other, j) && other != id
    ensures FirstWithID(Without1(items, k), id, |Without1(items, k)|)
            <==> forall i :: k < i < |items| && items[i].key.Rec? ==> items[i].key.uid != id
    ensures FirstWithID(Without1(items, k), other, if k < j then j - 1 else j)
  {
    var rest := Without1(items, k);
    if k < |items| {
      assert forall i :: 0 <= i < |rest| ==> rest[i] == items[if i < k then i else i + 1];
      assert forall i :: k < i < |items| ==> items[i] == rest[i - 1];
    }
  }

  /** A list with unique ids keeps them, and of a deleted record nothing is found. */
  lemma UniqueStays(items: seq<Item>, id: udword, k: nat)
    requires UniqueIDs(items) && FirstWithID(items, id, k)
    ensures UniqueIDs(Without1(items, k)) && FirstWithID(Without1(items, k), id, |Without1(items, k)|)
  {
    var rest := Without1(items, k);
    if k < |items| {
      assert forall i :: 0 <= i < |rest| ==> rest[i] == items[if i < k then i else i + 1];
    }
  }
}
