/** `pdb_Read` of libpdb/pdb.c and the functions that it loads the parts of a file with. */
module PdbLoad {
  import opened Bytes
  import opened Options
  import opened PdbFormat
  import opened PdbList
  import opened PdbIo

  lemma HeadOfFront(b: seq<ubyte>, d: seq<ubyte>)
    requires |b| >= HEADER_LEN && d == b[..HEADER_LEN]
    ensures HeadOf(d) == HeadOf(b) && AppOffset(d) == AppOffset(b) && SortOffset(d) == SortOffset(b)
  {
    assert d[..DBNAMELEN] == b[..DBNAMELEN];
  }

  /** `pdb_LoadHeader`. `failed`: the system call failed, whatever is in the file. */
  method LoadHeader(f: File, db: Pdb) returns (err: int, ghost failed: bool)
    requires f.pos == 0
    modifies f`pos, f`faults, db`head, db`appOffset, db`sortOffset
    ensures f.faults == old(f.faults) + if failed then 1 else 0
    ensures (err == 0 && !failed) || (err == -1 && (failed || |f.content| < HEADER_LEN))
    ensures err == 0 ==>
              && |f.content| >= HEADER_LEN && f.pos == HEADER_LEN && db.head == HeadOf(f.content)
              && db.appOffset == AppOffset(f.content) && db.sortOffset == SortOffset(f.content)
  {
    hide PeekUword, PeekUdword;
    var n, buf := f.Read(HEADER_LEN);
    failed := n < 0;
    if n != HEADER_LEN {
      return -1, failed;
    }
    db.head := Head(buf[..DBNAMELEN], PeekUword(buf, 32), PeekUword(buf, 34),
                    PeekUdword(buf, 36), PeekUdword(buf, 40), PeekUdword(buf, 44), PeekUdword(buf, 48),
                    PeekUdword(buf, 60), PeekUdword(buf, 64), PeekUdword(buf, 68));
    db.appOffset := PeekUdword(buf, 52);
    db.sortOffset := PeekUdword(buf, 56);
    HeadOfFront(f.content, buf);
    err := 0;
  }

  /** `pdb_LoadRecListHeader`. */
  method LoadRecListHeader(f: File, db: Pdb) returns (err: int, ghost failed: bool)
    requires f.pos == HEADER_LEN <= |f.content|
    modifies f`pos, f`faults, db`numrecs
    ensures f.faults == old(f.faults) + if failed then 1 else 0
    ensures (err == 0 && !failed) || (err == -1 && (failed || |f.content| < HEADER_LEN + RECORDLIST_LEN))
    ensures err == 0 ==>
              && |f.content| >= HEADER_LEN + RECORDLIST_LEN && f.pos == HEADER_LEN + RECORDLIST_LEN
              && db.numrecs == CountOf(f.content)
  {
    var n, buf := f.Read(RECORDLIST_LEN);
    failed := n < 0;
    if n != RECORDLIST_LEN {
      return -1, failed;
    }
    db.numrecs := PeekUword(buf, 4);
    err := 0;
  }

  // ----- The index ------------------------------------------------------------

  /** An entry has what the index says of item `i`. */
  ghost predicate Entered(e: Entry, b: seq<ubyte>, rsrc: bool, i: nat)
    requires EntryAt(rsrc, i) + IxLen(rsrc) <= |b|
    reads e`key, e`offset
  {
    e.key == KeyAt(b, rsrc, EntryAt(rsrc, i)) && e.offset == OffsetAt(b, rsrc, EntryAt(rsrc, i))
  }

  /** The list has the first `n` entries of the index, in their order. */
  ghost predicate Indexed(db: Pdb, b: seq<ubyte>, n: nat)
    reads db`head, db`first, db`spine, db.spine`next, db.spine`key, db.spine`offset
  {
    var rsrc := db.head.IsRsrc();
    db.Linked() && |db.spine| == n && EntryAt(rsrc, n) <= |b| && Entries(db.spine, b, rsrc)
  }

  lemma EntrySlice(b: seq<ubyte>, rsrc: bool, at: nat, d: seq<ubyte>)
    requires at + IxLen(rsrc) <= |b| && d == b[at..at + IxLen(rsrc)]
    ensures |d| == IxLen(rsrc) && KeyAt(d, rsrc, 0) == KeyAt(b, rsrc, at) && OffsetAt(d, rsrc, 0) == OffsetAt(b, rsrc, at)
  {
    assert forall i :: 0 <= i < IxLen(rsrc) ==> d[i] == b[at + i];
  }

  /** `pdb_AppendResource` or `pdb_AppendRecord`. */
  method AppendEntry(db: Pdb, e: Entry)
    requires db.Linked() && e !in db.spine && (e.key.Rsrc? <==> db.head.IsRsrc())
    modifies db`first, db`spine, db`numrecs, db.spine`next, e`next
    ensures db.Linked() && db.spine == old(db.spine) + [e]
  {
    hide *;
    var err;
    if db.head.IsRsrc() {
      err := db.AppendResource(e);
    } else {
      err := db.AppendRecord(e);
    }
  }

  /** The entries of `s` are the first ones of the index. */
  ghost predicate Entries(s: seq<Entry>, b: seq<ubyte>, rsrc: bool)
    reads s`key, s`offset
  {
    forall i :: 0 <= i < |s| ==> EntryAt(rsrc, i) + IxLen(rsrc) <= |b| && Entered(s[i], b, rsrc, i)
  }

  lemma EntriesMore(s: seq<Entry>, e: Entry, b: seq<ubyte>, rsrc: bool)
    requires Entries(s, b, rsrc) && EntryAt(rsrc, |s|) + IxLen(rsrc) <= |b| && Entered(e, b, rsrc, |s|)
    ensures Entries(s + [e], b, rsrc)
  {
    hide Entered, EntryAt, IxLen;
  }

  /** Reads and parses one entry of the index. */
  method ReadEntry(f: File, rsrc: bool) returns (err: int, key: Key, offset: udword, ghost failed: bool)
    modifies f`pos, f`faults
    ensures f.faults == old(f.faults) + if failed then 1 else 0
    ensures (err == 0 && !failed) || (err == -1 && (failed || old(f.pos) + IxLen(rsrc) > |f.content|))
    ensures err == 0 ==>
              && f.pos == old(f.pos) + IxLen(rsrc) <= |f.content| && (key.Rsrc? <==> rsrc)
              && key == KeyAt(f.content, rsrc, old(f.pos)) && offset == OffsetAt(f.content, rsrc, old(f.pos))
  {
    hide KeyAt, OffsetAt;
    var len := IxLen(rsrc);
    ghost var at := f.pos;
    var got, inbuf := f.Read(len);
    failed := got < 0;
    if got != len {
      return -1, Rec(0, 0, 0), 0, failed;
    }
    EntrySlice(f.content, rsrc, at, inbuf);
    KeyKind(inbuf, rsrc);
    err, key, offset := 0, KeyAt(inbuf, rsrc, 0), OffsetAt(inbuf, rsrc, 0);
  }

  /** Puts an entry at the end of the list. */
  method AddEntry(db: Pdb, e: Entry, ghost b: seq<ubyte>, ghost n: nat)
    requires Indexed(db, b, n) && |db.spine| == n && e !in db.spine && (e.key.Rsrc? <==> db.head.IsRsrc())
    requires EntryAt(db.head.IsRsrc(), n) + IxLen(db.head.IsRsrc()) == EntryAt(db.head.IsRsrc(), n + 1) <= |b|
    requires Entered(e, b, db.head.IsRsrc(), n)
    modifies db`first, db`spine, db`numrecs, db.spine`next, e`next
    ensures Indexed(db, b, n + 1) && db.spine == old(db.spine) + [e]
  {
    hide *;
    IndexedParts(db, b, n);
    EntriesMore(db.spine, e, b, db.head.IsRsrc());
    AppendEntry(db, e);
    IndexedWhole(db, b, n + 1);
  }

  /** An entry with what has been read. */
  method NewEntry(key: Key, offset: udword, ghost b: seq<ubyte>, ghost rsrc: bool, ghost n: nat) returns (e: Entry)
    requires EntryAt(rsrc, n) + IxLen(rsrc) <= |b|
    requires key == KeyAt(b, rsrc, EntryAt(rsrc, n)) && offset == OffsetAt(b, rsrc, EntryAt(rsrc, n))
    ensures fresh(e) && e.key == key && Entered(e, b, rsrc, n)
  {
    hide *;
    e := new Entry.FromIndex(key, offset);
    IsEntered(e, b, rsrc, n);
  }

  /** One more entry from the file, at the end of the list. */
  method LoadEntry(f: File, db: Pdb, ghost n: nat) returns (err: int, ghost failed: bool)
    requires Indexed(db, f.content, n) && f.pos == EntryAt(db.head.IsRsrc(), n) && |db.spine| == n
    modifies f`pos, f`faults, db`first, db`spine, db`numrecs, db.spine`next
    ensures f.faults == old(f.faults) + if failed then 1 else 0
    ensures (err == 0 && !failed) || (err == -1 && db.spine == old(db.spine) && (failed || EntryAt(db.head.IsRsrc(), n + 1) > |f.content|))
    ensures err == 0 ==> Indexed(db, f.content, n + 1) && f.pos == EntryAt(db.head.IsRsrc(), n + 1)
    ensures err == 0 ==> |db.spine| == n + 1 && db.spine[..n] == old(db.spine) && fresh(db.spine[n])
  {
    NextEntryAt(db.head.IsRsrc(), n);
    hide *;
    var key, offset;
    err, key, offset, failed := ReadEntry(f, db.head.IsRsrc());
    if err == 0 {
      var e := NewEntry(key, offset, f.content, db.head.IsRsrc(), n);
      AddEntry(db, e, f.content, n);
    }
  }

  lemma NextEntryAt(rsrc: bool, n: nat)
    ensures EntryAt(rsrc, n + 1) == EntryAt(rsrc, n) + IxLen(rsrc)
  {
  }

  lemma IsEntered(e: Entry, b: seq<ubyte>, rsrc: bool, i: nat)
    requires EntryAt(rsrc, i) + IxLen(rsrc) <= |b|
    requires e.key == KeyAt(b, rsrc, EntryAt(rsrc, i)) && e.offset == OffsetAt(b, rsrc, EntryAt(rsrc, i))
    ensures Entered(e, b, rsrc, i)
  {
  }

  lemma IndexedParts(db: Pdb, b: seq<ubyte>, n: nat)
    requires Indexed(db, b, n)
    ensures db.Linked() && Entries(db.spine, b, db.head.IsRsrc())
  {
  }

  lemma IndexedWhole(db: Pdb, b: seq<ubyte>, n: nat)
    requires db.Linked() && |db.spine| == n && EntryAt(db.head.IsRsrc(), n) <= |b| && Entries(db.spine, b, db.head.IsRsrc())
    ensures Indexed(db, b, n)
  {
  }

  /** The body of the loop: one more entry, and the count set back. */
  method NextEntry(f: File, db: Pdb, total: uword, ghost n: nat) returns (err: int, ghost failed: bool)
    requires Indexed(db, f.content, n) && f.pos == EntryAt(db.head.IsRsrc(), n) && n == |db.spine|
    modifies f`pos, f`faults, db`first, db`spine, db`numrecs, db.spine`next
    ensures f.faults == old(f.faults) + if failed then 1 else 0
    ensures (err == 0 && !failed) || (err == -1 && db.spine == old(db.spine) && (failed || EntryAt(db.head.IsRsrc(), n + 1) > |f.content|))
    ensures err == 0 ==> Indexed(db, f.content, n + 1) && f.pos == EntryAt(db.head.IsRsrc(), n + 1) && |db.spine| == n + 1
    ensures err == 0 ==> db.spine[..n] == old(db.spine) && fresh(db.spine[n]) && db.numrecs == total
  {
    hide *;
    err, failed := LoadEntry(f, db, n);
    if err == 0 {
      db.numrecs := total;
    }
  }

  lemma KeyKind(b: seq<ubyte>, rsrc: bool)
    requires IxLen(rsrc) <= |b|
    ensures KeyAt(b, rsrc, 0).Rsrc? <==> rsrc
  {
  }

  /** `pdb_LoadRsrcIndex` and `pdb_LoadRecIndex`: the list is in the order of the
      file, and the count, which every append bumps, is set back each time. */
  method LoadIndex(f: File, db: Pdb) returns (err: int, ghost failed: bool)
    requires f.pos == HEADER_LEN + RECORDLIST_LEN <= |f.content| && db.Linked() && db.spine == []
    requires db.head == HeadOf(f.content) && db.numrecs == CountOf(f.content)
    modifies f`pos, f`faults, db`first, db`spine, db`numrecs
    ensures f.faults == old(f.faults) + if failed then 1 else 0
    ensures (err == 0 && !failed) || (err == -1 && (failed || !HasIndex(f.content)))
    ensures err == 0 ==> HasIndex(f.content) && Indexed(db, f.content, db.numrecs) && db.numrecs == CountOf(f.content)
    ensures fresh(db.spine)
  {
    ghost var rsrc, b := db.head.IsRsrc(), f.content;
    IndexStart(db, b);
    hide *;
    var total := db.numrecs;
    err, failed := 0, false;
    if total == 0 {
      db.first := null;
      return;
    }
    for i := 0 to total
      invariant db.head.IsRsrc() == rsrc && f.content == b && db.numrecs == total && !failed && f.faults == old(f.faults)
      invariant Indexed(db, b, i) && f.pos == EntryAt(rsrc, i) && err == 0
      invariant |db.spine| == i && fresh(db.spine)
    {
      err, failed := NextEntry(f, db, total, i);
      if err < 0 {
        EntriesOrdered(rsrc, i + 1, total);
        return;
      }
    }
    IndexedLength(db, b, total);
  }

  lemma IndexStart(db: Pdb, b: seq<ubyte>)
    requires HEADER_LEN + RECORDLIST_LEN <= |b| && db.Linked() && db.spine == [] && db.head == HeadOf(b)
    ensures var rsrc := db.head.IsRsrc();
            && EntryAt(rsrc, 0) == HEADER_LEN + RECORDLIST_LEN && (HasIndex(b) <==> EntryAt(rsrc, CountOf(b)) <= |b|)
    ensures Indexed(db, b, 0) && db.first == null
  {
  }

  lemma EntriesOrdered(rsrc: bool, i: nat, n: nat)
    requires i <= n
    ensures EntryAt(rsrc, i) <= EntryAt(rsrc, n)
  {
  }

  lemma IndexedLength(db: Pdb, b: seq<ubyte>, n: nat)
    requires Indexed(db, b, n)
    ensures EntryAt(db.head.IsRsrc(), n) <= |b|
  {
  }

  // ----- The blocks -------------------------------------------------------------

  /** The end of `pdb_LoadAppBlock` and `pdb_LoadSortBlock`: from `offset` to `nextOff`. */
  method ReadBlock(f: File, offset: udword, nextOff: udword) returns (err: int, block: Option<seq<ubyte>>, ghost failed: bool)
    modifies f`pos, f`faults
    ensures f.faults == old(f.faults) + if failed then 1 else 0
    ensures (err == 0 && !failed) || (err == -1 && (failed || LoadBlock(f.content, offset, nextOff) == None))
    ensures err == 0 ==> LoadBlock(f.content, offset, nextOff) == Some(block)
  {
    err, block, failed := 0, None, false;
    if offset == 0 {
      return;
    }
    var len := (nextOff - offset) % 0x1_0000_0000;
    if len == 0 {
      return;
    }
    if f.pos != offset {
      f.Seek(offset);
    }
    var n, data := f.Read(len);
    failed := n < 0;
    if n != len {
      return -1, None, failed;
    }
    block := Some(data);
  }

  /** What the loading of blocks and items relies on. */
  ghost predicate Ready(db: Pdb, b: seq<ubyte>)
    reads db`head, db`first, db`spine, db.spine`next, db.spine`key, db.spine`offset
    reads db`numrecs, db`appOffset, db`sortOffset, db`fileSize
  {
    && HasIndex(b) && db.head == HeadOf(b) && db.numrecs == CountOf(b) && Indexed(db, b, db.numrecs)
    && db.appOffset == AppOffset(b) && db.sortOffset == SortOffset(b) && db.fileSize == FileLength(b)
  }

  lemma ReadyEntry(db: Pdb, b: seq<ubyte>, i: nat)
    requires Ready(db, b) && i < db.numrecs
    ensures HasIndex(b) && i < CountOf(b) == |db.spine| && EntryAt(HeadOf(b).IsRsrc(), i) + IxLen(HeadOf(b).IsRsrc()) <= |b|
    ensures db.spine[i].offset == Offset(b, i) && db.spine[i].key == KeyAt(b, HeadOf(b).IsRsrc(), EntryAt(HeadOf(b).IsRsrc(), i))
    ensures db.spine[i].next == if i + 1 < |db.spine| then db.spine[i + 1] else null
  {
    hide KeyAt, OffsetAt, HeadOf, Distinct;
    assert Entered(db.spine[i], b, HeadOf(b).IsRsrc(), i);
    assert db.spine[i].next == After(db.spine, i);
  }

  lemma ReadyFirst(db: Pdb, b: seq<ubyte>)
    requires Ready(db, b)
    ensures HasIndex(b) && |db.spine| == db.numrecs == CountOf(b) && db.fileSize == FileLength(b) && db.head == HeadOf(b)
    ensures db.first == if db.numrecs > 0 then db.spine[0] else null
    ensures db.appOffset == AppOffset(b) && db.sortOffset == SortOffset(b)
    ensures NextOff(b, 0) == if db.numrecs > 0 then Offset(b, 0) else FileLength(b)
  {
    hide KeyAt, OffsetAt, HeadOf, Distinct, Entered;
  }

  /** `pdb_LoadAppBlock`. */
  method LoadAppBlock(f: File, db: Pdb) returns (err: int, ghost failed: bool)
    requires Ready(db, f.content)
    modifies f`pos, f`faults, db`appinfo
    ensures f.faults == old(f.faults) + if failed then 1 else 0
    ensures Ready(db, f.content) && db.sortinfo == old(db.sortinfo)
    ensures HasIndex(f.content)
    ensures var b := f.content;
            var block := LoadBlock(b, AppOffset(b), if SortOffset(b) > 0 then SortOffset(b) else NextOff(b, 0));
            (err == 0 && !failed && block == Some(db.appinfo)) || (err == -1 && (failed || block == None))
  {
    ghost var b := f.content;
    ReadyFirst(db, b);
    if db.numrecs > 0 { ReadyEntry(db, b, 0); }
    hide *;
    var nextOff: udword;
    if db.sortOffset > 0 {
      nextOff := db.sortOffset;
    } else if db.numrecs > 0 {
      nextOff := db.first.offset;
    } else {
      nextOff := db.fileSize;
    }
    err, db.appinfo, failed := ReadBlock(f, db.appOffset, nextOff);
  }

  /** `pdb_LoadSortBlock`. */
  method LoadSortBlock(f: File, db: Pdb) returns (err: int, ghost failed: bool)
    requires Ready(db, f.content)
    modifies f`pos, f`faults, db`sortinfo
    ensures f.faults == old(f.faults) + if failed then 1 else 0
    ensures Ready(db, f.content) && db.appinfo == old(db.appinfo)
    ensures HasIndex(f.content)
    ensures var b := f.content;
            var block := LoadBlock(b, SortOffset(b), NextOff(b, 0));
            (err == 0 && !failed && block == Some(db.sortinfo)) || (err == -1 && (failed || block == None))
  {
    ghost var b := f.content;
    ReadyFirst(db, b);
    if db.numrecs > 0 { ReadyEntry(db, b, 0); }
    hide *;
    var nextOff: udword;
    if db.numrecs > 0 {
      nextOff := db.first.offset;
    } else {
      nextOff := db.fileSize;
    }
    err, db.sortinfo, failed := ReadBlock(f, db.sortOffset, nextOff);
  }

  // ----- The items ----------------------------------------------------------------

  /** The first `n` entries have the data that is in the file for them. */
  ghost predicate Loaded(db: Pdb, b: seq<ubyte>, zeroAlloc: bool, n: nat)
    requires HasIndex(b) && n <= CountOf(b) == |db.spine|
    reads db`spine, db.spine`key, db.spine`data
  {
    forall i :: 0 <= i < n ==> LoadItem(b, zeroAlloc, i) == Some(Item(db.spine[i].key, db.spine[i].data))
  }

  lemma {:induction false} AllLoaded(db: Pdb, b: seq<ubyte>, zeroAlloc: bool, n: nat)
    requires HasIndex(b) && n <= CountOf(b) == |db.spine| && Loaded(db, b, zeroAlloc, n)
    ensures LoadItems(b, zeroAlloc, n) == Some(db.Items()[..n])
  {
    hide LoadItem, HasIndex, CountOf;
    if n > 0 {
      AllLoaded(db, b, zeroAlloc, n - 1);
      db.EachItem();
      assert db.Items()[..n] == db.Items()[..n - 1] + [db.Items()[n - 1]];
    }
  }

  lemma {:induction false} MissingItem(b: seq<ubyte>, zeroAlloc: bool, i: nat, n: nat)
    requires HasIndex(b) && i < n <= CountOf(b) && LoadItem(b, zeroAlloc, i) == None
    ensures LoadItems(b, zeroAlloc, n) == None
    decreases n
  {
    hide LoadItem, HasIndex, CountOf;
    if i + 1 < n { MissingItem(b, zeroAlloc, i, n - 1); }
  }

  /** The data of one item; `nextOff` is where the next thing in the file is. */
  method ReadItem(f: File, rsrc: bool, zeroAlloc: bool, offset: udword, nextOff: int, ghost b: seq<ubyte>, ghost i: nat)
    returns (err: int, data: seq<ubyte>, ghost failed: bool)
    requires b == f.content && HasIndex(b) && i < CountOf(b) && rsrc == HeadOf(b).IsRsrc()
    requires offset == Offset(b, i) && nextOff == NextOff(b, i + 1)
    requires EntryAt(rsrc, i) + IxLen(rsrc) <= |b|
    modifies f`pos, f`faults
    ensures f.faults == old(f.faults) + if failed then 1 else 0
    ensures (err == 0 && !failed) || (err == -1 && (failed || LoadItem(b, zeroAlloc, i) == None))
    ensures err == 0 ==> LoadItem(b, zeroAlloc, i) == Some(Item(KeyAt(b, rsrc, EntryAt(rsrc, i)), data))
  {
    hide HasIndex, CountOf, HeadOf, Offset, NextOff, KeyAt, EntryAt, IxLen;
    err, data, failed := 0, [], false;
    if f.pos != offset {
      f.Seek(offset);
    }
    var len := (nextOff - offset) % 0x1_0000;
    if rsrc && len == 0 && !zeroAlloc {
      return -1, [], false;
    }
    if rsrc || len > 0 {
      var n;
      n, data := f.Read(len);
      failed := n < 0;
      if n != len {
        return -1, [], failed;
      }
    }
  }

  /** Reads the data of entry `i`. */
  method Fetch(f: File, db: Pdb, rec: Entry, zeroAlloc: bool, ghost b: seq<ubyte>, ghost i: nat)
    returns (err: int, data: seq<ubyte>, ghost failed: bool)
    requires f.content == b && Ready(db, b) && HasIndex(b) && i < CountOf(b) == |db.spine| && rec == db.spine[i]
    requires Loaded(db, b, zeroAlloc, i)
    modifies f`pos, f`faults
    ensures f.faults == old(f.faults) + if failed then 1 else 0
    ensures Ready(db, b) && Loaded(db, b, zeroAlloc, i)
    ensures (err == 0 && !failed) || (err == -1 && (failed || LoadItem(b, zeroAlloc, i) == None))
    ensures err == 0 ==> LoadItem(b, zeroAlloc, i) == Some(Item(rec.key, data))
  {
    ReadyNext(db, b, i);
    hide *;
    var nextOff := if rec.next == null then db.fileSize else rec.next.offset;
    err, data, failed := ReadItem(f, db.head.IsRsrc(), zeroAlloc, rec.offset, nextOff, b, i);
  }

  /** The body of the loop. */
  method LoadOne(f: File, db: Pdb, rec: Entry, zeroAlloc: bool, ghost b: seq<ubyte>, ghost i: nat) returns (err: int, ghost failed: bool)
    requires f.content == b && Ready(db, b) && HasIndex(b) && i < CountOf(b) == |db.spine| && rec == db.spine[i]
    requires Loaded(db, b, zeroAlloc, i)
    modifies f`pos, f`faults, rec`data
    ensures f.faults == old(f.faults) + if failed then 1 else 0
    ensures Ready(db, b)
    ensures (err == 0 && !failed) || (err == -1 && (failed || LoadItem(b, zeroAlloc, i) == None))
    ensures err == 0 ==> Loaded(db, b, zeroAlloc, i + 1)
  {
    hide *;
    var data;
    err, data, failed := Fetch(f, db, rec, zeroAlloc, b, i);
    if err == 0 {
      KeepData(db, rec, data, b, zeroAlloc, i);
    }
  }

  /** `pdb_LoadResources` and `pdb_LoadRecords`. */
  method LoadData(f: File, db: Pdb, zeroAlloc: bool) returns (err: int, ghost failed: bool)
    requires Ready(db, f.content)
    modifies f`pos, f`faults, db.spine`data
    ensures f.faults == old(f.faults) + if failed then 1 else 0
    ensures HasIndex(f.content) && Ready(db, f.content) && |db.spine| == CountOf(f.content)
    ensures (err == 0 && !failed) || (err == -1 && (failed || LoadItems(f.content, zeroAlloc, CountOf(f.content)) == None))
    ensures err == 0 ==> Loaded(db, f.content, zeroAlloc, CountOf(f.content))
  {
    ghost var b, i := f.content, 0;
    ReadyFirst(db, b);
    NothingLoaded(db, b, zeroAlloc);
    hide *;
    var rec := db.first;
    err, failed := 0, false;
    while rec != null
      invariant HasIndex(b) && Ready(db, b) && |db.spine| == CountOf(b) && f.content == b && err == 0
      invariant i <= |db.spine| && rec == (if i < |db.spine| then db.spine[i] else null) && !failed && f.faults == old(f.faults)
      invariant Loaded(db, b, zeroAlloc, i)
      decreases |db.spine| - i
    {
      ReadyNext(db, b, i);
      err, failed := LoadOne(f, db, rec, zeroAlloc, b, i);
      if err < 0 {
        if LoadItem(b, zeroAlloc, i) == None { MissingItem(b, zeroAlloc, i, CountOf(b)); }
        return;
      }
      rec, i := rec.next, i + 1;
    }
  }

  lemma NothingLoaded(db: Pdb, b: seq<ubyte>, zeroAlloc: bool)
    requires HasIndex(b) && CountOf(b) == |db.spine|
    ensures Loaded(db, b, zeroAlloc, 0)
  {
  }

  lemma ReadyNext(db: Pdb, b: seq<ubyte>, i: nat)
    requires Ready(db, b) && i < |db.spine|
    ensures var e, rsrc := db.spine[i], HeadOf(b).IsRsrc();
            && HasIndex(b) && i < CountOf(b) && EntryAt(rsrc, i) + IxLen(rsrc) <= |b|
            && e.offset == Offset(b, i) && e.key == KeyAt(b, rsrc, EntryAt(rsrc, i))
            && e.next == (if i + 1 < |db.spine| then db.spine[i + 1] else null)
            && NextOff(b, i + 1) == (if e.next == null then db.fileSize else e.next.offset)
            && Distinct(db.spine) && db.head.IsRsrc() == rsrc
  {
    ReadyLinked(db, b);
    ReadyFirst(db, b);
    ReadyEntry(db, b, i);
    if i + 1 < |db.spine| { ReadyEntry(db, b, i + 1); }
    hide KeyAt, OffsetAt, HeadOf, Indexed, Ready, Offset, HasIndex, CountOf;
  }

  method KeepData(db: Pdb, rec: Entry, data: seq<ubyte>, ghost b: seq<ubyte>, ghost zeroAlloc: bool, ghost i: nat)
    requires Ready(db, b) && HasIndex(b) && i < CountOf(b) == |db.spine| && rec == db.spine[i] && Loaded(db, b, zeroAlloc, i)
    requires LoadItem(b, zeroAlloc, i) == Some(Item(rec.key, data))
    modifies rec`data
    ensures Ready(db, b) && Loaded(db, b, zeroAlloc, i + 1)
  {
    ReadyLinked(db, b);
    OnlyOnce(db.spine, i);
    hide LoadItem, HasIndex, CountOf, Indexed, Distinct, Ready;
    rec.data := data;
  }

  // ----- Loading --------------------------------------------------------------------

  predicate Fits(it: Item, rsrc: bool) { |it.data| < 0x1_0000 && (it.key.Rsrc? <==> rsrc) }

  lemma ItemFits(b: seq<ubyte>, zeroAlloc: bool, i: nat, rsrc: bool)
    requires HasIndex(b) && i < CountOf(b) && rsrc == HeadOf(b).IsRsrc()
    ensures var r := LoadItem(b, zeroAlloc, i);
            r.Some? ==> Fits(r.value, rsrc)
  {
    hide HasIndex, CountOf, HeadOf, Offset, NextOff, PeekUdword, PeekUword, SplitAttributes;
  }

  lemma {:induction false} ItemsFit(b: seq<ubyte>, zeroAlloc: bool, n: nat, rsrc: bool)
    requires HasIndex(b) && n <= CountOf(b) && rsrc == HeadOf(b).IsRsrc()
    ensures var r := LoadItems(b, zeroAlloc, n);
            r.Some? ==> forall i :: 0 <= i < n ==> Fits(r.value[i], rsrc)
  {
    hide HasIndex, CountOf, HeadOf, LoadItem, Fits;
    if n > 0 {
      ItemsFit(b, zeroAlloc, n - 1, rsrc);
      ItemFits(b, zeroAlloc, n - 1, rsrc);
    }
  }

  lemma NameLength(b: seq<ubyte>)
    requires HasIndex(b)
    ensures |HeadOf(b).name| == DBNAMELEN
  {
  }

  /** Whatever file it comes from, what is loaded is a database with its count. */
  lemma ParsedIsValid(b: seq<ubyte>, zeroAlloc: bool)
    ensures var r := Parse(b, zeroAlloc);
            r.Some? ==> r.value.Valid() && |r.value.items| == NumRecs(r.value)
  {
    NoIndex(b, zeroAlloc);
    if HasIndex(b) {
      ParseSteps(b, zeroAlloc);
      ItemsFit(b, zeroAlloc, CountOf(b), HeadOf(b).IsRsrc());
      NameLength(b);
      var r := Parse(b, zeroAlloc);
      if r.Some? { ItemsMakeValid(r.value, HeadOf(b).IsRsrc(), CountOf(b)); }
      hide *;
    }
  }

  lemma ItemsMakeValid(db: Db, rsrc: bool, n: uword)
    requires db.head.IsRsrc() == rsrc && |db.items| == n && |db.head.name| == DBNAMELEN
    requires forall i :: 0 <= i < n ==> Fits(db.items[i], rsrc)
    ensures db.Valid() && |db.items| == NumRecs(db)
  {
  }

  /** Its first half: the headers and the index. */
  method LoadFront(f: File, db: Pdb) returns (err: int, ghost failed: bool)
    requires f.pos == 0 && db.Linked() && db.spine == [] && db.fileSize == FileLength(f.content)
    modifies f`pos, f`faults, db`head, db`appOffset, db`sortOffset, db`numrecs, db`first, db`spine
    ensures f.faults == old(f.faults) + if failed then 1 else 0
    ensures (err == 0 && !failed) || (err == -1 && (failed || !HasIndex(f.content)))
    ensures err == 0 ==> Ready(db, f.content) && fresh(db.spine)
  {
    ghost var b := f.content;
    hide *;
    NoIndex(b, true);
    err, failed := LoadHeader(f, db);
    if err < 0 {
      return;
    }
    err, failed := LoadRecListHeader(f, db);
    if err < 0 {
      return;
    }
    err, failed := LoadIndex(f, db);
    if err < 0 {
      return;
    }
    IsReady(db, b);
  }

  /** Its second half: the blocks and the items. */
  method LoadRest(f: File, db: Pdb, zeroAlloc: bool) returns (err: int, ghost failed: bool)
    requires Ready(db, f.content)
    requires Parse(f.content, zeroAlloc).Some? ==> Parse(f.content, zeroAlloc).value.Valid()
    modifies f`pos, f`faults, db`appinfo, db`sortinfo, db.spine`data
    ensures f.faults == old(f.faults) + if failed then 1 else 0
    ensures (err == 0 && !failed) || (err == -1 && (failed || Parse(f.content, zeroAlloc) == None))
    ensures err == 0 ==> db.Valid() && Parse(f.content, zeroAlloc) == Some(db.Value())
  {
    hide *;
    HasReady(db, f.content);
    ParseSteps(f.content, zeroAlloc);
    err, failed := LoadAppBlock(f, db);
    if err < 0 {
      return;
    }
    err, failed := LoadSortBlock(f, db);
    if err < 0 {
      return;
    }
    err, failed := LoadData(f, db, zeroAlloc);
    if err < 0 {
      return;
    }
    Finish(db, f.content, zeroAlloc);
  }

  /** `pdb_Read`. Without a failing system call it returns what the file says,
      or null when the file cannot be read. */
  method PdbRead(f: File, zeroAlloc: bool) returns (r: Pdb?, ghost failed: bool)
    requires f.pos == 0
    modifies f`pos, f`faults
    ensures f.faults == old(f.faults) + if failed then 1 else 0
    ensures r != null ==> fresh(r) && r.Valid() && Parse(f.content, zeroAlloc) == Some(r.Value())
    ensures r == null <==> failed || Parse(f.content, zeroAlloc) == None
  {
    ParsedIsValid(f.content, zeroAlloc);
    NoIndex(f.content, zeroAlloc);
    r, failed := null, false;
    var db := new Pdb();
    db.fileSize := |f.content| % 0x1_0000;
    assert db.fileSize == FileLength(f.content);
    hide *;
    var err;
    err, failed := LoadFront(f, db);
    if err == 0 {
      err, failed := LoadRest(f, db, zeroAlloc);
    }
    if err == 0 {
      r := db;
    }
  }

  lemma HasReady(db: Pdb, b: seq<ubyte>)
    requires Ready(db, b)
    ensures HasIndex(b)
  {
  }

  lemma NoIndex(b: seq<ubyte>, zeroAlloc: bool)
    ensures !HasIndex(b) ==> Parse(b, zeroAlloc) == None
    ensures |b| < HEADER_LEN + RECORDLIST_LEN ==> !HasIndex(b)
  {
  }

  lemma IsReady(db: Pdb, b: seq<ubyte>)
    requires HasIndex(b) && db.head == HeadOf(b) && db.numrecs == CountOf(b) && Indexed(db, b, db.numrecs)
    requires db.appOffset == AppOffset(b) && db.sortOffset == SortOffset(b) && db.fileSize == |b| % 0x1_0000
    ensures Ready(db, b)
  {
  }

  lemma ParseSteps(b: seq<ubyte>, zeroAlloc: bool)
    requires HasIndex(b)
    ensures var appinfo := LoadBlock(b, AppOffset(b), if SortOffset(b) > 0 then SortOffset(b) else NextOff(b, 0));
            var sortinfo := LoadBlock(b, SortOffset(b), NextOff(b, 0));
            var items := LoadItems(b, zeroAlloc, CountOf(b));
            Parse(b, zeroAlloc) == if appinfo.Some? && sortinfo.Some? && items.Some?
                                   then Some(Db(HeadOf(b), appinfo.value, sortinfo.value, items.value)) else None
  {
    hide LoadBlock, LoadItems, HasIndex, HeadOf, CountOf, AppOffset, SortOffset, NextOff;
  }

  lemma Finish(db: Pdb, b: seq<ubyte>, zeroAlloc: bool)
    requires Ready(db, b) && HasIndex(b) && |db.spine| == CountOf(b) && Loaded(db, b, zeroAlloc, CountOf(b))
    requires Parse(b, zeroAlloc).Some? ==> Parse(b, zeroAlloc).value.Valid()
    requires var appinfo := LoadBlock(b, AppOffset(b), if SortOffset(b) > 0 then SortOffset(b) else NextOff(b, 0));
             appinfo == Some(db.appinfo) && LoadBlock(b, SortOffset(b), NextOff(b, 0)) == Some(db.sortinfo)
    ensures db.Valid() && Parse(b, zeroAlloc) == Some(db.Value())
  {
    ReadyFirst(db, b);
    AllLoaded(db, b, zeroAlloc, CountOf(b));
    assert db.Items()[..CountOf(b)] == db.Items();
    ParseSteps(b, zeroAlloc);
    ReadyLinked(db, b);
    assert db.Value() == Db(db.head, db.appinfo, db.sortinfo, db.Items());
    ValidIf(db);
    hide *;
  }

  lemma ReadyLinked(db: Pdb, b: seq<ubyte>)
    requires Ready(db, b)
    ensures db.Linked() && db.numrecs == |db.spine| && db.head == HeadOf(b) && Distinct(db.spine)
  {
    hide KeyAt, OffsetAt, HeadOf, Distinct, Entered;
  }

  lemma ValidIf(db: Pdb)
    requires db.Linked() && db.numrecs == |db.spine|
    ensures db.Value().Valid() ==> db.Valid()
  {
    hide Pdb.Linked, Db.Valid;
  }
}
