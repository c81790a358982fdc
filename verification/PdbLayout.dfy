/** Palm database files byte by byte: where everything is in a file that has been
    saved, and exactly what is made of any file. */
module PdbLayout {
  import opened Bytes
  import opened Options
  import opened PdbFormat
  import opened PdbRoundTrip

  // ----- A file that has been saved ---------------------------------------------------

  /** The fields of the headers, without the flag of an open database. */
  lemma HeaderOnFile(db: Db)
    requires db.Valid() && |db.items| < 0x1_0000
    ensures var b, h := Image(db), db.head;
            && |b| >= 78 && b[..32] == h.name && PeekUword(b, 32) == h.attributes % 0x8000 && PeekUword(b, 34) == h.version
            && PeekUdword(b, 36) == h.ctime && PeekUdword(b, 40) == h.mtime && PeekUdword(b, 44) == h.baktime
            && PeekUdword(b, 48) == h.modnum
            && PeekUdword(b, 60) == h.kind && PeekUdword(b, 64) == h.creator && PeekUdword(b, 68) == h.uniqueIDseed
            && PeekUword(b, 76) == |db.items|
  {
    hide Image, HasIndex, PeekUdword, PeekUword, AppAt, SortAt, BlockAt;
    FrontRead(db);
    ImageParts(db);
    StandsInside(Image(db), 0, FrontBytes(db));
  }

  function EntrySize(rsrc: bool): nat { if rsrc then 10 else 8 }

  /** The index, two zeros, the blocks, and the data follow each other. */
  lemma PartsOnFile(db: Db)
    requires Storable(db)
    ensures var b, end := Image(db), 78 + |db.items| * EntrySize(db.head.IsRsrc());
            var app := end + 2;
            var sort := app + BlockLen(db.appinfo);
            && |b| == sort + BlockLen(db.sortinfo) + DataLen(db.items)
            && b[end] == 0 && b[end + 1] == 0
            && PeekUdword(b, 52) == (if db.appinfo.Some? then app else 0)
            && PeekUdword(b, 56) == (if db.sortinfo.Some? then sort else 0)
            && (db.appinfo.Some? ==> StandsAt(b, app, db.appinfo.value))
            && (db.sortinfo.Some? ==> StandsAt(b, sort, db.sortinfo.value))
  {
    hide *;
    PlacesAre(db);
    ZerosStand(db);
    BlockOffsetsOnFile(db);
  }

  lemma PlacesAre(db: Db)
    requires Storable(db)
    ensures AppAt(db) == 78 + |db.items| * EntrySize(db.head.IsRsrc()) + 2 && SortAt(db) == AppAt(db) + BlockLen(db.appinfo)
    ensures |Image(db)| == SortAt(db) + BlockLen(db.sortinfo) + DataLen(db.items)
    ensures db.Valid() && |db.items| < 0x1_0000
  {
    hide Image, StandsAt, FrontBytes, IndexBytes, DataBytes, BlockBytes;
    ImageParts(db);
    assert db.items[..|db.items|] == db.items;
    hide DataLen;
  }

  lemma BlockOffsetsOnFile(db: Db)
    requires Storable(db)
    ensures var b := Image(db);
            && |b| >= 78
            && PeekUdword(b, 52) == (if db.appinfo.Some? then AppAt(db) else 0)
            && PeekUdword(b, 56) == (if db.sortinfo.Some? then SortAt(db) else 0)
            && (db.appinfo.Some? ==> StandsAt(b, AppAt(db), db.appinfo.value))
            && (db.sortinfo.Some? ==> StandsAt(b, SortAt(db), db.sortinfo.value))
  {
    hide Image, HasIndex, PeekUdword, PeekUword, StandsAt, HeadOf, AppAt, SortAt, Db.Valid, NextOff, CountOf,
         FrontBytes, IndexBytes, DataBytes;
    FrontRead(db);
    BlocksWithin(db);
    BlocksStand(db);
    ImageParts(db);
    StandsInside(Image(db), 0, FrontBytes(db));
  }

  lemma ZerosStand(db: Db)
    requires db.Valid() && |db.items| < 0x1_0000
    ensures var end := 78 + |db.items| * EntrySize(db.head.IsRsrc());
            end + 2 <= |Image(db)| && Image(db)[end] == 0 && Image(db)[end + 1] == 0
  {
    hide FrontBytes, IndexBytes, DataBytes, BlockBytes;
    var rsrc := db.head.IsRsrc();
    FrontLength(db);
    IndexLength(db.items, FirstAt(db), rsrc);
    var front := FrontBytes(db) + IndexBytes(db.items, FirstAt(db));
    assert Image(db) == front + ([0, 0] + (BlockBytes(db.appinfo) + BlockBytes(db.sortinfo) + DataBytes(db.items)));
  }

  lemma EntryStands(db: Db, i: nat)
    requires db.Valid() && |db.items| < 0x1_0000 && i < |db.items|
    ensures var rsrc := db.head.IsRsrc();
            StandsAt(Image(db), 78 + i * EntrySize(rsrc), KeyBytes(db.items[i].key, Udword(ItemAt(db, i))))
    ensures db.items[i].key.Rsrc? <==> db.head.IsRsrc()
  {
    hide Image, StandsAt, KeyBytes, IndexBytes, FrontBytes, DataBytes, DataLen;
    var rsrc := db.head.IsRsrc();
    ImageParts(db);
    IndexHolds(db.items, FirstAt(db), rsrc, i);
    StandsWithin(Image(db), 78, IndexBytes(db.items, FirstAt(db)), i * IxLen(rsrc), KeyBytes(db.items[i].key, Udword(ItemAt(db, i))));
  }

  /** The byte for the attributes: the high half of the flags; below it the
      category, or for a deleted record the flag to be archived. */
  predicate AttributeByte(x: ubyte, flags: ubyte, category: ubyte) {
    x / 16 == flags / 16 && x % 16 == if flags / 32 % 2 == 1 then flags / 8 % 2 * 8 else category % 16
  }

  lemma MergedByte(flags: ubyte, category: ubyte)
    ensures AttributeByte(MergeAttributes(flags, category), flags, category)
  {
    if Deleted(flags) {
      assert flags == flags / 16 * 16 + flags / 8 % 2 * 8 + flags % 8;
      assert flags / 8 * 8 == flags / 16 * 16 + flags / 8 % 2 * 8;
    }
  }

  /** Where the entry and the data of an item are. */
  lemma ItemStands(db: Db, i: nat)
    requires Storable(db) && i < |db.items|
    ensures db.Valid() && (db.items[i].key.Rsrc? <==> db.head.IsRsrc())
    ensures ItemAt(db, i) < 0x1_0000_0000 && StandsAt(Image(db), ItemAt(db, i), db.items[i].data)
    ensures StandsAt(Image(db), 78 + i * (if db.head.IsRsrc() then 10 else 8), KeyBytes(db.items[i].key, ItemAt(db, i)))
  {
    hide Image, StandsAt, ItemAt, KeyBytes, DataLen, IxLen, Head.IsRsrc;
    EntryStands(db, i);
    DataRead(db, i);
    StandsInside(Image(db), ItemAt(db, i), db.items[i].data);
  }

  /** The index entry of a record: the offset of its data, its attributes, and the
      low three bytes of its id. */
  lemma RecordOnFile(db: Db, i: nat)
    requires Storable(db) && i < |db.items| && !db.head.IsRsrc()
    ensures var b, at, k := Image(db), 78 + 8 * i, db.items[i].key;
            && at + 8 <= |b| && k.Rec? && StandsAt(b, PeekUdword(b, at), db.items[i].data)
            && AttributeByte(b[at + 4], k.flags, k.category)
            && PeekUdword(b, at + 4) % 0x100_0000 == k.uid % 0x100_0000
  {
    hide *;
    ItemStands(db, i);
    RecordParts(Image(db), 78 + 8 * i, db.items[i].key, ItemAt(db, i));
  }

  lemma RecordParts(b: seq<ubyte>, at: nat, k: Key, offset: udword)
    requires k.Rec? && StandsAt(b, at, KeyBytes(k, offset))
    ensures at + 8 <= |b| && PeekUdword(b, at) == offset && AttributeByte(b[at + 4], k.flags, k.category)
    ensures PeekUdword(b, at + 4) % 0x100_0000 == k.uid % 0x100_0000
  {
    var tail: seq<ubyte> := [MergeAttributes(k.flags, k.category), k.uid / 0x1_0000 % 0x100, k.uid / 0x100 % 0x100, k.uid % 0x100];
    PartsStand(b, at, UdwordBytes(offset), tail);
    UdwordStands(b, at, offset);
    assert b[at + 4] == tail[0] && b[at + 5] == tail[1] && b[at + 6] == tail[2] && b[at + 7] == tail[3];
    MergedByte(k.flags, k.category);
    ThreeBytes(k.uid);
    LowThree(b[at + 4], b[at + 5] as int * 0x1_0000 + b[at + 6] as int * 0x100 + b[at + 7]);
    hide *;
  }

  lemma LowThree(x: ubyte, low: nat)
    requires low < 0x100_0000
    ensures (x as int * 0x100_0000 + low) % 0x100_0000 == low
  {
  }

  /** That of a resource: its type, its id, and the offset of its data. */
  lemma ResourceOnFile(db: Db, i: nat)
    requires Storable(db) && i < |db.items| && db.head.IsRsrc()
    ensures var b, at, k := Image(db), 78 + 10 * i, db.items[i].key;
            && at + 10 <= |b| && k.Rsrc? && PeekUdword(b, at) == k.kind && PeekUword(b, at + 4) == k.rid
            && StandsAt(b, PeekUdword(b, at + 6), db.items[i].data)
  {
    hide *;
    ItemStands(db, i);
    ResourceParts(Image(db), 78 + 10 * i, db.items[i].key, ItemAt(db, i));
  }

  lemma ResourceParts(b: seq<ubyte>, at: nat, k: Key, offset: udword)
    requires k.Rsrc? && StandsAt(b, at, KeyBytes(k, offset))
    ensures at + 10 <= |b| && PeekUdword(b, at) == k.kind && PeekUword(b, at + 4) == k.rid && PeekUdword(b, at + 6) == offset
  {
    hide UwordBytes, UdwordBytes, PeekUword, PeekUdword;
    PartsStand(b, at, UdwordBytes(k.kind) + UwordBytes(k.rid), UdwordBytes(offset));
    PartsStand(b, at, UdwordBytes(k.kind), UwordBytes(k.rid));
    UdwordStands(b, at, k.kind);
    UwordStands(b, at + 4, k.rid);
    UdwordStands(b, at + 6, offset);
  }

  // ----- Any file at all -----------------------------------------------------------------

  predicate HasResources(b: seq<ubyte>)
    requires |b| >= 78
  {
    PeekUword(b, 32) % 2 == 1
  }

  /** The headers and the index are all there. */
  predicate Complete(b: seq<ubyte>) {
    |b| >= 78 && 78 + PeekUword(b, 76) * EntrySize(HasResources(b)) <= |b|
  }

  /** Where item `i` begins; after the last one, the low 16 bits of the length of the file. */
  function Start(b: seq<ubyte>, i: nat): udword
    requires Complete(b)
  {
    if i >= PeekUword(b, 76) then |b| % 65536
    else
      var at := 78 + i * EntrySize(HasResources(b));
      assert at + EntrySize(HasResources(b)) <= |b| by { EntryWithin(i, PeekUword(b, 76), EntrySize(HasResources(b))); }
      if HasResources(b) then PeekUdword(b, at + 6) else PeekUdword(b, at)
  }

  lemma EntryWithin(i: nat, n: nat, size: nat)
    requires i < n && (size == 8 || size == 10)
    ensures i * size + size <= n * size
  {
  }

  predicate HeadIs(b: seq<ubyte>, h: Head)
    requires |b| >= 78
  {
    && h.name == b[..32] && h.attributes == PeekUword(b, 32) && h.version == PeekUword(b, 34)
    && h.ctime == PeekUdword(b, 36) && h.mtime == PeekUdword(b, 40) && h.baktime == PeekUdword(b, 44)
    && h.modnum == PeekUdword(b, 48)
    && h.kind == PeekUdword(b, 60) && h.creator == PeekUdword(b, 64) && h.uniqueIDseed == PeekUdword(b, 68)
  }

  /** A block goes from its offset to the next known one; there is none if its
      offset is zero or there is nothing in between. */
  predicate BlockIs(b: seq<ubyte>, at: udword, next: udword, block: Option<seq<ubyte>>) {
    if at == 0 || at == next then block == None
    else
      var end := if next > at then next as int else next as int + 0x1_0000_0000;
      end <= |b| && block == Some(b[at..end])
  }

  predicate KeyIs(b: seq<ubyte>, i: nat, k: Key)
    requires Complete(b) && i < PeekUword(b, 76)
  {
    EntryWithin(i, PeekUword(b, 76), EntrySize(HasResources(b)));
    if HasResources(b) then k == Rsrc(PeekUdword(b, 78 + 10 * i), PeekUword(b, 78 + 10 * i + 4))
    else
      var x := b[78 + 8 * i + 4];
      && k.Rec? && k.uid == PeekUdword(b, 78 + 8 * i + 4) % 0x100_0000
      && if x / 32 % 2 == 1 then k.flags == x - x % 8 && k.category == 0 else k.flags == x - x % 16 && k.category == x % 16
  }

  /** The data of an item goes from its offset to that of the next, in 16 bits. */
  predicate DataIs(b: seq<ubyte>, zeroAlloc: bool, i: nat, data: seq<ubyte>)
    requires Complete(b) && i < PeekUword(b, 76)
  {
    var at := Start(b, i);
    var len := (Start(b, i + 1) - at) % 65536;
    if len == 0 then data == [] && (!HasResources(b) || zeroAlloc)
    else at + len <= |b| && data == b[at..at + len]
  }

  lemma SameIndex(b: seq<ubyte>)
    ensures HasIndex(b) <==> Complete(b)
    ensures HasIndex(b) ==> CountOf(b) == PeekUword(b, 76) && HeadOf(b).IsRsrc() == HasResources(b)
  {
    hide PeekUdword, PeekUword;
  }

  lemma SameStart(b: seq<ubyte>, i: nat)
    requires HasIndex(b)
    ensures Complete(b) && NextOff(b, i) == Start(b, i)
  {
    SameIndex(b);
    hide PeekUdword, PeekUword, HeadOf;
    if i < CountOf(b) { EntriesApart(HeadOf(b).IsRsrc(), i, CountOf(b)); }
  }

  lemma SameBlock(b: seq<ubyte>, at: udword, next: udword, block: Option<seq<ubyte>>)
    ensures LoadBlock(b, at, next) == Some(block) <==> BlockIs(b, at, next, block)
  {
    assert next >= at ==> Udword(next - at) == next - at;
    assert next < at ==> Udword(next - at) == next - at + 0x1_0000_0000;
  }

  lemma SameAttributes(x: ubyte, flags: ubyte, category: ubyte)
    ensures SplitAttributes(x) == (flags, category) <==>
            if x / 32 % 2 == 1 then flags == x - x % 8 && category == 0 else flags == x - x % 16 && category == x % 16
  {
    assert x - x % 8 == x / 8 * 8 && x - x % 16 == x / 16 * 16;
  }

  lemma SameKey(b: seq<ubyte>, i: nat, k: Key)
    requires HasIndex(b) && i < CountOf(b)
    ensures Complete(b) && PeekUword(b, 76) == CountOf(b)
    ensures EntryAt(HeadOf(b).IsRsrc(), i) + IxLen(HeadOf(b).IsRsrc()) <= |b|
    ensures KeyAt(b, HeadOf(b).IsRsrc(), EntryAt(HeadOf(b).IsRsrc(), i)) == k <==> KeyIs(b, i, k)
  {
    SameIndex(b);
    var rsrc := HeadOf(b).IsRsrc();
    EntriesApart(rsrc, i, CountOf(b));
    hide PeekUword, HeadOf;
    if !rsrc {
      var at := 78 + 8 * i;
      assert EntryAt(rsrc, i) == at;
      LowThree(b[at + 4], b[at + 5] as int * 0x1_0000 + b[at + 6] as int * 0x100 + b[at + 7]);
      if k.Rec? { SameAttributes(b[at + 4], k.flags, k.category); }
      hide SplitAttributes;
    } else {
      hide PeekUdword;
      assert EntryAt(rsrc, i) == 78 + 10 * i;
    }
  }

  lemma SameItem(b: seq<ubyte>, zeroAlloc: bool, i: nat, it: Item)
    requires HasIndex(b) && i < CountOf(b)
    ensures Complete(b) && PeekUword(b, 76) == CountOf(b)
    ensures LoadItem(b, zeroAlloc, i) == Some(it) <==> KeyIs(b, i, it.key) && DataIs(b, zeroAlloc, i, it.data)
  {
    SameIndex(b);
    SameKey(b, i, it.key);
    SameStart(b, i);
    SameStart(b, i + 1);
    hide PeekUword, PeekUdword, HeadOf, KeyAt, KeyIs, Start, HasIndex, Complete, NextOff, OffsetAt, HasResources;
    assert NextOff(b, i) == Offset(b, i) by { OffsetIsNext(b, i); }
    hide Offset, CountOf;
  }

  lemma OffsetIsNext(b: seq<ubyte>, i: nat)
    requires HasIndex(b) && i < CountOf(b)
    ensures NextOff(b, i) == Offset(b, i)
  {
    hide HasIndex, CountOf;
  }

  lemma {:induction false} SameItems(b: seq<ubyte>, zeroAlloc: bool, n: nat, items: seq<Item>)
    requires HasIndex(b) && n <= CountOf(b)
    ensures LoadItems(b, zeroAlloc, n) == Some(items)
            <==> |items| == n && forall i :: 0 <= i < n ==> LoadItem(b, zeroAlloc, i) == Some(items[i])
  {
    hide HasIndex, CountOf, LoadItem;
    if n > 0 {
      if |items| == n {
        SameItems(b, zeroAlloc, n - 1, items[..n - 1]);
        assert items == items[..n - 1] + [items[n - 1]];
      }
      if LoadItems(b, zeroAlloc, n) == Some(items) {
        var r := LoadItems(b, zeroAlloc, n - 1).value;
        assert items == r + [items[n - 1]] && items[..n - 1] == r;
      }
    }
  }

  /** The file `b` is read as the database `db` exactly when its headers and its
      index are complete, and every field, block, key and piece of data of `db`
      is what stands in its place in `b`. */
  lemma ParsesExactly(b: seq<ubyte>, zeroAlloc: bool, db: Db)
    ensures Parse(b, zeroAlloc) == Some(db) <==>
            && Complete(b) && HeadIs(b, db.head)
            && BlockIs(b, PeekUdword(b, 52), if PeekUdword(b, 56) > 0 then PeekUdword(b, 56) else Start(b, 0), db.appinfo)
            && BlockIs(b, PeekUdword(b, 56), Start(b, 0), db.sortinfo)
            && |db.items| == PeekUword(b, 76)
            && forall i :: 0 <= i < |db.items| ==> KeyIs(b, i, db.items[i].key) && DataIs(b, zeroAlloc, i, db.items[i].data)
  {
    SameIndex(b);
    if HasIndex(b) {
      SameHead(b, db.head);
      SameStart(b, 0);
      SameBlock(b, PeekUdword(b, 52), if PeekUdword(b, 56) > 0 then PeekUdword(b, 56) else Start(b, 0), db.appinfo);
      SameBlock(b, PeekUdword(b, 56), Start(b, 0), db.sortinfo);
      SameItems(b, zeroAlloc, CountOf(b), db.items);
      if |db.items| == CountOf(b) {
        forall i | 0 <= i < |db.items|
          ensures LoadItem(b, zeroAlloc, i) == Some(db.items[i])
                  <==> KeyIs(b, i, db.items[i].key) && DataIs(b, zeroAlloc, i, db.items[i].data)
        {
          SameItem(b, zeroAlloc, i, db.items[i]);
        }
      }
      assert AppOffset(b) == PeekUdword(b, 52) && SortOffset(b) == PeekUdword(b, 56);
      hide HasIndex, Complete, LoadBlock, BlockIs, LoadItems, LoadItem, KeyIs, DataIs, Start, NextOff, HeadIs, HeadOf,
           PeekUword, PeekUdword, AppOffset, SortOffset, CountOf, HasResources;
    }
  }

  lemma SameHead(b: seq<ubyte>, h: Head)
    requires |b| >= 78
    ensures HeadOf(b) == h <==> HeadIs(b, h)
  {
    hide PeekUword, PeekUdword;
  }
}
