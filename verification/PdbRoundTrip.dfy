/** Saving a Palm database and loading it again. */
module PdbRoundTrip {
  import opened Bytes
  import opened Options
  import opened PdbFormat

  // ----- Where things are in an image -------------------------------------------

  lemma {:induction false} IndexLength(items: seq<Item>, first: nat, rsrc: bool)
    requires forall i :: 0 <= i < |items| ==> (items[i].key.Rsrc? <==> rsrc)
    ensures |IndexBytes(items, first)| == |items| * IxLen(rsrc)
    decreases |items|
  {
    hide KeyBytes;
    if items != [] { IndexLength(items[..|items| - 1], first, rsrc); }
  }

  lemma {:induction false} IndexHolds(items: seq<Item>, first: nat, rsrc: bool, i: nat)
    requires i < |items| && forall i :: 0 <= i < |items| ==> (items[i].key.Rsrc? <==> rsrc)
    ensures StandsAt(IndexBytes(items, first), i * IxLen(rsrc),
                     KeyBytes(items[i].key, Udword(first + DataLen(items[..i]))))
    decreases |items|
  {
    hide KeyBytes, StandsAt, DataLen;
    var n := |items| - 1;
    var init, whole := items[..n], IndexBytes(items, first);
    var last := KeyBytes(items[n].key, Udword(first + DataLen(init)));
    assert whole == IndexBytes(init, first) + last;
    WholeStands(whole);
    PartsStand(whole, 0, IndexBytes(init, first), last);
    IndexLength(init, first, rsrc);
    if i < n {
      IndexHolds(init, first, rsrc, i);
      assert init[..i] == items[..i];
      StandsWithin(whole, 0, IndexBytes(init, first), i * IxLen(rsrc), KeyBytes(items[i].key, Udword(first + DataLen(items[..i]))));
    }
  }

  lemma WholeStands(b: seq<ubyte>)
    ensures StandsAt(b, 0, b)
  {
  }

  lemma {:induction false} DataHolds(items: seq<Item>, i: nat)
    requires i < |items|
    ensures StandsAt(DataBytes(items), DataLen(items[..i]), items[i].data)
    decreases |items|
  {
    hide StandsAt;
    var n := |items| - 1;
    var init, whole := items[..n], DataBytes(items);
    WholeStands(whole);
    PartsStand(whole, 0, DataBytes(init), items[n].data);
    if i < n {
      DataHolds(init, i);
      assert init[..i] == items[..i];
      StandsWithin(whole, 0, DataBytes(init), DataLen(items[..i]), items[i].data);
    }
  }

  lemma NextData(items: seq<Item>, i: nat)
    requires i < |items|
    ensures DataLen(items[..i + 1]) == DataLen(items[..i]) + |items[i].data|
  {
    assert items[..i + 1][..i] == items[..i];
  }

  lemma SixParts(b: seq<ubyte>, p1: seq<ubyte>, p2: seq<ubyte>, p3: seq<ubyte>, p4: seq<ubyte>, p5: seq<ubyte>, p6: seq<ubyte>)
    requires b == p1 + p2 + p3 + p4 + p5 + p6
    ensures |b| == |p1| + |p2| + |p3| + |p4| + |p5| + |p6|
    ensures StandsAt(b, 0, p1) && StandsAt(b, |p1|, p2)
    ensures StandsAt(b, |p1| + |p2| + |p3|, p4) && StandsAt(b, |p1| + |p2| + |p3| + |p4|, p5)
    ensures StandsAt(b, |p1| + |p2| + |p3| + |p4| + |p5|, p6)
  {
    WholeStands(b);
    hide StandsAt;
    PartsStand(b, 0, p1 + p2 + p3 + p4 + p5, p6);
    PartsStand(b, 0, p1 + p2 + p3 + p4, p5);
    PartsStand(b, 0, p1 + p2 + p3, p4);
    PartsStand(b, 0, p1 + p2, p3);
    PartsStand(b, 0, p1, p2);
  }

  /** The pieces of an image, each in its place. */
  lemma ImageParts(db: Db)
    requires db.Valid() && |db.items| < 0x1_0000
    ensures var b := Image(db);
            && |b| == ItemAt(db, |db.items|)
            && StandsAt(b, 0, FrontBytes(db)) && |FrontBytes(db)| == 78
            && StandsAt(b, 78, IndexBytes(db.items, FirstAt(db)))
            && StandsAt(b, AppAt(db), BlockBytes(db.appinfo))
            && StandsAt(b, SortAt(db), BlockBytes(db.sortinfo))
            && StandsAt(b, FirstAt(db), DataBytes(db.items))
  {
    hide StandsAt, FrontBytes, HeaderBytes, IndexBytes, DataBytes, BlockBytes, DataLen, IxLen;
    IndexLength(db.items, FirstAt(db), db.head.IsRsrc());
    FrontLength(db);
    BlockLengths(db.appinfo);
    BlockLengths(db.sortinfo);
    SixParts(Image(db), FrontBytes(db), IndexBytes(db.items, FirstAt(db)), [0, 0],
             BlockBytes(db.appinfo), BlockBytes(db.sortinfo), DataBytes(db.items));
    assert db.items[..|db.items|] == db.items;
  }

  lemma BlockLengths(block: Option<seq<ubyte>>)
    ensures |BlockBytes(block)| == BlockLen(block)
  {
  }

  lemma FrontLength(db: Db)
    requires db.Valid()
    ensures |FrontBytes(db)| == 78
  {
    hide HeaderBytes;
  }

  // ----- The headers ----------------------------------------------------------------

  lemma HeaderRead(b: seq<ubyte>, h: Head, appAt: udword, sortAt: udword)
    requires |h.name| == DBNAMELEN && StandsAt(b, 0, HeaderBytes(h, appAt, sortAt))
    ensures |b| >= HEADER_LEN && HeadOf(b) == h && AppOffset(b) == appAt && SortOffset(b) == sortAt
  {
    hide UwordBytes, UdwordBytes, StandsAt, PeekUword, PeekUdword;
    var p1 := h.name + UwordBytes(h.attributes);
    var p2 := p1 + UwordBytes(h.version);
    var p3 := p2 + UdwordBytes(h.ctime);
    var p4 := p3 + UdwordBytes(h.mtime);
    var p5 := p4 + UdwordBytes(h.baktime);
    var p6 := p5 + UdwordBytes(h.modnum);
    var p7 := p6 + UdwordBytes(appAt);
    var p8 := p7 + UdwordBytes(sortAt);
    var p9 := p8 + UdwordBytes(h.kind);
    var p10 := p9 + UdwordBytes(h.creator);
    assert HeaderBytes(h, appAt, sortAt) == p10 + UdwordBytes(h.uniqueIDseed);
    hide HeaderBytes;
    PartsStand(b, 0, p10, UdwordBytes(h.uniqueIDseed));
    PartsStand(b, 0, p9, UdwordBytes(h.creator));
    PartsStand(b, 0, p8, UdwordBytes(h.kind));
    PartsStand(b, 0, p7, UdwordBytes(sortAt));
    PartsStand(b, 0, p6, UdwordBytes(appAt));
    PartsStand(b, 0, p5, UdwordBytes(h.modnum));
    PartsStand(b, 0, p4, UdwordBytes(h.baktime));
    PartsStand(b, 0, p3, UdwordBytes(h.mtime));
    PartsStand(b, 0, p2, UdwordBytes(h.ctime));
    PartsStand(b, 0, p1, UwordBytes(h.version));
    PartsStand(b, 0, h.name, UwordBytes(h.attributes));
    StandsInside(b, 68, UdwordBytes(h.uniqueIDseed));
    NameRead(b, h.name);
    UwordStands(b, 32, h.attributes);
    UwordStands(b, 34, h.version);
    UdwordStands(b, 36, h.ctime);
    UdwordStands(b, 40, h.mtime);
    UdwordStands(b, 44, h.baktime);
    UdwordStands(b, 48, h.modnum);
    UdwordStands(b, 52, appAt);
    UdwordStands(b, 56, sortAt);
    UdwordStands(b, 60, h.kind);
    UdwordStands(b, 64, h.creator);
    UdwordStands(b, 68, h.uniqueIDseed);
  }

  lemma StandsInside(b: seq<ubyte>, at: nat, part: seq<ubyte>)
    requires StandsAt(b, at, part)
    ensures at + |part| <= |b|
  {
  }

  lemma NameRead(b: seq<ubyte>, name: seq<ubyte>)
    requires StandsAt(b, 0, name)
    ensures |name| <= |b| && b[..|name|] == name
  {
  }

  lemma FrontRead(db: Db)
    requires db.Valid() && |db.items| < 0x1_0000
    ensures var b := Image(db);
            && |b| >= HEADER_LEN && HasIndex(b) && HeadOf(b) == db.head.Closed() && CountOf(b) == |db.items|
            && AppOffset(b) == BlockAt(db.appinfo, AppAt(db)) && SortOffset(b) == BlockAt(db.sortinfo, SortAt(db))
            && HeadOf(b).IsRsrc() == db.head.IsRsrc()
  {
    var b := Image(db);
    hide Image, StandsAt, FrontBytes, IndexBytes, HeadOf, IxLen, AppAt, SortAt, Head.Closed, Head.IsRsrc, PeekUdword, PeekUword;
    ImageParts(db);
    ClosedIsRsrc(db.head);
    IndexLength(db.items, FirstAt(db), db.head.IsRsrc());
    FrontFields(db, b);
    StandsInside(b, 78, IndexBytes(db.items, FirstAt(db)));
  }

  lemma FrontFields(db: Db, b: seq<ubyte>)
    requires db.Valid() && |db.items| < 0x1_0000 && StandsAt(b, 0, FrontBytes(db))
    ensures |b| >= 78 && HeadOf(b) == db.head.Closed() && CountOf(b) == |db.items|
    ensures AppOffset(b) == BlockAt(db.appinfo, AppAt(db)) && SortOffset(b) == BlockAt(db.sortinfo, SortAt(db))
  {
    hide HeaderBytes, UwordBytes, UdwordBytes, StandsAt, PeekUword, PeekUdword, BlockAt, HeadOf, AppAt, SortAt;
    var h, appAt, sortAt := db.head.Closed(), BlockAt(db.appinfo, AppAt(db)), BlockAt(db.sortinfo, SortAt(db));
    PartsStand(b, 0, HeaderBytes(h, appAt, sortAt) + UdwordBytes(0), UwordBytes(NumRecs(db)));
    PartsStand(b, 0, HeaderBytes(h, appAt, sortAt), UdwordBytes(0));
    HeaderRead(b, h, appAt, sortAt);
    StandsInside(b, 76, UwordBytes(NumRecs(db)));
    UwordStands(b, 76, NumRecs(db));
  }

  lemma ClosedIsRsrc(h: Head)
    ensures h.Closed().IsRsrc() == h.IsRsrc()
  {
  }

  // ----- The index --------------------------------------------------------------------

  lemma KeyRead(b: seq<ubyte>, at: nat, k: Key, off: udword)
    requires StandsAt(b, at, KeyBytes(k, off))
    ensures at + IxLen(k.Rsrc?) <= |b| && KeyAt(b, k.Rsrc?, at) == NormalKey(k) && OffsetAt(b, k.Rsrc?, at) == off
  {
    hide UwordBytes, UdwordBytes, PeekUword, PeekUdword, MergeAttributes, SplitAttributes;
    match k
    case Rec(flags, category, uid) =>
      var tail: seq<ubyte> := [MergeAttributes(flags, category), uid / 0x1_0000 % 0x100, uid / 0x100 % 0x100, uid % 0x100];
      PartsStand(b, at, UdwordBytes(off), tail);
      UdwordStands(b, at, off);
      assert b[at + 4] == tail[0] && b[at + 5] == tail[1] && b[at + 6] == tail[2] && b[at + 7] == tail[3];
      ThreeBytes(uid);
    case Rsrc(kind, rid) =>
      PartsStand(b, at, UdwordBytes(kind) + UwordBytes(rid), UdwordBytes(off));
      PartsStand(b, at, UdwordBytes(kind), UwordBytes(rid));
      UdwordStands(b, at, kind);
      UwordStands(b, at + 4, rid);
      UdwordStands(b, at + 6, off);
  }

  lemma ThreeBytes(uid: udword)
    ensures uid / 0x1_0000 % 0x100 * 0x1_0000 + uid / 0x100 % 0x100 * 0x100 + uid % 0x100 == uid % 0x100_0000
  {
    var a := uid / 0x100;
    assert uid / 0x1_0000 == a / 0x100;
  }

  lemma EntryRead(db: Db, i: nat)
    requires db.Valid() && |db.items| < 0x1_0000 && i < |db.items|
    ensures var b, rsrc := Image(db), db.head.IsRsrc();
            && EntryAt(rsrc, i) + IxLen(rsrc) <= |b|
            && KeyAt(b, rsrc, EntryAt(rsrc, i)) == NormalKey(db.items[i].key)
            && OffsetAt(b, rsrc, EntryAt(rsrc, i)) == Udword(ItemAt(db, i))
  {
    hide Image, StandsAt, KeyBytes, IndexBytes, KeyAt, OffsetAt, NormalKey, IxLen, FrontBytes, DataBytes, DataLen;
    var b, rsrc, k := Image(db), db.head.IsRsrc(), db.items[i].key;
    ImageParts(db);
    IndexHolds(db.items, FirstAt(db), rsrc, i);
    StandsWithin(b, 78, IndexBytes(db.items, FirstAt(db)), i * IxLen(rsrc), KeyBytes(k, Udword(ItemAt(db, i))));
    KeyRead(b, EntryAt(rsrc, i), k, Udword(ItemAt(db, i)));
  }

  lemma DataRead(db: Db, i: nat)
    requires db.Valid() && |db.items| < 0x1_0000 && i < |db.items|
    ensures StandsAt(Image(db), ItemAt(db, i), db.items[i].data)
    ensures ItemAt(db, i + 1) == ItemAt(db, i) + |db.items[i].data| <= |Image(db)|
  {
    hide Image, StandsAt, IndexBytes, FrontBytes, DataBytes, DataLen;
    ImageParts(db);
    DataHolds(db.items, i);
    StandsWithin(Image(db), FirstAt(db), DataBytes(db.items), DataLen(db.items[..i]), db.items[i].data);
    NextData(db.items, i);
    StandsInside(Image(db), ItemAt(db, i), db.items[i].data);
  }

  // ----- The items --------------------------------------------------------------------

  /** The length of the file is only known modulo 64 kB, which is enough for the
      length of the item at its end. */
  lemma LastLength(size: nat, at: nat, len: uword)
    requires at + len == size
    ensures (size % 0x1_0000 - at) % 0x1_0000 == len
  {
  }

  predicate Allocates(db: Db, zeroAlloc: bool, i: nat)
    requires i < |db.items|
  {
    !db.head.IsRsrc() || zeroAlloc || db.items[i].data != []
  }

  lemma OffsetRead(db: Db, i: nat)
    requires Storable(db) && i < |db.items|
    ensures HasIndex(Image(db)) && CountOf(Image(db)) == |db.items| && Offset(Image(db), i) == ItemAt(db, i)
  {
    hide Image, KeyAt, HeadOf, ItemAt, Head.IsRsrc, OffsetAt, EntryAt, IxLen, CountOf;
    FrontRead(db);
    EntryRead(db, i);
    DataRead(db, i);
  }

  lemma NextRead(db: Db, i: nat)
    requires Storable(db) && i < |db.items|
    ensures HasIndex(Image(db)) && CountOf(Image(db)) == |db.items| && i + 1 <= |db.items|
    ensures (NextOff(Image(db), i + 1) - ItemAt(db, i)) % 0x1_0000 == |db.items[i].data|
  {
    hide Image, HeadOf, ItemAt, Head.IsRsrc, EntryAt, IxLen, CountOf, Offset, Db.Valid;
    OffsetRead(db, i);
    DataRead(db, i);
    SmallData(db, i);
    if i + 1 < |db.items| {
      OffsetRead(db, i + 1);
    } else {
      hide StandsAt, FrontBytes, IndexBytes, BlockBytes, DataBytes, AppAt, SortAt, FirstAt;
      ImageParts(db);
      LastLength(|Image(db)|, ItemAt(db, i), |db.items[i].data|);
    }
  }

  lemma SmallData(db: Db, i: nat)
    requires db.Valid() && i < |db.items|
    ensures |db.items[i].data| < 0x1_0000 && (db.items[i].key.Rsrc? <==> db.head.IsRsrc())
  {
  }

  lemma ItemLoads(db: Db, zeroAlloc: bool, i: nat)
    requires Storable(db) && i < |db.items|
    ensures HasIndex(Image(db)) && CountOf(Image(db)) == |db.items|
    ensures LoadItem(Image(db), zeroAlloc, i) == if Allocates(db, zeroAlloc, i) then Some(NormalItem(db.items[i])) else None
  {
    hide Image, HeadOf, ItemAt, Head.IsRsrc, EntryAt, IxLen, CountOf, Offset, NextOff, KeyAt, NormalKey, Db.Valid;
    FrontRead(db);
    OffsetRead(db, i);
    NextRead(db, i);
    EntryRead(db, i);
    DataRead(db, i);
  }

  function NormalItems(items: seq<Item>): seq<Item> {
    seq(|items|, i requires 0 <= i < |items| => NormalItem(items[i]))
  }

  lemma {:induction false} ItemsLoad(db: Db, zeroAlloc: bool, n: nat)
    requires Storable(db) && n <= |db.items|
    ensures HasIndex(Image(db)) && CountOf(Image(db)) == |db.items|
    ensures LoadItems(Image(db), zeroAlloc, n)
            == if forall i :: 0 <= i < n ==> Allocates(db, zeroAlloc, i) then Some(NormalItems(db.items[..n])) else None
  {
    hide Image, Allocates, LoadItem, NormalItem, Storable, CountOf, HasIndex;
    if n == 0 {
      StorableRead(db);
    } else {
      ItemsLoad(db, zeroAlloc, n - 1);
      ItemLoads(db, zeroAlloc, n - 1);
      assert NormalItems(db.items[..n]) == NormalItems(db.items[..n - 1]) + [NormalItem(db.items[n - 1])];
    }
  }

  lemma StorableRead(db: Db)
    requires Storable(db)
    ensures db.Valid() && HasIndex(Image(db)) && CountOf(Image(db)) == |db.items|
  {
    hide Image, HeadOf;
    FrontRead(db);
  }

  // ----- The blocks ---------------------------------------------------------------------

  lemma BlockLoads(b: seq<ubyte>, block: Option<seq<ubyte>>, at: nat, next: udword)
    requires 0 < at < 0x1_0000_0000 && at + BlockLen(block) == next && StandsAt(b, at, BlockBytes(block))
    ensures LoadBlock(b, BlockAt(block, at), next) == Some(NormalBlock(block))
  {
  }

  /** The length of the file is not enough for the length of a block at its end,
      when it is 64 kB or more. */
  lemma BlockSpoilt(b: seq<ubyte>, block: Option<seq<ubyte>>, at: nat)
    requires block.Some? && 0 < at && at + BlockLen(block) == |b| < 0x1_0000_0000 && |b| >= 0x1_0000
    ensures LoadBlock(b, BlockAt(block, at), FileLength(b)) != Some(NormalBlock(block))
  {
    var len := Udword(FileLength(b) - at);
    assert len != |b| - at;
  }

  /** The items, or their lack, tell where the last block ends. */
  predicate EndsKnown(db: Db)
    requires db.Valid()
  {
    db.items != [] || |Image(db)| < 0x1_0000
  }

  lemma FirstOffset(db: Db)
    requires Storable(db)
    ensures HasIndex(Image(db)) && FirstAt(db) <= |Image(db)|
    ensures NextOff(Image(db), 0) == if db.items != [] then FirstAt(db) else FileLength(Image(db))
    ensures db.items == [] ==> FirstAt(db) == |Image(db)|
    ensures FirstAt(db) == SortAt(db) + BlockLen(db.sortinfo) && SortAt(db) == AppAt(db) + BlockLen(db.appinfo) && AppAt(db) >= 80
  {
    StorableRead(db);
    ImageParts(db);
    hide Image, Offset, HasIndex, CountOf, AppAt, StandsAt, FrontBytes;
    AppAfterHeaders(db);
    assert db.items[..0] == [];
    if db.items != [] {
      OffsetRead(db, 0);
    }
  }

  lemma AppAfterHeaders(db: Db)
    ensures AppAt(db) >= 80
  {
  }

  lemma TwoBlocks(b: seq<ubyte>, app: Option<seq<ubyte>>, sort: Option<seq<ubyte>>, appAt: nat, next: udword)
    requires 0 < appAt && appAt + BlockLen(app) + BlockLen(sort) <= |b| < 0x1_0000_0000
    requires StandsAt(b, appAt, BlockBytes(app)) && StandsAt(b, appAt + BlockLen(app), BlockBytes(sort))
    requires var end := appAt + BlockLen(app) + BlockLen(sort);
             next == end || (end == |b| && next == FileLength(b) && appAt < 0x1_0000)
    ensures var sortOff := BlockAt(sort, appAt + BlockLen(app));
            (&& LoadBlock(b, BlockAt(app, appAt), if sortOff > 0 then sortOff else next) == Some(NormalBlock(app))
             && LoadBlock(b, sortOff, next) == Some(NormalBlock(sort)))
            <==> next == appAt + BlockLen(app) + BlockLen(sort)
  {
    var sortAt := appAt + BlockLen(app);
    var end := sortAt + BlockLen(sort);
    hide LoadBlock, StandsAt;
    if next == end {
      BlockLoads(b, sort, sortAt, end);
      BlockLoads(b, app, appAt, sortAt);
    } else if sort.Some? {
      BlockSpoilt(b, sort, sortAt);
    } else {
      BlockSpoilt(b, app, appAt);
    }
  }

  /** Both blocks are read back when the end of the last one is known; and if not, one is not. */
  lemma BlocksLoad(db: Db)
    requires Storable(db)
    ensures HasIndex(Image(db))
    ensures var b := Image(db);
            var app := LoadBlock(b, AppOffset(b), if SortOffset(b) > 0 then SortOffset(b) else NextOff(b, 0));
            var sort := LoadBlock(b, SortOffset(b), NextOff(b, 0));
            (app == Some(NormalBlock(db.appinfo)) && sort == Some(NormalBlock(db.sortinfo))) <==> EndsKnown(db)
  {
    hide *;
    BlockOffsetsRead(db);
    EndOfBlocks(db);
    BlocksStand(db);
    TwoBlocks(Image(db), db.appinfo, db.sortinfo, AppAt(db), NextOff(Image(db), 0));
  }

  lemma BlockOffsetsRead(db: Db)
    requires Storable(db)
    ensures db.Valid() && HasIndex(Image(db)) && |Image(db)| >= HEADER_LEN
    ensures AppOffset(Image(db)) == BlockAt(db.appinfo, AppAt(db)) && SortOffset(Image(db)) == BlockAt(db.sortinfo, SortAt(db))
  {
    hide Image, HasIndex, AppAt, SortAt, HeadOf, BlockAt;
    FrontRead(db);
  }

  lemma EndOfBlocks(db: Db)
    requires Storable(db)
    ensures var b := Image(db);
            && HasIndex(b) && 0 < AppAt(db) && SortAt(db) == AppAt(db) + BlockLen(db.appinfo)
            && AppAt(db) + BlockLen(db.appinfo) + BlockLen(db.sortinfo) <= |b| < 0x1_0000_0000
            && var end := AppAt(db) + BlockLen(db.appinfo) + BlockLen(db.sortinfo);
               && (NextOff(b, 0) == end || (end == |b| && NextOff(b, 0) == FileLength(b) && AppAt(db) < 0x1_0000))
               && (NextOff(b, 0) == end <==> EndsKnown(db))
  {
    FirstOffset(db);
    NoItemsAt80(db);
    hide Image, HasIndex, AppAt, NextOff, SortAt, FirstAt;
  }

  lemma BlocksStand(db: Db)
    requires Storable(db)
    ensures StandsAt(Image(db), AppAt(db), BlockBytes(db.appinfo)) && StandsAt(Image(db), SortAt(db), BlockBytes(db.sortinfo))
  {
    ImageParts(db);
  }

  lemma NoItemsAt80(db: Db)
    ensures db.items == [] ==> AppAt(db) == 80
  {
  }

  // ----- The round trip --------------------------------------------------------------------

  /** No file gives a database with more items than its count can say. */
  lemma ParsedCount(b: seq<ubyte>, zeroAlloc: bool)
    ensures var r := Parse(b, zeroAlloc);
            r.Some? ==> |r.value.items| < 0x1_0000
  {
    hide LoadItem, LoadBlock, HasIndex, HeadOf, NextOff, AppOffset, SortOffset;
  }

  lemma RoundTripStorable(db: Db, zeroAlloc: bool)
    requires Storable(db)
    ensures Parse(Image(db), zeroAlloc) == Some(Normal(db))
            <==> EndsKnown(db) && forall i :: 0 <= i < |db.items| ==> Allocates(db, zeroAlloc, i)
  {
    FrontRead(db);
    BlocksLoad(db);
    ItemsLoad(db, zeroAlloc, |db.items|);
    hide Image, HeadOf, HasIndex, CountOf, NextOff, AppOffset, SortOffset, LoadBlock, LoadItems, EndsKnown, Allocates, NormalItem;
    assert db.items[..|db.items|] == db.items;
    assert Normal(db).items == NormalItems(db.items);
  }

  /** Loading what was saved gives back the database, normalised, exactly when
      its items can be counted in 16 bits, the end of its last block is known (there
      are items, or the file is shorter than 64 kB), and every resource can be allocated. */
  lemma RoundTrip(db: Db, zeroAlloc: bool)
    requires db.Valid() && |Image(db)| < 0x1_0000_0000
    ensures Parse(Image(db), zeroAlloc) == Some(Normal(db))
            <==> |db.items| < 0x1_0000 && EndsKnown(db) && forall i :: 0 <= i < |db.items| ==> Allocates(db, zeroAlloc, i)
  {
    hide Image, Parse, EndsKnown, Allocates, NormalItem, Db.Valid;
    if |db.items| < 0x1_0000 {
      RoundTripStorable(db, zeroAlloc);
    } else {
      ParsedCount(Image(db), zeroAlloc);
    }
  }

  // ----- Saving again -----------------------------------------------------------------------

  lemma NormalKeyWrites(k: Key, at: udword)
    ensures KeyBytes(NormalKey(k), at) == KeyBytes(k, at) && NormalKey(NormalKey(k)) == NormalKey(k)
  {
    hide MergeAttributes, SplitAttributes, UdwordBytes;
    if k.Rec? {
      MergedAgain(k.flags, k.category);
      LowBytes(k.uid);
    }
  }

  lemma MergedAgain(flags: ubyte, category: ubyte)
    ensures var (f, c) := SplitAttributes(MergeAttributes(flags, category));
            MergeAttributes(f, c) == MergeAttributes(flags, category)
  {
    hide MergeAttributes, SplitAttributes, Deleted;
    AttributesKept(flags, category);
  }

  lemma LowBytes(uid: udword)
    ensures var low := uid % 0x100_0000;
            && low / 0x1_0000 % 0x100 == uid / 0x1_0000 % 0x100
            && low / 0x100 % 0x100 == uid / 0x100 % 0x100 && low % 0x100 == uid % 0x100
  {
    var q, low := uid / 0x100_0000, uid % 0x100_0000;
    assert uid == q * 0x100_0000 + low;
    assert uid / 0x100 == q * 0x1_0000 + low / 0x100;
    assert uid / 0x1_0000 == q * 0x100 + low / 0x1_0000;
    assert uid % 0x100 == low % 0x100;
  }

  lemma {:induction false} NormalItemsWrite(items: seq<Item>, first: nat)
    ensures DataLen(NormalItems(items)) == DataLen(items) && DataBytes(NormalItems(items)) == DataBytes(items)
    ensures IndexBytes(NormalItems(items), first) == IndexBytes(items, first)
    decreases |items|
  {
    hide *;
    if items != [] {
      var n := |items| - 1;
      NormalItemsParts(items);
      LastItemWrites(items, first);
      LastItemWrites(NormalItems(items), first);
      NormalItemsWrite(items[..n], first);
      NormalKeyWrites(items[n].key, Udword(first + DataLen(items[..n])));
    } else {
      NormalItemsParts(items);
    }
  }

  lemma NormalItemsParts(items: seq<Item>)
    ensures |NormalItems(items)| == |items| && (items == [] ==> NormalItems(items) == items)
    ensures items != [] ==>
              var n := |items| - 1;
              var last := NormalItems(items)[n];
              NormalItems(items)[..n] == NormalItems(items[..n]) && last.data == items[n].data && last.key == NormalKey(items[n].key)
  {
    hide NormalKey;
  }

  lemma LastItemWrites(items: seq<Item>, first: nat)
    requires items != []
    ensures var n := |items| - 1;
            && DataLen(items) == DataLen(items[..n]) + |items[n].data|
            && DataBytes(items) == DataBytes(items[..n]) + items[n].data
            && IndexBytes(items, first) == IndexBytes(items[..n], first) + KeyBytes(items[n].key, Udword(first + DataLen(items[..n])))
  {
    hide *;
    LastIsData(items);
    LastIsIndexed(items, first);
  }

  lemma LastIsData(items: seq<Item>)
    requires items != []
    ensures var n := |items| - 1;
            DataLen(items) == DataLen(items[..n]) + |items[n].data| && DataBytes(items) == DataBytes(items[..n]) + items[n].data
  {
  }

  lemma LastIsIndexed(items: seq<Item>, first: nat)
    requires items != []
    ensures var n := |items| - 1;
            IndexBytes(items, first) == IndexBytes(items[..n], first) + KeyBytes(items[n].key, Udword(first + DataLen(items[..n])))
  {
    hide KeyBytes, Udword, DataLen;
  }

  lemma NormalIsValid(db: Db)
    requires db.Valid()
    ensures Normal(db).Valid() && Normal(db).items == NormalItems(db.items)
  {
    ClosedIsRsrc(db.head);
  }

  /** Normalising twice changes nothing more. */
  lemma NormalIsStable(db: Db)
    ensures Normal(Normal(db)) == Normal(db)
  {
    forall i | 0 <= i < |db.items|
      ensures NormalItem(NormalItem(db.items[i])) == NormalItem(db.items[i])
    {
      NormalKeyWrites(db.items[i].key, 0);
    }
    hide NormalItem;
    assert Normal(Normal(db)).items == Normal(db).items;
  }

  lemma NormalLayout(db: Db)
    requires db.Valid()
    ensures var n := Normal(db);
            && BlockBytes(n.appinfo) == BlockBytes(db.appinfo) && BlockBytes(n.sortinfo) == BlockBytes(db.sortinfo)
            && NumRecs(n) == NumRecs(db) && AppAt(n) == AppAt(db) && SortAt(n) == SortAt(db) && FirstAt(n) == FirstAt(db)
            && n.head.Closed() == db.head.Closed()
  {
    ClosedIsRsrc(db.head);
  }

  lemma SameAgain(db: Db)
    requires db.Valid() && db.appinfo != Some([]) && db.sortinfo != Some([])
    ensures Normal(db).Valid() && Image(Normal(db)) == Image(db)
  {
    NormalIsValid(db);
    NormalLayout(db);
    NormalItemsWrite(db.items, FirstAt(db));
    hide HeaderBytes, IndexBytes, DataBytes, BlockBytes, AppAt, SortAt, FirstAt, NumRecs, Db.Valid, NormalItems, Head.Closed;
    assert FrontBytes(Normal(db)) == FrontBytes(db);
  }

  /** The header says which of the blocks are there. */
  lemma BlocksMarked(db: Db)
    requires db.Valid() && |db.items| < 0x1_0000 && 0 < AppAt(db) <= SortAt(db) < 0x1_0000_0000
    ensures var b := Image(db);
            |b| >= HEADER_LEN && (AppOffset(b) == 0 <==> db.appinfo.None?) && (SortOffset(b) == 0 <==> db.sortinfo.None?)
  {
    FrontRead(db);
    hide *;
    MarkedBlock(db.appinfo, AppAt(db));
    MarkedBlock(db.sortinfo, SortAt(db));
  }

  lemma MarkedBlock(block: Option<seq<ubyte>>, at: nat)
    requires 0 < at < 0x1_0000_0000
    ensures BlockAt(block, at) == 0 <==> block.None?
  {
  }

  lemma EmptyBlockLost(db: Db)
    requires Storable(db) && (db.appinfo == Some([]) || db.sortinfo == Some([]))
    ensures Normal(db).Valid() && Image(Normal(db)) != Image(db)
  {
    NormalIsValid(db);
    NormalLayout(db);
    BlocksWithin(db);
    assert Normal(db).appinfo == NormalBlock(db.appinfo) && Normal(db).sortinfo == NormalBlock(db.sortinfo);
    assert |Normal(db).items| == |db.items|;
    hide Image, AppAt, SortAt, AppOffset, SortOffset, Db.Valid, FirstAt, BlockBytes, NormalItems, Normal, Head.Closed;
    BlocksMarked(db);
    BlocksMarked(Normal(db));
  }

  /** A database that has been loaded from a saved one is saved as the same
      bytes again, unless one of its blocks was there but empty. */
  lemma SavingIsStable(db: Db)
    requires Storable(db)
    ensures Normal(db).Valid()
    ensures Image(Normal(db)) == Image(db) <==> db.appinfo != Some([]) && db.sortinfo != Some([])
  {
    if db.appinfo != Some([]) && db.sortinfo != Some([]) {
      SameAgain(db);
    } else {
      EmptyBlockLost(db);
    }
  }

  lemma BlocksWithin(db: Db)
    requires Storable(db)
    ensures 0 < AppAt(db) <= SortAt(db) < 0x1_0000_0000
  {
    FirstOffset(db);
  }

  /** So a file that has been saved, loaded and saved again is the same file. */
  lemma SavedLoadedSaved(db: Db, zeroAlloc: bool)
    requires Storable(db) && EndsKnown(db) && forall i :: 0 <= i < |db.items| ==> Allocates(db, zeroAlloc, i)
    requires db.appinfo != Some([]) && db.sortinfo != Some([])
    ensures var loaded := Parse(Image(db), zeroAlloc);
            loaded.Some? && loaded.value.Valid() && Image(loaded.value) == Image(db)
  {
    hide Image, Parse, Normal;
    RoundTrip(db, zeroAlloc);
    SavingIsStable(db);
  }
}
