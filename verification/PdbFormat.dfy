/** The file format of libpdb/pdb.c: the bytes of a Palm database, and what is
    made of the bytes of a file. */
module PdbFormat {
  import opened Bytes
  import opened Options

  const HEADER_LEN: nat := 72
  const RECORDLIST_LEN: nat := 6
  const DBNAMELEN: nat := 32
  const REC_DELETED: ubyte := 0x20
  const ATTR_OPEN: uword := 0x8000

  datatype Key =
    | Rec(flags: ubyte, category: ubyte, uid: udword)
    | Rsrc(kind: udword, rid: uword)

  /** A record or a resource. */
  datatype Item = Item(key: Key, data: seq<ubyte>)

  /** The fields of fixed size. */
  datatype Head = Head(name: seq<ubyte>, attributes: uword, version: uword,
                       ctime: udword, mtime: udword, baktime: udword, modnum: udword,
                       kind: udword, creator: udword, uniqueIDseed: udword)
  {
    predicate IsRsrc() { attributes % 2 == 1 }

    /** `attributes & ~PDB_ATTR_OPEN`. */
    function Closed(): Head { this.(attributes := attributes % ATTR_OPEN) }
  }

  datatype Db = Db(head: Head, appinfo: Option<seq<ubyte>>, sortinfo: Option<seq<ubyte>>, items: seq<Item>)
  {
    predicate Valid() {
      && |head.name| == DBNAMELEN
      && forall i :: 0 <= i < |items| ==> |items[i].data| < 0x1_0000 && (items[i].key.Rsrc? <==> head.IsRsrc())
    }
  }

  // ----- Attributes of a record ----------------------------------------------

  predicate Deleted(flags: ubyte) { flags / REC_DELETED % 2 == 1 }

  function MergeAttributes(flags: ubyte, category: ubyte): ubyte {
    if Deleted(flags) then flags / 8 * 8 else flags / 16 * 16 + category % 16
  }

  function SplitAttributes(attributes: ubyte): (r: (ubyte, ubyte)) {
    if Deleted(attributes) then (attributes / 8 * 8, 0) else (attributes / 16 * 16, attributes % 16)
  }

  /** What is left of a key when it is written and read back. */
  function NormalKey(k: Key): Key {
    match k
    case Rec(flags, category, uid) =>
      var (f, c) := SplitAttributes(MergeAttributes(flags, category));
      Rec(f, c, uid % 0x100_0000)
    case Rsrc(_, _) => k
  }

  /** The deleted flag and the other flags of the high nybble survive; the
      category does, as far as it fits and unless the record is deleted; and
      what has been written and read once is written and read the same again. */
  lemma AttributesKept(flags: ubyte, category: ubyte)
    ensures var (f, c) := SplitAttributes(MergeAttributes(flags, category));
            && Deleted(f) == Deleted(flags) && f / 16 == flags / 16
            && (Deleted(flags) ==> f % 16 == flags % 16 / 8 * 8 && c == 0)
            && (!Deleted(flags) ==> f % 16 == 0 && c == category % 16)
            && MergeAttributes(f, c) == MergeAttributes(flags, category)
  {
    if Deleted(flags) {
      DeletedKept(flags);
    } else {
      LiveKept(flags, category);
    }
  }

  lemma DeletedKept(flags: ubyte)
    requires Deleted(flags)
    ensures var a: ubyte := flags / 8 * 8;
            Deleted(a) && a / 8 * 8 == a && a / 16 == flags / 16 && a % 16 == flags % 16 / 8 * 8
  {
    var a: ubyte := flags / 8 * 8;
    assert a / 8 == flags / 8 && a / 16 == a / 8 / 2 && flags / 16 == flags / 8 / 2;
    DeletedBit(flags, a);
  }

  lemma LiveKept(flags: ubyte, category: ubyte)
    requires !Deleted(flags)
    ensures var a: ubyte := flags / 16 * 16 + category % 16;
            var f: ubyte := a / 16 * 16;
            && !Deleted(a) && !Deleted(f) && f / 16 == flags / 16 && f % 16 == 0 && a % 16 == category % 16
            && f / 16 * 16 + a % 16 % 16 == a
  {
    var a: ubyte := flags / 16 * 16 + category % 16;
    assert a / 16 == flags / 16 && a % 16 == category % 16;
    DeletedBit(flags, a);
    DeletedBit(flags, a / 16 * 16);
  }

  lemma DeletedBit(a: ubyte, b: ubyte)
    requires a / 16 == b / 16
    ensures Deleted(a) == Deleted(b)
  {
    assert a / 32 == a / 16 / 2 && b / 32 == b / 16 / 2;
  }

  // ----- Where things go -------------------------------------------------------

  function IxLen(rsrc: bool): nat { if rsrc then 10 else 8 }

  function BlockLen(block: Option<seq<ubyte>>): nat { if block.Some? then |block.value| else 0 }

  function BlockBytes(block: Option<seq<ubyte>>): seq<ubyte> { if block.Some? then block.value else [] }

  function DataLen(items: seq<Item>): nat {
    if items == [] then 0 else DataLen(items[..|items| - 1]) + |items[|items| - 1].data|
  }

  function DataBytes(items: seq<Item>): (r: seq<ubyte>)
    ensures |r| == DataLen(items)
  {
    if items == [] then [] else DataBytes(items[..|items| - 1]) + items[|items| - 1].data
  }

  /** The count that the database keeps, and the file holds, in 16 bits. */
  function NumRecs(db: Db): uword { |db.items| % 0x1_0000 }

  /** After the headers, the index and two useless NULs. */
  function AppAt(db: Db): nat { HEADER_LEN + RECORDLIST_LEN + NumRecs(db) * IxLen(db.head.IsRsrc()) + 2 }

  function SortAt(db: Db): nat { AppAt(db) + BlockLen(db.appinfo) }

  function FirstAt(db: Db): nat { SortAt(db) + BlockLen(db.sortinfo) }

  function ItemAt(db: Db, i: nat): nat
    requires i <= |db.items|
  {
    FirstAt(db) + DataLen(db.items[..i])
  }

  function Udword(x: int): udword { x % 0x1_0000_0000 }

  // ----- The bytes ---------------------------------------------------------------

  function HeaderBytes(h: Head, appAt: udword, sortAt: udword): (r: seq<ubyte>)
    requires |h.name| == DBNAMELEN
    ensures |r| == HEADER_LEN
  {
    h.name + UwordBytes(h.attributes) + UwordBytes(h.version)
    + UdwordBytes(h.ctime) + UdwordBytes(h.mtime) + UdwordBytes(h.baktime) + UdwordBytes(h.modnum)
    + UdwordBytes(appAt) + UdwordBytes(sortAt)
    + UdwordBytes(h.kind) + UdwordBytes(h.creator) + UdwordBytes(h.uniqueIDseed)
  }

  function KeyBytes(k: Key, at: udword): (r: seq<ubyte>)
    ensures |r| == IxLen(k.Rsrc?)
  {
    match k
    case Rec(flags, category, uid) =>
      UdwordBytes(at) + [MergeAttributes(flags, category), uid / 0x1_0000 % 0x100, uid / 0x100 % 0x100, uid % 0x100]
    case Rsrc(kind, rid) => UdwordBytes(kind) + UwordBytes(rid) + UdwordBytes(at)
  }

  /** The index of items of which the first one's data is at `first`. */
  function IndexBytes(items: seq<Item>, first: nat): seq<ubyte> {
    if items == [] then []
    else
      var init := items[..|items| - 1];
      IndexBytes(init, first) + KeyBytes(items[|items| - 1].key, Udword(first + DataLen(init)))
  }

  function BlockAt(block: Option<seq<ubyte>>, at: nat): udword { if block.Some? then Udword(at) else 0 }

  function FrontBytes(db: Db): seq<ubyte>
    requires db.Valid()
  {
    HeaderBytes(db.head.Closed(), BlockAt(db.appinfo, AppAt(db)), BlockAt(db.sortinfo, SortAt(db)))
    + UdwordBytes(0) + UwordBytes(NumRecs(db))
  }

  /** What `pdb_Write` writes. */
  function Image(db: Db): seq<ubyte>
    requires db.Valid()
  {
    FrontBytes(db) + IndexBytes(db.items, FirstAt(db)) + [0, 0]
    + BlockBytes(db.appinfo) + BlockBytes(db.sortinfo) + DataBytes(db.items)
  }

  // ----- Reading -------------------------------------------------------------------

  function HeadOf(b: seq<ubyte>): Head
    requires |b| >= HEADER_LEN
  {
    Head(b[..DBNAMELEN], PeekUword(b, 32), PeekUword(b, 34),
         PeekUdword(b, 36), PeekUdword(b, 40), PeekUdword(b, 44), PeekUdword(b, 48),
         PeekUdword(b, 60), PeekUdword(b, 64), PeekUdword(b, 68))
  }

  function AppOffset(b: seq<ubyte>): udword
    requires |b| >= HEADER_LEN
  {
    PeekUdword(b, 52)
  }

  function SortOffset(b: seq<ubyte>): udword
    requires |b| >= HEADER_LEN
  {
    PeekUdword(b, 56)
  }

  function CountOf(b: seq<ubyte>): uword
    requires |b| >= HEADER_LEN + RECORDLIST_LEN
  {
    PeekUword(b, 76)
  }

  function KeyAt(b: seq<ubyte>, rsrc: bool, at: nat): Key
    requires at + IxLen(rsrc) <= |b|
  {
    if rsrc then Rsrc(PeekUdword(b, at), PeekUword(b, at + 4))
    else
      var (flags, category) := SplitAttributes(b[at + 4]);
      Rec(flags, category, b[at + 5] as int * 0x1_0000 + b[at + 6] as int * 0x100 + b[at + 7])
  }

  function OffsetAt(b: seq<ubyte>, rsrc: bool, at: nat): udword
    requires at + IxLen(rsrc) <= |b|
  {
    PeekUdword(b, if rsrc then at + 6 else at)
  }

  /** Where in the file the entry for item `i` is. */
  function EntryAt(rsrc: bool, i: nat): nat {
    HEADER_LEN + RECORDLIST_LEN + i * IxLen(rsrc)
  }

  predicate HasIndex(b: seq<ubyte>) {
    && |b| >= HEADER_LEN + RECORDLIST_LEN
    && EntryAt(HeadOf(b).IsRsrc(), CountOf(b)) <= |b|
  }

  /** `get_file_length`, which returns 16 bits. */
  function FileLength(b: seq<ubyte>): uword { |b| % 0x1_0000 }

  function Offset(b: seq<ubyte>, i: nat): udword
    requires HasIndex(b) && i < CountOf(b)
  {
    var rsrc := HeadOf(b).IsRsrc();
    assert EntryAt(rsrc, i) + IxLen(rsrc) <= EntryAt(rsrc, CountOf(b)) by { EntriesApart(rsrc, i, CountOf(b)); }
    OffsetAt(b, rsrc, EntryAt(rsrc, i))
  }

  lemma EntriesApart(rsrc: bool, i: nat, n: nat)
    requires i < n
    ensures EntryAt(rsrc, i) + IxLen(rsrc) <= EntryAt(rsrc, n)
  {
  }

  /** Where the item after `i` is, or the end of the file. */
  function NextOff(b: seq<ubyte>, i: nat): udword
    requires HasIndex(b)
  {
    if i < CountOf(b) then Offset(b, i) else FileLength(b)
  }

  /** A block at `at` that ends where the next thing begins. The outer `None`: it cannot be read. */
  function LoadBlock(b: seq<ubyte>, at: udword, next: udword): Option<Option<seq<ubyte>>> {
    var len := Udword(next - at);
    if at == 0 || len == 0 then Some(None)
    else if at + len <= |b| then Some(Some(b[at..at + len]))
    else None
  }

  /** `zeroAlloc`: whether `malloc(0)` returns something else than NULL. */
  function LoadItem(b: seq<ubyte>, zeroAlloc: bool, i: nat): Option<Item>
    requires HasIndex(b) && i < CountOf(b)
  {
    var rsrc := HeadOf(b).IsRsrc();
    var at := Offset(b, i);
    var len := (NextOff(b, i + 1) - at) % 0x1_0000;
    EntriesApart(rsrc, i, CountOf(b));
    var key := KeyAt(b, rsrc, EntryAt(rsrc, i));
    if len == 0 then if rsrc && !zeroAlloc then None else Some(Item(key, []))
    else if at + len <= |b| then Some(Item(key, b[at..at + len]))
    else None
  }

  function LoadItems(b: seq<ubyte>, zeroAlloc: bool, n: nat): (r: Option<seq<Item>>)
    requires HasIndex(b) && n <= CountOf(b)
    ensures r.Some? ==> |r.value| == n
  {
    if n == 0 then Some([])
    else
      match LoadItems(b, zeroAlloc, n - 1)
      case None => None
      case Some(items) =>
        match LoadItem(b, zeroAlloc, n - 1)
        case None => None
        case Some(item) => Some(items + [item])
  }

  /** What `pdb_Read` makes of a file. */
  function Parse(b: seq<ubyte>, zeroAlloc: bool): Option<Db> {
    if !HasIndex(b) then None
    else
      var appAt, sortAt := AppOffset(b), SortOffset(b);
      match LoadBlock(b, appAt, if sortAt > 0 then sortAt else NextOff(b, 0))
      case None => None
      case Some(appinfo) =>
        match LoadBlock(b, sortAt, NextOff(b, 0))
        case None => None
        case Some(sortinfo) =>
          match LoadItems(b, zeroAlloc, CountOf(b))
          case None => None
          case Some(items) => Some(Db(HeadOf(b), appinfo, sortinfo, items))
  }

  // ----- What is kept ----------------------------------------------------------------

  function NormalBlock(block: Option<seq<ubyte>>): Option<seq<ubyte>> {
    if block == Some([]) then None else block
  }

  function NormalItem(it: Item): Item { it.(key := NormalKey(it.key)) }

  function Normal(db: Db): Db {
    Db(db.head.Closed(), NormalBlock(db.appinfo), NormalBlock(db.sortinfo),
       seq(|db.items|, i requires 0 <= i < |db.items| => NormalItem(db.items[i])))
  }

  /** The count is right, and every offset fits in its 32 bits. */
  predicate Storable(db: Db) {
    db.Valid() && |db.items| < 0x1_0000 && |Image(db)| < 0x1_0000_0000
  }
}
