/** Saving a Palm database in a file and loading one: `pdb_Write` and `pdb_Read`
    of libpdb/pdb.c, over the linked list and a file with a position. */
module PdbIo {
  import opened Bytes
  import opened Options
  import opened PdbFormat
  import opened PdbList

  /** A seekable file. */
  class File {
    var content: seq<ubyte>
    var pos: nat

    // How many system calls have failed, or written less than they were given.
    ghost var faults: nat

    constructor (content: seq<ubyte>)
      ensures this.content == content && pos == 0 && faults == 0
    {
      this.content, pos, faults := content, 0, 0;
    }

    /** Reads what there is, up to `n` bytes, or fails. */
    method Read(n: nat) returns (err: int, data: seq<ubyte>)
      modifies this`pos, this`faults
      ensures faults == old(faults) + if err < 0 then 1 else 0
      ensures err <= n && (err < 0 ==> pos == old(pos))
      ensures err >= 0 ==>
                && err == |data| && pos == old(pos) + err
                && (if old(pos) + n <= |content| then err == n else err < n || n == 0)
                && (err == n && n > 0 ==> pos <= |content| && data == content[old(pos)..pos])
    {
      if * {
        faults := faults + 1;
        return -1, [];
      }
      var left := if pos < |content| then |content| - pos else 0;
      err := if n < left then n else left;
      data := if err > 0 then content[pos..pos + err] else [];
      pos := pos + err;
    }

    method Seek(to: nat)
      modifies this`pos
      ensures pos == to
    {
      pos := to;
    }

    /** Writes some of `data` at the current position, or fails. */
    method Write(data: seq<ubyte>) returns (err: int)
      modifies this
      ensures faults == old(faults) + if err < |data| then 1 else 0
      ensures err <= |data| && pos == old(pos) + if err >= 0 then err else 0
      ensures content == Overlay(old(content), old(pos), if err >= 0 then data[..err] else [])
    {
      if * {
        faults := faults + 1;
        return -1;
      }
      err :| 0 <= err <= |data|;
      if err < |data| { faults := faults + 1; }
      content, pos := Overlay(content, pos, data[..err]), pos + err;
    }

    /** Since it was as `start` says, `done` has been written. */
    ghost predicate Holds(start: Place, done: seq<ubyte>)
      reads this
    {
      pos == start.at + |done| && content == Overlay(start.was, start.at, done)
    }
  }

  /** What a file held, and where the next byte was to go. */
  datatype Place = Place(was: seq<ubyte>, at: nat)

  /** What a file holds in front of a position; a gap behind its end reads as zeros. */
  function UpTo(content: seq<ubyte>, at: nat): (r: seq<ubyte>)
    ensures |r| == at
  {
    if at <= |content| then content[..at] else content + seq(at - |content|, _ => 0)
  }

  function Past(content: seq<ubyte>, at: nat): seq<ubyte> { if at <= |content| then content[at..] else [] }

  /** Bytes written at a position replace those that were there. */
  function Overlay(content: seq<ubyte>, at: nat, data: seq<ubyte>): seq<ubyte> {
    if data == [] then content else UpTo(content, at) + data + Past(content, at + |data|)
  }

  lemma WrittenBefore(content: seq<ubyte>, at: nat, data: seq<ubyte>)
    requires data != []
    ensures UpTo(Overlay(content, at, data), at + |data|) == UpTo(content, at) + data
  {
    hide UpTo, Past;
    var u := UpTo(content, at) + data + Past(content, at + |data|);
    assert u[..at + |data|] == UpTo(content, at) + data;
    InFront(u, at + |data|);
  }

  lemma InFront(content: seq<ubyte>, at: nat)
    ensures at <= |content| ==> UpTo(content, at) == content[..at]
    ensures at <= |content| ==> Past(content, at) == content[at..]
  {
  }

  lemma LeftBehind(content: seq<ubyte>, at: nat, data: seq<ubyte>, n: nat)
    requires data != []
    ensures Past(Overlay(content, at, data), at + |data| + n) == Past(content, at + |data| + n)
  {
    hide UpTo;
    var u := UpTo(content, at) + data + Past(content, at + |data|);
    assert u[at + |data|..] == Past(content, at + |data|);
    if at + |data| + n <= |u| {
      assert u[at + |data| + n..] == u[at + |data|..][n..];
    }
  }

  lemma OverlayMore(content: seq<ubyte>, at: nat, a: seq<ubyte>, b: seq<ubyte>)
    ensures Overlay(Overlay(content, at, a), at + |a|, b) == Overlay(content, at, a + b)
  {
    hide UpTo, Past;
    if a == [] {
      assert a + b == b;
    } else if b == [] {
      assert a + b == a;
    } else {
      WrittenBefore(content, at, a);
      LeftBehind(content, at, a, |b|);
    }
  }

  /** Byte by byte: what was written, in its place; zeros in a gap before it; and
      everything else as it was. */
  lemma OverlayAt(content: seq<ubyte>, at: nat, data: seq<ubyte>, k: nat)
    requires k < |Overlay(content, at, data)|
    ensures |Overlay(content, at, data)| == if data != [] && at + |data| > |content| then at + |data| else |content|
    ensures Overlay(content, at, data)[k] == if at <= k < at + |data| then data[k - at]
                                             else if k < |content| then content[k] else 0
  {
  }

  // ----- Saving ---------------------------------------------------------------

  predicate PartOf(done: seq<ubyte>, image: seq<ubyte>) { done <= image }

  /** A prefix of the image has been written, or all of it. */
  ghost predicate Begun(f: File, start: Place, image: seq<ubyte>)
    reads f
  {
    exists done :: done <= image && f.Holds(start, done)
  }

  /** The database in memory is `v`. */
  ghost predicate Is(db: Pdb, v: Db)
    reads db, db.spine
  {
    db.Valid() && db.Value() == v
  }

  /** One write of the image; if it fails, or writes less, what has been written
      of the image is a prefix of it. */
  method Put(f: File, buf: seq<ubyte>, ghost start: Place, ghost done: seq<ubyte>, ghost image: seq<ubyte>)
    returns (ok: bool)
    requires f.Holds(start, done) && PartOf(done + buf, image)
    modifies f
    ensures f.faults == old(f.faults) + if ok then 0 else 1
    ensures Begun(f, start, image)
    ensures ok ==> f.Holds(start, done + buf)
  {
    var err := f.Write(buf);
    ok := err == |buf|;
    ghost var n := if err < 0 then 0 else err;
    OverlayMore(start.was, start.at, done, buf[..n]);
    assert err < 0 ==> buf[..n] == [];
    hide Overlay;
    assert done + buf[..n] == image[..|done| + n];
    assert f.Holds(start, done + buf[..n]);
    assert ok ==> buf[..n] == buf;
  }

  method PutHead(buf: array<ubyte>, h: Head) returns (wptr: nat)
    requires buf.Length == HEADER_LEN && |h.name| == DBNAMELEN
    modifies buf
    ensures wptr == 52
    ensures buf[..52] == h.name + UwordBytes(h.attributes % ATTR_OPEN) + UwordBytes(h.version)
                         + UdwordBytes(h.ctime) + UdwordBytes(h.mtime) + UdwordBytes(h.baktime) + UdwordBytes(h.modnum)
  {
    hide UwordBytes, UdwordBytes;
    wptr := PutBytes(buf, 0, h.name);
    assert buf[..wptr] == h.name;
    wptr := PutUword(buf, wptr, h.attributes % ATTR_OPEN);
    wptr := PutUword(buf, wptr, h.version);
    wptr := PutUdword(buf, wptr, h.ctime);
    wptr := PutUdword(buf, wptr, h.mtime);
    wptr := PutUdword(buf, wptr, h.baktime);
    wptr := PutUdword(buf, wptr, h.modnum);
  }

  /** Writes where a block is, if it is there, and moves on past it. */
  method PutBlockOffset(buf: array<ubyte>, wptr: nat, block: Option<seq<ubyte>>, offset: udword, ghost at: nat)
    returns (wptr': nat, offset': udword)
    requires wptr + 4 <= buf.Length && offset == Udword(at)
    modifies buf
    ensures wptr' == wptr + 4 && buf[..wptr'] == old(buf[..wptr]) + UdwordBytes(BlockAt(block, at))
    ensures offset' == Udword(at + BlockLen(block))
  {
    hide UdwordBytes;
    offset' := offset;
    if block.None? {
      wptr' := PutUdword(buf, wptr, 0);
    } else {
      wptr' := PutUdword(buf, wptr, offset);
      offset' := Plus(offset, at, |block.value|);
    }
  }

  lemma LayoutOf(db: Pdb, v: Db)
    requires Is(db, v)
    ensures |v.head.name| == DBNAMELEN && db.numrecs == NumRecs(v)
    ensures v.head == db.head && v.appinfo == db.appinfo && v.sortinfo == db.sortinfo
    ensures Udword(AppAt(v)) == (HEADER_LEN + RECORDLIST_LEN + NumRecs(v) * IxLen(v.head.IsRsrc()) + 2) % 0x1_0000_0000
    ensures SortAt(v) == AppAt(v) + BlockLen(v.appinfo) && FirstAt(v) == SortAt(v) + BlockLen(v.sortinfo)
  {
    hide IxLen, Pdb.Linked, Pdb.Items;
  }

  lemma HeaderIs(h: Head, appAt: udword, sortAt: udword)
    requires |h.name| == DBNAMELEN
    ensures |h.Closed().name| == DBNAMELEN
    ensures HeaderBytes(h.Closed(), appAt, sortAt)
            == h.name + UwordBytes(h.attributes % ATTR_OPEN) + UwordBytes(h.version)
               + UdwordBytes(h.ctime) + UdwordBytes(h.mtime) + UdwordBytes(h.baktime) + UdwordBytes(h.modnum)
               + UdwordBytes(appAt) + UdwordBytes(sortAt)
               + UdwordBytes(h.kind) + UdwordBytes(h.creator) + UdwordBytes(h.uniqueIDseed)
  {
  }

  /** The database header, and the offset of the first item. */
  method BuildHeader(db: Pdb, ghost v: Db) returns (header: seq<ubyte>, offset: udword)
    requires Is(db, v) && |v.head.name| == DBNAMELEN
    ensures offset == Udword(FirstAt(v)) && |v.head.Closed().name| == DBNAMELEN
    ensures header == HeaderBytes(v.head.Closed(), BlockAt(v.appinfo, AppAt(v)), BlockAt(v.sortinfo, SortAt(v)))
  {
    LayoutOf(db, v);
    HeaderIs(v.head, BlockAt(v.appinfo, AppAt(v)), BlockAt(v.sortinfo, SortAt(v)));
    hide *;
    offset := (HEADER_LEN + RECORDLIST_LEN + db.numrecs * IxLen(db.head.IsRsrc()) + 2) % 0x1_0000_0000;
    var buf := new ubyte[HEADER_LEN];
    var wptr := PutHead(buf, db.head);
    wptr, offset := PutBlockOffset(buf, wptr, db.appinfo, offset, AppAt(v));
    wptr, offset := PutBlockOffset(buf, wptr, db.sortinfo, offset, SortAt(v));
    wptr := PutUdword(buf, wptr, db.head.kind);
    wptr := PutUdword(buf, wptr, db.head.creator);
    wptr := PutUdword(buf, wptr, db.head.uniqueIDseed);
    header := buf[..];
    assert buf[..wptr] == buf[..];
  }

  /** Adds a length to an offset, in 32 bits. */
  method Plus(offset: udword, ghost at: nat, len: nat) returns (sum: udword)
    requires offset == Udword(at)
    ensures sum == Udword(at + len)
  {
    sum := (offset + len) % 0x1_0000_0000;
  }

  /** `put_*` calls for one index entry. */
  method BuildEntry(key: Key, offset: udword) returns (entry: seq<ubyte>)
    ensures entry == KeyBytes(key, offset)
  {
    hide UwordBytes, UdwordBytes, MergeAttributes;
    var buf := new ubyte[IxLen(key.Rsrc?)];
    var wptr: nat := 0;
    match key {
      case Rsrc(kind, rid) =>
        wptr := PutUdword(buf, wptr, kind);
        wptr := PutUword(buf, wptr, rid);
        wptr := PutUdword(buf, wptr, offset);
      case Rec(flags, category, uid) =>
        wptr := PutUdword(buf, wptr, offset);
        wptr := PutUbyte(buf, wptr, MergeAttributes(flags, category));
        wptr := PutUbyte(buf, wptr, uid / 0x1_0000 % 0x100);
        wptr := PutUbyte(buf, wptr, uid / 0x100 % 0x100);
        wptr := PutUbyte(buf, wptr, uid % 0x100);
    }
    assert buf[..wptr] == buf[..];
    entry := buf[..];
  }

  lemma IndexOneMore(items: seq<Item>, i: nat, first: nat)
    requires i < |items|
    ensures IndexBytes(items[..i + 1], first)
            == IndexBytes(items[..i], first) + KeyBytes(items[i].key, Udword(first + DataLen(items[..i])))
    ensures DataLen(items[..i + 1]) == DataLen(items[..i]) + |items[i].data|
    ensures DataBytes(items[..i + 1]) == DataBytes(items[..i]) + items[i].data
  {
    hide KeyBytes;
    assert items[..i + 1][..i] == items[..i];
  }

  lemma {:induction false} IndexPrefix(items: seq<Item>, i: nat, first: nat)
    requires i <= |items|
    ensures IndexBytes(items[..i], first) <= IndexBytes(items, first) && DataBytes(items[..i]) <= DataBytes(items)
    decreases |items|
  {
    hide KeyBytes;
    if i < |items| {
      var init := items[..|items| - 1];
      assert init[..i] == items[..i];
      IndexPrefix(init, i, first);
    } else {
      assert items[..i] == items;
    }
  }

  /** What the walk along the list comes by. */
  lemma Walk(db: Pdb, v: Db, i: nat)
    requires Is(db, v)
    ensures |v.items| == |db.spine| && db.first == (if db.spine == [] then null else db.spine[0])
    ensures i < |db.spine| ==>
              && v.items[i] == Item(db.spine[i].key, db.spine[i].data)
              && db.spine[i].next == if i + 1 < |db.spine| then db.spine[i + 1] else null
  {
    if i < |db.spine| {
      db.EachItem();
      assert v.items[i] == db.Items()[i];
      assert db.spine[i].next == After(db.spine, i);
    }
  }

  /** The index, entry by entry. */
  method WriteIndex(db: Pdb, f: File, offset0: udword, ghost v: Db, ghost first: nat, ghost start: Place,
                    ghost front: seq<ubyte>, ghost image: seq<ubyte>)
    returns (ok: bool)
    requires Is(db, v) && offset0 == Udword(first)
    requires f.Holds(start, front) && PartOf(front + IndexBytes(v.items, first), image)
    modifies f
    ensures f.faults == old(f.faults) + if ok then 0 else 1
    ensures Is(db, v) && Begun(f, start, image)
    ensures ok ==> f.Holds(start, front + IndexBytes(v.items, first))
  {
    hide *;
    ghost var items, i := v.items, 0;
    Walk(db, v, 0);
    var rec, offset := db.first, offset0;
    EmptyItems(items, first);
    IndexPrefix(items, 0, first);
    LongerPrefix(front, IndexBytes(items[..0], first), IndexBytes(items, first), image);
    assert front + IndexBytes(items[..0], first) == front;
    ok := true;
    while rec != null
      invariant f.faults == old(f.faults)
      invariant Is(db, v) && i <= |items| == |db.spine| && rec == if i < |items| then db.spine[i] else null
      invariant offset == Udword(first + DataLen(items[..i]))
      invariant f.Holds(start, front + IndexBytes(items[..i], first))
      invariant PartOf(front + IndexBytes(items[..i], first), image)
      decreases |items| - i
    {
      Walk(db, v, i);
      var entry := BuildEntry(rec.key, offset);
      IndexOneMore(items, i, first);
      IndexPrefix(items, i + 1, first);
      LongerPrefix(front, IndexBytes(items[..i + 1], first), IndexBytes(items, first), image);
      assert front + IndexBytes(items[..i], first) + entry == front + IndexBytes(items[..i + 1], first);
      ok := Put(f, entry, start, front + IndexBytes(items[..i], first), image);
      if !ok {
        return;
      }
      offset := Plus(offset, first + DataLen(items[..i]), |rec.data|);
      rec, i := rec.next, i + 1;
    }
    assert items[..i] == items;
    PrefixStarts(f, start, front + IndexBytes(items, first), image);
  }

  lemma EmptyItems(items: seq<Item>, first: nat)
    ensures items[..0] == [] && IndexBytes([], first) == [] && DataLen([]) == 0 && DataBytes([]) == []
  {
  }

  lemma LongerPrefix(front: seq<ubyte>, a: seq<ubyte>, b: seq<ubyte>, image: seq<ubyte>)
    requires a <= b && PartOf(front + b, image)
    ensures PartOf(front + a, image)
  {
    assert front + a == (front + b)[..|front + a|];
  }

  lemma PrefixStarts(f: File, start: Place, done: seq<ubyte>, image: seq<ubyte>)
    requires f.Holds(start, done) && PartOf(done, image)
    ensures Begun(f, start, image)
  {
  }

  /** The data, item by item. */
  method WriteData(db: Pdb, f: File, ghost v: Db, ghost start: Place, ghost front: seq<ubyte>, ghost image: seq<ubyte>)
    returns (ok: bool)
    requires Is(db, v) && f.Holds(start, front) && PartOf(front + DataBytes(v.items), image)
    modifies f
    ensures f.faults == old(f.faults) + if ok then 0 else 1
    ensures Is(db, v) && Begun(f, start, image)
    ensures ok ==> f.Holds(start, front + DataBytes(v.items))
  {
    hide *;
    ghost var items, i := v.items, 0;
    Walk(db, v, 0);
    var rec := db.first;
    EmptyItems(items, 0);
    IndexPrefix(items, 0, 0);
    LongerPrefix(front, DataBytes(items[..0]), DataBytes(items), image);
    assert front + DataBytes(items[..0]) == front;
    ok := true;
    while rec != null
      invariant f.faults == old(f.faults)
      invariant Is(db, v) && i <= |items| == |db.spine| && rec == if i < |items| then db.spine[i] else null
      invariant f.Holds(start, front + DataBytes(items[..i]))
      invariant PartOf(front + DataBytes(items[..i]), image)
      decreases |items| - i
    {
      Walk(db, v, i);
      IndexOneMore(items, i, 0);
      IndexPrefix(items, i + 1, 0);
      LongerPrefix(front, DataBytes(items[..i + 1]), DataBytes(items), image);
      assert front + DataBytes(items[..i]) + rec.data == front + DataBytes(items[..i + 1]);
      ok := Put(f, rec.data, start, front + DataBytes(items[..i]), image);
      if !ok {
        return;
      }
      rec, i := rec.next, i + 1;
    }
    assert items[..i] == items;
    PrefixStarts(f, start, front + DataBytes(items), image);
  }

  /** How far the image goes up to each of its parts. */
  ghost function ToIndex(db: Db): seq<ubyte>
    requires db.Valid()
  {
    FrontBytes(db) + IndexBytes(db.items, FirstAt(db))
  }

  ghost function ToApp(db: Db): seq<ubyte>
    requires db.Valid()
  {
    ToIndex(db) + [0, 0] + BlockBytes(db.appinfo)
  }

  ghost function ToSort(db: Db): seq<ubyte>
    requires db.Valid()
  {
    ToApp(db) + BlockBytes(db.sortinfo)
  }

  lemma ImageStages(db: Db)
    requires db.Valid()
    ensures Image(db) == ToSort(db) + DataBytes(db.items)
    ensures PartOf(FrontBytes(db), Image(db)) && PartOf(ToIndex(db), Image(db)) && PartOf(ToIndex(db) + [0, 0], Image(db))
    ensures PartOf(ToApp(db), Image(db)) && PartOf(ToSort(db), Image(db)) && PartOf(Image(db), Image(db))
  {
    hide FrontBytes, IndexBytes, DataBytes, BlockBytes;
  }

  method BuildListHeader(numrecs: uword) returns (header: seq<ubyte>)
    ensures header == UdwordBytes(0) + UwordBytes(numrecs)
  {
    hide UwordBytes, UdwordBytes;
    var buf := new ubyte[RECORDLIST_LEN];
    var wptr := PutUdword(buf, 0, 0);
    assert buf[..wptr] == UdwordBytes(0);
    wptr := PutUword(buf, wptr, numrecs);
    header := buf[..];
    assert buf[..wptr] == buf[..];
  }

  /** The two headers. */
  method WriteHeaders(db: Pdb, f: File, ghost v: Db, ghost start: Place, ghost image: seq<ubyte>)
    returns (ok: bool, offset: udword)
    requires Is(db, v) && v.Valid() && f.Holds(start, []) && PartOf(FrontBytes(v), image)
    modifies f
    ensures f.faults == old(f.faults) + if ok then 0 else 1
    ensures Is(db, v) && Begun(f, start, image)
    ensures offset == Udword(FirstAt(v)) && (ok ==> f.Holds(start, FrontBytes(v)))
  {
    LayoutOf(db, v);
    ghost var front := FrontBytes(v);
    assert front == HeaderBytes(v.head.Closed(), BlockAt(v.appinfo, AppAt(v)), BlockAt(v.sortinfo, SortAt(v)))
                    + (UdwordBytes(0) + UwordBytes(NumRecs(v)));
    hide *;
    var header;
    header, offset := BuildHeader(db, v);
    var rlheader := BuildListHeader(db.numrecs);
    LongerPrefix([], header, front, image);
    assert [] + front == front && [] + header == header;
    ok := Put(f, header, start, [], image);
    if ok {
      ok := Put(f, rlheader, start, header, image);
    }
  }

  /** Writes a block, if it is there. */
  method PutBlock(f: File, block: Option<seq<ubyte>>, ghost start: Place, ghost done: seq<ubyte>, ghost image: seq<ubyte>)
    returns (ok: bool)
    requires f.Holds(start, done) && PartOf(done + BlockBytes(block), image)
    modifies f
    ensures f.faults == old(f.faults) + if ok then 0 else 1
    ensures Begun(f, start, image) && (ok ==> f.Holds(start, done + BlockBytes(block)))
  {
    hide PartOf, Begun, File.Holds;
    ok := true;
    if block.Some? {
      ok := Put(f, block.value, start, done, image);
    } else {
      assert done + BlockBytes(block) == done;
      PrefixStarts(f, start, done, image);
    }
  }

  lemma ToBlocks(v: Db)
    requires v.Valid()
    ensures ToApp(v) == ToIndex(v) + [0, 0] + BlockBytes(v.appinfo) && ToSort(v) == ToApp(v) + BlockBytes(v.sortinfo)
  {
    hide ToIndex;
  }

  /** The two useless NULs and the blocks. */
  method WriteBlocks(db: Pdb, f: File, ghost v: Db, ghost start: Place, ghost image: seq<ubyte>) returns (ok: bool)
    requires Is(db, v) && v.Valid() && f.Holds(start, ToIndex(v))
    requires PartOf(ToIndex(v) + [0, 0], image) && PartOf(ToApp(v), image) && PartOf(ToSort(v), image)
    modifies f
    ensures f.faults == old(f.faults) + if ok then 0 else 1
    ensures Is(db, v) && Begun(f, start, image)
    ensures ok ==> f.Holds(start, ToSort(v))
  {
    HasBlocks(db, v);
    ToBlocks(v);
    hide *;
    ok := Put(f, [0, 0], start, ToIndex(v), image);
    if ok {
      ok := PutBlock(f, db.appinfo, start, ToIndex(v) + [0, 0], image);
    }
    if ok {
      ok := PutBlock(f, db.sortinfo, start, ToApp(v), image);
    }
  }

  lemma HasBlocks(db: Pdb, v: Db)
    requires Is(db, v)
    ensures db.appinfo == v.appinfo && db.sortinfo == v.sortinfo
  {
  }

  /** `pdb_Write`: 0 when the whole image has been written, -1 when only the
      beginning of it has; what the file held elsewhere stays. */
  method PdbWrite(db: Pdb, f: File) returns (err: int, ghost done: nat)
    requires db.Valid()
    modifies f
    ensures done <= |Image(db.Value())| && f.content == Overlay(old(f.content), old(f.pos), Image(db.Value())[..done])
    ensures f.pos == old(f.pos) + done
    ensures if err == 0 then done == |Image(db.Value())| else err == -1
    ensures f.faults == old(f.faults) + if err == 0 then 0 else 1
  {
    ghost var v, start := db.Value(), Place(f.content, f.pos);
    ImageStages(v);
    assert ToIndex(v) == FrontBytes(v) + IndexBytes(v.items, FirstAt(v));
    assert Is(db, v) && v.Valid() && f.Holds(start, []);
    hide *;
    var ok := WriteParts(db, f, v, start);
    err := if ok then 0 else -1;
    done := HowMuch(f, start, Image(v), ok);
  }

  lemma HowMuch(f: File, start: Place, image: seq<ubyte>, ok: bool) returns (n: nat)
    requires Begun(f, start, image) && (ok ==> f.Holds(start, image))
    ensures n <= |image| && f.content == Overlay(start.was, start.at, image[..n]) && f.pos == start.at + n
    ensures ok ==> n == |image|
  {
    hide Overlay;
    var done :| done <= image && f.Holds(start, done);
    n := |done|;
    assert image[..n] == done;
  }

  method WriteParts(db: Pdb, f: File, ghost v: Db, ghost start: Place) returns (ok: bool)
    requires Is(db, v) && v.Valid() && f.Holds(start, [])
    modifies f
    ensures f.faults == old(f.faults) + if ok then 0 else 1
    ensures Is(db, v) && Begun(f, start, Image(v)) && (ok ==> f.Holds(start, Image(v)))
  {
    ImageStages(v);
    assert ToIndex(v) == FrontBytes(v) + IndexBytes(v.items, FirstAt(v));
    hide *;
    var offset;
    ok, offset := WriteHeaders(db, f, v, start, Image(v));
    if ok {
      ok := WriteIndex(db, f, offset, v, FirstAt(v), start, FrontBytes(v), Image(v));
    }
    if ok {
      ok := WriteBlocks(db, f, v, start, Image(v));
    }
    if ok {
      ok := WriteData(db, f, v, start, ToSort(v), Image(v));
    }
  }
}
