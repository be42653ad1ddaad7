/** The compressed block device of src/zram.rs.

    A page is stored in one of five forms.  `Stored` chooses the form and
    `Loaded` gives back the page; the device's methods keep the table in the
    image of `Stored`, so that the device behaves like a plain array of pages.
 */
module Zram {
  import opened Prelude
  import opened Lz4Format
  import opened Lz4Codec
  import Seqs

  /** Compressed pages must save at least an eighth. */
  const THRESHOLD: nat := PAGE_SIZE - PAGE_SIZE / 8

  datatype Compressor = Lz4 | NoCompression

  datatype PageEntry =
    | Empty
    | Zero
    | Same(fill: byte)
    | CompressedPage(data: seq<byte>)
    | Uncompressed(data: seq<byte>)

  type Page = p: seq<byte> | |p| == PAGE_SIZE witness Filled<byte>(0, PAGE_SIZE)

  const ZERO_PAGE: Page := Filled<byte>(0, PAGE_SIZE)

  // ------------------------------------------------------------ entry forms

  predicate AllEqual(data: seq<byte>, x: byte) {
    forall i :: 0 <= i < |data| ==> data[i] == x
  }

  function Compress(c: Compressor, input: seq<byte>): seq<byte> {
    match c
    case Lz4 => Compressed(input)
    case NoCompression => input
  }

  /** The form in which a page is stored. */
  function Stored(c: Compressor, page: Page): PageEntry {
    if AllEqual(page, 0) then Zero
    else if AllEqual(page, page[0]) then Same(page[0])
    else if |Compress(c, page)| >= THRESHOLD then Uncompressed(page)
    else CompressedPage(Compress(c, page))
  }

  function Padded(data: seq<byte>): Page
    requires |data| <= PAGE_SIZE
  {
    data + Filled(0, PAGE_SIZE - |data|)
  }

  function Truncated(data: seq<byte>): (r: seq<byte>)
    ensures |r| <= PAGE_SIZE
  {
    if |data| <= PAGE_SIZE then data else data[..PAGE_SIZE]
  }

  /** What a read makes of an entry, or None if the stored stream is not decodable into a page. */
  function Loaded(c: Compressor, entry: PageEntry): Option<Page> {
    match entry
    case Empty => Some(ZERO_PAGE)
    case Zero => Some(ZERO_PAGE)
    case Same(fill) => Some(Filled(fill, PAGE_SIZE))
    case Uncompressed(data) => Some(Padded(Truncated(data)))
    case CompressedPage(data) =>
      if c == NoCompression then Some(Padded(Truncated(data)))
      else if Decode(data).Some? && |Decode(data).value| <= PAGE_SIZE then Some(Padded(Decode(data).value))
      else None
  }

  lemma PadFull(page: Page)
    ensures Padded(page) == page
  {
    assert page + Filled(0, 0) == page;
  }

  lemma LoadDecoded(page: Page, data: seq<byte>)
    requires Decode(data) == Some(page)
    ensures Loaded(Lz4, CompressedPage(data)) == Some(page)
  {
    PadFull(page);
  }

  lemma LoadPlain(c: Compressor, page: Page)
    ensures Loaded(c, Uncompressed(page)) == Some(page)
  {
    PadFull(page);
  }

  /** Whatever form is chosen, loading gives back the stored page, with both compressors. */
  lemma LoadStored(c: Compressor, page: Page)
    ensures Loaded(c, Stored(c, page)) == Some(page)
  {
    if AllEqual(page, 0) {
      assert page == ZERO_PAGE;
    } else if AllEqual(page, page[0]) {
      assert page == Filled(page[0], PAGE_SIZE);
    } else if |Compress(c, page)| >= THRESHOLD {
      LoadPlain(c, page);
    } else {
      var data := Compressed(page);
      CompressedRoundTrip(page);
      LoadDecoded(page, data);
    }
  }

  function MemorySize(entry: PageEntry): nat {
    match entry
    case Empty => 0
    case Zero => 0
    case Same(_) => 1
    case CompressedPage(data) => |data|
    case Uncompressed(data) => |data|
  }

  /** A page never takes more room than itself, and a compressed one at most seven eighths of it. */
  lemma StoredSize(c: Compressor, page: Page)
    ensures MemorySize(Stored(c, page)) <= PAGE_SIZE
    ensures Stored(c, page).CompressedPage? ==> c == Lz4 && 8 * MemorySize(Stored(c, page)) < 7 * PAGE_SIZE
  {
  }

  /** All 4096 bytes are `x`. */
  predicate FilledWith(page: Page, x: byte) {
    forall i :: 0 <= i < 4096 ==> page[i] == x
  }

  lemma FilledIff(page: Page, x: byte)
    ensures FilledWith(page, x) <==> AllEqual(page, x)
  {
  }

  /** Which form a page takes, and how much room: none if it is all zeros, one
      byte if it is filled with another, its compressed form if LZ4 makes it
      shorter than 3584 bytes, and otherwise the page itself. */
  lemma StoredExactly(c: Compressor, page: Page)
    ensures Stored(c, page) ==
            if FilledWith(page, 0) then Zero
            else if FilledWith(page, page[0]) then Same(page[0])
            else if c == Lz4 && |Compressed(page)| < 3584 then CompressedPage(Compressed(page))
            else Uncompressed(page)
    ensures MemorySize(Stored(c, page)) ==
            match Stored(c, page)
            case Empty => 0
            case Zero => 0
            case Same(_) => 1
            case CompressedPage(data) => |data|
            case Uncompressed(_) => 4096
  {
    FilledIff(page, 0);
    FilledIff(page, page[0]);
  }

  /** The bytes that an entry loads, or None if it does not load: a filled page,
      or the stored bytes, or those that LZ4 decodes, up to a page of them and
      zeros behind; LZ4 must decode to no more than a page. */
  lemma LoadedExactly(c: Compressor, entry: PageEntry)
    ensures Loaded(c, entry) == None <==>
      && c == Lz4 && entry.CompressedPage?
      && (Decode(entry.data) == None || |Decode(entry.data).value| > 4096)
    ensures Loaded(c, entry).Some? ==>
      var page := Loaded(c, entry).value;
      && (entry == Empty || entry == Zero ==> FilledWith(page, 0))
      && (entry.Same? ==> FilledWith(page, entry.fill))
      && (entry.Uncompressed? || entry.CompressedPage? ==>
            var data := if entry.CompressedPage? && c == Lz4 then Decode(entry.data).value else entry.data;
            forall i :: 0 <= i < 4096 ==> page[i] == if i < |data| then data[i] else 0)
  {
  }

  // ------------------------------------------------------------- page table

  type Table = map<nat, PageEntry>

  function EntryAt(entries: Table, i: nat): PageEntry {
    if i in entries then entries[i] else Empty
  }

  /** Every entry was stored by a write to a page of the device. */
  ghost predicate Sound(c: Compressor, entries: Table, n: nat) {
    forall i :: i in entries ==> i < n && exists p: Page :: entries[i] == Stored(c, p)
  }

  lemma SoundLoads(c: Compressor, entries: Table, n: nat, i: nat)
    requires Sound(c, entries, n)
    ensures Loaded(c, EntryAt(entries, i)).Some?
  {
    if i in entries {
      var p: Page :| entries[i] == Stored(c, p);
      LoadStored(c, p);
    }
  }

  /** The array of pages that a table stands for. */
  ghost function PagesOf(c: Compressor, entries: Table, n: nat): (r: map<nat, Page>)
    requires Sound(c, entries, n)
    ensures forall i: nat :: i in r <==> i < n
  {
    map i: nat | i < n :: SoundLoads(c, entries, n, i); Loaded(c, EntryAt(entries, i)).value
  }

  lemma PagesAfterSet(c: Compressor, entries: Table, n: nat, i: nat, page: Page)
    requires Sound(c, entries, n) && i < n
    ensures Sound(c, entries[i := Stored(c, page)], n)
    ensures PagesOf(c, entries[i := Stored(c, page)], n) == PagesOf(c, entries, n)[i := page]
  {
    LoadStored(c, page);
  }

  lemma PagesAfterRemove(c: Compressor, entries: Table, n: nat, i: nat)
    requires Sound(c, entries, n) && i < n
    ensures Sound(c, entries - {i}, n)
    ensures PagesOf(c, entries - {i}, n) == PagesOf(c, entries, n)[i := ZERO_PAGE]
  {
  }

  // ------------------------------------------------------- filling a page buffer

  /** Fills buffer[from..to]. */
  method Fill(buffer: array<byte>, from: nat, to: nat, x: byte)
    requires from <= to <= buffer.Length
    modifies buffer
    ensures buffer[..] == old(buffer[..from]) + Filled(x, to - from) + old(buffer[to..])
  {
    for k := from to to
      invariant forall j :: 0 <= j < buffer.Length ==> buffer[j] == if from <= j < k then x else old(buffer[j])
    {
      buffer[k] := x;
    }
  }

  /** Zero-fills the first page of a buffer behind the `n` bytes just written. */
  method PadPage(buffer: array<byte>, n: nat)
    requires n <= PAGE_SIZE <= buffer.Length
    modifies buffer
    ensures buffer[..] == Padded(old(buffer[..n])) + old(buffer[PAGE_SIZE..])
  {
    Fill(buffer, n, PAGE_SIZE, 0);
  }

  method LoadRaw(data: seq<byte>, buffer: array<byte>)
    requires PAGE_SIZE <= buffer.Length
    modifies buffer
    ensures buffer[..] == Padded(Truncated(data)) + old(buffer[PAGE_SIZE..])
  {
    var n := if |data| <= PAGE_SIZE then |data| else PAGE_SIZE;
    CopyIn(buffer, 0, data[..n]);
    assert old(buffer[..0]) + data[..n] == Truncated(data);
    assert buffer[PAGE_SIZE..] == buffer[n..][PAGE_SIZE - n..] == old(buffer[n..])[PAGE_SIZE - n..];
    PadPage(buffer, n);
  }

  method LoadLz4(data: seq<byte>, buffer: array<byte>) returns (r: Result<()>)
    requires PAGE_SIZE <= buffer.Length
    modifies buffer
    ensures r.Ok? <==> Decode(data).Some? && |Decode(data).value| <= PAGE_SIZE
    ensures r.Ok? ==> buffer[..] == Padded(Decode(data).value) + old(buffer[PAGE_SIZE..])
    ensures r.Err? ==> r.error == InvalidArgument
  {
    var d := DecompressLz4(data, buffer, PAGE_SIZE);
    if d.Err? {
      return Err(d.error);
    }
    ghost var page, before := Decode(data).value, old(buffer[..]);
    assert buffer[..d.value] == buffer[..][..d.value];
    assert buffer[PAGE_SIZE..] == buffer[..][PAGE_SIZE..];
    Seqs.Split(page, before[d.value..]);
    Seqs.DropDrop(page + before[d.value..], d.value, PAGE_SIZE - d.value);
    Seqs.DropDrop(before, d.value, PAGE_SIZE - d.value);
    PadPage(buffer, d.value);
    return Ok(());
  }

  /** Writes the bytes an entry stands for into the first page of a buffer. */
  method Load(c: Compressor, entry: PageEntry, buffer: array<byte>) returns (r: Result<()>)
    requires PAGE_SIZE <= buffer.Length
    modifies buffer
    ensures r.Ok? <==> Loaded(c, entry).Some?
    ensures r.Ok? ==> buffer[..] == Loaded(c, entry).value + old(buffer[PAGE_SIZE..])
    ensures r.Err? ==> r.error == InvalidArgument
  {
    r := Ok(());
    match entry {
      case Empty => Fill(buffer, 0, PAGE_SIZE, 0);
      case Zero => Fill(buffer, 0, PAGE_SIZE, 0);
      case Same(fill) => Fill(buffer, 0, PAGE_SIZE, fill);
      case Uncompressed(data) => LoadRaw(data, buffer);
      case CompressedPage(data) =>
        if c == Lz4 {
          r := LoadLz4(data, buffer);
        } else {
          LoadRaw(data, buffer);
        }
    }
  }

  // -------------------------------------------------------------- whole runs

  datatype Op = Write(page: nat, data: seq<byte>) | Discard(page: nat) | ResetAll

  /** One operation on a plain array of pages; requests that are out of range or too short change nothing. */
  ghost function Effect(pages: map<nat, Page>, op: Op): map<nat, Page> {
    match op
    case Write(i, data) => if i in pages && PAGE_SIZE <= |data| then pages[i := data[..PAGE_SIZE]] else pages
    case Discard(i) => if i in pages then pages[i := ZERO_PAGE] else pages
    case ResetAll => map i | i in pages :: ZERO_PAGE
  }

  ghost function Replay(pages: map<nat, Page>, ops: seq<Op>): (r: map<nat, Page>)
    ensures r.Keys == pages.Keys
  {
    if ops == [] then pages else Effect(Replay(pages, ops[..|ops| - 1]), ops[|ops| - 1])
  }

  /** Whether an operation determines page `i`. */
  predicate Touches(op: Op, i: nat) {
    match op
    case Write(j, data) => j == i && PAGE_SIZE <= |data|
    case Discard(j) => j == i
    case ResetAll => true
  }

  /** After any run a page holds what the last operation that touched it put there, and its old content if none did. */
  lemma {:induction false} LastTouchDecides(pages: map<nat, Page>, ops: seq<Op>, i: nat, k: int)
    requires i in pages && -1 <= k < |ops|
    requires k >= 0 ==> Touches(ops[k], i)
    requires forall j :: k < j < |ops| ==> !Touches(ops[j], i)
    ensures Replay(pages, ops)[i] ==
            if k < 0 then pages[i] else if ops[k].Write? then ops[k].data[..PAGE_SIZE] else ZERO_PAGE
  {
    if ops == [] || k == |ops| - 1 {
    } else {
      LastTouchDecides(pages, ops[..|ops| - 1], i, k);
      assert !Touches(ops[|ops| - 1], i);
    }
  }

  // -------------------------------------------------------------- the device

  class ZramDevice {
    const sizeBytes: nat
    const compressor: Compressor
    var entries: Table

    function MaxPages(): nat {
      sizeBytes / PAGE_SIZE
    }

    ghost predicate Valid()
      reads this
    {
      Sound(compressor, entries, MaxPages())
    }

    /** The device as a reader sees it. */
    ghost function Pages(): map<nat, Page>
      requires Valid()
      reads this
    {
      PagesOf(compressor, entries, MaxPages())
    }

    constructor (sizeBytes: nat, compressor: Compressor)
      ensures Valid() && this.sizeBytes == sizeBytes && this.compressor == compressor
      ensures forall i :: i in Pages() ==> Pages()[i] == ZERO_PAGE
    {
      this.sizeBytes := sizeBytes;
      this.compressor := compressor;
      entries := map[];
    }

    /** read_page: an in-range read into a large enough buffer always succeeds. */
    method ReadPage(i: nat, buffer: array<byte>) returns (r: Result<()>)
      requires Valid()
      modifies buffer
      ensures r.Ok? <==> 4096 <= buffer.Length && i < sizeBytes / 4096
      ensures r.Ok? ==> buffer[..] == Pages()[i] + old(buffer[PAGE_SIZE..])
      ensures r.Err? ==> r.error == InvalidArgument && buffer[..] == old(buffer[..])
    {
      if buffer.Length < PAGE_SIZE || i >= MaxPages() {
        return Err(InvalidArgument);
      }
      SoundLoads(compressor, entries, MaxPages(), i);
      r := Load(compressor, EntryAt(entries, i), buffer);
    }

    /** write_page: the first page of `data` replaces page `i`; every other page is untouched. */
    method WritePage(i: nat, data: seq<byte>) returns (r: Result<()>)
      requires Valid()
      modifies this
      ensures Valid()
      ensures r.Ok? <==> 4096 <= |data| && i < sizeBytes / 4096
      ensures r.Ok? ==> entries == old(entries)[i := Stored(compressor, data[..PAGE_SIZE])]
      ensures r.Ok? ==> Pages() == old(Pages())[i := data[..PAGE_SIZE]]
      ensures r.Err? ==> r.error == InvalidArgument && entries == old(entries)
    {
      if |data| < PAGE_SIZE || i >= MaxPages() {
        return Err(InvalidArgument);
      }
      var page: Page := data[..PAGE_SIZE];
      PagesAfterSet(compressor, entries, MaxPages(), i, page);
      if AllEqual(page, 0) {
        entries := entries[i := Zero];
        return Ok(());
      }
      if AllEqual(page, page[0]) {
        entries := entries[i := Same(page[0])];
        return Ok(());
      }
      var compressed := page;
      if compressor == Lz4 {
        compressed := CompressLz4(page);
      }
      if |compressed| >= THRESHOLD {
        entries := entries[i := Uncompressed(page)];
      } else {
        entries := entries[i := CompressedPage(compressed)];
      }
      return Ok(());
    }

    /** discard_page: the page reads as zeros afterwards. */
    method DiscardPage(i: nat) returns (r: Result<()>)
      requires Valid()
      modifies this
      ensures Valid()
      ensures r.Ok? <==> i < sizeBytes / 4096
      ensures r.Ok? ==> Pages() == old(Pages())[i := ZERO_PAGE] && entries == old(entries) - {i}
      ensures r.Err? ==> r.error == InvalidArgument && entries == old(entries)
    {
      if i >= MaxPages() {
        return Err(InvalidArgument);
      }
      PagesAfterRemove(compressor, entries, MaxPages(), i);
      entries := entries - {i};
      return Ok(());
    }

    /** reset: removes the entries one by one; none is left. */
    method Reset()
      requires Valid()
      modifies this
      ensures Valid() && entries == map[]
      ensures forall i :: i in Pages() ==> Pages()[i] == ZERO_PAGE
    {
      for k := 0 to MaxPages()
        invariant Valid()
        invariant forall i :: i in entries ==> k <= i
      {
        PagesAfterRemove(compressor, entries, MaxPages(), k);
        entries := entries - {k};
      }
    }

    /** A whole run of operations leaves the device as the same run leaves a plain array of pages. */
    method Run(ops: seq<Op>)
      requires Valid()
      modifies this
      ensures Valid()
      ensures Pages() == Replay(old(Pages()), ops)
    {
      for k := 0 to |ops|
        invariant Valid()
        invariant Pages() == Replay(old(Pages()), ops[..k])
      {
        Seqs.TakeLast(ops, k + 1);
        assert ops[..k + 1][..k] == ops[..k];
        match ops[k]
        case Write(i, data) => var _ := WritePage(i, data);
        case Discard(i) => var _ := DiscardPage(i);
        case ResetAll => Reset();
      }
      assert ops[..|ops|] == ops;
    }
  }
}
