/**
  Sparse guest RAM (`mem_t`): `sz` bytes backed by page-sized buffers that
  are allocated, zero-filled, on first touch. `ByteAt` is the abstract
  view: the byte a page holds, or 0 for a page never allocated.
*/
module SparseMemory {
  import opened Types

  const PGSHIFT: nat := 12
  /** 1 << PGSHIFT: the 4 KiB page. */
  const PGSIZE: nat := 4096

  /** `sparse_memory_map`: page number (`addr >> PGSHIFT`) to page contents. */
  type PageMap = map<int, seq<Byte>>

  predicate PagesOk(pages: PageMap) {
    forall p :: p in pages ==> |pages[p]| == PGSIZE
  }

  /** The byte that guest address `a` holds. */
  function ByteAt(pages: PageMap, a: nat): Byte
    requires PagesOk(pages)
  {
    if a / PGSIZE in pages then pages[a / PGSIZE][a % PGSIZE] else 0
  }

  /** `pages` holds `data` at `[addr, addr + |data|)` and agrees with `p0` elsewhere. */
  ghost predicate StoredRange(p0: PageMap, pages: PageMap, addr: nat, data: seq<Byte>)
    requires PagesOk(p0) && PagesOk(pages)
  {
    forall x: nat :: ByteAt(pages, x) == if addr <= x < addr + |data| then data[x - addr] else ByteAt(p0, x)
  }

  /** `data` is what `pages` holds at `[addr, addr + |data|)`. */
  ghost predicate LoadedRange(pages: PageMap, addr: nat, data: seq<Byte>)
    requires PagesOk(pages)
  {
    forall i :: 0 <= i < |data| ==> data[i] == ByteAt(pages, addr + i)
  }

  /** The two page maps read the same at every address. */
  ghost predicate SameView(p0: PageMap, pages: PageMap)
    requires PagesOk(p0) && PagesOk(pages)
  {
    forall x: nat :: ByteAt(pages, x) == ByteAt(p0, x)
  }

  /** The page numbers of the bytes `[addr, addr + len)`. */
  function Spanned(addr: nat, len: nat): set<int> {
    set a: int | addr <= a < addr + len :: a / PGSIZE
  }

  /** A `calloc(PGSIZE, 1)` buffer. */
  function ZeroPage(): (p: seq<Byte>)
    ensures |p| == PGSIZE && forall i :: 0 <= i < PGSIZE ==> p[i] == 0
  {
    seq(PGSIZE, _ => 0)
  }

  /**
    What `contents` does to `sparse_memory_map`: add a zero-filled page for
    `ppn` if it has none. Existing pages stay as they are, and no address
    reads differently afterwards.
  */
  function Allocate(pages: PageMap, ppn: int): (r: PageMap)
    requires PagesOk(pages)
    ensures PagesOk(r) && r.Keys == pages.Keys + {ppn}
    ensures forall p :: p in pages ==> r[p] == pages[p]
    ensures ppn !in pages ==> r[ppn] == ZeroPage()
    ensures SameView(pages, r)
  {
    if ppn in pages then pages else pages[ppn := ZeroPage()]
  }

  /** The constructor's size check. */
  predicate ValidSize(size: U64) {
    !(size == 0 || size % PGSIZE != 0)
  }

  /**
    The bounds check of `load_store`: `addr + len` is computed in `reg_t`
    and so may wrap; the check rejects exactly the accesses that do not
    fit in `[0, sz)`.
  */
  function InBounds(addr: U64, len: U64, sz: U64): (ok: bool)
    ensures ok <==> addr + len <= sz
  {
    var end := WrapAdd(addr, len);
    !(end < addr || end > sz)
  }

  /** `std::min(PGSIZE - addr % PGSIZE, len)`: the bytes moved by one iteration. */
  function ChunkLen(addr: nat, len: nat): (n: nat)
    ensures len > 0 ==> 1 <= n
    ensures n <= len && addr % PGSIZE + n <= PGSIZE
    ensures n == len || (addr + n) % PGSIZE == 0
  {
    if len < PGSIZE - addr % PGSIZE then len else PGSIZE - addr % PGSIZE
  }

  /** Addresses `b <= a` in the same page as `b`. */
  lemma SamePage(b: nat, a: nat)
    requires b <= a && b % PGSIZE + (a - b) < PGSIZE
    ensures a / PGSIZE == b / PGSIZE && a % PGSIZE == b % PGSIZE + (a - b)
  {
    var q := b / PGSIZE;
    assert b == q * PGSIZE + b % PGSIZE;
    assert a == q * PGSIZE + (b % PGSIZE + (a - b));
  }

  /** One chunk of the loop adds exactly the chunk's page to the spanned pages. */
  lemma SpannedStep(addr: nat, pos: nat, n: nat)
    requires 1 <= n && (addr + pos) % PGSIZE + n <= PGSIZE
    ensures Spanned(addr, pos + n) == Spanned(addr, pos) + {(addr + pos) / PGSIZE}
  {
    var b := addr + pos;
    forall a | b <= a < b + n ensures a / PGSIZE == b / PGSIZE {
      SamePage(b, a);
    }
    assert b / PGSIZE in Spanned(addr, pos + n);
  }

  /** `memcpy(contents(addr), data, |data|)` within one allocated page. */
  function WriteChunk(pages: PageMap, addr: nat, data: seq<Byte>): (r: PageMap)
    requires PagesOk(pages) && addr / PGSIZE in pages && addr % PGSIZE + |data| <= PGSIZE
    ensures PagesOk(r) && r.Keys == pages.Keys
    ensures StoredRange(pages, r, addr, data)
  {
    var ppn, off := addr / PGSIZE, addr % PGSIZE;
    var r := pages[ppn := pages[ppn][..off] + data + pages[ppn][off + |data|..]];
    forall a: nat
      ensures ByteAt(r, a) == if addr <= a < addr + |data| then data[a - addr] else ByteAt(pages, a)
    {
      if addr <= a < addr + |data| {
        SamePage(addr, a);
      } else if a / PGSIZE == ppn {
        var q := a / PGSIZE;
        assert a == q * PGSIZE + a % PGSIZE;
        assert addr == q * PGSIZE + off;
      }
    }
    r
  }

  /** `memcpy(bytes, contents(addr), n)` within one allocated page. */
  function ReadChunk(pages: PageMap, addr: nat, n: nat): (r: seq<Byte>)
    requires PagesOk(pages) && addr / PGSIZE in pages && addr % PGSIZE + n <= PGSIZE
    ensures |r| == n && LoadedRange(pages, addr, r)
  {
    var off := addr % PGSIZE;
    var r := pages[addr / PGSIZE][off..off + n];
    forall i | 0 <= i < n ensures r[i] == ByteAt(pages, addr + i) {
      SamePage(addr, addr + i);
    }
    r
  }

  /** Storing the next chunk extends the stored prefix by that chunk. */
  lemma StoreStep(p0: PageMap, mid: PageMap, pages: PageMap, addr: nat, data: seq<Byte>, pos: nat, n: nat)
    requires PagesOk(p0) && PagesOk(mid) && PagesOk(pages) && pos + n <= |data|
    requires StoredRange(p0, mid, addr, data[..pos])
    requires StoredRange(mid, pages, addr + pos, data[pos..pos + n])
    ensures StoredRange(p0, pages, addr, data[..pos + n])
  {
    forall x: nat
      ensures ByteAt(pages, x) ==
                if addr <= x < addr + pos + n then data[..pos + n][x - addr] else ByteAt(p0, x)
    {
      if addr + pos <= x < addr + pos + n {
        assert data[pos..pos + n][x - (addr + pos)] == data[..pos + n][x - addr];
      } else if addr <= x < addr + pos {
        assert data[..pos][x - addr] == data[..pos + n][x - addr];
      }
    }
  }

  /** Loading the next chunk extends the loaded prefix by that chunk. */
  lemma LoadStep(p0: PageMap, mid: PageMap, addr: nat, prefix: seq<Byte>, chunk: seq<Byte>)
    requires PagesOk(p0) && PagesOk(mid) && SameView(p0, mid)
    requires LoadedRange(p0, addr, prefix) && LoadedRange(mid, addr + |prefix|, chunk)
    ensures LoadedRange(p0, addr, prefix + chunk)
  {
    forall i | 0 <= i < |prefix + chunk| ensures (prefix + chunk)[i] == ByteAt(p0, addr + i) {
      if i >= |prefix| {
        assert (prefix + chunk)[i] == chunk[i - |prefix|];
        assert ByteAt(mid, addr + |prefix| + (i - |prefix|)) == ByteAt(p0, addr + i);
      }
    }
  }

  /**
    The state of the `load_store` loop after its first `pos` bytes: a
    store has written `b0[..pos]`, a load has read `pos` bytes into `buf`
    and changed no byte of memory; in both cases exactly the pages of
    those bytes have been added.
  */
  ghost predicate Progress(p0: PageMap, b0: seq<Byte>, pages: PageMap, buf: seq<Byte>,
                           addr: nat, pos: nat, store: bool)
  {
    && PagesOk(p0) && PagesOk(pages) && pos <= |b0| == |buf|
    && pages.Keys == p0.Keys + Spanned(addr, pos)
    && (store ==> buf == b0 && StoredRange(p0, pages, addr, b0[..pos]))
    && (!store ==> SameView(p0, pages) && buf[pos..] == b0[pos..] && LoadedRange(p0, addr, buf[..pos]))
  }

  /** One iteration of the `load_store` loop moves `Progress` forward by one chunk. */
  lemma ProgressStep(p0: PageMap, b0: seq<Byte>, before: PageMap, buf: seq<Byte>,
                     after: PageMap, buf': seq<Byte>, addr: nat, pos: nat, n: nat, store: bool)
    requires Progress(p0, b0, before, buf, addr, pos, store)
    requires 1 <= n && pos + n <= |b0| && (addr + pos) % PGSIZE + n <= PGSIZE
    requires var mid := Allocate(before, (addr + pos) / PGSIZE);
             && (store ==> after == WriteChunk(mid, addr + pos, buf[pos..pos + n]) && buf' == buf)
             && (!store ==> after == mid &&
                            buf' == buf[..pos] + ReadChunk(mid, addr + pos, n) + buf[pos + n..])
    ensures Progress(p0, b0, after, buf', addr, pos + n, store)
  {
    var mid := Allocate(before, (addr + pos) / PGSIZE);
    SpannedStep(addr, pos, n);
    if store {
      StoredRangeSameView(p0, before, mid, addr, b0[..pos]);
      StoreStep(p0, mid, after, addr, b0, pos, n);
    } else {
      var chunk := ReadChunk(mid, addr + pos, n);
      assert buf'[..pos + n] == buf[..pos] + chunk;
      assert buf'[pos + n..] == b0[pos + n..];
      LoadStep(p0, mid, addr, buf[..pos], chunk);
    }
  }

  /** A `StoredRange` survives a step that changes no byte. */
  lemma StoredRangeSameView(p0: PageMap, before: PageMap, mid: PageMap, addr: nat, data: seq<Byte>)
    requires PagesOk(p0) && PagesOk(before) && PagesOk(mid)
    requires StoredRange(p0, before, addr, data) && SameView(before, mid)
    ensures StoredRange(p0, mid, addr, data)
  {
  }

  /** Some range of `ranges` covers address `a`. */
  ghost predicate Covers(ranges: seq<(nat, nat)>, a: nat) {
    exists i :: 0 <= i < |ranges| && ranges[i].0 <= a < ranges[i].0 + ranges[i].1
  }

  /** Addresses outside every range of `stored` read as zero. */
  ghost predicate ZeroOutside(stored: seq<(nat, nat)>, pages: PageMap) {
    PagesOk(pages) && forall a: nat :: !Covers(stored, a) ==> ByteAt(pages, a) == 0
  }

  lemma CoversAppend(ranges: seq<(nat, nat)>, r: (nat, nat), a: nat)
    ensures Covers(ranges + [r], a) <==> Covers(ranges, a) || r.0 <= a < r.0 + r.1
  {
    var s := ranges + [r];
    if Covers(ranges, a) {
      var i :| 0 <= i < |ranges| && ranges[i].0 <= a < ranges[i].0 + ranges[i].1;
      assert s[i] == ranges[i];
    }
    if r.0 <= a < r.0 + r.1 {
      assert s[|ranges|] == r;
    }
    if Covers(s, a) {
      var i :| 0 <= i < |s| && s[i].0 <= a < s[i].0 + s[i].1;
      if i < |ranges| { assert s[i] == ranges[i]; }
    }
  }

  /** A store keeps every address no store has covered at zero. */
  lemma StoreKeepsZeros(stored: seq<(nat, nat)>, p0: PageMap, pages: PageMap, addr: nat, data: seq<Byte>)
    requires ZeroOutside(stored, p0) && PagesOk(pages) && StoredRange(p0, pages, addr, data)
    ensures ZeroOutside(stored + [(addr, |data|)], pages)
  {
    forall a: nat | !Covers(stored + [(addr, |data|)], a) ensures ByteAt(pages, a) == 0 {
      CoversAppend(stored, (addr, |data|), a);
    }
  }

  class Mem {
    const sz: U64
    var pages: PageMap
    /** The `(addr, len)` ranges of the successful stores so far. */
    ghost var stored: seq<(nat, nat)>

    ghost predicate Valid()
      reads this
    {
      ValidSize(sz) && ZeroOutside(stored, pages)
    }

    constructor (size: U64)
      requires ValidSize(size)
      ensures Valid() && sz == size && pages == map[] && stored == []
    {
      sz := size;
      pages := map[];
      stored := [];
    }

    /** `new mem_t(size)`: throws unless `size` is a positive multiple of 4 KiB. */
    static method New(size: U64) returns (r: Result<Mem, SetupError>)
      ensures r.Err? <==> size == 0 || size % PGSIZE != 0
      ensures r.Err? ==> r.error == InvalidMemorySize
      ensures r.Ok? ==> fresh(r.value) && r.value.Valid() && r.value.sz == size
      ensures r.Ok? ==> r.value.pages == map[] && r.value.stored == []
    {
      if size == 0 || size % PGSIZE != 0 {
        return Err(InvalidMemorySize);
      }
      var m := new Mem(size);
      return Ok(m);
    }

    /**
      `contents(addr)`: the offset of `addr` in its page, allocating a
      zero-filled page first if there is none. Existing pages are left as
      they are, so no address changes the byte it reads.
    */
    method Contents(addr: U64) returns (pgoff: nat)
      requires PagesOk(pages)
      modifies this`pages
      ensures pages == Allocate(old(pages), addr / PGSIZE) && pgoff == addr % PGSIZE
    {
      var ppn := addr / PGSIZE;
      if ppn !in pages {
        pages := pages[ppn := ZeroPage()];
      }
      pgoff := addr % PGSIZE;
    }

    /**
      The body of the `load_store` loop after `contents(addr)`: one
      `memcpy` of `n` bytes between `bytes[pos..]` and the page of `addr`,
      in the direction `store` selects.
    */
    method MoveChunk(addr: U64, pgoff: nat, n: nat, bytes: array<Byte>, pos: nat, store: bool)
      requires PagesOk(pages) && addr / PGSIZE in pages && pgoff == addr % PGSIZE
      requires pgoff + n <= PGSIZE && pos + n <= bytes.Length
      modifies this`pages, bytes
      ensures store ==> pages == WriteChunk(old(pages), addr, old(bytes[pos..pos + n])) &&
                        bytes[..] == old(bytes[..])
      ensures !store ==> pages == old(pages) &&
                         bytes[..] == old(bytes[..pos]) + ReadChunk(pages, addr, n) + old(bytes[pos + n..])
    {
      if store {
        pages := WriteChunk(pages, addr, bytes[pos..pos + n]);
      } else {
        var chunk := ReadChunk(pages, addr, n);
        forall i | 0 <= i < n {
          bytes[pos + i] := chunk[i];
        }
        assert bytes[..] == old(bytes[..pos]) + chunk + old(bytes[pos + n..]);
      }
    }

    /**
      `load_store`: copy `len` bytes between `bytes` and `[addr, addr + len)`
      page by page, or fail with no effect when the range does not fit.
      A load allocates the pages it reads but changes no byte.
    */
    method LoadStore(addr: U64, len: U64, bytes: array<Byte>, store: bool) returns (ok: bool)
      requires Valid() && len <= bytes.Length
      modifies this, bytes
      ensures Valid()
      ensures ok == InBounds(addr, len, sz)
      ensures !ok ==> pages == old(pages) && stored == old(stored) && bytes[..] == old(bytes[..])
      ensures ok ==> pages.Keys == old(pages).Keys + Spanned(addr, len)
      ensures ok && store ==> stored == old(stored) + [(addr, len)] && bytes[..] == old(bytes[..])
      ensures ok && store ==> StoredRange(old(pages), pages, addr, old(bytes[..len]))
      ensures ok && !store ==> stored == old(stored) && SameView(old(pages), pages)
      ensures ok && !store ==> bytes[len..] == old(bytes[len..]) && LoadedRange(old(pages), addr, bytes[..len])
    {
      if !InBounds(addr, len, sz) {
        return false;
      }
      ghost var p0, b0, s0 := pages, bytes[..], stored;
      var a, pos, rem := addr, 0, len;
      while rem > 0
        invariant 0 <= pos <= len && a == addr + pos && rem == len - pos
        invariant stored == s0 && bytes.Length == |b0|
        invariant Progress(p0, b0, pages, bytes[..], addr, pos, store)
        decreases rem
      {
        var n := ChunkLen(a, rem);
        ghost var before, buf := pages, bytes[..];
        var pgoff := Contents(a);
        MoveChunk(a, pgoff, n, bytes, pos, store);
        ProgressStep(p0, b0, before, buf, pages, bytes[..], addr, pos, n, store);
        a, pos, rem := a + n, pos + n, rem - n;
      }
      if store {
        StoreKeepsZeros(s0, p0, pages, addr, b0[..len]);
        stored := stored + [(addr, len)];
      }
      return true;
    }
  }

  /** A store followed by a load of the same range returns the stored bytes. */
  method StoreThenLoad(m: Mem, addr: U64, data: array<Byte>) returns (ok: bool, back: array<Byte>)
    requires m.Valid() && data.Length < U64_LIMIT
    modifies m, data
    ensures m.Valid()
    ensures ok <==> addr + data.Length <= m.sz
    ensures ok ==> back[..] == old(data[..])
  {
    ok := m.LoadStore(addr, data.Length, data, true);
    back := new Byte[data.Length];
    if ok {
      var again := m.LoadStore(addr, data.Length, back, false);
      assert again;
      assert back[..] == back[..data.Length];
    }
  }

  /** On a fresh memory every load reads zeros. */
  method LoadFresh(size: U64, addr: U64, len: U64) returns (r: Option<seq<Byte>>)
    ensures ValidSize(size) && addr + len <= size <==> r.Some?
    ensures r.Some? ==> |r.value| == len && forall i :: 0 <= i < len ==> r.value[i] == 0
  {
    var m := Mem.New(size);
    if m.Err? {
      return None;
    }
    var buf := new Byte[len];
    var ok := m.value.LoadStore(addr, len, buf, false);
    if !ok {
      return None;
    }
    return Some(buf[..]);
  }
}
