/** Memory that allocates a page only when it is first touched (src/memory/sparse.rs). */
module SparseMemories {
  import opened Words
  import opened PagedMemory

  const INVALID_PAGE_INDEX: int := 0xFFFF

  type Page = p: seq<Byte> | |p| == PAGE witness Zeros(PAGE)

  // ---------------------------------------------------------------- the page table as a value

  datatype RawTable = Table(indices: seq<int>, pages: seq<Page>)

  ghost function Allocated(indices: seq<int>): set<int>
  {
    set p | 0 <= p < |indices| && indices[p] != INVALID_PAGE_INDEX
  }

  /** Every allocated riscv page has its own entry in `pages`, and there is no other entry. */
  ghost predicate Consistent(t: RawTable)
  {
    && |t.indices| <= INVALID_PAGE_INDEX
    && |t.pages| == |Allocated(t.indices)|
    && (forall p :: p in Allocated(t.indices) ==> 0 <= t.indices[p] < |t.pages|)
    && (forall p, q :: p in Allocated(t.indices) && q in Allocated(t.indices) && t.indices[p] == t.indices[q] ==> p == q)
  }

  type Table = t: RawTable | Consistent(t) ghost witness Table([], [])

  ghost function ByteAt(t: Table, a: nat): Byte
    requires a < |t.indices| * PAGE
  {
    var p := a / PAGE;
    if t.indices[p] == INVALID_PAGE_INDEX then 0 else assert p in Allocated(t.indices); t.pages[t.indices[p]][a % PAGE]
  }

  /** The plain bytes a page table stands for. */
  ghost function Plain(t: Table): (r: seq<Byte>)
    ensures |r| == |t.indices| * PAGE
  {
    seq(|t.indices| * PAGE, a requires 0 <= a < |t.indices| * PAGE => ByteAt(t, a))
  }

  function Allocate(t: RawTable, page: nat): RawTable
    requires page < |t.indices|
  {
    Table(t.indices[page := |t.pages| % 0x10000], t.pages + [Zeros(PAGE)])
  }

  lemma {:induction false} SubsetOfRange(s: set<int>, n: nat)
    requires forall x :: x in s ==> 0 <= x < n
    ensures |s| <= n
  {
    if n > 0 {
      SubsetOfRange(s - {n - 1}, n - 1);
    } else {
      assert forall x :: x !in s;
    }
  }

  lemma {:induction false} RepeatPart(size: nat, value: Byte, from: nat, n: nat)
    requires from + n <= size
    ensures Repeat(n, value) == Repeat(size, value)[from..from + n]
  {
  }

  /** With at most 65535 pages there is always an index left for a page without one. */
  lemma {:induction false} IndexLeft(t: Table, page: nat)
    requires page < |t.indices| && t.indices[page] == INVALID_PAGE_INDEX
    ensures |t.pages| < INVALID_PAGE_INDEX && Allocate(t, page).indices[page] == |t.pages|
    ensures Allocated(Allocate(t, page).indices) == Allocated(t.indices) + {page}
  {
    RoomLeft(t, page);
    hide Consistent;
    AllocatedMore(t.indices, page, |t.pages|);
  }

  lemma {:induction false} RoomLeft(t: Table, page: nat)
    requires page < |t.indices| && t.indices[page] == INVALID_PAGE_INDEX
    ensures |t.pages| < INVALID_PAGE_INDEX
  {
    assert page !in Allocated(t.indices);
    SubsetOfRange(Allocated(t.indices) + {page}, |t.indices|);
  }

  lemma {:induction false} AllocatedMore(indices: seq<int>, page: nat, index: nat)
    requires page < |indices| && index < INVALID_PAGE_INDEX
    ensures Allocated(indices[page := index]) == Allocated(indices) + {page}
  {
  }

  /** The entry given to a page is usable unless 65535 pages are allocated already: the limit is exact. */
  lemma {:induction false} IndexUsable(t: RawTable, page: nat)
    requires page < |t.indices| && |t.pages| <= INVALID_PAGE_INDEX
    ensures Allocate(t, page).indices[page] != INVALID_PAGE_INDEX <==> |t.pages| < INVALID_PAGE_INDEX
  {
  }

  lemma {:induction false} AllocateIsConsistent(t: Table, page: nat)
    requires page < |t.indices| && t.indices[page] == INVALID_PAGE_INDEX
    ensures Consistent(Allocate(t, page))
  {
    IndexLeft(t, page);
    var t' := Allocate(t, page);
    hide Allocated;
    assert forall p :: p in Allocated(t.indices) ==> t'.indices[p] == t.indices[p];
  }

  lemma {:induction false} AllocateKeepsBytes(t: Table, page: nat)
    requires page < |t.indices| && t.indices[page] == INVALID_PAGE_INDEX
    requires Consistent(Allocate(t, page))
    ensures Plain(Allocate(t, page)) == Plain(t)
  {
    IndexLeft(t, page);
    var t' := Allocate(t, page);
    forall a | 0 <= a < |t.indices| * PAGE
      ensures ByteAt(t', a) == ByteAt(t, a)
    {
      assert a / PAGE != page ==> (a / PAGE in Allocated(t.indices) <==> a / PAGE in Allocated(t'.indices));
    }
  }

  lemma {:induction false} SliceOfPage(t: Table, page: nat, offset: nat, size: nat)
    requires page in Allocated(t.indices) && offset + size <= PAGE
    ensures page * PAGE + offset + size <= |Plain(t)|
    ensures t.pages[t.indices[page]][offset..offset + size] == Slice(Plain(t), page * PAGE + offset, size)
  {
  }

  function UpdatePage(t: RawTable, index: nat, offset: nat, data: seq<Byte>): RawTable
    requires index < |t.pages| && offset + |data| <= PAGE
  {
    t.(pages := t.pages[index := Write(t.pages[index], offset, data)])
  }

  /** Writing into one allocated page writes the plain bytes, because no two pages share an entry. */
  lemma {:induction false} UpdatePageWrites(t: Table, page: nat, offset: nat, data: seq<Byte>)
    requires page in Allocated(t.indices) && offset + |data| <= PAGE
    ensures var t' := UpdatePage(t, t.indices[page], offset, data);
            && Consistent(t')
            && page * PAGE + offset + |data| <= |Plain(t)|
            && Plain(t') == Write(Plain(t), page * PAGE + offset, data)
  {
  }

  // ---------------------------------------------------------------- the memory

  /** How many bytes from an address on exist; a store that is too long writes these. */
  function RoomFor(m: Memory, addr: nat): nat {
    if addr < |m.bytes| then |m.bytes| - addr else 0
  }

  /** The start of the first page from an address on that does not exist. */
  function FirstMissing(m: Memory, addr: U64): U64 {
    if addr < |m.bytes| then |m.bytes| else PageOf(addr) * PAGE
  }

  lemma {:induction false} StoreStops(m: Memory, addr: U64, done: nat, page: nat, offset: nat)
    requires page >= |m.flags| && page * PAGE + offset == addr + done && offset < PAGE
    requires done > 0 ==> InRange(m, addr, done)
    ensures done == RoomFor(m, addr) && page * PAGE == FirstMissing(m, addr)
  {
    AddressParts(addr);
  }

  class SparseMemory {
    var table: Table
    var flags: seq<Flags>
    var lr: U64

    ghost predicate Valid()
      reads this
    {
      |flags| == |table.indices| <= INVALID_PAGE_INDEX
    }

    ghost function Memory(): Memory
      requires Valid()
      reads this
    {
      Mem(Plain(table), flags, lr)
    }

    constructor (pageCount: nat)
      requires pageCount <= INVALID_PAGE_INDEX
      ensures Valid() && Memory() == Fresh(pageCount)
    {
      var indices := seq(pageCount, i => INVALID_PAGE_INDEX);
      assert Allocated(indices) == {};
      table := Table(indices, []);
      flags := seq(pageCount, i => NO_FLAGS);
      lr := U64_MAX;
    }

    /** `fetch_page`: the position of the page in `pages`, allocated zeroed when it is not there yet. */
    method FetchPage(alignedAddr: U64) returns (r: Result<nat>)
      requires Valid()
      modifies this
      ensures Valid() && Memory() == old(Memory())
      ensures alignedAddr / PAGE >= |flags| ==> r == Err(OutOfBound(alignedAddr))
      ensures alignedAddr / PAGE < |flags| ==>
                alignedAddr / PAGE in Allocated(table.indices) && r == Ok(table.indices[alignedAddr / PAGE]) && r.value < |table.pages|
    {
      var page := alignedAddr / PAGE;
      if page >= |table.indices| {
        return Err(OutOfBound(alignedAddr));
      }
      if table.indices[page] == INVALID_PAGE_INDEX {
        IndexLeft(table, page);
        AllocateIsConsistent(table, page);
        AllocateKeepsBytes(table, page);
        table := Allocate(table, page);
      }
      assert page in Allocated(table.indices);
      return Ok(table.indices[page]);
    }

    /** Fetches page number `page` and reads a slice of it. */
    method ReadInPage(page: nat, offset: nat, size: nat, ghost at: nat) returns (r: Result<seq<Byte>>)
      requires Valid() && page * PAGE < TWO64 && offset + size <= PAGE && at == page * PAGE + offset
      modifies this
      ensures Valid() && Memory() == old(Memory())
      ensures page >= |flags| ==> r.Err? && r.error.OutOfBound?
      ensures page < |flags| ==> InRange(Memory(), at, size) && r == Ok(Slice(Memory().bytes, at, size))
    {
      var index := FetchPage(page * PAGE);
      if index.Err? {
        return Err(index.error);
      }
      SliceOfPage(table, page, offset, size);
      return Ok(table.pages[index.value][offset..offset + size]);
    }

    /** The two page fetches of `load`: the bytes found in the first and in the second page. */
    method FetchPieces(addr: U64, bytes: nat) returns (first: Result<seq<Byte>>, second: Result<seq<Byte>>)
      requires Valid() && 0 < bytes <= 8
      modifies this
      ensures Valid() && Memory() == old(Memory())
      ensures !InRange(Memory(), addr, bytes) ==>
                (first.Err? && first.error.OutOfBound?) || (first.Ok? && second.Err? && second.error.OutOfBound?)
      ensures InRange(Memory(), addr, bytes) ==>
                first.Ok? && second.Ok? && first.value + second.value == Slice(Memory().bytes, addr, bytes)
    {
      hide Consistent, Plain, Slice, PageOf, OffsetOf;
      AddressParts(addr);
      var page, offset := PageOf(addr), OffsetOf(addr);
      var firstPageBytes := if bytes < PAGE - offset then bytes else PAGE - offset;
      first := ReadInPage(page, offset, firstPageBytes, addr);
      second := Ok([]);
      if first.Ok? {
        var secondPageBytes := bytes - firstPageBytes;
        if secondPageBytes > 0 {
          second := ReadInPage(page + 1, 0, secondPageBytes, addr + firstPageBytes);
          if second.Ok? {
            SliceSum(Memory().bytes, addr, firstPageBytes, secondPageBytes);
          }
        } else {
          assert first.value + [] == first.value;
        }
      }
    }

    /** `load`: the bytes or-ed together little endian. */
    method Load(addr: U64, bytes: nat) returns (r: Result<nat>)
      requires Valid() && 0 < bytes <= 8
      modifies this
      ensures Valid() && Memory() == old(Memory())
      ensures InRange(Memory(), addr, bytes) ==> r == Ok(LittleEndian(Slice(Memory().bytes, addr, bytes)))
      ensures !InRange(Memory(), addr, bytes) ==> r.Err? && r.error.OutOfBound?
    {
      assert LittleEndian([]) == 0 && Pow256(0) == 1;
      hide Consistent, Plain, LittleEndian, Slice, Pow256;
      var first, second := FetchPieces(addr, bytes);
      if first.Err? {
        return Err(first.error);
      }
      var value, weight := Accumulate(0, 1, [], first.value);
      if second.Err? {
        return Err(second.error);
      }
      assert [] + first.value == first.value;
      value, weight := Accumulate(value, weight, first.value, second.value);
      return Ok(value);
    }

    /** The byte loops of `load`: each byte is added at the next shift. */
    static method Accumulate(value: nat, weight: nat, ghost before: seq<Byte>, bytes: seq<Byte>) returns (v: nat, w: nat)
      requires value == LittleEndian(before) && weight == Pow256(|before|)
      ensures v == LittleEndian(before + bytes) && w == Pow256(|before + bytes|)
    {
      v, w := value, weight;
      assert before + bytes[..0] == before;
      for k := 0 to |bytes|
        invariant v == LittleEndian(before + bytes[..k]) && w == Pow256(|before| + k)
      {
        LittleEndianSnoc(before + bytes[..k], bytes[k]);
        assert before + bytes[..k] + [bytes[k]] == before + bytes[..k + 1];
        v := v + w * bytes[k];
        w := w * 256;
      }
      assert bytes[..|bytes|] == bytes;
    }

    /** One page's share of a store. */
    method StoreInPage(page: nat, offset: nat, data: seq<Byte>) returns (r: Result<nat>)
      requires Valid() && page * PAGE < TWO64 && data != [] && offset + |data| <= PAGE
      modifies this
      ensures Valid()
      ensures page >= |old(flags)| ==> r == Err(OutOfBound(page * PAGE)) && Memory() == old(Memory())
      ensures page < |old(flags)| ==>
                r.Ok? && InRange(old(Memory()), page * PAGE + offset, |data|)
                && Memory() == Put(old(Memory()), page * PAGE + offset, data)
    {
      hide Consistent, Plain;
      r := FetchPage(page * PAGE);
      if r.Err? {
        return;
      }
      ghost var at := page * PAGE + offset;
      assert PageOf(at) == LastPage(at, |data|) == page;
      UpdatePageWrites(table, page, offset, data);
      table := UpdatePage(table, r.value, offset, data);
      flags := flags[page := flags[page].Or(DIRTY)];
      assert flags == Mark(old(flags), page, page, DIRTY);
    }

    method StoreBytes(addr: U64, data: seq<Byte>) returns (error: Option<Error>)
      requires Valid() && |data| < TWO63
      modifies this
      ensures Valid()
      ensures data == [] ==> error.None? && Memory() == old(Memory())
      ensures data != [] && InRange(old(Memory()), addr, |data|) ==> error.None? && Memory() == Put(old(Memory()), addr, data)
      ensures data != [] && !InRange(old(Memory()), addr, |data|) ==>
                && error == Some(OutOfBound(FirstMissing(old(Memory()), addr)))
                && Memory() == PutPrefix(old(Memory()), addr, data, RoomFor(old(Memory()), addr))
    {
      hide Consistent, Plain, Put, PageOf, OffsetOf;
      AddressParts(addr);
      var remaining, page, offset := data, PageOf(addr), OffsetOf(addr);
      ghost var done, m0 := 0, Memory();
      while remaining != []
        invariant Valid()
        invariant 0 <= offset < PAGE && page <= |m0.flags| + PageOf(addr)
        invariant done <= |data| && remaining == data[done..] && (done > 0 ==> InRange(m0, addr, done))
        invariant remaining != [] ==> page * PAGE + offset == addr + done
        invariant Memory() == PutPrefix(m0, addr, data, done)
        decreases |remaining|
      {
        var bytes := if PAGE - offset < |remaining| then PAGE - offset else |remaining|;
        var index := StoreInPage(page, offset, remaining[..bytes]);
        if index.Err? {
          StoreStops(m0, addr, done, page, offset);
          return Some(index.error);
        }
        assert remaining[..bytes] == data[done..done + bytes];
        PutMore(m0, addr, data, done, bytes);
        done := done + bytes;
        remaining := remaining[bytes..];
        page := page + 1;
        offset := 0;
      }
      assert data[..|data|] == data;
      return None;
    }

    /** `store_byte` is memset. */
    method StoreByte(addr: U64, size: U64, value: Byte) returns (error: Option<Error>)
      requires Valid()
      modifies this
      ensures Valid()
      ensures size == 0 ==> error.None? && Memory() == old(Memory())
      ensures size > 0 && InRange(old(Memory()), addr, size) ==>
                error.None? && Memory() == Put(old(Memory()), addr, Repeat(size, value))
      ensures size > 0 && !InRange(old(Memory()), addr, size) ==>
                && error == Some(OutOfBound(FirstMissing(old(Memory()), addr)))
                && Memory() == PutPrefix(old(Memory()), addr, Repeat(size, value), RoomFor(old(Memory()), addr))
    {
      hide Consistent, Plain, Put, PageOf, OffsetOf, Repeat;
      AddressParts(addr);
      var remaining, page, offset := size, PageOf(addr), OffsetOf(addr);
      ghost var data, m0 := Repeat(size, value), Memory();
      while remaining > 0
        invariant Valid()
        invariant 0 <= offset < PAGE && page <= |m0.flags| + PageOf(addr)
        invariant 0 <= remaining <= size && (remaining < size ==> InRange(m0, addr, size - remaining))
        invariant remaining > 0 ==> page * PAGE + offset == addr + size - remaining
        invariant Memory() == PutPrefix(m0, addr, data, size - remaining)
      {
        var bytes := if PAGE - offset < remaining then PAGE - offset else remaining;
        var index := StoreInPage(page, offset, Repeat(bytes, value));
        if index.Err? {
          StoreStops(m0, addr, size - remaining, page, offset);
          return Some(index.error);
        }
        RepeatPart(size, value, size - remaining, bytes);
        PutMore(m0, addr, data, size - remaining, bytes);
        remaining := remaining - bytes;
        page := page + 1;
        offset := 0;
      }
      assert data[..|data|] == data;
      return None;
    }

    method LoadBytes(addr: U64, size: U64) returns (r: Result<seq<Byte>>)
      requires Valid()
      modifies this
      ensures Valid() && Memory() == old(Memory())
      ensures r == PagedMemory.LoadBytes(Memory(), addr, size)
    {
      hide Consistent, Plain, Slice, PageOf, OffsetOf;
      if size == 0 {
        return Ok([]);
      }
      var error := CheckNoOverflow(addr, size, |table.indices| * PAGE);
      if error.Some? {
        return Err(error.value);
      }
      AddressParts(addr);
      var page, offset, needed := PageOf(addr), OffsetOf(addr), size;
      ghost var m0 := Memory();
      SliceOfNothing(m0.bytes, addr);
      var out := [];
      while needed != 0
        invariant Valid() && Memory() == m0
        invariant 0 <= offset < PAGE && 0 <= needed <= size
        invariant needed > 0 ==> page * PAGE + offset == addr + size - needed
        invariant out == Slice(m0.bytes, addr, size - needed)
        decreases needed
      {
        var bytes := if PAGE - offset < needed then PAGE - offset else needed;
        var piece := ReadInPage(page, offset, bytes, addr + size - needed);
        SliceSum(m0.bytes, addr, size - needed, bytes);
        out := out + piece.value;
        needed := needed - bytes;
        page := page + 1;
        offset := 0;
      }
      return Ok(out);
    }

    method FetchFlag(page: U64) returns (r: Result<Flags>)
      requires Valid()
      ensures r == PagedMemory.FetchFlag(Memory(), page)
    {
      return if page < |flags| then Ok(flags[page]) else Err(OutOfBound(Wrap(page * PAGE)));
    }

    method SetFlag(page: U64, f: Flags) returns (error: Option<Error>)
      requires Valid()
      modifies this`flags
      ensures Valid() && Outcome(Memory(), error) == PagedMemory.SetFlag(old(Memory()), page, f)
    {
      if page >= |flags| {
        return Some(OutOfBound(Wrap(page * PAGE)));
      }
      flags := flags[page := flags[page].Or(f)];
      return None;
    }

    method ClearFlag(page: U64, f: Flags) returns (error: Option<Error>)
      requires Valid()
      modifies this`flags
      ensures Valid() && Outcome(Memory(), error) == PagedMemory.ClearFlag(old(Memory()), page, f)
    {
      if page >= |flags| {
        return Some(OutOfBound(Wrap(page * PAGE)));
      }
      flags := flags[page := flags[page].AndNot(f)];
      return None;
    }
  }
}
