/**
 Write-xor-execute protection over either inner memory (src/memory/wxorx.rs), and
 the theorem that sparse and flat memory cannot be told apart through it.
 */
module WXorX {
  import opened Words
  import opened PagedMemory
  import opened SparseMemories
  import opened FlatMemories

  /** The memory type the protection is instantiated with. */
  datatype Inner = Sparse(sparse: SparseMemory) | Flat(flat: FlatMemory) {

    ghost function Repr(): set<object> {
      match this case Sparse(s) => {s} case Flat(f) => {f, f.data, f.flags}
    }

    ghost predicate Valid()
      reads Repr()
    {
      match this case Sparse(s) => s.Valid() case Flat(f) => f.Valid()
    }

    ghost function Memory(): Memory
      requires Valid()
      reads Repr()
    {
      match this case Sparse(s) => s.Memory() case Flat(f) => f.Memory()
    }

    method StoreBytes(addr: U64, data: seq<Byte>) returns (error: Option<Error>)
      requires Valid() && |data| < TWO63
      modifies Repr()
      ensures Valid()
      ensures data == [] ==> error.None? && Memory() == old(Memory())
      ensures data != [] && InRange(old(Memory()), addr, |data|) ==> error.None? && Memory() == Put(old(Memory()), addr, data)
    {
      match this
      case Sparse(s) => error := s.StoreBytes(addr, data);
      case Flat(f) => error := f.StoreBytes(addr, data);
    }

    method StoreByte(addr: U64, size: U64, value: Byte) returns (error: Option<Error>)
      requires Valid()
      modifies Repr()
      ensures Valid()
      ensures size == 0 ==> error.None? && Memory() == old(Memory())
      ensures size > 0 && InRange(old(Memory()), addr, size) ==>
                error.None? && Memory() == Put(old(Memory()), addr, Repeat(size, value))
    {
      match this
      case Sparse(s) => error := s.StoreByte(addr, size, value);
      case Flat(f) => error := f.StoreByte(addr, size, value);
    }

    method LoadBytes(addr: U64, size: U64) returns (r: Result<seq<Byte>>)
      requires Valid()
      modifies Repr()
      ensures Valid() && Memory() == old(Memory())
      ensures r == PagedMemory.LoadBytes(Memory(), addr, size)
    {
      match this
      case Sparse(s) => r := s.LoadBytes(addr, size);
      case Flat(f) => r := f.LoadBytes(addr, size);
    }

    method Load(addr: U64, bytes: nat) returns (r: Result<nat>)
      requires Valid() && 0 < bytes <= 8
      modifies Repr()
      ensures Valid() && Memory() == old(Memory())
      ensures InRange(Memory(), addr, bytes) ==> r == PagedMemory.Load(Memory(), addr, bytes)
      ensures !InRange(Memory(), addr, bytes) ==> r.Err? && r.error.OutOfBound?
    {
      match this
      case Sparse(s) => r := s.Load(addr, bytes);
      case Flat(f) => r := f.Load(addr, bytes);
    }

    method FetchFlag(page: U64) returns (r: Result<Flags>)
      requires Valid()
      ensures Valid() && Memory() == old(Memory())
      ensures r == PagedMemory.FetchFlag(Memory(), page)
    {
      match this
      case Sparse(s) => r := s.FetchFlag(page);
      case Flat(f) => r := f.FetchFlag(page);
    }

    method SetFlag(page: U64, f: Flags) returns (error: Option<Error>)
      requires Valid()
      modifies Repr()
      ensures Valid() && Outcome(Memory(), error) == PagedMemory.SetFlag(old(Memory()), page, f)
    {
      match this
      case Sparse(s) => error := s.SetFlag(page, f);
      case Flat(m) => error := m.SetFlag(page, f);
    }

    method ClearFlag(page: U64, f: Flags) returns (error: Option<Error>)
      requires Valid()
      modifies Repr()
      ensures Valid() && Outcome(Memory(), error) == PagedMemory.ClearFlag(old(Memory()), page, f)
    {
      match this
      case Sparse(s) => error := s.ClearFlag(page, f);
      case Flat(m) => error := m.ClearFlag(page, f);
    }

    method Lr() returns (value: U64)
      requires Valid()
      ensures Valid() && Memory() == old(Memory()) && value == Memory().lr
    {
      match this
      case Sparse(s) => value := s.lr;
      case Flat(m) => value := m.lr;
    }

    method SetLr(value: U64)
      requires Valid()
      modifies Repr()
      ensures Valid() && Memory() == old(Memory()).(lr := value)
    {
      match this
      case Sparse(s) => s.lr := value;
      case Flat(m) => m.lr := value;
    }

    /** `fill_page_data`: zeros before the source, the source, zeros after it. */
    method FillPageData(addr: U64, size: U64, source: seq<Byte>, offset: U64) returns (error: Option<Error>)
      requires Valid() && |source| < TWO63 && InRange(Memory(), addr, size)
      modifies Repr()
      ensures Valid() && error.None?
      ensures Memory() == if size == 0 then old(Memory()) else Put(old(Memory()), addr, Image(size, source, offset))
    {
      hide Put, Image, PutPrefix, PieceAt, Repeat, Memory, Valid;
      ghost var m0, image := Memory(), Image(size, source, offset);
      ImagePieces(size, source, offset);
      PutWhole(m0, addr, image);
      var written := 0;
      if offset > 0 {
        var realSize := if size < offset then size else offset;
        if realSize > 0 { PutPiece(m0, Memory(), addr, image, 0, Repeat(realSize, 0)); }
        error := StoreByte(addr, realSize, 0);
        written := written + realSize;
      }
      var realSize := if size - written < |source| then size - written else |source|;
      if realSize > 0 {
        PutPiece(m0, Memory(), addr, image, written, source[..realSize]);
        error := StoreBytes(addr + written, source[..realSize]);
        written := written + realSize;
      }
      if written < size {
        PutPiece(m0, Memory(), addr, image, written, Repeat(size - written, 0));
        error := StoreByte(addr + written, size - written, 0);
      }
      return None;
    }
  }

  class WXorXMemory {
    const inner: Inner

    ghost predicate Valid()
      reads inner.Repr()
    {
      inner.Valid()
    }

    ghost function Memory(): Memory
      requires Valid()
      reads inner.Repr()
    {
      inner.Memory()
    }

    constructor (inner: Inner)
      requires inner.Valid()
      ensures this.inner == inner
    {
      this.inner := inner;
    }

    method MemorySize() returns (n: nat)
      requires Valid()
      ensures n == |Memory().bytes|
    {
      match inner
      case Sparse(s) => n := |s.table.indices| * PAGE;
      case Flat(f) => n := f.data.Length;
    }

    /** `check_permission`: the first page of the range with the wrong bit fails. */
    method CheckPermission(first: nat, last: nat, want: Flags) returns (error: Option<Error>)
      requires Valid() && last < |Memory().flags|
      ensures error == var b := Blocked(Memory().flags, first, last, want);
                       if b.Some? then Some(WriteOnExecutable(b.value)) else None
    {
      hide inner.Memory, inner.Valid;
      ghost var flags := Memory().flags;
      var page := first;
      while page <= last
        invariant first <= page && Valid() && Memory().flags == flags
        invariant Blocked(flags, first, last, want) == Blocked(flags, page, last, want)
      {
        var flag := inner.FetchFlag(page);
        if flag.value.executable != want.executable {
          return Some(WriteOnExecutable(page));
        }
        page := page + 1;
      }
      return None;
    }

    /** The checks every store makes before the inner memory is touched. */
    method CheckStore(addr: U64, size: U64) returns (error: Option<Error>)
      requires Valid() && size > 0
      ensures error == StoreError(Memory(), addr, size)
      ensures error.None? ==> InRange(Memory(), addr, size)
    {
      var memorySize := MemorySize();
      error := CheckNoOverflow(addr, size, memorySize);
      if error.None? {
        error := CheckPermission(PageOf(addr), LastPage(addr, size), WRITABLE);
      }
    }

    method StoreBytes(addr: U64, data: seq<Byte>) returns (error: Option<Error>)
      requires Valid() && |data| < TWO63
      modifies inner.Repr()
      ensures Valid() && Outcome(Memory(), error) == PagedMemory.StoreBytes(old(Memory()), addr, data)
    {
      hide Put, StoreError;
      if data == [] {
        return None;
      }
      error := CheckStore(addr, |data|);
      if error.None? {
        error := inner.StoreBytes(addr, data);
      }
    }

    method StoreByte(addr: U64, size: U64, value: Byte) returns (error: Option<Error>)
      requires Valid()
      modifies inner.Repr()
      ensures Valid() && Outcome(Memory(), error) == PagedMemory.StoreByte(old(Memory()), addr, size, value)
    {
      hide Put, StoreError;
      if size == 0 {
        return None;
      }
      error := CheckStore(addr, size);
      if error.None? {
        error := inner.StoreByte(addr, size, value);
      }
    }

    method Load(addr: U64, bytes: nat) returns (r: Result<nat>)
      requires Valid() && 0 < bytes <= 8
      modifies inner.Repr()
      ensures Valid() && Memory() == old(Memory())
      ensures match PagedMemory.Load(Memory(), addr, bytes)
              case Ok(v) => r == Ok(v)
              case Err(e) => e.OutOfBound? && r.Err? && r.error.OutOfBound?
    {
      hide inner.Memory, inner.Valid;
      r := inner.Load(addr, bytes);
    }

    method Lr() returns (value: U64)
      requires Valid()
      ensures Valid() && Memory() == old(Memory()) && value == Memory().lr
    {
      value := inner.Lr();
    }

    method SetLr(value: U64)
      requires Valid()
      modifies inner.Repr()
      ensures Valid() && Memory() == old(Memory()).(lr := value)
    {
      inner.SetLr(value);
    }

    method ExecuteLoad(addr: U64, bytes: nat) returns (r: Result<nat>)
      requires Valid() && 0 < bytes <= 8
      modifies inner.Repr()
      ensures Valid() && Memory() == old(Memory())
      ensures r == PagedMemory.ExecuteLoad(Memory(), addr, bytes)
    {
      var memorySize := MemorySize();
      var error := CheckNoOverflow(addr, bytes, memorySize);
      if error.Some? {
        return Err(error.value);
      }
      error := CheckPermission(PageOf(addr), LastPage(addr, bytes), EXECUTABLE);
      if error.Some? {
        return Err(error.value);
      }
      r := inner.Load(addr, bytes);
    }

    /** The page loop of `init_pages`: flags are set as it goes, a frozen page stops it. */
    method MarkPages(first: nat, last: int, f: Flags) returns (error: Option<Error>)
      requires Valid() && -1 <= last < |Memory().flags|
      modifies inner.Repr()
      ensures Valid()
      ensures var frozen := FirstFreezed(old(Memory()).flags, first, last);
              && error == (if frozen.Some? then Some(WriteOnFreezed(frozen.value)) else None)
              && Memory() == old(Memory()).(flags := Mark(old(Memory()).flags, first,
                                                          if frozen.Some? then frozen.value - 1 else last, f))
    {
      hide Mark, inner.Memory, inner.Valid;
      ghost var m0 := Memory();
      var page := first;
      MarkNone(m0.flags, first, first - 1, f);
      while page <= last
        invariant first <= page <= last + 1 || page == first
        invariant Valid() && Memory() == m0.(flags := Mark(m0.flags, first, page - 1, f))
        invariant FirstFreezed(m0.flags, first, last) == FirstFreezed(m0.flags, page, last)
      {
        MarkOne(m0.flags, first, page, f);
        var flag := inner.FetchFlag(page);
        if flag.value.freezed {
          return Some(WriteOnFreezed(page));
        }
        var e := inner.SetFlag(page, f);
        page := page + 1;
      }
      if last < first { MarkNone(m0.flags, first, last, f); }
      return None;
    }

    method InitPages(addr: U64, size: U64, f: Flags, source: seq<Byte>, offset: U64) returns (error: Option<Error>)
      requires Valid() && |source| < TWO63
      modifies inner.Repr()
      ensures Valid() && Outcome(Memory(), error) == PagedMemory.InitPages(old(Memory()), addr, size, f, source, offset)
    {
      hide Put, Image, Mark, inner.Memory, inner.Valid;
      var memorySize := MemorySize();
      if addr % PAGE != 0 {
        return Some(UnalignedPage(addr));
      }
      if size % PAGE != 0 {
        return Some(UnalignedPage(Wrap(addr + size)));
      }
      if addr > memorySize {
        return Some(OutOfBound(addr));
      }
      if size > memorySize || addr + size > memorySize {
        return Some(OutOfBound(Wrap(addr + size)));
      }
      if offset > size {
        return Some(OutOfExternalData(offset));
      }
      error := MarkPages(PageOf(addr), PageOf(addr + size) - 1, f);
      if error.None? {
        error := inner.FillPageData(addr, size, source, offset);
      }
    }

    /** One operation of the `Memory` interface. */
    method Perform(op: Op) returns (reply: Reply)
      requires Valid() && Feasible(op)
      modifies inner.Repr()
      ensures Valid() && Memory() == Apply(old(Memory()), op).0
      ensures SameReply(op, reply, Apply(old(Memory()), op).1)
    {
      hide PagedMemory.InitPages, PagedMemory.StoreBytes, PagedMemory.StoreByte, PagedMemory.ExecuteLoad, PagedMemory.LoadBytes;
      var error: Option<Error> := None;
      match op {
        case OpInit(a, s, f, src, o) => error := InitPages(a, s, f, src, o);
        case OpSetFlag(p, f) => error := inner.SetFlag(p, f);
        case OpClearFlag(p, f) => error := inner.ClearFlag(p, f);
        case OpStoreBytes(a, d) => error := StoreBytes(a, d);
        case OpStoreByte(a, s, v) => error := StoreByte(a, s, v);
        case OpStore(a, w, v) => error := StoreBytes(a, ToLittleEndian(v, w.Bytes()));
        case OpSetLr(v) => inner.SetLr(v);
        case _ =>
          reply := Query(op);
          return;
      }
      return if error.Some? then Failed(error.value) else Done;
    }

    /** The operations that only read. */
    method Query(op: Op) returns (reply: Reply)
      requires Valid()
      requires op.OpFetchFlag? || op.OpLoad? || op.OpLoadBytes? || op.OpExecuteLoad? || op.OpLr?
      modifies inner.Repr()
      ensures Valid() && Memory() == old(Memory())
      ensures SameReply(op, reply, Apply(Memory(), op).1)
    {
      hide PagedMemory.ExecuteLoad, PagedMemory.LoadBytes, PagedMemory.Load, PagedMemory.FetchFlag, inner.Memory, inner.Valid;
      match op {
        case OpFetchFlag(p) =>
          var r := inner.FetchFlag(p);
          return match r case Ok(f) => Flag(f) case Err(e) => Failed(e);
        case OpLoad(a, w) =>
          if !InRange(Memory(), a, w.Bytes()) { LoadOutOfRange(Memory(), a, w.Bytes()); }
          var r := inner.Load(a, w.Bytes());
          return match r case Ok(v) => Value(v) case Err(e) => Failed(e);
        case OpLoadBytes(a, s) =>
          var r := inner.LoadBytes(a, s);
          return match r case Ok(bs) => Bytes(bs) case Err(e) => Failed(e);
        case OpExecuteLoad(a, w) =>
          var r := ExecuteLoad(a, w.Bytes());
          return match r case Ok(v) => Value(v) case Err(e) => Failed(e);
        case OpLr =>
          var lr := inner.Lr();
          return Value(lr);
      }
    }

    // ---------------------------------------------------------------- host code

    /** All of the memory, read through the interface. */
    method Contents() returns (m: Memory)
      requires Valid()
      modifies inner.Repr()
      ensures Valid() && Memory() == old(Memory()) && m == Memory()
    {
      hide inner.Memory, inner.Valid;
      ghost var m0 := Memory();
      var size := MemorySize();
      var bytes := inner.LoadBytes(0, size);
      assert Slice(m0.bytes, 0, size) == m0.bytes;
      var flags := [];
      for page := 0 to size / PAGE
        invariant Valid() && Memory() == m0 && flags == m0.flags[..page]
      {
        var flag := inner.FetchFlag(page);
        flags := flags + [flag.value];
      }
      assert m0.flags[..|m0.flags|] == m0.flags;
      var lr := inner.Lr();
      m := Mem(bytes.value, flags, lr);
    }

    /** Makes the memory what host code made of it, through the interface. */
    method Overwrite(m: Memory)
      requires Valid() && |m.flags| == |Memory().flags|
      modifies inner.Repr()
      ensures Valid() && Memory() == m
    {
      hide inner.Memory, inner.Valid, Mark;
      var error := inner.StoreBytes(0, m.bytes);
      ghost var flags0 := Memory().flags;
      assert Memory().bytes == m.bytes;
      for page := 0 to |m.flags|
        invariant Valid() && Memory().bytes == m.bytes && |Memory().flags| == |m.flags|
        invariant Memory().flags[..page] == m.flags[..page]
      {
        error := inner.ClearFlag(page, Flags(true, true, true));
        error := inner.SetFlag(page, m.flags[page]);
        assert Memory().flags[page] == m.flags[page];
      }
      inner.SetLr(m.lr);
    }

    static lemma {:induction false} LoadOutOfRange(m: Memory, addr: U64, n: nat)
      requires 0 < n < TWO64 && !InRange(m, addr, n)
      ensures PagedMemory.Load(m, addr, n).Err? && PagedMemory.Load(m, addr, n).error.OutOfBound?
    {
    }

    method PerformAll(ops: seq<Op>) returns (replies: seq<Reply>)
      requires Valid() && forall op :: op in ops ==> Feasible(op)
      modifies inner.Repr()
      ensures Valid() && Memory() == Run(old(Memory()), ops).0
      ensures SameReplies(ops, replies, Run(old(Memory()), ops).1)
    {
      hide Apply, SameReply;
      ghost var m0 := Memory();
      replies := [];
      for i := 0 to |ops|
        invariant Valid() && Memory() == Run(m0, ops[..i]).0
        invariant SameReplies(ops[..i], replies, Run(m0, ops[..i]).1)
      {
        assert ops[..i + 1][..i] == ops[..i];
        var reply := Perform(ops[i]);
        replies := replies + [reply];
      }
      assert ops[..|ops|] == ops;
    }
  }

  /** Equal replies, except that a failed load may name the page instead of the byte. */
  predicate SameReply(op: Op, r: Reply, s: Reply) {
    r == s || (op.OpLoad? && r.Failed? && s.Failed? && r.error.OutOfBound? && s.error.OutOfBound?)
  }

  predicate SameReplies(ops: seq<Op>, r: seq<Reply>, s: seq<Reply>) {
    |r| == |s| == |ops| && forall i :: 0 <= i < |ops| ==> SameReply(ops[i], r[i], s[i])
  }

  /** No sequence of operations tells sparse memory from flat memory under W^X. */
  method Indistinguishable(pageCount: nat, ops: seq<Op>) returns (sparse: seq<Reply>, flat: seq<Reply>)
    requires pageCount <= INVALID_PAGE_INDEX && forall op :: op in ops ==> Feasible(op)
    ensures SameReplies(ops, sparse, Run(Fresh(pageCount), ops).1)
    ensures SameReplies(ops, flat, Run(Fresh(pageCount), ops).1)
    ensures SameReplies(ops, sparse, flat)
  {
    hide Run, SameReplies;
    var s := new SparseMemory(pageCount);
    var f := new FlatMemory(pageCount);
    var overSparse := new WXorXMemory(Sparse(s));
    var overFlat := new WXorXMemory(Flat(f));
    sparse := overSparse.PerformAll(ops);
    flat := overFlat.PerformAll(ops);
    AlikeReplies(ops, sparse, flat, Run(Fresh(pageCount), ops).1);
  }

  lemma {:induction false} AlikeReplies(ops: seq<Op>, r: seq<Reply>, s: seq<Reply>, t: seq<Reply>)
    requires SameReplies(ops, r, t) && SameReplies(ops, s, t)
    ensures SameReplies(ops, r, s)
  {
  }
}
