/**
 The memory the rest of the machine sees: a plain byte array with one flag byte
 per page and the write-xor-execute checks (src/memory/mod.rs, src/memory/wxorx.rs).
 It is a value; the classes that store it sparsely, flat or in lazily zeroed
 frames are proved against the functions here.
 */
module PagedMemory {
  import opened Words

  const PAGE: int := 4096

  /** The flag byte of a page, as the three bits the VM gives a meaning to. */
  datatype Flags = Flags(freezed: bool, executable: bool, dirty: bool) {
    function Or(f: Flags): Flags {
      Flags(freezed || f.freezed, executable || f.executable, dirty || f.dirty)
    }

    function AndNot(f: Flags): Flags {
      Flags(freezed && !f.freezed, executable && !f.executable, dirty && !f.dirty)
    }
  }

  const NO_FLAGS := Flags(false, false, false)
  const FREEZED := Flags(true, false, false)
  const EXECUTABLE := Flags(false, true, false)
  const WRITABLE := Flags(false, false, false)
  const DIRTY := Flags(false, false, true)

  datatype Error =
    | OutOfBound(addr: U64)
    | OutOfExternalData(offset: U64)
    | UnalignedPage(addr: U64)
    | WriteOnExecutable(page: nat)
    | WriteOnFreezed(page: nat)
    | InvalidInstruction(pc: U64, bits: U32)
    | InvalidEcall(code: U64)
    | CyclesOverflow
    | CyclesExceeded
    | InvalidVersion
    | SnapshotDataLoad
    | OutOfStack
    | External(id: nat)

  datatype Result<+T> = Ok(value: T) | Err(error: Error)

  datatype RawMemory = Mem(bytes: seq<Byte>, flags: seq<Flags>, lr: U64) {
    predicate Valid() {
      |bytes| == |flags| * PAGE && |bytes| < TWO63
    }
  }

  type Memory = m: RawMemory | m.Valid() witness Mem([], [], U64_MAX)

  /** A memory together with the error the operation on it ended in, if any. */
  datatype Outcome = Outcome(mem: Memory, error: Option<Error>)

  function Zeros(n: nat): seq<Byte> { seq(n, i => 0) }

  function Fresh(pages: nat): Memory
    requires pages * PAGE < TWO63
  {
    Mem(Zeros(pages * PAGE), seq(pages, i => NO_FLAGS), U64_MAX)
  }

  // ---------------------------------------------------------------- ranges and pages

  function CheckNoOverflow(addr: U64, size: U64, memorySize: nat): Option<Error>
  {
    if addr >= memorySize then Some(OutOfBound(addr))
    else if addr + size >= TWO64 || Wrap(addr + size) > memorySize then Some(OutOfBound(Wrap(addr + size)))
    else None
  }

  predicate InRange(m: Memory, addr: int, size: int) {
    0 <= addr && 0 <= size && addr + size <= |m.bytes|
  }

  /** The range check accepts exactly the ranges that start and stay inside the memory. */
  lemma {:induction false} CheckNoOverflowExact(m: Memory, addr: U64, size: U64)
    ensures CheckNoOverflow(addr, size, |m.bytes|).None? <==> addr < |m.bytes| && InRange(m, addr, size)
  {
  }

  function PageOf(addr: nat): nat { addr / PAGE }

  function OffsetOf(addr: nat): nat { addr % PAGE }

  lemma {:induction false} AddressParts(addr: nat)
    ensures addr == PageOf(addr) * PAGE + OffsetOf(addr) && OffsetOf(addr) < PAGE
  {
  }

  lemma {:induction false} PartsOfAddress(page: nat, offset: nat)
    requires offset < PAGE
    ensures PageOf(page * PAGE + offset) == page && OffsetOf(page * PAGE + offset) == offset
  {
  }

  function LastPage(addr: nat, size: nat): nat
    requires size > 0
  {
    PageOf(addr + size - 1)
  }

  /** The page holds a byte of the range. */
  predicate Touches(page: nat, addr: nat, size: nat) { addr < page * PAGE + PAGE && page * PAGE < addr + size && size > 0 }

  lemma {:induction false} TouchedPages(page: nat, addr: nat, size: nat)
    requires size > 0
    ensures Touches(page, addr, size) <==> PageOf(addr) <= page <= LastPage(addr, size)
  {
    AddressParts(addr);
    AddressParts(addr + size - 1);
  }

  lemma {:induction false} NothingTouched(page: nat, addr: nat)
    ensures !Touches(page, addr, 0)
  {
  }

  /** The first page in `first..=last` whose write-xor-execute bit is not the wanted one. */
  function Blocked(flags: seq<Flags>, first: nat, last: int, want: Flags): (r: Option<nat>)
    requires last < |flags|
    ensures r.None? <==> forall p: nat :: first <= p <= last ==> flags[p].executable == want.executable
    ensures r.Some? ==> first <= r.value <= last && flags[r.value].executable != want.executable
                        && forall p: nat :: first <= p < r.value ==> flags[p].executable == want.executable
    decreases last - first
  {
    if first > last then None
    else if flags[first].executable != want.executable then Some(first)
    else Blocked(flags, first + 1, last, want)
  }

  function FirstFreezed(flags: seq<Flags>, first: nat, last: int): (r: Option<nat>)
    requires last < |flags|
    ensures r.None? <==> forall p: nat :: first <= p <= last ==> !flags[p].freezed
    ensures r.Some? ==> first <= r.value <= last && flags[r.value].freezed
                        && forall p: nat :: first <= p < r.value ==> !flags[p].freezed
    decreases last - first
  {
    if first > last then None
    else if flags[first].freezed then Some(first)
    else FirstFreezed(flags, first + 1, last)
  }

  /** Sets `f` on every page of `first..=last`. */
  function Mark(flags: seq<Flags>, first: nat, last: int, f: Flags): (r: seq<Flags>)
    ensures |r| == |flags|
  {
    seq(|flags|, i requires 0 <= i < |flags| => if first <= i <= last then flags[i].Or(f) else flags[i])
  }

  lemma {:induction false} MarkNone(flags: seq<Flags>, first: nat, last: int, f: Flags)
    requires last < first
    ensures Mark(flags, first, last, f) == flags
  {
  }

  lemma {:induction false} MarkOne(flags: seq<Flags>, first: nat, page: nat, f: Flags)
    requires first <= page < |flags|
    ensures Mark(flags, first, page - 1, f)[page] == flags[page]
    ensures Mark(flags, first, page, f) == Mark(flags, first, page - 1, f)[page := flags[page].Or(f)]
  {
  }

  function Write(bytes: seq<Byte>, addr: nat, data: seq<Byte>): (r: seq<Byte>)
    requires addr + |data| <= |bytes|
    ensures |r| == |bytes|
    ensures forall a :: 0 <= a < |bytes| ==> r[a] == if addr <= a < addr + |data| then data[a - addr] else bytes[a]
  {
    bytes[..addr] + data + bytes[addr + |data|..]
  }

  predicate SameOutside(before: seq<Byte>, after: seq<Byte>, lo: nat, hi: nat) {
    |after| == |before| && forall a :: 0 <= a < |before| && (a < lo || a >= hi) ==> after[a] == before[a]
  }

  function Slice(bytes: seq<Byte>, at: nat, size: nat): seq<Byte>
    requires at + size <= |bytes|
  {
    bytes[at..at + size]
  }

  lemma {:induction false} SliceSum(bytes: seq<Byte>, at: nat, m: nat, n: nat)
    requires at + m + n <= |bytes|
    ensures Slice(bytes, at, m) + Slice(bytes, at + m, n) == Slice(bytes, at, m + n)
  {
  }

  lemma {:induction false} SliceOfNothing(bytes: seq<Byte>, at: nat)
    requires at <= |bytes|
    ensures Slice(bytes, at, 0) == []
  {
  }

  // ---------------------------------------------------------------- little endian

  function LittleEndian(bs: seq<Byte>): nat
  {
    if bs == [] then 0 else bs[0] + 256 * LittleEndian(bs[1..])
  }

  function ToLittleEndian(v: nat, n: nat): (bs: seq<Byte>)
    ensures |bs| == n
  {
    if n == 0 then [] else [v % 256] + ToLittleEndian(v / 256, n - 1)
  }

  function Pow256(n: nat): nat { if n == 0 then 1 else 256 * Pow256(n - 1) }

  lemma {:induction false} LittleEndianBound(bs: seq<Byte>)
    ensures LittleEndian(bs) < Pow256(|bs|)
  {
    if bs != [] { LittleEndianBound(bs[1..]); }
  }

  lemma {:induction false} WeightStep(head: nat, rest: nat, weight: nat, b: nat)
    ensures head + 256 * (rest + weight * b) == (head + 256 * rest) + (256 * weight) * b
  {
  }

  /** Appending a byte adds it at the next weight. */
  lemma {:induction false} LittleEndianSnoc(bs: seq<Byte>, b: Byte)
    ensures LittleEndian(bs + [b]) == LittleEndian(bs) + Pow256(|bs|) * b
  {
    if bs == [] {
      assert LittleEndian([b]) == b + 256 * LittleEndian([]) by { assert [b][1..] == []; }
      assert bs + [b] == [b];
    } else {
      var rest := bs[1..];
      assert (bs + [b])[1..] == rest + [b] && (bs + [b])[0] == bs[0];
      LittleEndianSnoc(rest, b);
      WeightStep(bs[0], LittleEndian(rest), Pow256(|rest|), b);
    }
  }

  lemma {:induction false} LittleEndianRoundTrip(bs: seq<Byte>)
    ensures ToLittleEndian(LittleEndian(bs), |bs|) == bs
  {
    if bs != [] {
      LittleEndianRoundTrip(bs[1..]);
      assert LittleEndian(bs) % 256 == bs[0] && LittleEndian(bs) / 256 == LittleEndian(bs[1..]);
    }
  }

  lemma {:induction false} ToLittleEndianRoundTrip(v: nat, n: nat)
    requires v < Pow256(n)
    ensures LittleEndian(ToLittleEndian(v, n)) == v
  {
    if n > 0 { ToLittleEndianRoundTrip(v / 256, n - 1); }
  }

  // ---------------------------------------------------------------- operations

  function FetchFlag(m: Memory, page: U64): Result<Flags>
  {
    if page < |m.flags| then Ok(m.flags[page]) else Err(OutOfBound(Wrap(page * PAGE)))
  }

  function SetFlag(m: Memory, page: U64, f: Flags): Outcome
  {
    if page < |m.flags| then Outcome(m.(flags := m.flags[page := m.flags[page].Or(f)]), None)
    else Outcome(m, Some(OutOfBound(Wrap(page * PAGE))))
  }

  function ClearFlag(m: Memory, page: U64, f: Flags): Outcome
  {
    if page < |m.flags| then Outcome(m.(flags := m.flags[page := m.flags[page].AndNot(f)]), None)
    else Outcome(m, Some(OutOfBound(Wrap(page * PAGE))))
  }

  /** Bytes stored without any check: what the unprotected memories below W^X do on a range that fits. */
  function Put(m: Memory, addr: nat, data: seq<Byte>): (r: Memory)
    requires data != [] && InRange(m, addr, |data|)
    ensures |r.flags| == |m.flags| && r.lr == m.lr
  {
    m.(bytes := Write(m.bytes, addr, data), flags := Mark(m.flags, PageOf(addr), LastPage(addr, |data|), DIRTY))
  }

  function StoreError(m: Memory, addr: U64, size: U64): Option<Error>
    requires size > 0
  {
    var range := CheckNoOverflow(addr, size, |m.bytes|);
    if range.Some? then range
    else
      var blocked := Blocked(m.flags, PageOf(addr), LastPage(addr, size), WRITABLE);
      if blocked.Some? then Some(WriteOnExecutable(blocked.value)) else None
  }

  /** The bytes of the range exist, and none of its pages is executable. */
  predicate Writable(m: Memory, addr: nat, n: nat) {
    n == 0
    || (InRange(m, addr, n) && forall p :: PageOf(addr) <= p <= LastPage(addr, n) && p < |m.flags| ==> !m.flags[p].executable)
  }

  lemma {:induction false} StoreErrorExact(m: Memory, addr: U64, n: nat)
    requires 0 < n < TWO64
    ensures StoreError(m, addr, n).None? <==> Writable(m, addr, n)
  {
    hide Blocked;
    CheckNoOverflowExact(m, addr, n);
    if InRange(m, addr, n) { AddressParts(addr + n - 1); }
  }

  function StoreBytes(m: Memory, addr: U64, data: seq<Byte>): Outcome
    requires |data| < TWO64
  {
    if data == [] then Outcome(m, None)
    else
      var e := StoreError(m, addr, |data|);
      if e.Some? then Outcome(m, e) else Outcome(Put(m, addr, data), None)
  }

  /** `store8` to `store64`: the low `n` bytes of a register, little endian. */
  function Store(m: Memory, addr: U64, n: nat, value: U64): Outcome
    requires n < TWO64
  {
    StoreBytes(m, addr, ToLittleEndian(value, n))
  }

  function StoreByte(m: Memory, addr: U64, size: U64, value: Byte): Outcome
  {
    if size == 0 then Outcome(m, None)
    else
      var e := StoreError(m, addr, size);
      if e.Some? then Outcome(m, e) else Outcome(Put(m, addr, Repeat(size, value)), None)
  }

  function LoadBytes(m: Memory, addr: U64, size: U64): Result<seq<Byte>>
  {
    if size == 0 then Ok([])
    else
      var e := CheckNoOverflow(addr, size, |m.bytes|);
      if e.Some? then Err(e.value) else Ok(Slice(m.bytes, addr, size))
  }

  function Load(m: Memory, addr: U64, n: nat): Result<nat>
    requires 0 < n < TWO64
  {
    var e := CheckNoOverflow(addr, n, |m.bytes|);
    if e.Some? then Err(e.value) else Ok(LittleEndian(Slice(m.bytes, addr, n)))
  }

  lemma {:induction false} LoadsBack(m: Memory, addr: U64, value: U64)
    requires InRange(m, addr, 8) && Slice(m.bytes, addr, 8) == ToLittleEndian(value, 8)
    ensures Load(m, addr, 8) == Ok(value)
  {
    hide ToLittleEndian, LittleEndian;
    CheckNoOverflowExact(m, addr, 8);
    assert Pow256(8) == TWO64;
    ToLittleEndianRoundTrip(value, 8);
  }

  function ExecuteLoad(m: Memory, addr: U64, n: nat): Result<nat>
    requires 0 < n < TWO64
  {
    var e := CheckNoOverflow(addr, n, |m.bytes|);
    if e.Some? then Err(e.value)
    else
      var blocked := Blocked(m.flags, PageOf(addr), LastPage(addr, n), EXECUTABLE);
      if blocked.Some? then Err(WriteOnExecutable(blocked.value)) else Load(m, addr, n)
  }

  /** What `init_pages` leaves in its pages: zeros, the source from `offset` on, zeros again. */
  function Image(size: nat, source: seq<Byte>, offset: nat): (r: seq<Byte>)
    ensures |r| == size
  {
    seq(size, i => if offset <= i < offset + |source| then source[i - offset] else 0)
  }

  function Repeat(size: nat, value: Byte): (r: seq<Byte>)
    ensures |r| == size
  {
    seq(size, i => value)
  }

  predicate PieceAt(image: seq<Byte>, done: nat, data: seq<Byte>) {
    done + |data| <= |image| && image[done..done + |data|] == data
  }

  /** The three pieces of a segment's image. */
  lemma {:induction false} ImagePieces(size: nat, source: seq<Byte>, offset: nat)
    ensures var image, head := Image(size, source, offset), if size < offset then size else offset;
            var body := if size - head < |source| then size - head else |source|;
            && |image| == size && PieceAt(image, 0, Repeat(head, 0)) && PieceAt(image, head, source[..body])
            && PieceAt(image, head + body, Repeat(size - head - body, 0))
  {
    var image, head := Image(size, source, offset), if size < offset then size else offset;
    var body := if size - head < |source| then size - head else |source|;
    forall i | 0 <= i < body ensures image[head + i] == source[..body][i] { }
    assert image[head..head + body] == source[..body];
  }

  lemma {:induction false} PieceFits(image: seq<Byte>, done: nat, data: seq<Byte>)
    requires PieceAt(image, done, data)
    ensures done + |data| <= |image|
  {
  }

  function InitError(m: Memory, addr: U64, size: U64, offset: U64): Option<Error>
  {
    if addr % PAGE != 0 then Some(UnalignedPage(addr))
    else if size % PAGE != 0 then Some(UnalignedPage(Wrap(addr + size)))
    else if addr > |m.bytes| then Some(OutOfBound(addr))
    else if size > |m.bytes| || addr + size > |m.bytes| then Some(OutOfBound(Wrap(addr + size)))
    else if offset > size then Some(OutOfExternalData(offset))
    else None
  }

  /**
   The W^X `init_pages`. The flags are set page by page while looking for a frozen page,
   so a failing call leaves them set on the pages before the frozen one.
   */
  function InitPages(m: Memory, addr: U64, size: U64, f: Flags, source: seq<Byte>, offset: U64): Outcome
  {
    var e := InitError(m, addr, size, offset);
    if e.Some? then Outcome(m, e)
    else
      var first, last := PageOf(addr), PageOf(addr + size) - 1;
      var frozen := FirstFreezed(m.flags, first, last);
      if frozen.Some? then
        Outcome(m.(flags := Mark(m.flags, first, frozen.value - 1, f)), Some(WriteOnFreezed(frozen.value)))
      else
        var marked: Memory := m.(flags := Mark(m.flags, first, last, f));
        Outcome(if size == 0 then marked else Put(marked, addr, Image(size, source, offset)), None)
  }

  // ---------------------------------------------------------------- pages

  function PageBytes(m: Memory, page: nat): seq<Byte>
    requires page < |m.flags|
  {
    PageFits(m, page);
    Slice(m.bytes, page * PAGE, PAGE)
  }

  lemma {:induction false} PageFits(m: Memory, page: nat)
    requires page < |m.flags|
    ensures page * PAGE + PAGE <= |m.bytes|
  {
  }

  /** Pages decide a memory. */
  lemma {:induction false} SamePages(m: Memory, m': Memory)
    requires m'.flags == m.flags && m'.lr == m.lr
    requires forall page :: 0 <= page < |m.flags| ==> PageBytes(m', page) == PageBytes(m, page)
    ensures m' == m
  {
    forall a | 0 <= a < |m.bytes| ensures m'.bytes[a] == m.bytes[a] {
      AddressParts(a);
      var page, offset := PageOf(a), OffsetOf(a);
      assert PageBytes(m', page)[offset] == PageBytes(m, page)[offset];
    }
  }

  /** A store changes only pages it makes dirty. */
  lemma {:induction false} PutPage(m: Memory, addr: nat, data: seq<Byte>, page: nat)
    requires data != [] && InRange(m, addr, |data|) && page < |m.flags|
    ensures PageOf(addr) <= page <= LastPage(addr, |data|) ==> Put(m, addr, data).flags[page].dirty
    ensures !(PageOf(addr) <= page <= LastPage(addr, |data|)) ==>
              Put(m, addr, data).flags[page] == m.flags[page] && PageBytes(Put(m, addr, data), page) == PageBytes(m, page)
  {
  }

  lemma {:induction false} SamePageBytes(m: Memory, m': Memory, page: nat)
    requires m'.bytes == m.bytes && page < |m.flags|
    ensures page < |m'.flags| && PageBytes(m', page) == PageBytes(m, page)
  {
  }

  // ---------------------------------------------------------------- stores in pieces

  /** The memory after the first `done` bytes of a store. */
  ghost function PutPrefix(m: Memory, addr: nat, data: seq<Byte>, done: nat): Memory
    requires done <= |data| && (done > 0 ==> InRange(m, addr, done))
  {
    if done == 0 then m else Put(m, addr, data[..done])
  }

  lemma {:induction false} PutMore(m: Memory, addr: nat, data: seq<Byte>, done: nat, more: nat)
    requires 0 < more && done + more <= |data| && InRange(m, addr, done + more)
    ensures Put(PutPrefix(m, addr, data, done), addr + done, data[done..done + more])
            == PutPrefix(m, addr, data, done + more)
  {
    var m2 := Put(PutPrefix(m, addr, data, done), addr + done, data[done..done + more]);
    var whole := PutPrefix(m, addr, data, done + more);
    assert m2.bytes == whole.bytes;
    assert m2.flags == whole.flags;
  }

  /** The next piece of an image, stored after the pieces before it. */
  lemma {:induction false} PutPiece(m0: Memory, m: Memory, addr: nat, image: seq<Byte>, done: nat, data: seq<Byte>)
    requires InRange(m0, addr, |image|) && data != [] && PieceAt(image, done, data) && m == PutPrefix(m0, addr, image, done)
    ensures InRange(m, addr + done, |data|)
    ensures Put(m, addr + done, data) == PutPrefix(m0, addr, image, done + |data|)
  {
    hide Put;
    PutMore(m0, addr, image, done, |data|);
  }

  lemma {:induction false} PutWhole(m0: Memory, addr: nat, image: seq<Byte>)
    requires InRange(m0, addr, |image|)
    ensures PutPrefix(m0, addr, image, 0) == m0
    ensures image != [] ==> PutPrefix(m0, addr, image, |image|) == Put(m0, addr, image)
  {
    hide Put;
    assert image[..|image|] == image;
  }

  // ---------------------------------------------------------------- operation sequences

  datatype Op =
    | OpInit(addr: U64, size: U64, f: Flags, source: seq<Byte>, offset: U64)
    | OpFetchFlag(page: U64)
    | OpSetFlag(page: U64, f: Flags)
    | OpClearFlag(page: U64, f: Flags)
    | OpStoreBytes(addr: U64, data: seq<Byte>)
    | OpStoreByte(addr: U64, size: U64, value: Byte)
    | OpStore(addr: U64, width: Width, word: U64)
    | OpLoad(addr: U64, width: Width)
    | OpLoadBytes(addr: U64, size: U64)
    | OpExecuteLoad(addr: U64, width: Width)
    | OpSetLr(lr: U64)
    | OpLr

  datatype Width = W8 | W16 | W32 | W64 {
    function Bytes(): (n: nat)
      ensures n == 1 || n == 2 || n == 4 || n == 8
    {
      match this case W8 => 1 case W16 => 2 case W32 => 4 case W64 => 8
    }
  }

  datatype Reply = Done | Flag(f: Flags) | Value(v: nat) | Bytes(bs: seq<Byte>) | Failed(error: Error)

  /** An `init_pages` that fails at a frozen page, having set flags on the pages before it. */
  predicate StopsHalfway(m: Memory, op: Op) {
    op.OpInit? && InitError(m, op.addr, op.size, op.offset).None?
    && FirstFreezed(m.flags, PageOf(op.addr), PageOf(op.addr + op.size) - 1).Some?
  }

  predicate Feasible(op: Op) {
    (op.OpInit? ==> |op.source| < TWO63) && (op.OpStoreBytes? ==> |op.data| < TWO63)
  }

  function ReplyOf(o: Outcome): (Memory, Reply) {
    (o.mem, if o.error.Some? then Failed(o.error.value) else Done)
  }

  /** One operation on the plain memory, with the reply its caller sees. */
  function Apply(m: Memory, op: Op): (Memory, Reply)
    requires Feasible(op)
  {
    match op
    case OpInit(a, s, f, src, o) => ReplyOf(InitPages(m, a, s, f, src, o))
    case OpFetchFlag(p) => (m, match FetchFlag(m, p) case Ok(f) => Flag(f) case Err(e) => Failed(e))
    case OpSetFlag(p, f) => ReplyOf(SetFlag(m, p, f))
    case OpClearFlag(p, f) => ReplyOf(ClearFlag(m, p, f))
    case OpStoreBytes(a, d) => ReplyOf(StoreBytes(m, a, d))
    case OpStoreByte(a, s, v) => ReplyOf(StoreByte(m, a, s, v))
    case OpStore(a, w, v) => ReplyOf(Store(m, a, w.Bytes(), v))
    case OpLoad(a, w) => (m, match Load(m, a, w.Bytes()) case Ok(v) => Value(v) case Err(e) => Failed(e))
    case OpLoadBytes(a, s) => (m, match LoadBytes(m, a, s) case Ok(bs) => Bytes(bs) case Err(e) => Failed(e))
    case OpExecuteLoad(a, w) => (m, match ExecuteLoad(m, a, w.Bytes()) case Ok(v) => Value(v) case Err(e) => Failed(e))
    case OpSetLr(v) => (m.(lr := v), Done)
    case OpLr => (m, Value(m.lr))
  }

  /** The operations in order, with every reply. */
  function Run(m: Memory, ops: seq<Op>): (r: (Memory, seq<Reply>))
    requires forall op :: op in ops ==> Feasible(op)
    ensures |r.1| == |ops|
    decreases |ops|
  {
    if ops == [] then (m, [])
    else
      var (m1, replies) := Run(m, ops[..|ops| - 1]);
      var (m2, reply) := Apply(m1, ops[|ops| - 1]);
      (m2, replies + [reply])
  }
}
