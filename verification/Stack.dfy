/**
 The initial stack (src/machine/mod.rs): argument strings, their pointers, and the reader that walks
 them back (src/machine/mod.rs, src/memory/mod.rs), for version 1 or later and 64-bit registers.
 */
module Stack {
  import opened Words
  import opened PagedMemory
  import Snapshots

  const VERSION2: nat := 2

  // ---------------------------------------------------------------- what lies where

  /** A C string: the argument and a zero byte. */
  predicate StringAt(bytes: seq<Byte>, addr: nat, arg: seq<Byte>) {
    addr + |arg| < |bytes| && Slice(bytes, addr, |arg|) == arg && bytes[addr + |arg|] == 0
  }

  predicate WordAt(bytes: seq<Byte>, addr: nat, value: U64) {
    addr + 8 <= |bytes| && Slice(bytes, addr, 8) == ToLittleEndian(value, 8)
  }

  lemma {:induction false} SameOutsideWider(b: seq<Byte>, b': seq<Byte>, b'': seq<Byte>, lo: nat, mid: nat, hi: nat)
    requires SameOutside(b, b', mid, hi) && SameOutside(b', b'', lo, mid) && lo <= mid <= hi
    ensures SameOutside(b, b'', lo, hi)
  {
  }

  lemma {:induction false} StoreOk(m: Memory, addr: U64, data: seq<Byte>)
    requires |data| < TWO63 && data != [] && StoreBytes(m, addr, data).error.None?
    ensures addr + |data| <= |m.bytes|
    ensures StoreBytes(m, addr, data).mem.bytes == Write(m.bytes, addr, data)
  {
  }

  lemma {:induction false} StoreByteOk(m: Memory, addr: U64, value: Byte)
    requires StoreByte(m, addr, 1, value).error.None?
    ensures addr + 1 <= |m.bytes|
    ensures StoreByte(m, addr, 1, value).mem.bytes == m.bytes[addr := value]
  {
  }

  /** A string that was stored, with its zero, is there; the rest is as it was. */
  lemma {:induction false} StringStored(m: Memory, addr: U64, arg: seq<Byte>)
    requires |arg| < TWO63 && StoreBytes(m, addr, arg).error.None? && addr + |arg| < TWO64
    requires StoreByte(StoreBytes(m, addr, arg).mem, addr + |arg|, 1, 0).error.None?
    ensures var b := StoreByte(StoreBytes(m, addr, arg).mem, addr + |arg|, 1, 0).mem.bytes;
            && StringAt(b, addr, arg) && SameOutside(m.bytes, b, addr, addr + |arg| + 1)
  {
    hide StoreBytes, StoreByte;
    var m1 := StoreBytes(m, addr, arg).mem;
    if arg == [] { EmptyStore(m, addr); } else { StoreOk(m, addr, arg); }
    StoreByteOk(m1, addr + |arg|, 0);
    var b := m1.bytes[addr + |arg| := 0];
    assert Slice(b, addr, |arg|) == arg;
  }

  lemma {:induction false} EmptyStore(m: Memory, addr: U64)
    ensures StoreBytes(m, addr, []) == Outcome(m, None)
  {
  }

  lemma {:induction false} WordStored(m: Memory, addr: U64, value: U64)
    requires Store(m, addr, 8, value).error.None?
    ensures var b := Store(m, addr, 8, value).mem.bytes; WordAt(b, addr, value) && SameOutside(m.bytes, b, addr, addr + 8)
  {
  }

  lemma {:induction false} WordLoads(m: Memory, addr: U64, value: U64)
    requires WordAt(m.bytes, addr, value)
    ensures Load(m, addr, 8) == Ok(value)
  {
    hide ToLittleEndian, LittleEndian, Load;
    LoadsBack(m, addr, value);
  }

  // ---------------------------------------------------------------- when a store goes through

  predicate SameExecutable(m: Memory, m': Memory) {
    |m'.flags| == |m.flags| && forall p :: 0 <= p < |m.flags| ==> m'.flags[p].executable == m.flags[p].executable
  }

  lemma {:induction false} WritablePart(m: Memory, m': Memory, lo: nat, size: nat, addr: nat, n: nat)
    requires Writable(m, lo, size) && SameExecutable(m, m') && lo <= addr && addr + n <= lo + size
    ensures Writable(m', addr, n)
  {
    if n > 0 {
      PageOrder(lo, addr);
      PageOrder(addr + n - 1, lo + size - 1);
    }
  }

  lemma {:induction false} PageOrder(a: nat, b: nat)
    requires a <= b
    ensures PageOf(a) <= PageOf(b)
  {
  }

  lemma {:induction false} StoreGoesThrough(m: Memory, m': Memory, lo: nat, size: nat, addr: U64, data: seq<Byte>)
    requires |data| < TWO63 && Writable(m, lo, size) && SameExecutable(m, m') && lo <= addr && addr + |data| <= lo + size
    ensures StoreBytes(m', addr, data).error.None?
  {
    hide Writable, StoreError, SameExecutable, Put;
    WritablePart(m, m', lo, size, addr, |data|);
    if data != [] { StoreErrorExact(m', addr, |data|); }
  }

  lemma {:induction false} StoreByteGoesThrough(m: Memory, m': Memory, lo: nat, size: nat, addr: U64, value: Byte)
    requires Writable(m, lo, size) && SameExecutable(m, m') && lo <= addr < lo + size
    ensures StoreByte(m', addr, 1, value).error.None?
  {
    hide Writable, StoreError, SameExecutable, Put;
    WritablePart(m, m', lo, size, addr, 1);
    StoreErrorExact(m', addr, 1);
  }

  lemma {:induction false} StoresKeepExecutable(m0: Memory, m: Memory, addr: U64, data: seq<Byte>, value: Byte)
    requires |data| < TWO63 && SameExecutable(m0, m)
    ensures SameExecutable(m0, StoreBytes(m, addr, data).mem) && SameExecutable(m0, StoreByte(m, addr, 1, value).mem)
  {
    hide StoreError;
  }

  // ---------------------------------------------------------------- building the stack

  /** The room the strings take, each with its zero. */
  function Room(args: seq<seq<Byte>>, n: nat): nat
    requires n <= |args|
  {
    if n == 0 then 0 else Room(args, n - 1) + |args[n - 1]| + 1
  }

  lemma {:induction false} RoomGrows(args: seq<seq<Byte>>, i: nat, n: nat)
    requires i <= n <= |args|
    ensures Room(args, i) <= Room(args, n)
    decreases n
  {
    if i < n { RoomGrows(args, i, n - 1); }
  }

  /** The strings so far, from the last one (lowest) up to the top of the stack. */
  ghost predicate Strings(bytes: seq<Byte>, args: seq<seq<Byte>>, addresses: seq<U64>, sp: nat, top: nat) {
    |addresses| == |args|
    && forall j :: 0 <= j < |args| ==> sp <= addresses[j] && addresses[j] + |args[j]| < top && StringAt(bytes, addresses[j], args[j])
  }

  lemma {:induction false} StringsMore(b: seq<Byte>, b': seq<Byte>, args: seq<seq<Byte>>, addresses: seq<U64>, arg: seq<Byte>,
                                       address: U64, sp: nat, top: nat)
    requires Strings(b, args, addresses, sp, top) && SameOutside(b, b', address, sp) && address + |arg| < sp <= top
    requires StringAt(b', address, arg)
    ensures Strings(b', args + [arg], addresses + [address], address, top)
  {
  }

  /** The words from `sp` on are `values` from number `k` on. */
  ghost predicate Pushed(bytes: seq<Byte>, values: seq<U64>, k: nat, sp: nat) {
    k <= |values| && forall j :: k <= j < |values| ==> WordAt(bytes, sp + 8 * (j - k), values[j])
  }

  lemma {:induction false} PushedMore(b: seq<Byte>, b': seq<Byte>, values: seq<U64>, k: nat, sp: nat)
    requires 0 < k && 8 <= sp && Pushed(b, values, k, sp) && SameOutside(b, b', sp - 8, sp) && WordAt(b', sp - 8, values[k - 1])
    ensures Pushed(b', values, k - 1, sp - 8)
  {
  }

  /** What a successful `initialize_stack` leaves behind. */
  ghost predicate Laid(bytes: seq<Byte>, args: seq<seq<Byte>>, sp: nat, top: nat) {
    exists addresses: seq<U64> ::
      && Strings(bytes, args, addresses, sp, top) && |args| < TWO63
      && Pushed(bytes, [|args|] + addresses + [0], 0, sp)
  }

  lemma {:induction false} MoreMarked(m0: Memory, m: Memory, op: Op)
    requires Snapshots.MarksChanges(m0, m) && Snapshots.Ordinary(op)
    ensures Snapshots.MarksChanges(m0, Apply(m, op).0)
  {
    hide Snapshots.MarksChanges, Apply;
    Snapshots.OrdinaryMarks(m, op);
    Snapshots.MarksTwice(m0, m, Apply(m, op).0);
  }

  class StackMachine {
    const version: nat
    var mem: Memory
    var sp: U64

    constructor (version: nat, mem: Memory)
      ensures this.version == version && this.mem == mem
    {
      this.version, this.mem, sp := version, mem, 0;
    }

    /** Copies the strings below `sp`, each with its zero. */
    method PushStrings(args: seq<seq<Byte>>, stackStart: U64) returns (error: Option<Error>, addresses: seq<U64>)
      requires forall j :: 0 <= j < |args| ==> |args[j]| < TWO63 - 1
      modifies this`mem, this`sp
      ensures Snapshots.MarksChanges(old(mem), mem) && SameExecutable(old(mem), mem)
      ensures var room := Room(args, |args|);
              room <= old(sp) && Writable(old(mem), old(sp) - room, room) ==>
                error == if version >= VERSION2 && args != [] && old(sp) - room < stackStart then Some(OutOfStack) else None
      ensures error.None? ==>
                && sp + Room(args, |args|) == old(sp) && Strings(mem.bytes, args, addresses, sp, old(sp))
                && SameOutside(old(mem.bytes), mem.bytes, sp, old(sp))
    {
      hide StoreBytes, StoreByte, Strings, SameOutside, StringAt, Snapshots.MarksChanges, SameExecutable, Writable;
      ghost var room, top := Room(args, |args|), sp;
      ghost var fits := room <= top && Writable(mem, top - room, room);
      addresses := [];
      SelfExecutable(mem);
      Snapshots.SelfMarks(mem);
      NoStrings(mem.bytes, sp, old(sp));
      for i := 0 to |args|
        invariant sp + Room(args, i) == old(sp) && Strings(mem.bytes, args[..i], addresses, sp, old(sp))
        invariant SameOutside(old(mem.bytes), mem.bytes, sp, old(sp)) && Snapshots.MarksChanges(old(mem), mem)
        invariant SameExecutable(old(mem), mem) && (version >= VERSION2 && i > 0 ==> stackStart <= sp)
      {
        var arg := args[i];
        var address := Sub(sp, |arg| + 1);
        ghost var before := mem;
        RoomGrows(args, i + 1, |args|);
        if fits { StoreGoesThrough(old(mem), mem, top - room, room, address, arg); }
        StoresKeepExecutable(old(mem), mem, address, arg, 0);
        var stored := StoreBytes(mem, address, arg);
        MoreMarked(old(mem), mem, OpStoreBytes(address, arg));
        mem := stored.mem;
        if stored.error.Some? {
          return stored.error, addresses;
        }
        NoOverflow(before, sp, address, arg);
        if fits { StoreByteGoesThrough(old(mem), mem, top - room, room, address + |arg|, 0); }
        StoresKeepExecutable(old(mem), mem, address + |arg|, [], 0);
        var ended := StoreByte(mem, address + |arg|, 1, 0);
        MoreMarked(old(mem), mem, OpStoreByte(address + |arg|, 1, 0));
        mem := ended.mem;
        if ended.error.Some? {
          return ended.error, addresses;
        }
        NextString(old(mem.bytes), before, args, i, addresses, address, sp, top);
        addresses := addresses + [address];
        sp := address;
        if version >= VERSION2 && address < stackStart {
          return Some(OutOfStack), addresses;
        }
      }
      assert args[..|args|] == args;
      return None, addresses;
    }

    /** Pushes the values in reversed order. */
    method PushWords(values: seq<U64>) returns (error: Option<Error>)
      requires 8 * |values| < TWO63
      modifies this`mem, this`sp
      ensures Snapshots.MarksChanges(old(mem), mem)
      ensures 8 * |values| <= old(sp) && Writable(old(mem), old(sp) - 8 * |values|, 8 * |values|) ==> error.None?
      ensures error.None? ==>
                && sp + 8 * |values| == old(sp) && Pushed(mem.bytes, values, 0, sp)
                && SameOutside(old(mem.bytes), mem.bytes, sp, old(sp))
    {
      hide StoreBytes, ToLittleEndian, Pushed, SameOutside, WordAt, Snapshots.MarksChanges, SameExecutable, Writable;
      ghost var room, top := 8 * |values|, sp;
      SelfExecutable(mem);
      Snapshots.SelfMarks(mem);
      NothingPushed(mem.bytes, values, sp);
      var k := |values|;
      while k > 0
        invariant 0 <= k <= |values| && sp + 8 * (|values| - k) == old(sp)
        invariant Pushed(mem.bytes, values, k, sp) && SameOutside(old(mem.bytes), mem.bytes, sp, old(sp))
        invariant Snapshots.MarksChanges(old(mem), mem) && SameExecutable(old(mem), mem)
      {
        var address := Sub(sp, 8);
        ghost var before := mem;
        ghost var word := ToLittleEndian(values[k - 1], 8);
        if room <= top && Writable(old(mem), top - room, room) {
          StoreGoesThrough(old(mem), mem, top - room, room, address, word);
        }
        StoresKeepExecutable(old(mem), mem, address, word, 0);
        var stored := Store(mem, address, 8, values[k - 1]);
        MoreMarked(old(mem), mem, OpStore(address, W64, values[k - 1]));
        mem := stored.mem;
        if stored.error.Some? {
          return stored.error;
        }
        WordStored(before, address, values[k - 1]);
        WordFits(mem.bytes, address, values[k - 1]);
        PushedMore(before.bytes, mem.bytes, values, k, sp);
        SameOutsideWider(old(mem.bytes), before.bytes, mem.bytes, address, sp, old(sp));
        sp := address;
        k := k - 1;
      }
      return None;
    }

    /** Pushes the values so that the last one pushed is on a 16-byte boundary inside the stack. */
    method PushAligned(values: seq<U64>, stackStart: U64) returns (error: Option<Error>)
      requires values != [] && 8 * |values| < TWO63
      modifies this`mem, this`sp
      ensures Snapshots.MarksChanges(old(mem), mem)
      ensures var bottom := Down16(old(sp) - 8 * |values|);
              0 <= bottom && Writable(old(mem), bottom, old(sp) - bottom) ==>
                error == if bottom < stackStart then Some(OutOfStack) else None
      ensures error.None? ==>
                && stackStart <= sp == Down16(old(sp) - 8 * |values|) && sp % 16 == 0 && Pushed(mem.bytes, values, 0, sp)
                && SameOutside(old(mem.bytes), mem.bytes, sp, old(sp))
    {
      hide Pushed, SameOutside, Snapshots.MarksChanges, Writable, SameExecutable;
      ghost var middle, bottom := sp, Down16(sp - 8 * |values|);
      var unaligned := Sub(sp, 8 * |values|);
      var alignedBytes := unaligned % 16;
      sp := Sub(sp, alignedBytes);
      ghost var below := sp;
      if 0 <= bottom && Writable(mem, bottom, middle - bottom) {
        AlignedDown(middle, 8 * |values|, below);
        SelfExecutable(mem);
        WritablePart(mem, mem, bottom, middle - bottom, bottom, below - bottom);
      }
      error := PushWords(values);
      if error.Some? {
        return;
      }
      PushedFits(mem.bytes, values, sp);
      AlignedSp(middle, 8 * |values|, sp, below);
      NothingOutside(old(mem.bytes), mem.bytes, sp, below, middle);
      return if sp < stackStart then Some(OutOfStack) else None;
    }

    method InitializeStack(args: seq<seq<Byte>>, stackStart: U64, stackSize: U64) returns (r: Result<U64>)
      requires version >= 1 && 8 <= stackStart + stackSize < TWO64 && 8 * (|args| + 2) < TWO63
      requires forall j :: 0 <= j < |args| ==> |args[j]| < TWO63 - 1
      modifies this`mem, this`sp
      ensures Snapshots.MarksChanges(old(mem), mem)
      ensures args == [] ==> r.Ok?
      ensures args != [] && Writable(old(mem), stackStart, stackSize) ==> (r.Ok? <==> stackStart <= Bottom(args, stackStart + stackSize))
      ensures var top, bottom := stackStart + stackSize, Bottom(args, stackStart + stackSize);
              args != [] && 0 <= bottom && Writable(old(mem), bottom, top - bottom) ==>
                r == if stackStart <= bottom then Ok(top - bottom) else Err(OutOfStack)
      ensures r.Ok? ==> sp % 16 == 0 && sp <= stackStart + stackSize && r.value == stackStart + stackSize - sp
      ensures r.Ok? && args == [] ==> mem == old(mem) && sp == Down16(stackStart + stackSize - 8)
      ensures r.Ok? && args != [] ==>
                && sp == Bottom(args, stackStart + stackSize)
                && stackStart <= sp && Laid(mem.bytes, args, sp, stackStart + stackSize)
                && SameOutside(old(mem.bytes), mem.bytes, sp, stackStart + stackSize)
    {
      hide Strings, Pushed, SameOutside, Snapshots.MarksChanges, SameExecutable, Writable, Bottom, Room, Laid, Down16;
      Snapshots.SelfMarks(mem);
      var top := stackStart + stackSize;
      BottomBounds(args, top);
      ghost var bottom := Bottom(args, top);
      ghost var fits := 0 <= bottom && Writable(mem, bottom, top - bottom);
      if stackStart <= bottom && Writable(mem, stackStart, stackSize) {
        SelfExecutable(mem);
        WritablePart(mem, mem, stackStart, stackSize, bottom, top - bottom);
      }
      if args == [] {
        sp := top - 8 - (top - 8) % 16;
        Aligned(top - 8);
        return Ok(top - sp);
      }
      sp := top;
      if fits {
        SelfExecutable(mem);
        WritablePart(mem, mem, bottom, top - bottom, top - Room(args, |args|), Room(args, |args|));
      }
      var error, addresses := PushStrings(args, stackStart);
      if error.Some? {
        return Err(error.value);
      }
      StringCount(mem.bytes, args, addresses, sp, top);
      var values := [|args|] + addresses + [0];
      ghost var middle, m1 := sp, mem;
      BottomIs(args, top, Down16(middle - 8 * |values|));
      if fits { WritablePart(old(mem), mem, bottom, top - bottom, bottom, middle - bottom); }
      error := PushAligned(values, stackStart);
      Snapshots.MarksTwice(old(mem), m1, mem);
      if error.Some? {
        return Err(error.value);
      }
      Layout(old(mem.bytes), m1.bytes, mem.bytes, args, addresses, sp, middle, top);
      return Ok(top - sp);
    }
  }

  lemma {:induction false} SelfExecutable(m: Memory)
    ensures SameExecutable(m, m)
  {
  }

  lemma {:induction false} NoStrings(bytes: seq<Byte>, sp: nat, top: nat)
    ensures Strings(bytes, [], [], sp, top) && SameOutside(bytes, bytes, sp, top)
  {
  }

  lemma {:induction false} NothingPushed(bytes: seq<Byte>, values: seq<U64>, sp: nat)
    ensures Pushed(bytes, values, |values|, sp) && SameOutside(bytes, bytes, sp, sp)
  {
  }

  lemma {:induction false} WordFits(bytes: seq<Byte>, addr: U64, value: U64)
    requires WordAt(bytes, addr, value)
    ensures addr + 8 <= |bytes|
  {
  }

  lemma {:induction false} StringCount(bytes: seq<Byte>, args: seq<seq<Byte>>, addresses: seq<U64>, sp: nat, top: nat)
    requires Strings(bytes, args, addresses, sp, top)
    ensures |addresses| == |args|
  {
  }

  /** A store that succeeded at the address below `sp` did not wrap around. */
  lemma {:induction false} NoOverflow(m: Memory, sp: U64, address: U64, arg: seq<Byte>)
    requires |arg| < TWO63 - 1 && address == Sub(sp, |arg| + 1) && StoreBytes(m, address, arg).error.None?
    ensures address + |arg| < TWO64
  {
  }

  lemma {:induction false} NoWrap(m: Memory, m1: Memory, sp: U64, address: U64, arg: seq<Byte>)
    requires |arg| < TWO63 - 1 && address == Sub(sp, |arg| + 1) && address + |arg| < TWO64
    requires StoreByte(m1, address + |arg|, 1, 0).error.None?
    ensures address + |arg| + 1 == sp
  {
  }

  /** One more string below the ones so far. */
  lemma {:induction false} NextString(b0: seq<Byte>, m: Memory, args: seq<seq<Byte>>, i: nat, addresses: seq<U64>, address: U64, sp: U64, top: nat)
    requires i < |args| && |args[i]| < TWO63 - 1 && address == Sub(sp, |args[i]| + 1) && sp <= top
    requires Strings(m.bytes, args[..i], addresses, sp, top) && SameOutside(b0, m.bytes, sp, top)
    requires StoreBytes(m, address, args[i]).error.None? && address + |args[i]| < TWO64
    requires StoreByte(StoreBytes(m, address, args[i]).mem, address + |args[i]|, 1, 0).error.None?
    ensures address + |args[i]| + 1 == sp
    ensures var b := StoreByte(StoreBytes(m, address, args[i]).mem, address + |args[i]|, 1, 0).mem.bytes;
            Strings(b, args[..i + 1], addresses + [address], address, top) && SameOutside(b0, b, address, top)
  {
    hide StoreBytes, StoreByte, Strings, SameOutside, StringAt, Sub;
    var m1, arg := StoreBytes(m, address, args[i]).mem, args[i];
    var b := StoreByte(m1, address + |arg|, 1, 0).mem.bytes;
    NoWrap(m, m1, sp, address, arg);
    StringStored(m, address, arg);
    StringsMore(m.bytes, b, args[..i], addresses, arg, address, sp, top);
    SameOutsideWider(b0, m.bytes, b, address, sp, top);
    assert args[..i + 1] == args[..i] + [arg];
  }

  function Down16(x: int): int { x - x % 16 }

  /** Where the stack ends up: below the strings, the count, the pointers and the null pointer, on a 16-byte boundary. */
  function Bottom(args: seq<seq<Byte>>, top: int): int { Down16(top - Room(args, |args|) - 8 * (|args| + 2)) }

  lemma {:induction false} BottomBounds(args: seq<seq<Byte>>, top: int)
    ensures Bottom(args, top) + 8 * (|args| + 2) + Room(args, |args|) <= top && Bottom(args, top) < top
  {
  }

  lemma {:induction false} BottomIs(args: seq<seq<Byte>>, top: int, sp: int)
    requires sp == Down16(top - Room(args, |args|) - 8 * (|args| + 2))
    ensures sp == Bottom(args, top)
  {
  }

  /** The excess is taken off before the words are pushed. */
  lemma {:induction false} AlignedDown(middle: U64, size: U64, below: U64)
    requires size <= middle && below == Sub(middle, Sub(middle, size) % 16) && 0 <= Down16(middle - size)
    ensures below == Down16(middle - size) + size
  {
  }

  lemma {:induction false} Aligned(x: nat)
    ensures Down16(x) == x - x % 16 && (x - x % 16) % 16 == 0
  {
  }

  /** Taking off the excess first leaves the pushed values ending on a 16-byte boundary. */
  lemma {:induction false} AlignedSp(middle: U64, size: U64, sp: U64, below: U64)
    requires size < TWO63 && below == Sub(middle, Sub(middle, size) % 16) && sp + size == below < TWO63
    ensures sp == Down16(middle - size) && sp % 16 == 0 && below <= middle
  {
    Aligned(Sub(middle, size));
  }

  lemma {:induction false} PushedFits(bytes: seq<Byte>, values: seq<U64>, sp: nat)
    requires values != [] && Pushed(bytes, values, 0, sp)
    ensures sp + 8 * |values| <= |bytes|
  {
    assert WordAt(bytes, sp + 8 * (|values| - 1), values[|values| - 1]);
  }

  lemma {:induction false} NothingOutside(b: seq<Byte>, b': seq<Byte>, lo: nat, mid: nat, hi: nat)
    requires SameOutside(b, b', lo, mid) && mid <= hi
    ensures SameOutside(b, b', lo, hi)
  {
  }

  lemma {:induction false} Layout(b0: seq<Byte>, b1: seq<Byte>, b2: seq<Byte>, args: seq<seq<Byte>>, addresses: seq<U64>,
                                  sp: nat, middle: nat, top: nat)
    requires sp <= middle <= top && |args| < TWO63
    requires Strings(b1, args, addresses, middle, top) && SameOutside(b0, b1, middle, top)
    requires Pushed(b2, [|args|] + addresses + [0], 0, sp) && SameOutside(b1, b2, sp, middle)
    ensures Laid(b2, args, sp, top) && SameOutside(b0, b2, sp, top)
  {
  }

  // ---------------------------------------------------------------- reading the arguments back

  /** The bytes up to the next zero. */
  function StringFrom(m: Memory, addr: nat): Result<seq<Byte>>
    decreases |m.bytes| - addr
  {
    if addr >= |m.bytes| then Err(OutOfBound(Wrap(addr)))
    else if m.bytes[addr] == 0 then Ok([])
    else
      match StringFrom(m, addr + 1)
      case Err(e) => Err(e)
      case Ok(rest) => Ok([m.bytes[addr]] + rest)
  }

  lemma {:induction false} StringReads(m: Memory, addr: nat, arg: seq<Byte>)
    requires StringAt(m.bytes, addr, arg) && 0 !in arg
    ensures StringFrom(m, addr) == Ok(arg)
    decreases |arg|
  {
    if arg != [] {
      assert arg[0] == Slice(m.bytes, addr, |arg|)[0];
      assert Slice(m.bytes, addr + 1, |arg| - 1) == arg[1..];
      StringReads(m, addr + 1, arg[1..]);
      assert arg == [arg[0]] + arg[1..];
    }
  }

  /** What is read is a string in memory, without zeros; if none ends in memory, that is the error. */
  lemma {:induction false} StringFromExact(m: Memory, addr: nat)
    ensures var r := StringFrom(m, addr);
            if r.Ok? then StringAt(m.bytes, addr, r.value) && 0 !in r.value
            else r.error.OutOfBound? && forall a :: addr <= a < |m.bytes| ==> m.bytes[a] != 0
    decreases |m.bytes| - addr
  {
    if addr < |m.bytes| && m.bytes[addr] != 0 {
      StringFromExact(m, addr + 1);
      var r := StringFrom(m, addr);
      if r.Ok? { assert Slice(m.bytes, addr, |r.value|) == [m.bytes[addr]] + Slice(m.bytes, addr + 1, |r.value| - 1); }
    }
  }

  lemma {:induction false} ByteLoads(m: Memory, addr: U64)
    ensures Load(m, addr, 1) == if addr < |m.bytes| then Ok(m.bytes[addr]) else Err(OutOfBound(addr))
  {
    if addr < |m.bytes| {
      var s := Slice(m.bytes, addr, 1);
      assert s == [m.bytes[addr]] && s[1..] == [];
      assert LittleEndian(s[1..]) == 0 && LittleEndian(s) == m.bytes[addr];
    }
  }

  /** `load_c_string_byte_by_byte`. */
  method LoadCString(m: Memory, start: U64) returns (r: Result<seq<Byte>>)
    ensures r == StringFrom(m, start)
  {
    hide Load;
    var buffer, addr := [], start;
    assert forall rest: seq<Byte> :: [] + rest == rest;
    while true
      invariant start <= addr <= |m.bytes| || addr == start
      invariant var rest := StringFrom(m, addr);
                StringFrom(m, start) == if rest.Ok? then Ok(buffer + rest.value) else rest
      decreases |m.bytes| - addr
    {
      ByteLoads(m, addr);
      var byte := Load(m, addr, 1);
      if byte.Err? {
        return Err(byte.error);
      }
      if byte.value == 0 {
        assert buffer + [] == buffer;
        return Ok(buffer);
      }
      ghost var tail := StringFrom(m, addr + 1);
      if tail.Ok? { assert buffer + ([byte.value] + tail.value) == (buffer + [byte.value]) + tail.value; }
      buffer := buffer + [byte.value];
      addr := addr + 1;
    }
  }

  class FlattenedArgsReader {
    const memory: Memory
    const argc: U64
    var argv: U64
    var cidx: U64

    constructor (memory: Memory, argc: U64, argv: U64)
      ensures this.memory == memory && this.argc == argc && this.argv == argv && cidx == 0
    {
      this.memory, this.argc, this.argv, cidx := memory, argc, argv, 0;
    }

    /** The next argument: none after `argc`, and no progress when a read fails. */
    method Next() returns (item: Option<Result<seq<Byte>>>)
      modifies this
      ensures old(cidx) >= argc ==> item.None?
      ensures item.None? || item.value.Err? ==> cidx == old(cidx) && argv == old(argv)
      ensures old(cidx) < argc ==>
                && item.Some?
                && (item.value.Ok? ==> cidx == old(cidx) + 1 && argv == Add(old(argv), 8))
                && item.value == (match Load(memory, old(argv), 8)
                                  case Err(e) => Err(e)
                                  case Ok(addr) => StringFrom(memory, addr))
    {
      hide Load, StringFrom;
      if cidx >= argc {
        return None;
      }
      var addr := Load(memory, argv, 8);
      if addr.Err? {
        return Some(Err(addr.error));
      }
      WordBound(memory, argv);
      var cstr := LoadCString(memory, addr.value);
      if cstr.Err? {
        return Some(Err(cstr.error));
      }
      cidx := cidx + 1;
      argv := Add(argv, 8);
      return Some(Ok(cstr.value));
    }
  }

  lemma {:induction false} WordBound(m: Memory, addr: U64)
    requires Load(m, addr, 8).Ok?
    ensures Load(m, addr, 8).value < TWO64
  {
    LittleEndianBound(Slice(m.bytes, addr, 8));
    assert Pow256(8) == TWO64;
  }

  method ReadAll(reader: FlattenedArgsReader, ghost args: seq<seq<Byte>>, ghost sp: U64, ghost top: nat)
    returns (r: Result<seq<seq<Byte>>>)
    requires Laid(reader.memory.bytes, args, sp, top) && reader.argc == |args| && reader.argv == Add(sp, 8) && reader.cidx == 0
    requires forall j :: 0 <= j < |args| ==> 0 !in args[j]
    modifies reader
    ensures r == Ok(args)
  {
    hide Load, StringFrom, Strings, Pushed;
    ghost var addresses: seq<U64> :| Strings(reader.memory.bytes, args, addresses, sp, top)
                                     && Pushed(reader.memory.bytes, [|args|] + addresses + [0], 0, sp);
    var items := [];
    PushedFits(reader.memory.bytes, [|args|] + addresses + [0], sp);
    StringCount(reader.memory.bytes, args, addresses, sp, top);
    while reader.cidx < reader.argc
      invariant reader.cidx <= |args| && reader.argv == sp + 8 + 8 * reader.cidx && items == args[..reader.cidx]
      decreases reader.argc - reader.cidx
    {
      ghost var i := reader.cidx;
      ArgumentReads(reader.memory, args, addresses, sp, top, i);
      var item := reader.Next();
      items := items + [item.value.value];
      assert args[..i + 1] == args[..i] + [args[i]];
    }
    assert args[..|args|] == args;
    return Ok(items);
  }

  /** The pointer and the string of argument `i`, through the memory interface. */
  lemma {:induction false} ArgumentReads(m: Memory, args: seq<seq<Byte>>, addresses: seq<U64>, sp: U64, top: nat, i: nat)
    requires i < |args| < TWO63
    requires Strings(m.bytes, args, addresses, sp, top) && Pushed(m.bytes, [|args|] + addresses + [0], 0, sp)
    requires 0 !in args[i] && sp + 8 * (|args| + 2) <= |m.bytes|
    ensures Load(m, sp + 8 + 8 * i, 8) == Ok(addresses[i]) && StringFrom(m, addresses[i]) == Ok(args[i])
  {
    hide Load, StringFrom;
    var values: seq<U64> := [|args|] + addresses + [0];
    assert values[i + 1] == addresses[i];
    assert WordAt(m.bytes, sp + 8 * (i + 1), values[i + 1]);
    WordLoads(m, sp + 8 * (i + 1), addresses[i]);
    StringReads(m, addresses[i], args[i]);
  }

  /** The count is at the stack pointer, and a null pointer follows the last argument pointer. */
  lemma {:induction false} CountAndNull(m: Memory, args: seq<seq<Byte>>, sp: U64, top: nat)
    requires Laid(m.bytes, args, sp, top)
    ensures Load(m, sp, 8) == Ok(|args|) && sp + 8 * (|args| + 2) <= |m.bytes| && Load(m, sp + 8 * (|args| + 1), 8) == Ok(0)
  {
    hide Load, Strings, WordAt;
    var addresses: seq<U64> :| Strings(m.bytes, args, addresses, sp, top) && Pushed(m.bytes, [|args|] + addresses + [0], 0, sp);
    StringCount(m.bytes, args, addresses, sp, top);
    var values: seq<U64> := [|args|] + addresses + [0];
    PushedFits(m.bytes, values, sp);
    assert values[0] == |args| && values[|args| + 1] == 0;
    assert WordAt(m.bytes, sp + 8 * 0, values[0]) && WordAt(m.bytes, sp + 8 * (|args| + 1), values[|args| + 1]);
    WordLoads(m, sp, |args|);
    WordLoads(m, sp + 8 * (|args| + 1), 0);
  }

  /**
   The round trip: a stack that was built for arguments without zero bytes gives them back in order through
   argc and argv, is 16-byte aligned, and nothing outside the stack region has been written.
   */
  method ArgumentsRoundTrip(machine: StackMachine, args: seq<seq<Byte>>, stackStart: U64, stackSize: U64)
    returns (r: Result<U64>, read: Result<seq<seq<Byte>>>)
    requires machine.version >= 1 && 8 <= stackStart + stackSize < TWO64 && 8 * (|args| + 2) < TWO63 && args != []
    requires forall j :: 0 <= j < |args| ==> |args[j]| < TWO63 - 1 && 0 !in args[j]
    modifies machine
    ensures Writable(old(machine.mem), stackStart, stackSize) ==> (r.Ok? <==> stackStart <= Bottom(args, stackStart + stackSize))
    ensures r.Ok? ==> read == Ok(args) && machine.sp % 16 == 0 && machine.sp == Bottom(args, stackStart + stackSize)
    ensures r.Ok? ==>
              Load(machine.mem, machine.sp, 8) == Ok(|args|) && machine.sp + 8 * (|args| + 2) <= |machine.mem.bytes|
              && Load(machine.mem, machine.sp + 8 * (|args| + 1), 8) == Ok(0)
    ensures r.Ok? ==> SameOutside(old(machine.mem.bytes), machine.mem.bytes, stackStart, stackStart + stackSize)
  {
    hide Load, Laid, Bottom, Writable;
    r := machine.InitializeStack(args, stackStart, stackSize);
    if r.Err? {
      return r, Err(r.error);
    }
    CountAndNull(machine.mem, args, machine.sp, stackStart + stackSize);
    var argc := Load(machine.mem, machine.sp, 8);
    var reader := new FlattenedArgsReader(machine.mem, argc.value, Add(machine.sp, 8));
    read := ReadAll(reader, args, machine.sp, stackStart + stackSize);
  }
}
