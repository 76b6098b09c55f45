/**
 The instruction decoder (src/decoder.rs): a page-offset fast path for reading instruction bits and
 a direct-mapped cache of decoded instructions, and why code that has been decoded stays decoded.
 */
module Decoders {
  import opened Words
  import opened PagedMemory
  import opened Instructions
  import opened Machine
  import opened Fusion
  import opened WXorX

  const INSTRUCTION_CACHE_SIZE: nat := 4096

  // ---------------------------------------------------------------- reading instruction bits

  /** A word is its two halves. */
  lemma {:induction false} WordOfHalves(bytes: seq<Byte>, at: nat)
    requires at + 4 <= |bytes|
    ensures LittleEndian(Slice(bytes, at, 4)) == LittleEndian(Slice(bytes, at, 2)) + 0x10000 * LittleEndian(Slice(bytes, at + 2, 2))
    ensures LittleEndian(Slice(bytes, at, 2)) < 0x10000
  {
    var a, b, c, d := bytes[at], bytes[at + 1], bytes[at + 2], bytes[at + 3];
    assert Slice(bytes, at, 2) == [a, b] && Slice(bytes, at + 2, 2) == [c, d] && Slice(bytes, at, 4) == [a, b, c, d];
    assert LittleEndian([]) == 0;
    assert [a, b][1..] == [b] && [b][1..] == [] && [c, d][1..] == [d] && [d][1..] == [];
    assert [a, b, c, d][1..] == [b, c, d] && [b, c, d][1..] == [c, d];
    assert LittleEndian([a, b]) == a + 256 * b && LittleEndian([c, d]) == c + 256 * d;
    assert LittleEndian([b, c, d]) == b + 256 * LittleEndian([c, d]);
  }

  lemma {:induction false} HalvesMod(low: nat, high: nat)
    requires low < 0x10000
    ensures (low + 0x10000 * high) % 4 == low % 4 && (low + 0x10000 * high) % 0x10000 == low
  {
    Mod4Is(low + 0x10000 * high, low / 4 + 0x4000 * high, low % 4);
    assert low + 0x10000 * high == high * 0x10000 + low;
  }

  lemma {:induction false} Mod4Is(x: nat, q: nat, r: nat)
    requires r < 4 && x == q * 4 + r
    ensures x % 4 == r
  {
  }

  /** A fetch that stays inside one page. */
  lemma {:induction false} FetchInPage(m: Memory, addr: U64, n: nat)
    requires 0 < n <= 8 && addr + n <= |m.bytes| && PageOf(addr + n - 1) == PageOf(addr) < |m.flags|
    ensures ExecuteLoad(m, addr, n) == if m.flags[PageOf(addr)].executable then Ok(LittleEndian(Slice(m.bytes, addr, n)))
                                       else Err(WriteOnExecutable(PageOf(addr)))
  {
  }

  /** At an even address both ways read the same bits or fail alike. */
  lemma {:induction false} FastPathAgrees(m: Memory, pc: U64)
    requires pc % 2 == 0 && pc < |m.bytes|
    ensures DecodeBits(m, pc) == FetchBits(m, pc)
  {
    hide ExecuteLoad, LittleEndian, PageOf;
    if pc % PAGE < PAGE - 2 {
      InsidePage(m, pc);
      FetchInPage(m, pc, 4);
      FetchInPage(m, pc, 2);
      FetchInPage(m, pc + 2, 2);
      WordOfHalves(m.bytes, pc);
      HalvesMod(LittleEndian(Slice(m.bytes, pc, 2)), LittleEndian(Slice(m.bytes, pc + 2, 2)));
    }
  }

  lemma {:induction false} InsidePage(m: Memory, pc: U64)
    requires pc % 2 == 0 && pc < |m.bytes| && pc % PAGE < PAGE - 2
    ensures PageOf(pc) < |m.flags| && pc + 4 <= |m.bytes|
    ensures PageOf(pc + 1) == PageOf(pc + 2) == PageOf(pc + 3) == PageOf(pc)
  {
  }

  /** An uncached decode that reads one halfword at a time. */
  function DecodeHalfwords(env: Env, m: Memory, pc: U64): Result<RawInst>
  {
    if pc >= |m.bytes| then Err(OutOfBound(pc))
    else
      match FetchBits(m, pc)
      case Err(e) => Err(e)
      case Ok(bits) =>
        match FirstMatch(env.factories, bits)
        case Some(i) => Ok(i)
        case None => Err(InvalidInstruction(pc, bits))
  }

  lemma {:induction false} HalfwordsAgree(env: Env, m: Memory, pc: U64)
    requires pc % 2 == 0
    ensures DecodeRaw(env, m, pc) == DecodeHalfwords(env, m, pc)
  {
    hide DecodeBits, FetchBits;
    if pc < |m.bytes| { FastPathAgrees(m, pc); }
  }

  // ---------------------------------------------------------------- code that cannot change

  /** Executable pages are frozen, as the segment loader makes them. */
  ghost predicate ExecutableIsFrozen(m: Memory) {
    forall p :: 0 <= p < |m.flags| && m.flags[p].executable ==> m.flags[p].freezed
  }

  /** Every page that was executable still is, with the same bytes. */
  ghost predicate CodeKept(m: Memory, m': Memory) {
    |m'.flags| == |m.flags|
    && forall p :: 0 <= p < |m.flags| && m.flags[p].executable ==>
         m'.flags[p].executable && PageBytes(m', p) == PageBytes(m, p)
  }

  /** Flag arguments a loader passes, and no clearing of permissions. */
  predicate KeepsPermissions(op: Op) {
    match op
    case OpInit(_, _, f, _, _) => f.executable ==> f.freezed
    case OpSetFlag(_, f) => f.executable ==> f.freezed
    case OpClearFlag(_, f) => !f.executable && !f.freezed
    case _ => true
  }

  /** `convert_flags`: executable segments are frozen and never writable, writable ones can be loaded again. */
  function ConvertFlags(readable: bool, writable: bool, executable: bool, allowFreezeWritable: bool): (r: Option<Flags>)
    ensures r.Some? && r.value.executable ==> r.value.freezed && !writable
    ensures r.Some? && writable && !allowFreezeWritable ==> r.value == NO_FLAGS
    ensures r.None? <==> !readable || (writable && executable)
  {
    if !readable || (writable && executable) then None
    else if executable then Some(EXECUTABLE.Or(FREEZED))
    else if writable && !allowFreezeWritable then Some(NO_FLAGS)
    else Some(FREEZED)
  }

  lemma {:induction false} PutKeepsCode(m: Memory, addr: nat, data: seq<Byte>)
    requires data != [] && InRange(m, addr, |data|) && Blocked(m.flags, PageOf(addr), LastPage(addr, |data|), WRITABLE).None?
    ensures CodeKept(m, Put(m, addr, data))
    ensures ExecutableIsFrozen(m) ==> ExecutableIsFrozen(Put(m, addr, data))
  {
    hide PageBytes, LastPage;
    forall p | 0 <= p < |m.flags| && m.flags[p].executable
      ensures Put(m, addr, data).flags[p].executable && PageBytes(Put(m, addr, data), p) == PageBytes(m, p)
    {
      PutPage(m, addr, data, p);
    }
  }

  lemma {:induction false} StoreKeepsCode(m: Memory, addr: U64, data: seq<Byte>)
    requires |data| < TWO64
    ensures CodeKept(m, StoreBytes(m, addr, data).mem)
    ensures ExecutableIsFrozen(m) ==> ExecutableIsFrozen(StoreBytes(m, addr, data).mem)
  {
    hide Put, CodeKept, ExecutableIsFrozen;
    SelfKept(m);
    if StoreBytes(m, addr, data).error.None? && data != [] { PutKeepsCode(m, addr, data); }
  }

  lemma {:induction false} SelfKept(m: Memory)
    ensures CodeKept(m, m)
  {
  }

  lemma {:induction false} FlagsKeepCode(m: Memory, flags: seq<Flags>)
    requires |flags| == |m.flags| && forall p :: 0 <= p < |flags| ==> m.flags[p].executable ==> flags[p].executable
    ensures CodeKept(m, m.(flags := flags))
  {
  }

  lemma {:induction false} InitKeepsCode(m: Memory, addr: U64, size: U64, f: Flags, source: seq<Byte>, offset: U64)
    requires ExecutableIsFrozen(m) && (f.executable ==> f.freezed)
    ensures CodeKept(m, InitPages(m, addr, size, f, source, offset).mem)
    ensures ExecutableIsFrozen(InitPages(m, addr, size, f, source, offset).mem)
  {
    hide Put, PageBytes, Image, FirstFreezed;
    SelfKept(m);
    if InitError(m, addr, size, offset).None? {
      var first: nat, last: int := PageOf(addr), PageOf(addr + size) - 1;
      var frozen := FirstFreezed(m.flags, first, last);
      var stop: int := if frozen.Some? then frozen.value - 1 else last;
      FlagsKeepCode(m, Mark(m.flags, first, stop, f));
      if frozen.None? && size > 0 {
        var marked: Memory := m.(flags := Mark(m.flags, first, last, f));
        FilledKeepsCode(m, marked, addr, Image(size, source, offset), first, last);
      }
    }
  }

  /** Filling pages none of which was executable before they were marked. */
  lemma {:induction false} FilledKeepsCode(m: Memory, marked: Memory, addr: nat, image: seq<Byte>, first: nat, last: int)
    requires image != [] && InRange(m, addr, |image|) && first == PageOf(addr) && last == LastPage(addr, |image|)
    requires marked == m.(flags := marked.flags) && CodeKept(m, marked) && ExecutableIsFrozen(marked)
    requires |marked.flags| == |m.flags| && forall p :: first <= p <= last && p < |m.flags| ==> !m.flags[p].executable
    ensures CodeKept(m, Put(marked, addr, image)) && ExecutableIsFrozen(Put(marked, addr, image))
  {
  }

  /** No memory operation changes a byte of a frozen executable page. */
  lemma {:induction false} OpKeepsCode(m: Memory, op: Op)
    requires ExecutableIsFrozen(m) && Feasible(op) && KeepsPermissions(op)
    ensures CodeKept(m, Apply(m, op).0) && ExecutableIsFrozen(Apply(m, op).0)
  {
    hide InitPages, StoreBytes, Put, PageBytes, StoreError;
    match op {
      case OpInit(a, s, f, src, o) => InitKeepsCode(m, a, s, f, src, o);
      case OpSetFlag(p, f) => FlagsKeepCode(m, SetFlag(m, p, f).mem.flags);
      case OpClearFlag(p, f) => FlagsKeepCode(m, ClearFlag(m, p, f).mem.flags);
      case OpStoreBytes(a, d) => StoreKeepsCode(m, a, d);
      case OpStoreByte(a, s, v) => StoreByteKeepsCode(m, a, s, v);
      case OpStore(a, w, v) => StoreKeepsCode(m, a, ToLittleEndian(v, w.Bytes()));
      case OpSetLr(v) => LrKeepsCode(m, v);
      case _ => SelfKept(m);
    }
  }

  lemma {:induction false} StoreByteKeepsCode(m: Memory, addr: U64, size: U64, value: Byte)
    ensures CodeKept(m, StoreByte(m, addr, size, value).mem)
    ensures ExecutableIsFrozen(m) ==> ExecutableIsFrozen(StoreByte(m, addr, size, value).mem)
  {
    hide Put, StoreError, CodeKept, ExecutableIsFrozen;
    StoreKeepsCode(m, addr, Repeat(size, value));
    assert StoreByte(m, addr, size, value) == StoreBytes(m, addr, Repeat(size, value));
  }

  lemma {:induction false} LrKeepsCode(m: Memory, lr: U64)
    ensures CodeKept(m, m.(lr := lr)) && (ExecutableIsFrozen(m) ==> ExecutableIsFrozen(m.(lr := lr)))
  {
  }

  lemma {:induction false} KeptTwice(m: Memory, m': Memory, m'': Memory)
    requires CodeKept(m, m') && CodeKept(m', m'')
    ensures CodeKept(m, m'')
  {
  }

  /** Nor does any sequence of operations. */
  lemma {:induction false} RunKeepsCode(m: Memory, ops: seq<Op>)
    requires ExecutableIsFrozen(m) && forall op :: op in ops ==> Feasible(op) && KeepsPermissions(op)
    ensures CodeKept(m, Run(m, ops).0) && ExecutableIsFrozen(Run(m, ops).0)
    decreases |ops|
  {
    hide CodeKept, ExecutableIsFrozen, Apply;
    if ops == [] {
      SelfKept(m);
    } else {
      var before := ops[..|ops| - 1];
      RunKeepsCode(m, before);
      var m1 := Run(m, before).0;
      OpKeepsCode(m1, ops[|ops| - 1]);
      KeptTwice(m, m1, Apply(m1, ops[|ops| - 1]).0);
    }
  }

  // ---------------------------------------------------------------- decoding again

  /** A fetch that succeeded succeeds again with the same bits. */
  lemma {:induction false} FetchKept(m: Memory, m': Memory, addr: U64, n: nat)
    requires CodeKept(m, m') && 0 < n <= 8 && ExecuteLoad(m, addr, n).Ok?
    ensures ExecuteLoad(m', addr, n) == ExecuteLoad(m, addr, n)
  {
    hide LittleEndian, PageBytes;
    CheckNoOverflowExact(m, addr, n);
    forall a | addr <= a < addr + n ensures m'.bytes[a] == m.bytes[a] { ByteKept(m, m', addr, n, a); }
    assert Slice(m'.bytes, addr, n) == Slice(m.bytes, addr, n);
  }

  lemma {:induction false} ByteKept(m: Memory, m': Memory, addr: U64, n: nat, a: nat)
    requires CodeKept(m, m') && 0 < n <= 8 && addr + n <= |m.bytes| && addr <= a < addr + n
    requires forall p: nat :: PageOf(addr) <= p <= LastPage(addr, n) ==> p < |m.flags| && m.flags[p].executable
    ensures m'.bytes[a] == m.bytes[a]
  {
    AddressParts(a);
    var page, offset := PageOf(a), OffsetOf(a);
    assert PageOf(addr) <= page <= LastPage(addr, n);
    assert PageBytes(m', page)[offset] == PageBytes(m, page)[offset];
  }

  lemma {:induction false} DecodeKept(env: Env, m: Memory, m': Memory, pc: U64)
    requires CodeKept(m, m') && Machine.DecodeRaw(env, m, pc).Ok?
    ensures Machine.DecodeRaw(env, m', pc) == Machine.DecodeRaw(env, m, pc)
  {
    hide ExecuteLoad, FirstMatch, CodeKept;
    SameSize(m, m');
    if pc % PAGE < PAGE - 2 {
      FetchKept(m, m', pc, 4);
    } else {
      FetchKept(m, m', pc, 2);
      if ExecuteLoad(m, pc, 2).value % 4 == 3 { FetchKept(m, m', pc + 2, 2); }
    }
  }

  lemma {:induction false} SameSize(m: Memory, m': Memory)
    requires CodeKept(m, m')
    ensures |m'.bytes| == |m.bytes|
  {
  }

  // ---------------------------------------------------------------- the cache

  /** The cache slot of a pc: a local region and some remote code. */
  function CacheKey(pc: U64): (k: nat)
    ensures k < INSTRUCTION_CACHE_SIZE
  {
    (pc / 2 % 0x100 + pc / 2 / 0x1000 * 0x100) % INSTRUCTION_CACHE_SIZE
  }

  class DefaultDecoder {
    const env: Env
    const mop: bool
    const instructionsCache: array<(U64, RawInst)>

    ghost predicate Valid() { instructionsCache.Length == INSTRUCTION_CACHE_SIZE }

    /** Every entry that is in use is what decoding gives. */
    ghost predicate Coherent(m: Memory)
      requires Valid()
      reads instructionsCache
    {
      forall k :: 0 <= k < INSTRUCTION_CACHE_SIZE ==> EntryCoherent(m, instructionsCache[k])
    }

    ghost predicate EntryCoherent(m: Memory, entry: (U64, RawInst)) {
      entry.0 == U64_MAX || Machine.DecodeRaw(env, m, entry.0) == Ok(entry.1)
    }

    constructor (env: Env, mop: bool)
      ensures Valid() && this.env == env && this.mop == mop && fresh(instructionsCache) && forall m :: Coherent(m)
    {
      this.env, this.mop := env, mop;
      instructionsCache := new (U64, RawInst)[INSTRUCTION_CACHE_SIZE](i => (U64_MAX, Inst(Fence, 4)));
    }

    method ResetInstructionsCache()
      requires Valid()
      modifies instructionsCache
      ensures forall m :: Coherent(m)
    {
      forall k | 0 <= k < INSTRUCTION_CACHE_SIZE { instructionsCache[k] := (U64_MAX, Inst(Fence, 4)); }
    }

    /** `decode_bits`, through the fetches of the memory. */
    method FetchInstruction(memory: WXorXMemory, pc: U64) returns (r: Result<U32>)
      requires memory.Valid()
      modifies memory.inner.Repr()
      ensures memory.Valid() && memory.Memory() == old(memory.Memory()) && r == DecodeBits(memory.Memory(), pc)
    {
      hide memory.Memory, memory.Valid, ExecuteLoad;
      if pc % PAGE < PAGE - 2 {
        var word := memory.ExecuteLoad(pc, 4);
        if word.Err? {
          return Err(word.error);
        }
        FetchBound(memory.Memory(), pc, 4);
        assert Pow256(4) == TWO32;
        return Ok(if word.value % 4 != 3 then word.value % 0x10000 else word.value);
      }
      var low := memory.ExecuteLoad(pc, 2);
      if low.Err? {
        return Err(low.error);
      }
      FetchBound(memory.Memory(), pc, 2);
      assert Pow256(2) == 0x10000;
      if low.value % 4 != 3 {
        return Ok(low.value);
      }
      NextHalf(memory.Memory(), pc);
      var high := memory.ExecuteLoad(pc + 2, 2);
      if high.Err? {
        return Err(high.error);
      }
      FetchBound(memory.Memory(), pc + 2, 2);
      return Ok(low.value + 0x10000 * high.value);
    }

    /** The cache never changes what is decoded, at any pc. */
    method DecodeRaw(memory: WXorXMemory, pc: U64) returns (r: Result<RawInst>)
      requires Valid() && memory.Valid() && Coherent(memory.Memory())
      modifies instructionsCache, memory.inner.Repr()
      ensures memory.Valid() && memory.Memory() == old(memory.Memory())
      ensures Coherent(memory.Memory()) && r == Machine.DecodeRaw(env, memory.Memory(), pc)
    {
      hide DecodeBits, CacheKey, memory.Memory, memory.Valid;
      ghost var m := memory.Memory();
      var size := memory.MemorySize();
      if pc >= size {
        return Err(OutOfBound(pc));
      }
      var key := CacheKey(pc);
      var cached := instructionsCache[key];
      if cached.0 == pc {
        assert EntryCoherent(m, cached);
        return Ok(cached.1);
      }
      var bits := FetchInstruction(memory, pc);
      if bits.Err? {
        return Err(bits.error);
      }
      var i := FirstMatch(env.factories, bits.value);
      if i.None? {
        return Err(InvalidInstruction(pc, bits.value));
      }
      instructionsCache[key] := (pc, i.value);
      return Ok(i.value);
    }

    /** Fusion over cached decoding. */
    method Decode(memory: WXorXMemory, pc: U64) returns (r: Result<Inst>)
      requires Valid() && memory.Valid() && Coherent(memory.Memory())
      modifies instructionsCache, memory.inner.Repr()
      ensures memory.Valid() && memory.Memory() == old(memory.Memory()) && Coherent(memory.Memory())
      ensures r == if mop then DecodeMop(env, memory.Memory(), pc) else Machine.DecodeRaw(env, memory.Memory(), pc)
    {
      hide Coherent, Machine.DecodeRaw, Fuse, Window, memory.Memory, memory.Valid;
      var head := DecodeRaw(memory, pc);
      if head.Err? {
        return Err(head.error);
      }
      if !mop {
        return Ok(head.value);
      }
      WindowHead(env, memory.Memory(), pc, LOOKAHEAD);
      var w := LookAhead(memory, pc, LOOKAHEAD);
      var fused := Fuse(env.version, pc, w);
      return Ok(if fused.Some? then fused.value else head.value);
    }

    method LookAhead(memory: WXorXMemory, pc: U64, limit: nat) returns (w: seq<RawInst>)
      requires Valid() && memory.Valid() && Coherent(memory.Memory())
      modifies instructionsCache, memory.inner.Repr()
      ensures memory.Valid() && memory.Memory() == old(memory.Memory()) && Coherent(memory.Memory())
      ensures w == Window(env, memory.Memory(), pc, limit)
    {
      hide Coherent, Machine.DecodeRaw, Window, Length, memory.Memory, memory.Valid;
      ghost var m := memory.Memory();
      w := [];
      WindowStart(env, m, pc);
      for n := 0 to limit
        invariant memory.Valid() && memory.Memory() == m && Coherent(m) && w == Window(env, m, pc, n)
      {
        WindowNext(env, m, pc, n);
        var at := pc + Length(w, |w|);
        if |w| == n && at < TWO64 {
          var i := DecodeRaw(memory, at);
          if i.Ok? {
            w := w + [i.value];
          }
        }
      }
    }

    /** As long as code is kept, so is the cache: it need not be looked at between two decodes. */
    lemma {:induction false} StaysCoherent(m: Memory, m': Memory)
      requires Valid() && Coherent(m) && CodeKept(m, m')
      ensures Coherent(m')
    {
      hide Machine.DecodeRaw, CodeKept;
      forall k | 0 <= k < INSTRUCTION_CACHE_SIZE ensures EntryCoherent(m', instructionsCache[k]) {
        var entry := instructionsCache[k];
        assert EntryCoherent(m, entry);
        if entry.0 != U64_MAX { DecodeKept(env, m, m', entry.0); }
      }
    }
  }

  lemma {:induction false} WindowStart(env: Env, m: Memory, pc: U64)
    ensures Window(env, m, pc, 0) == []
  {
  }

  lemma {:induction false} WindowNext(env: Env, m: Memory, pc: U64, n: nat)
    ensures var w := Window(env, m, pc, n);
            var at := pc + Length(w, |w|);
            Window(env, m, pc, n + 1) ==
            if |w| == n && at < TWO64 && Machine.DecodeRaw(env, m, at).Ok? then w + [Machine.DecodeRaw(env, m, at).value] else w
  {
    hide Machine.DecodeRaw, Length;
  }

  predicate Even(pc: nat) { pc % 2 == 0 }

  lemma {:induction false} EvenLength(pc: nat, w: seq<RawInst>, n: nat)
    requires Even(pc) && n <= |w|
    ensures Even(pc + Length(w, n))
  {
    if n > 0 { EvenLength(pc, w, n - 1); }
  }

  /**
   After any operations on the memory the cached decoder gives what an uncached one gives, and at an even pc
   what fetching one halfword at a time gives.
   */
  method DecodeAfter(decoder: DefaultDecoder, memory: WXorXMemory, ops: seq<Op>, pc: U64) returns (r: Result<Inst>)
    requires decoder.Valid() && memory.Valid() && decoder.Coherent(memory.Memory())
    requires ExecutableIsFrozen(memory.Memory()) && forall op :: op in ops ==> Feasible(op) && KeepsPermissions(op)
    modifies decoder.instructionsCache, memory.inner.Repr()
    ensures memory.Valid() && memory.Memory() == Run(old(memory.Memory()), ops).0
    ensures decoder.Coherent(memory.Memory()) && ExecutableIsFrozen(memory.Memory())
    ensures r == if decoder.mop then DecodeMop(decoder.env, memory.Memory(), pc) else Machine.DecodeRaw(decoder.env, memory.Memory(), pc)
    ensures Even(pc) ==> Machine.DecodeRaw(decoder.env, memory.Memory(), pc) == DecodeHalfwords(decoder.env, memory.Memory(), pc)
  {
    hide Run, DecodeMop, CodeKept, ExecutableIsFrozen, Machine.DecodeRaw, DecodeHalfwords, memory.Memory, memory.Valid, decoder.Coherent;
    ghost var m := memory.Memory();
    RunKeepsCode(m, ops);
    var replies := memory.PerformAll(ops);
    decoder.StaysCoherent(m, memory.Memory());
    r := decoder.Decode(memory, pc);
    if Even(pc) { HalfwordsAgree(decoder.env, memory.Memory(), pc); }
  }

  /** A halfword that was fetched is followed by an address. */
  lemma {:induction false} NextHalf(m: Memory, pc: U64)
    requires ExecuteLoad(m, pc, 2).Ok?
    ensures pc + 2 < TWO64
  {
  }
}
