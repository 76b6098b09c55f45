/** The reference memory: one byte array and one flag array (src/memory/flat.rs). */
module FlatMemories {
  import opened Words
  import opened PagedMemory

  class FlatMemory {
    const data: array<Byte>
    const flags: array<Flags>
    var lr: U64

    ghost predicate Valid()
    {
      data.Length == flags.Length * PAGE < TWO63
    }

    ghost function Memory(): Memory
      requires Valid()
      reads this, data, flags
    {
      Mem(data[..], flags[..], lr)
    }

    constructor (pageCount: nat)
      requires pageCount * PAGE < TWO63
      ensures Valid() && fresh(data) && fresh(flags) && Memory() == Fresh(pageCount)
    {
      data := new Byte[pageCount * PAGE](i => 0);
      flags := new Flags[pageCount](i => NO_FLAGS);
      lr := U64_MAX;
    }

    /** `set_dirty` over the pages of a range. */
    method SetDirty(first: nat, last: nat)
      requires Valid() && first <= last < flags.Length
      modifies flags
      ensures flags[..] == Mark(old(flags[..]), first, last, DIRTY)
    {
      for page := first to last + 1
        invariant flags[..] == Mark(old(flags[..]), first, page - 1, DIRTY)
      {
        flags[page] := flags[page].Or(DIRTY);
      }
    }

    method StoreBytes(addr: U64, value: seq<Byte>) returns (error: Option<Error>)
      requires Valid() && |value| < TWO63
      modifies data, flags
      ensures value == [] ==> error.None? && Memory() == old(Memory())
      ensures value != [] && InRange(old(Memory()), addr, |value|) ==> error.None? && Memory() == Put(old(Memory()), addr, value)
      ensures value != [] ==> error == CheckNoOverflow(addr, |value|, data.Length)
      ensures error.Some? ==> Memory() == old(Memory())
    {
      hide Mark;
      if value == [] {
        return None;
      }
      error := CheckNoOverflow(addr, |value|, data.Length);
      if error.Some? {
        return;
      }
      SetDirty(PageOf(addr), LastPage(addr, |value|));
      forall i | 0 <= i < |value| {
        data[addr + i] := value[i];
      }
      assert data[..] == Write(old(data[..]), addr, value);
    }

    method StoreByte(addr: U64, size: U64, value: Byte) returns (error: Option<Error>)
      requires Valid()
      modifies data, flags
      ensures size == 0 ==> error.None? && Memory() == old(Memory())
      ensures size > 0 && InRange(old(Memory()), addr, size) ==>
                error.None? && Memory() == Put(old(Memory()), addr, Repeat(size, value))
      ensures size > 0 ==> error == CheckNoOverflow(addr, size, data.Length)
      ensures error.Some? ==> Memory() == old(Memory())
    {
      hide Mark;
      if size == 0 {
        return None;
      }
      error := CheckNoOverflow(addr, size, data.Length);
      if error.Some? {
        return;
      }
      SetDirty(PageOf(addr), LastPage(addr, size));
      forall i | 0 <= i < size {
        data[addr + i] := value;
      }
      assert data[..] == Write(old(data[..]), addr, Repeat(size, value));
    }

    method LoadBytes(addr: U64, size: U64) returns (r: Result<seq<Byte>>)
      requires Valid()
      ensures r == PagedMemory.LoadBytes(Memory(), addr, size)
    {
      if size == 0 {
        return Ok([]);
      }
      var error := CheckNoOverflow(addr, size, data.Length);
      if error.Some? {
        return Err(error.value);
      }
      return Ok(data[..][addr..addr + size]);
    }

    method Load(addr: U64, bytes: nat) returns (r: Result<nat>)
      requires Valid() && 0 < bytes <= 8
      ensures r == PagedMemory.Load(Memory(), addr, bytes)
    {
      var error := CheckNoOverflow(addr, bytes, data.Length);
      if error.Some? {
        return Err(error.value);
      }
      return Ok(LittleEndian(data[..][addr..addr + bytes]));
    }

    method FetchFlag(page: U64) returns (r: Result<Flags>)
      requires Valid()
      ensures r == PagedMemory.FetchFlag(Memory(), page)
    {
      return if page < flags.Length then Ok(flags[page]) else Err(OutOfBound(Wrap(page * PAGE)));
    }

    method SetFlag(page: U64, f: Flags) returns (error: Option<Error>)
      requires Valid()
      modifies flags
      ensures Outcome(Memory(), error) == PagedMemory.SetFlag(old(Memory()), page, f)
    {
      if page >= flags.Length {
        return Some(OutOfBound(Wrap(page * PAGE)));
      }
      flags[page] := flags[page].Or(f);
      return None;
    }

    method ClearFlag(page: U64, f: Flags) returns (error: Option<Error>)
      requires Valid()
      modifies flags
      ensures Outcome(Memory(), error) == PagedMemory.ClearFlag(old(Memory()), page, f)
    {
      if page >= flags.Length {
        return Some(OutOfBound(Wrap(page * PAGE)));
      }
      flags[page] := flags[page].AndNot(f);
      return None;
    }
  }
}
