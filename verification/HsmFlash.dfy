/** The wolfHSM flash callbacks over one flash partition (src/port/stm32h563/hsm_flash.c). Stores are
    byte overwrites; what the hardware does with an erase command is `Decode`. */
module HsmFlash {
  import opened Base

  const UNIT := 16
  const SECTOR := 0x2000
  const NS_BASE := 0x0800_0000
  const BANK2_NS := 0x0810_0000
  const TOP_NS := 0x081F_FFFF
  const BANK_SECTORS := 128
  const SECURE_BIT := 0x0400_0000

  datatype Status = Ok | BadArgs | Locked | Failed | NotVerified | NotBlank

  /** One erase command: the bank-select bit and the sector number within the bank. */
  datatype Command = Command(bank: nat, sector: int)

  // ---------------------------------------------------------------- specification

  /** wt_flash_range_ok, in 32-bit arithmetic. */
  predicate RangeOk(total: u32, offset: u32, size: u32) {
    offset <= total && size <= total - offset
  }

  /** Old contents with exactly [offset, offset + |data|) replaced. */
  function Programmed(mem: seq<u8>, offset: nat, data: seq<u8>): (r: seq<u8>)
    requires offset + |data| <= |mem|
    ensures |r| == |mem|
  {
    mem[..offset] + data + mem[offset + |data|..]
  }

  function Fill(n: nat): (r: seq<u8>)
    ensures |r| == n && forall i :: 0 <= i < n ==> r[i] == 0xFF
  {
    seq(n, i => 0xFF)
  }

  /** wt_flash_ns_addr: the Non-secure alias. */
  function NsAddr(addr: nat): nat {
    if addr / SECURE_BIT % 2 == 1 then addr - SECURE_BIT else addr
  }

  /** The command the erase loop issues for the sector at this address. */
  function CommandFor(addr: nat, swap: bool): Command {
    var ns := NsAddr(addr);
    var sector := (ns - NS_BASE) / SECTOR;
    var upper := BANK2_NS <= ns <= TOP_NS;
    Command(if upper != swap then 1 else 0, if upper then sector - BANK_SECTORS else sector)
  }

  /** The Non-secure address of the sector the hardware erases for a command. */
  function Decode(c: Command, swap: bool): int {
    NS_BASE + (if (c.bank == 1) != swap then BANK_SECTORS else 0) * SECTOR + c.sector * SECTOR
  }

  /** The partition lies on whole sectors inside the two banks, addressed through the Secure alias. */
  predicate Placed(base: nat, size: nat) {
    && base >= NS_BASE + SECURE_BIT && base + size <= TOP_NS + 1 + SECURE_BIT
    && base % SECTOR == 0 && size % SECTOR == 0
  }

  /** Every command for a sector of the partition is well formed, and the hardware erases exactly the
      sector meant, whether the banks are swapped or not. */
  lemma CommandHitsItsSector(base: nat, size: nat, offset: nat, swap: bool)
    requires Placed(base, size) && offset < size && offset % SECTOR == 0
    ensures var c := CommandFor(base + offset, swap);
            && c.bank < 2 && 0 <= c.sector < BANK_SECTORS
            && Decode(c, swap) == base + offset - SECURE_BIT
  {
    var addr := base + offset;
    assert addr / SECURE_BIT == 3 && NsAddr(addr) == addr - SECURE_BIT;
    assert (addr - SECURE_BIT - NS_BASE) % SECTOR == 0;
  }

  /** Different sectors get different commands. */
  lemma CommandsDiffer(base: nat, size: nat, a: nat, b: nat, swap: bool)
    requires Placed(base, size) && a < size && b < size && a % SECTOR == 0 && b % SECTOR == 0 && a != b
    ensures CommandFor(base + a, swap) != CommandFor(base + b, swap)
  {
    CommandHitsItsSector(base, size, a, swap);
    CommandHitsItsSector(base, size, b, swap);
  }

  /** What was programmed reads back, and every byte outside the range reads as before. */
  lemma ProgrammedReadsBack(mem: seq<u8>, offset: nat, data: seq<u8>, o: nat, n: nat)
    requires offset + |data| <= |mem| && o + n <= |mem|
    ensures Programmed(mem, offset, data)[offset..offset + |data|] == data
    ensures o + n <= offset || offset + |data| <= o ==> Programmed(mem, offset, data)[o..o + n] == mem[o..o + n]
  {
    var m := Programmed(mem, offset, data);
    if o + n <= offset || offset + |data| <= o {
      assert forall k :: o <= k < o + n ==> m[k] == mem[k];
    }
  }

  /** Programming in two pieces is programming at once. */
  lemma ProgrammedInPieces(mem: seq<u8>, offset: nat, a: seq<u8>, b: seq<u8>)
    requires offset + |a| + |b| <= |mem|
    ensures Programmed(Programmed(mem, offset, a), offset + |a|, b) == Programmed(mem, offset, a + b)
  {}

  /** Writing back a unit of which only a part was replaced replaces only that part. */
  lemma UnitWriteBack(mem: seq<u8>, at: nat, off: nat, part: seq<u8>)
    requires at + UNIT <= |mem| && off + |part| <= UNIT
    ensures Programmed(mem, at, Programmed(mem[at..at + UNIT], off, part)) == Programmed(mem, at + off, part)
  {
    var w := Programmed(mem[at..at + UNIT], off, part);
    var l, r := Programmed(mem, at, w), Programmed(mem, at + off, part);
    forall k | 0 <= k < |mem| ensures l[k] == r[k] {
      if at <= k < at + UNIT { assert l[k] == w[k - at]; }
    }
  }

  /** The aligned unit around byte x of the partition lies inside the partition. */
  lemma UnitPlace(base: nat, size: nat, x: nat)
    requires base % UNIT == 0 && size % UNIT == 0 && x < size
    ensures (base + x) % UNIT == x % UNIT
    ensures (base + x) - (base + x) % UNIT - base == x - x % UNIT
    ensures x - x % UNIT + UNIT <= size
  {}

  /** Whole sectors are whole units. */
  lemma SectorsAreUnits(size: nat)
    requires size % SECTOR == 0
    ensures size % UNIT == 0
  {}

  /** How many units a range touches. */
  function UnitCount(offset: nat, size: nat): nat {
    if size == 0 then 0 else (offset % UNIT + size + UNIT - 1) / UNIT
  }

  /** Bytes of the range before its n-th unit. */
  function BytesBefore(offset: nat, n: nat): nat {
    if n == 0 then 0 else UNIT * n - offset % UNIT
  }

  /** One round takes the rest of a unit, or the rest of the data. */
  function ChunkAt(offset: nat, size: nat, written: nat): nat
    requires written <= size
  {
    if UNIT - (offset + written) % UNIT > size - written then size - written else UNIT - (offset + written) % UNIT
  }

  /** The units that hold a byte of the range: as many as there are between that of the first byte and that
      of the last one; the n-th of them begins where the code says. */
  lemma UnitsAreTouched(offset: nat, size: nat, n: nat)
    ensures size > 0 ==> UnitCount(offset, size) == (offset + size - 1) / UNIT - offset / UNIT + 1
    ensures size == 0 ==> UnitCount(offset, size) == 0
    ensures n > 0 ==> offset + BytesBefore(offset, n) == UNIT * (offset / UNIT + n)
    ensures BytesBefore(offset, 0) == 0
  {}

  lemma NextUnit(offset: nat, size: nat, written: nat, n: nat)
    requires written < size && written == BytesBefore(offset, n)
    ensures n < UnitCount(offset, size)
    ensures var w := written + ChunkAt(offset, size, written);
            if w < size then w == BytesBefore(offset, n + 1) else w == size && n + 1 == UnitCount(offset, size)
  {
    var q := offset / UNIT;
    assert offset == UNIT * q + offset % UNIT;
    if n > 0 { assert offset + written == UNIT * (q + n); }
  }

  // ---------------------------------------------------------------- the context object

  /** What the hardware reports: nothing wrong, or an error at the n-th unit or sector of a call,
      which then holds `left`. */
  datatype Health = Healthy | FailsAt(n: nat, left: seq<u8>)

  /** The first n bytes of the data are in place, and nothing else changed. */
  ghost predicate WrittenTo(was: seq<u8>, mem: seq<u8>, offset: nat, data: seq<u8>, n: nat) {
    n <= |data| && offset + |data| <= |was| && mem == Programmed(was, offset, data[..n])
  }

  lemma WrittenOn(was: seq<u8>, mem: seq<u8>, offset: nat, data: seq<u8>, written: nat, chunk: nat)
    requires WrittenTo(was, mem, offset, data, written) && written + chunk <= |data|
    ensures offset + written + chunk <= |mem|
    ensures WrittenTo(was, Programmed(mem, offset + written, data[written..written + chunk]), offset, data, written + chunk)
  {
    ProgrammedInPieces(was, offset, data[..written], data[written..written + chunk]);
    assert data[..written] + data[written..written + chunk] == data[..written + chunk];
  }

  lemma WrittenEnds(was: seq<u8>, mem: seq<u8>, offset: nat, data: seq<u8>)
    requires offset + |data| <= |was|
    ensures mem == was ==> WrittenTo(was, mem, offset, data, 0)
    ensures WrittenTo(was, mem, offset, data, |data|) ==> mem == Programmed(was, offset, data)
  {
    assert data[..|data|] == data;
    assert Programmed(was, offset, data[..0]) == was;
  }

  /** A failed call: `done` bytes of the data are in place, and the unit behind them is left over. */
  ghost predicate FailedAt(was: seq<u8>, mem: seq<u8>, offset: nat, data: seq<u8>, done: nat, hw: Health) {
    && hw.FailsAt? && |hw.left| == UNIT && done < |data| && offset + |data| <= |was|
    && var at := (offset + done) - (offset + done) % UNIT;
       at + UNIT <= |was| && mem == Programmed(Programmed(was, offset, data[..done]), at, hw.left)
  }

  /** n sectors from `offset` upwards are erased one after another. */
  ghost function Erased(was: seq<u8>, offset: nat, n: nat): (r: seq<u8>)
    requires offset + SECTOR * n <= |was|
    ensures |r| == |was|
  {
    if n == 0 then was else Programmed(Erased(was, offset, n - 1), offset + SECTOR * (n - 1), Fill(SECTOR))
  }

  /** That is, exactly their bytes are blank and nothing else changed. */
  lemma {:induction false} ErasedIsBlank(was: seq<u8>, offset: nat, n: nat)
    requires offset + SECTOR * n <= |was|
    ensures Erased(was, offset, n) == Programmed(was, offset, Fill(SECTOR * n))
  {
    if n > 0 {
      ErasedIsBlank(was, offset, n - 1);
      ProgrammedInPieces(was, offset, Fill(SECTOR * (n - 1)), Fill(SECTOR));
      assert Fill(SECTOR * (n - 1)) + Fill(SECTOR) == Fill(SECTOR * n);
    } else {
      assert Programmed(was, offset, Fill(0)) == was;
    }
  }

  /** One command per sector, for the first n sectors from `offset` upwards. */
  function Commands(base: nat, offset: nat, swap: bool, n: nat): (r: seq<Command>)
    ensures |r| == n && forall k {:trigger r[k]} :: 0 <= k < n ==> r[k] == CommandFor(base + offset + SECTOR * k, swap)
  {
    seq(n, k requires 0 <= k < n => CommandFor(base + offset + SECTOR * k, swap))
  }

  lemma CommandsGrow(base: nat, offset: nat, swap: bool, n: nat)
    ensures Commands(base, offset, swap, n) + [CommandFor(base + offset + SECTOR * n, swap)] == Commands(base, offset, swap, n + 1)
  {}

  /** The commands of one erase are pairwise distinct: no sector is erased twice. */
  lemma ErasesEachSectorOnce(base: nat, size: nat, offset: nat, swap: bool, n: nat)
    requires Placed(base, size) && offset % SECTOR == 0 && offset + SECTOR * n <= size
    ensures Distinct(Commands(base, offset, swap, n))
    ensures forall k {:trigger Commands(base, offset, swap, n)[k]} :: 0 <= k < n ==>
              var c := Commands(base, offset, swap, n)[k];
              c.bank < 2 && 0 <= c.sector < BANK_SECTORS
  {
    var issued := Commands(base, offset, swap, n);
    forall i, j | 0 <= i < j < n ensures issued[i] != issued[j] {
      CommandsDiffer(base, size, offset + SECTOR * i, offset + SECTOR * j, swap);
    }
    forall k | 0 <= k < n ensures issued[k].bank < 2 && 0 <= issued[k].sector < BANK_SECTORS {
      CommandHitsItsSector(base, size, offset + SECTOR * k, swap);
    }
  }

  class Flash {
    const mem: array<u8>
    const base: nat
    var writeLocked: bool

    predicate Valid() {
      base % UNIT == 0 && mem.Length % UNIT == 0 && mem.Length < TWO32
    }

    /** wt_hsm_flash_init with the partition's configuration. */
    constructor (mem: array<u8>, base: nat)
      requires base % UNIT == 0 && mem.Length % SECTOR == 0 && mem.Length < TWO32
      ensures Valid() && this.mem == mem && this.base == base && !writeLocked
    {
      SectorsAreUnits(mem.Length);
      this.mem, this.base, writeLocked := mem, base, false;
    }

    method Read(offset: u32, size: u32) returns (r: Status, data: seq<u8>)
      requires Valid()
      ensures r == if offset + size <= mem.Length then Ok else BadArgs
      ensures r == Ok ==> data == mem[offset..offset + size]
    {
      if !RangeOk(mem.Length, offset, size) { return BadArgs, []; }
      return Ok, mem[offset..offset + size];
    }

    /** The four word stores to one unit. */
    method WriteUnit(at: nat, word: seq<u8>)
      requires |word| == UNIT && at + UNIT <= mem.Length
      modifies mem
      ensures mem[..] == Programmed(old(mem[..]), at, word)
    {
      var k := 0;
      while k < UNIT
        invariant 0 <= k <= UNIT && k % 4 == 0
        invariant forall j :: 0 <= j < mem.Length ==> mem[j] == if at <= j < at + k then word[j - at] else old(mem[j])
      {
        mem[at + k], mem[at + k + 1], mem[at + k + 2], mem[at + k + 3] := word[k], word[k + 1], word[k + 2], word[k + 3];
        k := k + 4;
      }
    }

    /** Read the unit around byte x, replace the part at hand, write it back. */
    method RewritePart(x: nat, part: seq<u8>)
      requires Valid() && x < mem.Length && |part| <= UNIT - x % UNIT
      modifies mem
      ensures x + |part| <= mem.Length && mem[..] == Programmed(old(mem[..]), x, part)
    {
      UnitPlace(base, mem.Length, x);
      var dst := base + x;
      var aligned := dst - dst % UNIT;
      var chunkOff := dst - aligned;
      var at := aligned - base;
      var word := Programmed(mem[at..at + UNIT], chunkOff, part);
      UnitWriteBack(mem[..], at, chunkOff, part);
      WriteUnit(at, word);
    }

    /** One round of the programming loop. */
    method ProgramChunk(offset: nat, written: nat, data: seq<u8>, ghost was: seq<u8>) returns (chunk: nat)
      requires Valid() && offset + |data| <= mem.Length == |was| && written < |data|
      requires WrittenTo(was, mem[..], offset, data, written)
      modifies mem
      ensures chunk == ChunkAt(offset, |data|, written)
      ensures WrittenTo(was, mem[..], offset, data, written + chunk)
    {
      chunk := UNIT - (offset + written) % UNIT;
      if chunk > |data| - written { chunk := |data| - written; }
      WrittenOn(was, mem[..], offset, data, written, chunk);
      RewritePart(offset + written, data[written..written + chunk]);
    }

    /** The programming loop. */
    method ProgramRange(offset: nat, data: seq<u8>, hw: Health) returns (r: Status, ghost done: nat)
      requires Valid() && offset + |data| <= mem.Length
      requires hw.FailsAt? ==> |hw.left| == UNIT
      modifies mem
      ensures r == if hw.FailsAt? && hw.n < UnitCount(offset, |data|) then Failed else Ok
      ensures r == Ok ==> mem[..] == Programmed(old(mem[..]), offset, data)
      ensures r == Failed ==> done == BytesBefore(offset, hw.n) && FailedAt(old(mem[..]), mem[..], offset, data, done, hw)
    {
      var written, units := 0, 0;
      ghost var was := mem[..];
      WrittenEnds(was, mem[..], offset, data);
      while written < |data|
        invariant 0 <= written <= |data|
        invariant WrittenTo(was, mem[..], offset, data, written)
        invariant written < |data| ==> written == BytesBefore(offset, units)
        invariant written == |data| ==> units == UnitCount(offset, |data|)
        invariant hw.FailsAt? ==> units <= hw.n
        decreases |data| - written
      {
        NextUnit(offset, |data|, written, units);
        if hw.FailsAt? && hw.n == units {
          StrikeUnit(offset, written, data, was, hw);
          return Failed, written;
        }
        var chunk := ProgramChunk(offset, written, data, was);
        written := written + chunk;
        units := units + 1;
      }
      WrittenEnds(was, mem[..], offset, data);
      return Ok, 0;
    }

    /** A unit whose programming fails is left over as the hardware pleases. */
    method StrikeUnit(offset: nat, done: nat, data: seq<u8>, ghost was: seq<u8>, hw: Health)
      requires Valid() && offset + |data| <= mem.Length == |was| && done < |data|
      requires hw.FailsAt? && |hw.left| == UNIT && WrittenTo(was, mem[..], offset, data, done)
      modifies mem
      ensures FailedAt(was, mem[..], offset, data, done, hw)
    {
      UnitPlace(base, mem.Length, offset + done);
      var dst := base + offset + done;
      WriteUnit(dst - dst % UNIT - base, hw.left);
    }

    /** wt_hsm_flash_program. Without a hardware error the range holds the data and nothing else
        changed; with one, the data before the failing unit was written, that unit holds what the
        hardware left there, and nothing else changed. */
    method Program(offset: u32, size: u32, data: seq<u8>, hw: Health) returns (r: Status, ghost done: nat)
      requires Valid() && |data| == size
      requires hw.FailsAt? ==> |hw.left| == UNIT
      modifies mem
      ensures r == BadArgs <==> !RangeOk(mem.Length, offset, size) || size % 8 != 0
      ensures r == Locked <==> r != BadArgs && size != 0 && writeLocked
      ensures r == BadArgs || r == Locked ==> mem[..] == old(mem[..])
      ensures r == Ok ==> mem[..] == Programmed(old(mem[..]), offset, data)
      ensures r == Failed <==> r != BadArgs && r != Locked && hw.FailsAt? && hw.n < UnitCount(offset, size)
      ensures r == Ok || r == BadArgs || r == Locked || r == Failed
      ensures r == Failed ==> done == BytesBefore(offset, hw.n) && FailedAt(old(mem[..]), mem[..], offset, data, done, hw)
    {
      if !RangeOk(mem.Length, offset, size) { return BadArgs, 0; }
      if size % 8 != 0 { return BadArgs, 0; }
      if size != 0 && writeLocked { return Locked, 0; }
      r, done := ProgramRange(offset, data, hw);
    }

    /** wt_hsm_flash_verify. */
    method Verify(offset: u32, size: u32, data: seq<u8>) returns (r: Status)
      requires Valid() && |data| == size
      ensures r == if offset + size > mem.Length then BadArgs
                   else if mem[offset..offset + size] == data then Ok else NotVerified
    {
      if !RangeOk(mem.Length, offset, size) { return BadArgs; }
      r := if mem[offset..offset + size] != data then NotVerified else Ok;
    }

    /** wt_hsm_flash_blank_check. */
    method BlankCheck(offset: u32, size: u32) returns (r: Status)
      requires Valid()
      ensures r == if offset + size > mem.Length then BadArgs
                   else if mem[offset..offset + size] == Fill(size) then Ok else NotBlank
    {
      if !RangeOk(mem.Length, offset, size) { return BadArgs; }
      var i := 0;
      while i < size
        invariant 0 <= i <= size
        invariant forall k :: offset <= k < offset + i ==> mem[k] == 0xFF
      {
        if mem[offset + i] != 0xFF {
          assert mem[offset..offset + size][i] != Fill(size)[i];
          return NotBlank;
        }
        i := i + 1;
      }
      assert mem[offset..offset + size] == Fill(size);
      r := Ok;
    }

    /** The hardware executes an erase command. */
    method Execute(c: Command, swap: bool)
      requires Placed(base, mem.Length) && 0 <= Decode(c, swap) - (base - SECURE_BIT) <= mem.Length - SECTOR
      modifies mem
      ensures var at := Decode(c, swap) - (base - SECURE_BIT);
              mem[..] == Programmed(old(mem[..]), at, Fill(SECTOR))
    {
      var at := Decode(c, swap) - (base - SECURE_BIT);
      var k := 0;
      while k < SECTOR
        invariant 0 <= k <= SECTOR
        invariant forall j :: 0 <= j < mem.Length ==> mem[j] == if at <= j < at + k then 0xFF else old(mem[j])
      {
        mem[at + k] := 0xFF;
        k := k + 1;
      }
    }

    /** One round of the erase loop; `struck` says that the hardware reports an error, after which the
        sector is left over as the hardware pleases. */
    method EraseSector(start: nat, swap: bool, struck: bool, left: seq<u8>) returns (c: Command)
      requires Placed(base, mem.Length) && start % SECTOR == 0 && start + SECTOR <= mem.Length
      requires struck ==> |left| == SECTOR
      modifies mem
      ensures c == CommandFor(base + start, swap)
      ensures mem[..] == Programmed(old(mem[..]), start, if struck then left else Fill(SECTOR))
    {
      CommandHitsItsSector(base, mem.Length, start, swap);
      c := CommandFor(base + start, swap);
      if struck { Leave(start, left); } else { Execute(c, swap); }
    }

    /** The erase loop. */
    method EraseRange(offset: nat, n: nat, swap: bool, hw: Health) returns (r: Status, issued: seq<Command>)
      requires Placed(base, mem.Length) && offset % SECTOR == 0 && offset + SECTOR * n <= mem.Length
      requires hw.FailsAt? ==> |hw.left| == SECTOR
      modifies mem
      ensures issued == Commands(base, offset, swap, |issued|)
      ensures r == if hw.FailsAt? && hw.n < n then Failed else Ok
      ensures r == Ok ==> |issued| == n && mem[..] == Erased(old(mem[..]), offset, n)
      ensures r == Failed ==> |issued| == hw.n + 1
      ensures r == Failed ==> mem[..] == Programmed(Erased(old(mem[..]), offset, hw.n), offset + SECTOR * hw.n, hw.left)
    {
      issued := [];
      var start, end := offset, offset + SECTOR * n;
      ghost var was := mem[..];
      while start < end
        invariant |issued| <= n && start == offset + SECTOR * |issued| && start % SECTOR == 0
        invariant issued == Commands(base, offset, swap, |issued|)
        invariant mem[..] == Erased(was, offset, |issued|)
        invariant hw.FailsAt? ==> |issued| <= hw.n
        decreases end - start
      {
        CommandsGrow(base, offset, swap, |issued|);
        var struck := hw.FailsAt? && hw.n == |issued|;
        var c := EraseSector(start, swap, struck, if struck then hw.left else []);
        issued := issued + [c];
        if struck { return Failed, issued; }
        start := start + SECTOR;
      }
      r := Ok;
    }

    /** wt_hsm_flash_erase; `issued` lists the commands given to the hardware. */
    method Erase(offset: u32, size: u32, swap: bool, hw: Health) returns (r: Status, issued: seq<Command>)
      requires Valid() && Placed(base, mem.Length)
      requires hw.FailsAt? ==> |hw.left| == SECTOR
      modifies mem
      ensures r == BadArgs <==> !RangeOk(mem.Length, offset, size) || offset % SECTOR != 0 || size % SECTOR != 0
      ensures r == Locked <==> r != BadArgs && size != 0 && writeLocked
      ensures r == Failed <==> r != BadArgs && r != Locked && hw.FailsAt? && hw.n < size / SECTOR
      ensures r == Ok || r == BadArgs || r == Locked || r == Failed
      ensures r == BadArgs || r == Locked ==> mem[..] == old(mem[..]) && issued == []
      ensures issued == Commands(base, offset, swap, |issued|)
      ensures r == Ok ==> |issued| == size / SECTOR && mem[..] == Programmed(old(mem[..]), offset, Fill(size))
      ensures r == Failed ==> |issued| == hw.n + 1
      ensures r == Failed ==>
        mem[..] == Programmed(Programmed(old(mem[..]), offset, Fill(SECTOR * hw.n)), offset + SECTOR * hw.n, hw.left)
    {
      issued := [];
      if !RangeOk(mem.Length, offset, size) { return BadArgs, []; }
      if offset % SECTOR != 0 || size % SECTOR != 0 { return BadArgs, []; }
      if size != 0 && writeLocked { return Locked, []; }
      if size == 0 {
        ErasedIsBlank(mem[..], offset, 0);
        return Ok, [];
      }
      var n := size / SECTOR;
      assert SECTOR * n == size;
      ErasedIsBlank(mem[..], offset, n);
      if hw.FailsAt? && hw.n < n { ErasedIsBlank(mem[..], offset, hw.n); }
      r, issued := EraseRange(offset, n, swap, hw);
    }

    /** An erase that fails leaves the sector in whatever state. */
    method Leave(at: nat, left: seq<u8>)
      requires at + |left| <= mem.Length
      modifies mem
      ensures mem[..] == Programmed(old(mem[..]), at, left)
    {
      var k := 0;
      while k < |left|
        invariant 0 <= k <= |left|
        invariant forall j :: 0 <= j < mem.Length ==> mem[j] == if at <= j < at + k then left[j - at] else old(mem[j])
      {
        mem[at + k] := left[k];
        k := k + 1;
      }
    }

    /** wt_hsm_flash_write_lock: the whole partition, whatever the range. */
    method WriteLock(offset: u32, size: u32) returns (r: Status)
      modifies this`writeLocked
      ensures r == Ok && writeLocked
    {
      writeLocked := true;
      r := Ok;
    }

    /** wt_hsm_flash_write_unlock: likewise. */
    method WriteUnlock(offset: u32, size: u32) returns (r: Status)
      modifies this`writeLocked
      ensures r == Ok && !writeLocked
    {
      writeLocked := false;
      r := Ok;
    }

    /** One call of the key store. */
    method Serve(c: Call) returns (r: Status)
      requires Valid() && Placed(base, mem.Length) && WellFormed(c)
      modifies mem, this`writeLocked
      ensures writeLocked == LockAfter(old(writeLocked), c)
      ensures r == Locked <==> Writes(mem.Length, c) && old(writeLocked)
      ensures old(writeLocked) || !Writes(mem.Length, c) ==> mem[..] == old(mem[..])
    {
      match c
      case LockCall(offset, size) => r := WriteLock(offset, size);
      case UnlockCall(offset, size) => r := WriteUnlock(offset, size);
      case ProgramCall(offset, data, hw) =>
        var p, _ := Program(offset, |data|, data, hw);
        r := p;
      case EraseCall(offset, size, swap, hw) =>
        var p, _ := Erase(offset, size, swap, hw);
        r := p;
    }
  }

  datatype Call =
    | LockCall(offset: u32, size: u32)
    | UnlockCall(offset: u32, size: u32)
    | ProgramCall(offset: u32, data: seq<u8>, hw: Health)
    | EraseCall(offset: u32, size: u32, swap: bool, hw: Health)

  predicate WellFormed(c: Call) {
    match c
    case ProgramCall(_, data, hw) => |data| < TWO32 && (hw.FailsAt? ==> |hw.left| == UNIT)
    case EraseCall(_, _, _, hw) => hw.FailsAt? ==> |hw.left| == SECTOR
    case _ => true
  }

  /** A call with good arguments that would change a byte of the partition of that size. */
  predicate Writes(size: u32, c: Call)
    requires WellFormed(c)
  {
    match c
    case ProgramCall(offset, data, _) => data != [] && RangeOk(size, offset, |data|) && |data| % 8 == 0
    case EraseCall(offset, n, _, _) => n != 0 && RangeOk(size, offset, n) && offset % SECTOR == 0 && n % SECTOR == 0
    case _ => false
  }

  function LockAfter(locked: bool, c: Call): bool {
    c.LockCall? || (locked && !c.UnlockCall?)
  }

  /** The last lock or unlock among the first k calls decides, whatever range it names. */
  function LockedAt(locked: bool, cs: seq<Call>, k: nat): bool
    requires k <= |cs|
  {
    if k == 0 then locked else LockAfter(LockedAt(locked, cs, k - 1), cs[k - 1])
  }

  /** Any sequence of calls: a program or erase is refused as locked exactly if it would write and the
      last lock or unlock before it was a lock; and the memory is as it was if all were refused so. */
  method ServeAll(f: Flash, cs: seq<Call>) returns (rs: seq<Status>)
    requires f.Valid() && Placed(f.base, f.mem.Length) && forall k :: 0 <= k < |cs| ==> WellFormed(cs[k])
    modifies f.mem, f`writeLocked
    ensures |rs| == |cs| && f.writeLocked == LockedAt(old(f.writeLocked), cs, |cs|)
    ensures forall k :: 0 <= k < |cs| ==>
              (rs[k] == Locked <==> Writes(f.mem.Length, cs[k]) && LockedAt(old(f.writeLocked), cs, k))
    ensures (forall k :: 0 <= k < |cs| && Writes(f.mem.Length, cs[k]) ==> rs[k] == Locked) ==>
              f.mem[..] == old(f.mem[..])
  {
    rs := [];
    while |rs| < |cs|
      invariant |rs| <= |cs| && f.writeLocked == LockedAt(old(f.writeLocked), cs, |rs|)
      invariant forall k :: 0 <= k < |rs| ==>
                  (rs[k] == Locked <==> Writes(f.mem.Length, cs[k]) && LockedAt(old(f.writeLocked), cs, k))
      invariant (forall k :: 0 <= k < |rs| && Writes(f.mem.Length, cs[k]) ==> rs[k] == Locked) ==>
                  f.mem[..] == old(f.mem[..])
    {
      var r := f.Serve(cs[|rs|]);
      rs := rs + [r];
    }
  }

  /** Program, verify and read agree, and an erased range is blank: the callbacks in sequence. */
  method EraseProgramVerify(f: Flash, offset: u32, size: u32, data: seq<u8>, swap: bool) returns (ok: bool)
    requires f.Valid() && Placed(f.base, f.mem.Length) && !f.writeLocked && |data| == size
    requires RangeOk(f.mem.Length, offset, size) && offset % SECTOR == 0 && size % SECTOR == 0
    modifies f.mem
    ensures ok && f.mem[..] == Programmed(old(f.mem[..]), offset, data)
  {
    var erased := EraseAndCheck(f, offset, size, swap);
    ghost var blank := f.mem[..];
    var programmed := ProgramAndCheck(f, offset, size, data);
    ProgrammedOver(old(f.mem[..]), blank, offset, data);
    ok := erased && programmed;
  }

  /** Programmed data verifies and reads back. */
  method ProgramAndCheck(f: Flash, offset: u32, size: u32, data: seq<u8>) returns (ok: bool)
    requires f.Valid() && !f.writeLocked && |data| == size && size % 8 == 0
    requires RangeOk(f.mem.Length, offset, size)
    modifies f.mem
    ensures ok && f.mem[..] == Programmed(old(f.mem[..]), offset, data)
  {
    var p, _ := f.Program(offset, size, data, Healthy);
    ProgrammedReadsBack(old(f.mem[..]), offset, data, 0, 0);
    var v := f.Verify(offset, size, data);
    var rd, back := f.Read(offset, size);
    ok := p == Ok && v == Ok && rd == Ok && back == data;
  }

  lemma ProgrammedOver(was: seq<u8>, mem: seq<u8>, offset: nat, data: seq<u8>)
    requires offset + |data| <= |was| && mem == Programmed(was, offset, Fill(|data|))
    ensures Programmed(mem, offset, data) == Programmed(was, offset, data)
  {}

  /** An erased range is blank. */
  method EraseAndCheck(f: Flash, offset: u32, size: u32, swap: bool) returns (ok: bool)
    requires f.Valid() && Placed(f.base, f.mem.Length) && !f.writeLocked
    requires RangeOk(f.mem.Length, offset, size) && offset % SECTOR == 0 && size % SECTOR == 0
    modifies f.mem
    ensures ok && f.mem[..] == Programmed(old(f.mem[..]), offset, Fill(size))
  {
    var r, _ := f.Erase(offset, size, swap, Healthy);
    ProgrammedReadsBack(old(f.mem[..]), offset, Fill(size), 0, 0);
    var blank := f.BlankCheck(offset, size);
    ok := r == Ok && blank == Ok;
  }
}
