/** An opened process and the memory primitives of memory.rs: the raw
    all-or-nothing `read`/`write` and the typed accessors built on them. The
    target's address space is a byte store; `ReadProcessMemory` and
    `WriteProcessMemory` become reads and updates of it. */
module ProcessMemory {
  import opened Integers
  import opened Errors

  /** The rights a handle was opened with: `PROCESS_ALL_ACCESS` (`Process::open`)
      or `PROCESS_QUERY_INFORMATION` (`__tmp_open_ro`), which grants neither
      reading nor writing the target's memory. */
  datatype Access = Full | QueryOnly

  /** Every address in `[address, address + n)` holds a byte of the store. */
  predicate Mapped(mem: map<int, u8>, address: int, n: nat)
  {
    forall a :: address <= a < address + n ==> a in mem
  }

  /** The `n` bytes stored from `address` on. */
  function Bytes(mem: map<int, u8>, address: int, n: nat): (r: seq<u8>)
    requires Mapped(mem, address, n)
    ensures |r| == n
    ensures forall i :: 0 <= i < n ==> r[i] == mem[address + i]
  {
    seq(n, i requires 0 <= i < n => mem[address + i])
  }

  /** A read of `n` bytes: all of them, or an OS error. */
  function ReadSpec(access: Access, mem: map<int, u8>, address: int, n: nat): (r: Result<seq<u8>>)
    ensures r.Ok? <==> access == Full && Mapped(mem, address, n)
    ensures r.Err? ==> r.error == Windows
    ensures r.Ok? ==> |r.value| == n && forall i :: 0 <= i < n ==> r.value[i] == mem[address + i]
  {
    if access == Full && Mapped(mem, address, n) then Ok(Bytes(mem, address, n)) else Err(Windows)
  }

  /** Whether a write of `n` bytes at `address` is let through. */
  predicate CanWrite(access: Access, writable: set<int>, address: int, n: nat)
  {
    access == Full && forall a :: address <= a < address + n ==> a in writable
  }

  /** The store after `data` is written from `address` on. */
  function Store(mem: map<int, u8>, address: int, data: seq<u8>): (r: map<int, u8>)
    ensures r.Keys == mem.Keys
    ensures forall i :: 0 <= i < |data| && address + i in mem ==> r[address + i] == data[i]
  {
    map a | a in mem :: if address <= a < address + |data| then data[a - address] else mem[a]
  }

  function ReadU8Spec(access: Access, mem: map<int, u8>, address: int): (r: Result<u8>)
  {
    match ReadSpec(access, mem, address, 1)
    case Ok(b) => Ok(b[0])
    case Err(e) => Err(e)
  }

  function ReadU16Spec(access: Access, mem: map<int, u8>, address: int): (r: Result<u16>)
  {
    match ReadSpec(access, mem, address, 2)
    case Ok(b) => Ok(U16FromBytes(b))
    case Err(e) => Err(e)
  }

  function ReadU32Spec(access: Access, mem: map<int, u8>, address: int): (r: Result<u32>)
  {
    match ReadSpec(access, mem, address, 4)
    case Ok(b) => Ok(U32FromBytes(b))
    case Err(e) => Err(e)
  }

  function ReadI32Spec(access: Access, mem: map<int, u8>, address: int): (r: Result<i32>)
  {
    match ReadSpec(access, mem, address, 4)
    case Ok(b) => Ok(I32FromBytes(b))
    case Err(e) => Err(e)
  }

  /** `read_bool`: any nonzero byte is `true`. */
  function ReadBoolSpec(access: Access, mem: map<int, u8>, address: int): (r: Result<bool>)
  {
    match ReadU8Spec(access, mem, address)
    case Ok(b) => Ok(b != 0)
    case Err(e) => Err(e)
  }

  /** `read_ptr`: the u32 at `address`, zero-extended to a pointer. */
  function ReadPtrSpec(access: Access, mem: map<int, u8>, address: int): (r: Result<nat>)
  {
    match ReadU32Spec(access, mem, address)
    case Ok(v) => Ok(v)
    case Err(e) => Err(e)
  }

  /** The byte `write_bool` stores. */
  function BoolByte(value: bool): (b: u8)
    ensures b != 0 <==> value
  {
    if value then 0x01 else 0x00
  }

  /** A successful write is seen in full by a read of the same range. */
  lemma ReadAfterStore(mem: map<int, u8>, address: int, data: seq<u8>)
    requires Mapped(mem, address, |data|)
    ensures Mapped(Store(mem, address, data), address, |data|)
    ensures ReadSpec(Full, Store(mem, address, data), address, |data|) == Ok(data)
  {
    var m := Store(mem, address, data);
    assert Mapped(m, address, |data|);
    var b := Bytes(m, address, |data|);
    assert forall i :: 0 <= i < |data| ==> b[i] == data[i];
    assert b == data;
  }

  /** A write changes nothing outside its range and never changes which
      addresses hold a byte. */
  lemma StoreFrame(mem: map<int, u8>, address: int, data: seq<u8>, a: int)
    requires a in mem && !(address <= a < address + |data|)
    ensures Store(mem, address, data).Keys == mem.Keys
    ensures Store(mem, address, data)[a] == mem[a]
  {
  }

  /** Writing back the bytes already stored leaves the store as it was. */
  lemma StoreWhatIsThere(mem: map<int, u8>, address: int, n: nat)
    requires Mapped(mem, address, n)
    ensures Store(mem, address, Bytes(mem, address, n)) == mem
  {
    var m := Store(mem, address, Bytes(mem, address, n));
    assert forall a :: a in m ==> m[a] == mem[a];
  }

  lemma WriteReadU16(writable: set<int>, mem: map<int, u8>, address: int, v: u16)
    requires writable <= mem.Keys && CanWrite(Full, writable, address, 2)
    ensures ReadU16Spec(Full, Store(mem, address, U16ToBytes(v)), address) == Ok(v)
  {
    ReadAfterStore(mem, address, U16ToBytes(v));
    U16RoundTrip(v);
  }

  lemma WriteReadU32(writable: set<int>, mem: map<int, u8>, address: int, v: u32)
    requires writable <= mem.Keys && CanWrite(Full, writable, address, 4)
    ensures ReadU32Spec(Full, Store(mem, address, U32ToBytes(v)), address) == Ok(v)
  {
    ReadAfterStore(mem, address, U32ToBytes(v));
    U32RoundTrip(v);
  }

  lemma WriteReadI32(writable: set<int>, mem: map<int, u8>, address: int, v: i32)
    requires writable <= mem.Keys && CanWrite(Full, writable, address, 4)
    ensures ReadI32Spec(Full, Store(mem, address, I32ToBytes(v)), address) == Ok(v)
  {
    ReadAfterStore(mem, address, I32ToBytes(v));
    I32RoundTrip(v);
  }

  lemma WriteReadU8(writable: set<int>, mem: map<int, u8>, address: int, v: u8)
    requires writable <= mem.Keys && CanWrite(Full, writable, address, 1)
    ensures ReadU8Spec(Full, Store(mem, address, [v]), address) == Ok(v)
  {
    ReadAfterStore(mem, address, [v]);
  }

  /** `write_bool` stores 0x01 or 0x00, which `read_bool` reads back as the
      value written. */
  lemma WriteReadBool(writable: set<int>, mem: map<int, u8>, address: int, v: bool)
    requires writable <= mem.Keys && CanWrite(Full, writable, address, 1)
    ensures ReadBoolSpec(Full, Store(mem, address, [BoolByte(v)]), address) == Ok(v)
  {
    ReadAfterStore(mem, address, [BoolByte(v)]);
  }

  /** Reading a u32 and writing the same value back changes no byte, so a
      second read gives the same value. */
  lemma ReadWriteU32Idempotent(mem: map<int, u8>, address: int, v: u32)
    requires ReadU32Spec(Full, mem, address) == Ok(v)
    ensures Store(mem, address, U32ToBytes(v)) == mem
  {
    var b := Bytes(mem, address, 4);
    U32BytesRoundTrip(b);
    StoreWhatIsThere(mem, address, 4);
  }

  /** An opened process. `memory` is the part of the target's address space a
      read can reach and `writable` the part a write can reach. */
  class Process {
    const processId: u32
    const access: Access
    var memory: map<int, u8>
    var writable: set<int>

    ghost predicate Valid()
      reads this
    {
      writable <= memory.Keys
    }

    /** The handle `OpenProcess` granted for `processId`. */
    constructor (processId: u32, access: Access, memory: map<int, u8>, writable: set<int>)
      requires writable <= memory.Keys
      ensures Valid()
      ensures this.processId == processId && this.access == access
      ensures this.memory == memory && this.writable == writable
    {
      this.processId := processId;
      this.access := access;
      this.memory := memory;
      this.writable := writable;
    }

    /** `Process::read`: fills the whole buffer and reports its length, or
        fails with nothing reported read. */
    method Read(address: int, buffer: array<u8>) returns (r: Result<nat>)
      modifies buffer
      ensures r.Ok? <==> access == Full && Mapped(memory, address, buffer.Length)
      ensures r.Err? ==> r.error == Windows
      ensures r.Ok? ==> r.value == buffer.Length && buffer[..] == Bytes(memory, address, buffer.Length)
    {
      if access == Full && Mapped(memory, address, buffer.Length) {
        forall i | 0 <= i < buffer.Length {
          buffer[i] := memory[address + i];
        }
        r := Ok(buffer.Length);
      } else {
        r := Err(Windows);
      }
    }

    /** `Process::read_array::<N>`. */
    method ReadArray(address: int, n: nat) returns (r: Result<seq<u8>>)
      ensures r == ReadSpec(access, memory, address, n)
    {
      var buf := new u8[n];
      var read := Read(address, buf);
      match read
      case Ok(_) => r := Ok(buf[..]);
      case Err(e) => r := Err(e);
    }

    /** `Process::write`: stores the whole buffer and reports its length, or
        fails and stores nothing. */
    method Write(address: int, buffer: seq<u8>) returns (r: Result<nat>)
      requires Valid()
      modifies this`memory
      ensures Valid()
      ensures r == if CanWrite(access, writable, address, |buffer|) then Ok(|buffer|) else Err(Windows)
      ensures memory == if r.Ok? then Store(old(memory), address, buffer) else old(memory)
    {
      if CanWrite(access, writable, address, |buffer|) {
        memory := Store(memory, address, buffer);
        r := Ok(|buffer|);
      } else {
        r := Err(Windows);
      }
    }

    method ReadU8(address: int) returns (r: Result<u8>)
      ensures r == ReadU8Spec(access, memory, address)
    {
      var bytes := ReadArray(address, 1);
      match bytes
      case Ok(b) => r := Ok(b[0]);
      case Err(e) => r := Err(e);
    }

    method ReadU16(address: int) returns (r: Result<u16>)
      ensures r == ReadU16Spec(access, memory, address)
    {
      var bytes := ReadArray(address, 2);
      match bytes
      case Ok(b) => r := Ok(U16FromBytes(b));
      case Err(e) => r := Err(e);
    }

    method ReadU32(address: int) returns (r: Result<u32>)
      ensures r == ReadU32Spec(access, memory, address)
    {
      var bytes := ReadArray(address, 4);
      match bytes
      case Ok(b) => r := Ok(U32FromBytes(b));
      case Err(e) => r := Err(e);
    }

    method ReadI32(address: int) returns (r: Result<i32>)
      ensures r == ReadI32Spec(access, memory, address)
    {
      var bytes := ReadArray(address, 4);
      match bytes
      case Ok(b) => r := Ok(I32FromBytes(b));
      case Err(e) => r := Err(e);
    }

    method ReadBool(address: int) returns (r: Result<bool>)
      ensures r == ReadBoolSpec(access, memory, address)
    {
      var byte := ReadU8(address);
      match byte
      case Ok(b) => r := Ok(b != 0);
      case Err(e) => r := Err(e);
    }

    method ReadPtr(address: int) returns (r: Result<nat>)
      ensures r == ReadPtrSpec(access, memory, address)
    {
      var value := ReadU32(address);
      match value
      case Ok(v) => r := Ok(v);
      case Err(e) => r := Err(e);
    }

    method WriteU8(address: int, value: u8) returns (r: Result<()>)
      requires Valid()
      modifies this`memory
      ensures Valid()
      ensures r.Ok? <==> CanWrite(access, writable, address, 1)
      ensures r.Err? ==> r.error == Windows
      ensures memory == if r.Ok? then Store(old(memory), address, [value]) else old(memory)
    {
      var written := Write(address, [value]);
      r := if written.Ok? then Ok(()) else Err(written.error);
    }

    method WriteU16(address: int, value: u16) returns (r: Result<()>)
      requires Valid()
      modifies this`memory
      ensures Valid()
      ensures r.Ok? <==> CanWrite(access, writable, address, 2)
      ensures r.Err? ==> r.error == Windows
      ensures memory == if r.Ok? then Store(old(memory), address, U16ToBytes(value)) else old(memory)
    {
      var written := Write(address, U16ToBytes(value));
      r := if written.Ok? then Ok(()) else Err(written.error);
    }

    method WriteU32(address: int, value: u32) returns (r: Result<()>)
      requires Valid()
      modifies this`memory
      ensures Valid()
      ensures r.Ok? <==> CanWrite(access, writable, address, 4)
      ensures r.Err? ==> r.error == Windows
      ensures memory == if r.Ok? then Store(old(memory), address, U32ToBytes(value)) else old(memory)
    {
      var written := Write(address, U32ToBytes(value));
      r := if written.Ok? then Ok(()) else Err(written.error);
    }

    method WriteI32(address: int, value: i32) returns (r: Result<()>)
      requires Valid()
      modifies this`memory
      ensures Valid()
      ensures r.Ok? <==> CanWrite(access, writable, address, 4)
      ensures r.Err? ==> r.error == Windows
      ensures memory == if r.Ok? then Store(old(memory), address, I32ToBytes(value)) else old(memory)
    {
      var written := Write(address, I32ToBytes(value));
      r := if written.Ok? then Ok(()) else Err(written.error);
    }

    method WriteBool(address: int, value: bool) returns (r: Result<()>)
      requires Valid()
      modifies this`memory
      ensures Valid()
      ensures r.Ok? <==> CanWrite(access, writable, address, 1)
      ensures r.Err? ==> r.error == Windows
      ensures memory == if r.Ok? then Store(old(memory), address, [BoolByte(value)]) else old(memory)
    {
      r := WriteU8(address, BoolByte(value));
    }
  }

  /** What a caller holding a full-access handle can rely on: a `write_u32`
      that succeeds is read back by `read_u32` at the same address. */
  method WriteThenReadU32(p: Process, address: int, value: u32) returns (r: Result<u32>)
    requires p.Valid() && p.access == Full && CanWrite(p.access, p.writable, address, 4)
    modifies p`memory
    ensures p.Valid()
    ensures r == Ok(value)
  {
    var written := p.WriteU32(address, value);
    WriteReadU32(p.writable, old(p.memory), address, value);
    r := p.ReadU32(address);
  }
}
