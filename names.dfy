/** The records the process and module snapshots yield, and the decoding of
    their fixed-capacity, NUL-terminated UTF-16 name buffers. */
module Names {
  import opened Integers
  import opened Errors
  import Utf16

  /** Capacity, in UTF-16 code units, of `PROCESSENTRY32W.szExeFile`. */
  const MAX_PATH := 260

  /** `MODULEENTRY32W.szModule` holds `MAX_MODULE_NAME32 + 1` code units. */
  const MAX_MODULE_NAME32 := 255

  type NameBuffer = s: seq<u16> | |s| == MAX_PATH witness seq(MAX_PATH, _ => 0)

  type ModuleNameBuffer = s: seq<u16> | |s| == MAX_MODULE_NAME32 + 1 witness seq(MAX_MODULE_NAME32 + 1, _ => 0)

  /** One `PROCESSENTRY32W` copied out of a process snapshot. */
  datatype ProcessEntry = ProcessEntry(processId: u32, exeFile: NameBuffer)

  /** One `MODULEENTRY32W` copied out of a module snapshot; the base address is
      only data for later memory reads. */
  datatype Module = Module(moduleId: u32, name: ModuleNameBuffer, baseAddress: nat)

  /** `iter().take_while(|c| *c != 0).collect()`: the units before the first 0. */
  function UnitsBeforeNul(buf: seq<u16>): (r: seq<u16>)
    ensures r <= buf
    ensures 0 !in r
    ensures |r| == |buf| || buf[|r|] == 0
    decreases |buf|
  {
    if buf == [] || buf[0] == 0 then [] else [buf[0]] + UnitsBeforeNul(buf[1..])
  }

  /** The name is `buf[..k]` whenever `k` is the position of the first 0: what
      follows the terminator never matters. */
  lemma NameEndsAtFirstNul(buf: seq<u16>, k: nat)
    requires k < |buf| && buf[k] == 0 && 0 !in buf[..k]
    ensures UnitsBeforeNul(buf) == buf[..k]
  {
  }

  /** What `process_name` and `module_name` share. */
  function DecodeName(buf: seq<u16>): (r: Result<string>)
    ensures r.Ok? <==> Utf16.WellFormed(UnitsBeforeNul(buf))
    ensures r.Err? ==> r.error == InvalidString
    ensures r.Ok? ==> Utf16.Encode(r.value) == UnitsBeforeNul(buf) && '\0' !in r.value
  {
    var units := UnitsBeforeNul(buf);
    Utf16.DecodeOkIffWellFormed(units);
    if Utf16.Decode(units).Ok? then
      Utf16.EncodeDecode(units);
      Utf16.DecodeNul(units);
      Utf16.Decode(units)
    else
      Utf16.Decode(units)
  }

  /** `ProcessEntry::process_name`. */
  function ProcessName(e: ProcessEntry): (r: Result<string>)
    ensures r.Ok? <==> Utf16.WellFormed(UnitsBeforeNul(e.exeFile))
    ensures r.Err? ==> r.error == InvalidString
    ensures r.Ok? ==> Utf16.Encode(r.value) == UnitsBeforeNul(e.exeFile) && '\0' !in r.value
  {
    DecodeName(e.exeFile)
  }

  /** `Module::module_name`. */
  function ModuleName(m: Module): (r: Result<string>)
    ensures r.Ok? <==> Utf16.WellFormed(UnitsBeforeNul(m.name))
    ensures r.Err? ==> r.error == InvalidString
    ensures r.Ok? ==> Utf16.Encode(r.value) == UnitsBeforeNul(m.name) && '\0' !in r.value
  {
    DecodeName(m.name)
  }

  /** A string without NUL that fits the buffer, stored NUL-terminated, is the
      name decoded from it whatever the rest of the buffer holds. */
  lemma {:induction false} StoredNameDecodes(name: string, e: ProcessEntry)
    requires '\0' !in name
    requires |Utf16.Encode(name)| < MAX_PATH
    requires e.exeFile[..|Utf16.Encode(name)| + 1] == Utf16.Encode(name) + [0]
    ensures ProcessName(e) == Ok(name)
  {
    var w := Utf16.Encode(name);
    EncodeHasNoZero(name);
    assert e.exeFile[..|w|] == w;
    NameEndsAtFirstNul(e.exeFile, |w|);
    Utf16.DecodeEncode(name);
  }

  /** A string without NUL encodes to units without 0. */
  lemma {:induction false} EncodeHasNoZero(s: string)
    requires '\0' !in s
    ensures 0 !in Utf16.Encode(s)
    decreases |s|
  {
    if s != [] {
      EncodeHasNoZero(s[1..]);
      assert s[0] != '\0';
    }
  }
}
