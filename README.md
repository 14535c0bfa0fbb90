# Process inspector core, modelled in Dafny

This project models the logic behind a Windows process inspector. The inspector lists
running processes and their modules, reads their version resources, and reads and writes
typed values in another process's memory. Its GUI lays text out in rows. The model
covers the parts of `src/memory.rs` and `src/util.rs` that do more than forward a call
to the operating system:

- **Names** (`names.dfy`). A process entry carries a fixed 260-unit (`MAX_PATH`)
  UTF-16 name buffer `szExeFile`; a module entry carries the 256-unit
  (`MAX_MODULE_NAME32 + 1`) buffer `szModule`. `process_name` and `module_name` keep the units before
  the first NUL and decode them with `String::from_utf16`. An unpaired surrogate gives
  `Error::InvalidString`. The decoder itself is in `utf16.dfy` and follows section 2.2
  of RFC 2781.
- **Version resources** (`version_info.dfy`):
  - The `\VarFileInfo\Translation` table decodes into `TranslationEntry` values, one
    `FileInfo` per entry, all sharing the loaded blob.
  - `FileInfoField::field_name` gives each field's name.
  - `get_file_string` builds the `\StringFileInfo\llllcccc\Field` key and decodes the
    UTF-16 value `VerQueryValueW` finds under it.
  - `VerQueryValueW` is a function parameter. Given the blob and a key, it returns
    either nothing or the bytes at the returned pointer plus the reported length.
- **Process memory** (`process_memory.dfy`):
  - An opened `Process` is a class over a byte store (`map<int, u8>`) and the set of
    writable addresses.
  - `read` and `write` succeed on the whole buffer or fail with `Error::Windows`.
  - The typed accessors sit on top of them. The u8, u16, u32, i32, bool and pointer
    accessors use little-endian `from_ne_bytes` and `to_ne_bytes`.
- **Words** (`words.dfy`): `loword` and `hiword` of a 32-bit value. The module works on `bv32` and `bv16`, the shift-and-mask form of the source, and states the results as unsigned `bv32` modulo and division by 2^16.
- **Text wrapping** (`text_wrap.dfy`):
  - `wrap_text_by` is the source's greedy loop. Each row is the longest run of
    delimiter-separated pieces whose measured width fits the bound.
  - `get_text_size_wrap` splits at newlines, wraps each line at spaces, and combines
    the rows into a maximum width and a total height.
  - The GDI text measurement `GetTextExtentPoint32W` is a function parameter
    `measure`.

Integers are little-endian, as on the x86 and x64 targets the program is built for:
`u32::from_ne_bytes(b) = b[0] + 256·b[1] + 256²·b[2] + 256³·b[3]`. `i32` is two's
complement.

### Wrapping and termination

`wrap_text_by` tries the whole remaining text first, then drops one trailing piece at
a time. The loop only stops when a try fits.

- When the bound is -1, the first try always fits.
- Otherwise the last try is the empty prefix. It fits whenever the empty string
  measures no wider than the bound, and draining it removes nothing.
- If the remaining text is non-empty at that point, the outer loop repeats the same
  step forever.

The model makes this exact:

- The predicate `TextWrap.WrapTerminates` states when the loop ends.
- `TextWrap.WrapTextBy` requires that predicate.
- `TextWrap.WideWordNeverEnds` and `TextWrap.SecondWordTooWideNeverEnds` prove it
  false in two plain cases. Both use a fixed-pitch measure: a single word wider than
  the bound, and a first word that fits followed by a second that does not.

The inner `for i in 0..` loop of `wrap_text_by` is the method `TextWrap.FittingRow`,
which `TextWrap.WrapTextBy` calls. `TextWrap.FittingRow` is proved equal to the
function `TextWrap.NextRow`, and `TextWrap.WrapTextBy` to the function
`TextWrap.WrapRows`; the properties of the rows are proved about those functions.

### Error behaviour of the code

- A failed translation query makes `file_descriptions` return `Err(Windows)`:
  `VerQueryValueW` returns a `BOOL`, and `.ok()?` propagates the failure. The contract
  of `VersionInfo.FileDescriptions` states `Ok` exactly when the query succeeds.
- `get_file_string` returns `Ok(None)` for any failed query, whichever part of the key
  the resource lacks.
- A zero version-info size reported with an operating-system error (an executable
  without a version resource, say) is `Err(Windows)`, through the `?` on
  `util::check`; the model folds it into `version == None`. Only a zero size reported
  with no error reaches the `assert_ne!` panic, which the precondition of
  `VersionInfo.FileDescriptions` that the blob is non-empty excludes.

## Model

| member | source | states |
|---|---|---|
| Integers.U16RoundTrip | src/memory.rs:411-413 | `u16::from_ne_bytes(v.to_ne_bytes()) == v` for every u16 |
| Integers.U16BytesRoundTrip | src/memory.rs:435-437 | every 2-byte sequence is the encoding of the u16 it decodes to |
| Integers.U32RoundTrip | src/memory.rs:399-401 | `u32::from_ne_bytes(v.to_ne_bytes()) == v` for every u32 |
| Integers.U32BytesRoundTrip | src/memory.rs:423-425 | every 4-byte sequence is the encoding of the u32 it decodes to |
| Integers.I32RoundTrip | src/memory.rs:403-405 | `i32::from_ne_bytes(v.to_ne_bytes()) == v` for every i32, negatives included, in two's complement |
| Integers.I32BytesRoundTrip | src/memory.rs:427-429 | every 4-byte sequence is the two's-complement encoding of the i32 it decodes to |
| Integers.U16FromBytes | src/memory.rs:561 | `u16::from_ne_bytes`: the first byte is the low byte, the second the high byte |
| Integers.U16ToBytes | src/memory.rs:435-437 | `u16::to_ne_bytes`: two bytes, low first, weighing back to the value |
| Integers.U32FromBytes | src/memory.rs:399-401 | `u32::from_ne_bytes`: `b[0] + 2^8·b[1] + 2^16·b[2] + 2^24·b[3]` |
| Integers.U32ToBytes | src/memory.rs:423-425 | `u32::to_ne_bytes`: four bytes, low first, weighing back to the value |
| Integers.I32FromBytes | src/memory.rs:403-405 | `i32::from_ne_bytes`: congruent to the unsigned reading modulo 2^32, and negative exactly when the top bit of the last byte is set |
| Integers.I32ToBytes | src/memory.rs:427-429 | `i32::to_ne_bytes`: the bytes of `v mod 2^32`, whose top bit is set exactly when `v` is negative |
| Utf16.Encode | src/util.rs:96 | `encode_wide`: between one and two units per char |
| Utf16.EncodeBmp | src/util.rs:96 | a string of Basic Multilingual Plane chars encodes unit for char |
| Utf16.Decode | src/memory.rs:95 | `String::from_utf16`; every failure is `Error::InvalidString` (the `map_err`) |
| Utf16.DecodeOkIffWellFormed | src/memory.rs:95 | decoding succeeds exactly when every high surrogate is followed by a low one and every low surrogate is preceded by a high one |
| Utf16.DecodeEncode | src/memory.rs:95 | decoding the UTF-16 encoding of any string gives back that string |
| Utf16.EncodeDecode | src/memory.rs:95 | a successful decode re-encodes to exactly the units decoded |
| Utf16.DecodeNul | src/memory.rs:95 | a decoded string contains `'\0'` exactly when the units contain 0 |
| Utf16.WellFormedTail | src/memory.rs:95 | dropping a leading non-surrogate or a leading surrogate pair keeps well-formedness, in both directions |
| Names.UnitsBeforeNul | src/memory.rs:87-93 | `take_while(c != 0)`: the result is a prefix of the buffer, contains no 0, and is either the whole buffer or stops at a 0 |
| Names.NameEndsAtFirstNul | src/memory.rs:87-93 | when `k` is the first 0, the name is exactly `buf[..k]`: what follows the terminator never matters |
| Names.DecodeName | src/memory.rs:86-95 | `Ok` exactly when the units before the first NUL are well-formed UTF-16; otherwise `InvalidString`; an `Ok` string re-encodes to those units and holds no `'\0'` |
| Names.ProcessName | src/memory.rs:86-95 | the same for `szExeFile` of a process entry |
| Names.ModuleName | src/memory.rs:173-182 | the same for `szModule` of a module entry |
| Names.StoredNameDecodes | src/memory.rs:86-95 | a NUL-free name that fits the buffer, stored with a terminator, is what `process_name` returns, whatever follows |
| Names.EncodeHasNoZero | src/memory.rs:86-95 | a string without `'\0'` encodes to units without 0, so the terminator search cannot cut it short |
| VersionInfo.DecodeTranslations | src/memory.rs:321-331 | `chunks(4)` read as packed entries: `len / 4` entries, entry `k` has language = u16 at bytes `4k..4k+2` and code page = u16 at `4k+2..4k+4` |
| VersionInfo.TranslationsRoundTrip | src/memory.rs:516-521 | decoding the packed layout of any entry list gives the list back |
| VersionInfo.TranslationBytesRoundTrip | src/memory.rs:516-521 | any table whose length is a multiple of 4 is the packed layout of the entries it decodes to |
| VersionInfo.FieldName | src/memory.rs:497-512 | each field's name is non-empty and holds no `\`, so it cannot run into the key's separators |
| VersionInfo.FieldFromName | src/memory.rs:497-512 | a name read back to a field is that field's name: the partner of `FieldName` |
| VersionInfo.FieldNameRoundTrip | src/memory.rs:496-512 | every field's name reads back to that field |
| VersionInfo.FieldNameInjective | src/memory.rs:496-512 | distinct fields have distinct names |
| VersionInfo.Hex4 | src/memory.rs:530-533 | `{:04x}`: exactly four lowercase hex digits |
| VersionInfo.Hex4RoundTrip | src/memory.rs:530-533 | the four digits read back to the u16 formatted |
| VersionInfo.FileStringKey | src/memory.rs:530-533 | the key's layout: `\StringFileInfo\`, four hex digits of the language, four of the code page, `\`, then the field's name |
| VersionInfo.FileStringKeyRoundTrip | src/memory.rs:530-533 | the key `\StringFileInfo\llllcccc\Field` parses back to its language, code page and field |
| VersionInfo.FileStringKeyInjective | src/memory.rs:530-533 | different (language, code page, field) triples never share a key |
| VersionInfo.UnitsFromBytes | src/memory.rs:551-563 | `chunks_exact(2).map(u16::from_ne_bytes)`: `n / 2` units, unit `i` from bytes `2i..2i+2` |
| VersionInfo.UnitsRoundTrip | src/memory.rs:551-563 | units laid out as bytes decode back to the same units |
| VersionInfo.GetFileString | src/memory.rs:524-569 | never an error; `None` exactly when the query fails; otherwise the `len` units held in the `2*len` bytes at the returned pointer |
| VersionInfo.FileInfo.GetString | src/memory.rs:469-471 | never an error; `None` exactly when the query for this translation's key fails |
| VersionInfo.Describe | src/memory.rs:337-344 | one `FileInfo` per entry, in order, each with the shared blob and the entry's language and code page |
| VersionInfo.FileDescriptions | src/memory.rs:282-347 | every error is `Error::Windows`; no blob is an error; with a blob, `Ok` exactly when the translation query succeeds; then `len / 4` infos, each holding the blob and the language and code page from its 4 bytes |
| VersionInfo.TranslationKeyChars | src/memory.rs:314 | the key `\VarFileInfo\Translation` has as many chars as the unit list, each equal to its unit |
| VersionInfo.TranslationKeyUnits | src/memory.rs:314 | the unit list the model queries with is the UTF-16 encoding of `\VarFileInfo\Translation` |
| VersionInfo.DescriptionsListTable | src/memory.rs:306-346 | whatever entry list the table holds, the result lists exactly those entries, in order |
| VersionInfo.EmptyTableNoDescriptions | src/memory.rs:306-346 | an empty translation table gives `Ok([])`, not an error |
| ProcessMemory.Process.constructor | src/memory.rs:197-213 | a handle for `processId` with the given access rights over the given store |
| ProcessMemory.Process.Read | src/memory.rs:350-365 | succeeds exactly with full access and the whole range mapped; the buffer then holds the stored bytes and the result is its length; failures are `Error::Windows` |
| ProcessMemory.Process.ReadArray | src/memory.rs:368-374 | the `n` stored bytes at the address, or the error of `read` |
| ProcessMemory.Process.Write | src/memory.rs:377-391 | succeeds exactly with full access and the whole range writable, storing the buffer there and reporting its length; on failure memory is unchanged |
| ProcessMemory.Process.ReadU8 | src/memory.rs:415-417 | the byte at the address |
| ProcessMemory.Process.ReadU16 | src/memory.rs:411-413 | the little-endian u16 at the address |
| ProcessMemory.Process.ReadU32 | src/memory.rs:399-401 | the little-endian u32 at the address |
| ProcessMemory.Process.ReadI32 | src/memory.rs:403-405 | the two's-complement i32 at the address |
| ProcessMemory.Process.ReadBool | src/memory.rs:419-421 | `true` exactly when the byte is nonzero |
| ProcessMemory.Process.ReadPtr | src/memory.rs:394-397 | the u32 at the address as a pointer value |
| ProcessMemory.Process.WriteU8 | src/memory.rs:439-441 | `Ok` exactly when the byte is writable; memory changes only at that byte |
| ProcessMemory.Process.WriteU16 | src/memory.rs:435-437 | `Ok` exactly when both bytes are writable; memory changes only there, to the little-endian bytes |
| ProcessMemory.Process.WriteU32 | src/memory.rs:423-425 | `Ok` exactly when all four bytes are writable; memory changes only there |
| ProcessMemory.Process.WriteI32 | src/memory.rs:427-429 | the same with the two's-complement bytes |
| ProcessMemory.Process.WriteBool | src/memory.rs:443-445 | stores 0x01 or 0x00 under the same conditions as `write_u8` |
| ProcessMemory.ReadSpec | src/memory.rs:350-374 | a read of `n` bytes succeeds exactly with full access and the whole range mapped, giving the stored bytes in order; otherwise `Error::Windows` |
| ProcessMemory.Store | src/memory.rs:377-391 | a store keeps the set of mapped addresses and puts `data[i]` at every mapped `address + i` |
| ProcessMemory.BoolByte | src/memory.rs:443-445 | the byte `write_bool` stores is nonzero exactly for `true` |
| ProcessMemory.ReadAfterStore | src/memory.rs:350-391 | a read of the range just written returns exactly the bytes written |
| ProcessMemory.StoreFrame | src/memory.rs:377-391 | a write changes no byte outside its range and no mapping |
| ProcessMemory.StoreWhatIsThere | src/memory.rs:350-391 | writing back the bytes just read leaves memory as it was |
| ProcessMemory.WriteReadU8 | src/memory.rs:415-417 | `read_u8` after a successful `write_u8` gives the value written |
| ProcessMemory.WriteReadU16 | src/memory.rs:411-413 | `read_u16` after a successful `write_u16` gives the value written |
| ProcessMemory.WriteReadU32 | src/memory.rs:399-401 | `read_u32` after a successful `write_u32` gives the value written |
| ProcessMemory.WriteReadI32 | src/memory.rs:403-405 | `read_i32` after a successful `write_i32` gives the value written |
| ProcessMemory.WriteReadBool | src/memory.rs:443-445 | `read_bool` after a successful `write_bool` gives the value written |
| ProcessMemory.ReadWriteU32Idempotent | src/memory.rs:423-425 | writing back the u32 just read changes no byte |
| ProcessMemory.WriteThenReadU32 | src/memory.rs:399-425 | with full access and a writable range, `write_u32` then `read_u32` returns `Ok(value)` |
| Words.Loword | src/util.rs:196-198 | the low 16 bits: the value modulo 2^16 |
| Words.Hiword | src/util.rs:201-203 | the high 16 bits: the value divided by 2^16 |
| Words.WordsRecombine | src/util.rs:196-203 | `hiword * 2^16 + loword` gives the original value back |
| TextWrap.Split | src/util.rs:228 | slice `split`: at least one piece, none containing the delimiter |
| TextWrap.Join | src/util.rs:235 | `join(&d)`: the pieces with one delimiter between neighbours; the contracts about it are `TextWrap.SplitJoin`, `TextWrap.JoinSplit` and `TextWrap.JoinPrefix` |
| TextWrap.JoinPrefix | src/util.rs:227-235 | joining the first `m` pieces gives a prefix of the join of all, followed by a delimiter when `m` is proper and non-zero |
| TextWrap.SplitJoin | src/util.rs:227-235 | joining the pieces with the delimiter rebuilds the text |
| TextWrap.JoinSplit | src/util.rs:227-235 | splitting a join of delimiter-free pieces gives those pieces back |
| TextWrap.PiecePrefix | src/util.rs:227-235 | the first `c` pieces joined form a prefix of the text, and a proper one is followed by the delimiter |
| TextWrap.Candidate | src/util.rs:227-235 | the text measured on try `i`: all pieces but the last `i`, joined; its shape is stated by `TextWrap.CandidateShape` |
| TextWrap.CandidateShape | src/util.rs:227-235 | every try is a prefix of the text; try 0 is the whole text, a try past the number of pieces is empty, and a try in between stops just before a delimiter |
| TextWrap.Fits | src/util.rs:239 | the bound test: any size when the bound is -1, otherwise a width at most the bound |
| TextWrap.FirstFit | src/util.rs:226-239 | the first try that fits: the tries before it do not fit |
| TextWrap.NextRowIsLongest | src/util.rs:226-245 | the row drained is a fitting run of whole leading pieces, and no longer run fits |
| TextWrap.FittingRow | src/util.rs:226-246 | the inner loop's result is the first fitting try and its measured size |
| TextWrap.WrapRows | src/util.rs:221-254 | the rows the loop collects, as a function: at least one row; its properties are the `WrapRows*` lemmas below |
| TextWrap.WrapTextBy | src/util.rs:221-254 | the loop returns exactly the rows of the greedy wrap |
| TextWrap.WrapRowsConcat | src/util.rs:221-254 | the rows' texts, concatenated, are the whole text: nothing is lost or reordered |
| TextWrap.WrapRowsFit | src/util.rs:237-243 | each row carries its own measured size, and that size fits the width bound |
| TextWrap.WrapRowsGreedy | src/util.rs:221-254 | each row is the longest fitting run of pieces of what the earlier rows left |
| TextWrap.LaterRowsStartWithDelimiter | src/util.rs:241 | every row after the first is non-empty and starts with the delimiter |
| TextWrap.UnboundedSingleRow | src/util.rs:239 | with width bound -1 the loop ends, giving the whole text as the only row |
| TextWrap.WideWordNeverEnds | src/util.rs:225-251 | with a fixed-pitch measure, a word wider than the bound never finishes wrapping |
| TextWrap.SecondWordTooWideNeverEnds | src/util.rs:225-251 | with a fixed-pitch measure, a fitting word followed by a too-wide one never finishes wrapping |
| TextWrap.BlockRows | src/util.rs:271-275 | `flat_map` of the per-line wraps: non-empty when there is a line |
| TextWrap.BlockRowsFit | src/util.rs:271-275 | every collected row fits the width bound |
| TextWrap.BlockRowsConcat | src/util.rs:271-275 | the collected rows' texts are the lines, one after another, in order |
| TextWrap.TextRows | src/util.rs:271-275 | the text always yields at least one row, so `max().unwrap()` cannot fail |
| TextWrap.MaxWidth | src/util.rs:278 | `max()` of the row widths: bounds every row's width and is one of them |
| TextWrap.TotalHeight | src/util.rs:279 | `sum()` of the row heights: with no negative height it is non-negative and at least every row's height |
| TextWrap.TotalHeightAppend | src/util.rs:279 | the height of two runs of rows is the sum of their heights |
| TextWrap.GetTextSizeWrap | src/util.rs:261-287 | `None` if the whole text is taller than a bounded height; otherwise `None` exactly when the rows' total height exceeds it. A `Some` has the maximum row width and the total height, within both bounds that are not -1 |

## Left out

- The operating-system layer is not modelled. This covers the process and module snapshot iterators (`CreateToolhelp32Snapshot`, `Process32NextW`, `Module32NextW`), `OpenProcess` and `CloseHandle`, `arch` (`IsWow64Process`), `executable_path`, `icon`, `GetFileVersionInfoSizeW` and `GetFileVersionInfoW`. The whole chain that loads a version blob is the `version: Option<seq<u8>>` parameter of `VersionInfo.FileDescriptions`.
- `VerQueryValueW`, `GetTextExtentPoint32W` and `ReadProcessMemory`/`WriteProcessMemory` are not modelled on their own. They become a function parameter, a function parameter and an explicit byte store, respectively.
- OS error codes are left out: `Error::Windows` carries no code.
- `read_f32` and `write_f32` are left out, because the model has no IEEE-754 floats.
- `executable_path_full` and `process_descriptions` are unfinished stubs in the source, and the model leaves them out.
- `process_name_buf`, `process_id`, `module_id`, `module_addr`, `FileInfo::language` and `FileInfo::code_page` are plain field accessors. They are the datatype fields of `Names.ProcessEntry`, `Names.Module` and `VersionInfo.FileInfo`.
- `ProcessMemory.Process.Write`: models `WriteProcessMemory` as all-or-nothing, and so do `WriteU8`, `WriteU16`, `WriteU32`, `WriteI32` and `WriteBool`. A write that fails after a partial copy (`ERROR_PARTIAL_COPY`) is not modelled: the model promises that a failed write leaves memory unchanged.
- `ProcessMemory.Process.Read`: models `ReadProcessMemory` as all-or-nothing. A partial copy is not modelled, nor is another thread or the target changing memory between calls.
- `VersionInfo.GetFileString` and `VersionInfo.FileInfo.GetString`, which delegates to it: `string_to_hstring` and `HSTRING::from_wide` can fail on allocation. The model does not capture this and returns the UTF-16 units in place of an `HSTRING`.
- `VersionInfo.FileDescriptions`: requires a table length that is a multiple of 4. A shorter trailing chunk makes `pod_read_unaligned` panic.
- `TextWrap.WrapTextBy`: requires `WrapTerminates`. The source loops forever when that predicate is false, as `TextWrap.WideWordNeverEnds` shows.
- `TextWrap.GetTextSizeWrap`: sums heights as unbounded integers, so it does not model an `i32` overflow of the sum. It requires every line to finish wrapping, unless the first height test already returns `None`.
- `TextWrap.GetTextSizeWrap`: `measure` is a total function. `get_text_size` calls `.unwrap()` on `GetTextExtentPoint32W`, so the source panics when that call fails; the model does not capture this panic, in `TextWrap.WrapTextBy` either.
- `get_text_size`, the GDI and window helpers of `src/util.rs` (fonts, metrics, message boxes, list views, `check`, `catch`) and `get_last_error` are OS calls, and the model leaves them out.
