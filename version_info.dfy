/** The version-resource reader of memory.rs: the translation table, the
    string-field keys and the decoding of the values `VerQueryValueW` finds.
    `VerQueryValueW` itself is a parameter: given the loaded blob and the
    UTF-16 units of a sub-key it answers either nothing (the call failed) or
    the bytes at the pointer it returned together with the length it reported. */
module VersionInfo {
  import opened Integers
  import opened Errors
  import Utf16

  datatype QueryValue = QueryValue(buffer: seq<u8>, len: nat)

  type VerQuery = (seq<u8>, seq<u16>) -> Option<QueryValue>

  /** `ffi::TranslationEntry`: a packed pair of little-endian u16. */
  datatype TranslationEntry = TranslationEntry(language: u16, codePage: u16)

  const TRANSLATION_ENTRY_SIZE := 4

  /** `bytes.chunks(4).map(pod_read_unaligned).collect()`. A trailing chunk
      shorter than 4 bytes makes `pod_read_unaligned` panic, hence the requires. */
  function DecodeTranslations(bytes: seq<u8>): (r: seq<TranslationEntry>)
    requires |bytes| % TRANSLATION_ENTRY_SIZE == 0
    ensures |r| == |bytes| / TRANSLATION_ENTRY_SIZE
    ensures forall k :: 0 <= k < |r| ==>
              && r[k].language == U16FromBytes(bytes[4 * k .. 4 * k + 2])
              && r[k].codePage == U16FromBytes(bytes[4 * k + 2 .. 4 * k + 4])
    decreases |bytes|
  {
    if |bytes| == 0 then []
    else
      var rest := DecodeTranslations(bytes[4..]);
      QuadsOfTail(bytes);
      [TranslationEntry(U16FromBytes(bytes[..2]), U16FromBytes(bytes[2..4]))] + rest
  }

  /** The halves of the `k`-th 4-byte chunk of `bytes` are those of the
      `(k - 1)`-th chunk of `bytes[4..]`. */
  lemma QuadsOfTail(bytes: seq<u8>)
    requires |bytes| >= 4
    ensures forall k :: 1 <= k <= (|bytes| - 4) / 4 ==>
              && bytes[4 * k .. 4 * k + 2] == bytes[4..][4 * (k - 1) .. 4 * (k - 1) + 2]
              && bytes[4 * k + 2 .. 4 * k + 4] == bytes[4..][4 * (k - 1) + 2 .. 4 * (k - 1) + 4]
  {
    forall k | 1 <= k <= (|bytes| - 4) / 4
      ensures && bytes[4 * k .. 4 * k + 2] == bytes[4..][4 * (k - 1) .. 4 * (k - 1) + 2]
              && bytes[4 * k + 2 .. 4 * k + 4] == bytes[4..][4 * (k - 1) + 2 .. 4 * (k - 1) + 4]
    {
      assert bytes[4..][4 * (k - 1) .. 4 * (k - 1) + 2] == bytes[4 * k .. 4 * k + 2];
      assert bytes[4..][4 * (k - 1) + 2 .. 4 * (k - 1) + 4] == bytes[4 * k + 2 .. 4 * k + 4];
    }
  }

  /** The table layout: each entry as four bytes, in order. */
  function EncodeTranslations(entries: seq<TranslationEntry>): (r: seq<u8>)
    ensures |r| == TRANSLATION_ENTRY_SIZE * |entries|
    decreases |entries|
  {
    if entries == [] then []
    else U16ToBytes(entries[0].language) + U16ToBytes(entries[0].codePage) + EncodeTranslations(entries[1..])
  }

  lemma {:induction false} TranslationsRoundTrip(entries: seq<TranslationEntry>)
    ensures DecodeTranslations(EncodeTranslations(entries)) == entries
    decreases |entries|
  {
    if entries != [] {
      var e := entries[0];
      var b := EncodeTranslations(entries);
      TranslationsRoundTrip(entries[1..]);
      assert b[..2] == U16ToBytes(e.language);
      assert b[2..4] == U16ToBytes(e.codePage);
      assert b[4..] == EncodeTranslations(entries[1..]);
      U16RoundTrip(e.language);
      U16RoundTrip(e.codePage);
      assert entries == [e] + entries[1..];
    }
  }

  lemma {:induction false} TranslationBytesRoundTrip(bytes: seq<u8>)
    requires |bytes| % TRANSLATION_ENTRY_SIZE == 0
    ensures EncodeTranslations(DecodeTranslations(bytes)) == bytes
    decreases |bytes|
  {
    if |bytes| > 0 {
      TranslationBytesRoundTrip(bytes[4..]);
      U16BytesRoundTrip(bytes[..2]);
      U16BytesRoundTrip(bytes[2..4]);
      assert bytes == bytes[..2] + bytes[2..4] + bytes[4..];
    }
  }

  /** `FileInfoField`. */
  datatype FileInfoField =
    | Comments
    | InternalName
    | ProductName
    | CompanyName
    | LegalCopyright
    | ProductVersion
    | FileDescription
    | LegalTrademarks
    | PrivateBuild
    | FileVersion
    | OriginalFilename
    | SpecialBuild

  /** `FileInfoField::field_name`: each field's own identifier. */
  function FieldName(field: FileInfoField): (name: string)
    ensures |name| > 0 && '\\' !in name
  {
    match field
    case Comments => "Comments"
    case InternalName => "InternalName"
    case ProductName => "ProductName"
    case CompanyName => "CompanyName"
    case LegalCopyright => "LegalCopyright"
    case ProductVersion => "ProductVersion"
    case FileDescription => "FileDescription"
    case LegalTrademarks => "LegalTrademarks"
    case PrivateBuild => "PrivateBuild"
    case FileVersion => "FileVersion"
    case OriginalFilename => "OriginalFilename"
    case SpecialBuild => "SpecialBuild"
  }

  /** The field a name stands for, if any. */
  function FieldFromName(name: string): (r: Option<FileInfoField>)
    ensures r.Some? ==> FieldName(r.value) == name
  {
    if name == "Comments" then Some(Comments)
    else if name == "InternalName" then Some(InternalName)
    else if name == "ProductName" then Some(ProductName)
    else if name == "CompanyName" then Some(CompanyName)
    else if name == "LegalCopyright" then Some(LegalCopyright)
    else if name == "ProductVersion" then Some(ProductVersion)
    else if name == "FileDescription" then Some(FileDescription)
    else if name == "LegalTrademarks" then Some(LegalTrademarks)
    else if name == "PrivateBuild" then Some(PrivateBuild)
    else if name == "FileVersion" then Some(FileVersion)
    else if name == "OriginalFilename" then Some(OriginalFilename)
    else if name == "SpecialBuild" then Some(SpecialBuild)
    else None
  }

  lemma FieldNameRoundTrip(field: FileInfoField)
    ensures FieldFromName(FieldName(field)) == Some(field)
  {
  }

  /** Distinct fields have distinct names. */
  lemma FieldNameInjective(f: FileInfoField, g: FileInfoField)
    requires FieldName(f) == FieldName(g)
    ensures f == g
  {
    FieldNameRoundTrip(f);
    FieldNameRoundTrip(g);
  }

  /** A lowercase hexadecimal digit. */
  function HexDigit(n: nat): (c: char)
    requires n < 16
  {
    if n < 10 then ('0' as int + n) as char else ('a' as int + n - 10) as char
  }

  function HexDigitValue(c: char): (r: Option<nat>)
    ensures r.Some? ==> r.value < 16
  {
    if '0' <= c <= '9' then Some(c as int - '0' as int)
    else if 'a' <= c <= 'f' then Some(c as int - 'a' as int + 10)
    else None
  }

  /** `{v:04x}`: four lowercase hexadecimal digits, zero-padded, most significant first. */
  function Hex4(v: u16): (r: string)
    ensures |r| == 4
    ensures forall i :: 0 <= i < 4 ==> ('0' <= r[i] <= '9' || 'a' <= r[i] <= 'f')
  {
    [HexDigit(v / 0x1000), HexDigit(v / 0x100 % 0x10), HexDigit(v / 0x10 % 0x10), HexDigit(v % 0x10)]
  }

  function ParseHex4(s: string): (r: Option<u16>)
  {
    if |s| != 4 then None
    else match (HexDigitValue(s[0]), HexDigitValue(s[1]), HexDigitValue(s[2]), HexDigitValue(s[3]))
      case (Some(a), Some(b), Some(c), Some(d)) => Some(a * 0x1000 + b * 0x100 + c * 0x10 + d)
      case _ => None
  }

  lemma HexDigitRoundTrip(n: nat)
    requires n < 16
    ensures HexDigitValue(HexDigit(n)) == Some(n)
  {
  }

  /** The four digits of `v` put back together give `v`. */
  lemma Hex4Digits(v: u16)
    ensures v / 0x1000 * 0x1000 + v / 0x100 % 0x10 * 0x100 + v / 0x10 % 0x10 * 0x10 + v % 0x10 == v
  {
    var q := v / 0x10;
    assert v == q * 0x10 + v % 0x10;
    var r := q / 0x10;
    assert q == r * 0x10 + q % 0x10;
    assert r / 0x10 == v / 0x1000;
    assert r % 0x10 == v / 0x100 % 0x10;
    assert q % 0x10 == v / 0x10 % 0x10;
  }

  lemma Hex4RoundTrip(v: u16)
    ensures ParseHex4(Hex4(v)) == Some(v)
  {
    HexDigitRoundTrip(v / 0x1000);
    HexDigitRoundTrip(v / 0x100 % 0x10);
    HexDigitRoundTrip(v / 0x10 % 0x10);
    HexDigitRoundTrip(v % 0x10);
    Hex4Digits(v);
  }

  const STRING_FILE_INFO := "\\StringFileInfo\\"

  /** The sub-key `get_file_string` asks for: `\StringFileInfo\llllcccc\Field`. */
  function FileStringKey(language: u16, codePage: u16, field: FileInfoField): (key: string)
    ensures var n := |STRING_FILE_INFO|;
            && |key| == n + 9 + |FieldName(field)|
            && key[..n] == STRING_FILE_INFO
            && key[n .. n + 4] == Hex4(language)
            && key[n + 4 .. n + 8] == Hex4(codePage)
            && key[n + 8] == '\\'
            && key[n + 9..] == FieldName(field)
  {
    STRING_FILE_INFO + Hex4(language) + Hex4(codePage) + "\\" + FieldName(field)
  }

  /** Reads a `\StringFileInfo\llllcccc\Field` sub-key back. */
  function ParseFileStringKey(key: string): (r: Option<(u16, u16, FileInfoField)>)
  {
    var n := |STRING_FILE_INFO|;
    if |key| < n + 9 || key[..n] != STRING_FILE_INFO || key[n + 8] != '\\' then None
    else match (ParseHex4(key[n .. n + 4]), ParseHex4(key[n + 4 .. n + 8]), FieldFromName(key[n + 9..]))
      case (Some(language), Some(codePage), Some(field)) => Some((language, codePage, field))
      case _ => None
  }

  /** The key determines the translation and the field it was built from. */
  lemma FileStringKeyRoundTrip(language: u16, codePage: u16, field: FileInfoField)
    ensures ParseFileStringKey(FileStringKey(language, codePage, field)) == Some((language, codePage, field))
  {
    var key := FileStringKey(language, codePage, field);
    var n := |STRING_FILE_INFO|;
    assert key[..n] == STRING_FILE_INFO;
    assert key[n .. n + 4] == Hex4(language);
    assert key[n + 4 .. n + 8] == Hex4(codePage);
    assert key[n + 9..] == FieldName(field);
    Hex4RoundTrip(language);
    Hex4RoundTrip(codePage);
    FieldNameRoundTrip(field);
  }

  /** Different (language, code page, field) triples never share a key. */
  lemma FileStringKeyInjective(l1: u16, c1: u16, f1: FileInfoField, l2: u16, c2: u16, f2: FileInfoField)
    requires FileStringKey(l1, c1, f1) == FileStringKey(l2, c2, f2)
    ensures l1 == l2 && c1 == c2 && f1 == f2
  {
    FileStringKeyRoundTrip(l1, c1, f1);
    FileStringKeyRoundTrip(l2, c2, f2);
  }

  /** `chunks_exact(2).map(u16::from_ne_bytes).collect()`. */
  function UnitsFromBytes(bytes: seq<u8>): (r: seq<u16>)
    requires |bytes| % 2 == 0
    ensures |r| == |bytes| / 2
    ensures forall i :: 0 <= i < |r| ==> r[i] == U16FromBytes(bytes[2 * i .. 2 * i + 2])
    decreases |bytes|
  {
    if |bytes| == 0 then []
    else
      var rest := UnitsFromBytes(bytes[2..]);
      PairsOfTail(bytes);
      [U16FromBytes(bytes[..2])] + rest
  }

  /** The `i`-th byte pair of `bytes` is the `(i - 1)`-th of `bytes[2..]`. */
  lemma PairsOfTail(bytes: seq<u8>)
    requires |bytes| >= 2
    ensures forall i :: 1 <= i <= (|bytes| - 2) / 2 ==>
              bytes[2 * i .. 2 * i + 2] == bytes[2..][2 * (i - 1) .. 2 * (i - 1) + 2]
  {
    forall i | 1 <= i <= (|bytes| - 2) / 2
      ensures bytes[2 * i .. 2 * i + 2] == bytes[2..][2 * (i - 1) .. 2 * (i - 1) + 2]
    {
      assert bytes[2..][2 * (i - 1) .. 2 * (i - 1) + 2] == bytes[2 + 2 * (i - 1) .. 2 + 2 * (i - 1) + 2];
    }
  }

  function UnitsToBytes(units: seq<u16>): (r: seq<u8>)
    ensures |r| == 2 * |units|
    decreases |units|
  {
    if units == [] then [] else U16ToBytes(units[0]) + UnitsToBytes(units[1..])
  }

  lemma {:induction false} UnitsRoundTrip(units: seq<u16>)
    ensures UnitsFromBytes(UnitsToBytes(units)) == units
    decreases |units|
  {
    if units != [] {
      var b := UnitsToBytes(units);
      UnitsRoundTrip(units[1..]);
      assert b[..2] == U16ToBytes(units[0]);
      assert b[2..] == UnitsToBytes(units[1..]);
      U16RoundTrip(units[0]);
      assert units == [units[0]] + units[1..];
    }
  }

  /** What `VerQueryValueW` promises about a string value: `len` UTF-16 units
      are readable at the pointer it returns. */
  predicate StringReplyWellSized(q: Option<QueryValue>)
  {
    q.Some? ==> 2 * q.value.len <= |q.value.buffer|
  }

  /** `get_file_string`: a failed query is `Ok(None)`; a successful one gives
      the `len` units stored in the `2 * len` bytes at the returned pointer. */
  function GetFileString(blob: seq<u8>, language: u16, codePage: u16, field: FileInfoField, query: VerQuery)
    : (r: Result<Option<seq<u16>>>)
    requires StringReplyWellSized(query(blob, Utf16.Encode(FileStringKey(language, codePage, field))))
    ensures r.Ok?
    ensures var q := query(blob, Utf16.Encode(FileStringKey(language, codePage, field)));
            && (r.value.None? <==> q.None?)
            && (r.value.Some? ==>
                  && |r.value.value| == q.value.len
                  && forall i :: 0 <= i < q.value.len ==>
                       r.value.value[i] == U16FromBytes(q.value.buffer[2 * i .. 2 * i + 2]))
  {
    var key := Utf16.Encode(FileStringKey(language, codePage, field));
    match query(blob, key)
    case None => Ok(None)
    case Some(q) =>
      var bytes := q.buffer[..2 * q.len];
      assert forall i :: 0 <= i < q.len ==> bytes[2 * i .. 2 * i + 2] == q.buffer[2 * i .. 2 * i + 2];
      Ok(Some(UnitsFromBytes(bytes)))
  }

  /** `FileInfo`: one translation of a version resource, sharing its blob. */
  datatype FileInfo = FileInfo(data: seq<u8>, language: u16, codePage: u16)
  {
    /** `FileInfo::get_string`: the field's value for this translation. */
    function GetString(field: FileInfoField, query: VerQuery): (r: Result<Option<seq<u16>>>)
      requires StringReplyWellSized(query(data, Utf16.Encode(FileStringKey(language, codePage, field))))
      ensures r.Ok?
      ensures var q := query(data, Utf16.Encode(FileStringKey(language, codePage, field)));
              && (r.value.None? <==> q.None?)
              && (r.value.Some? ==>
                    && |r.value.value| == q.value.len
                    && forall i :: 0 <= i < q.value.len ==>
                         r.value.value[i] == U16FromBytes(q.value.buffer[2 * i .. 2 * i + 2]))
    {
      GetFileString(data, language, codePage, field, query)
    }
  }

  /** `w!("\\VarFileInfo\\Translation")`: the sub-key of the translation
      table, as the UTF-16 units the macro lays out. */
  const TRANSLATION_KEY_UNITS: seq<u16> := [0x5C, 0x56, 0x61, 0x72, 0x46, 0x69, 0x6C, 0x65, 0x49, 0x6E, 0x66, 0x6F, 0x5C, 0x54, 0x72, 0x61, 0x6E, 0x73, 0x6C, 0x61, 0x74, 0x69, 0x6F, 0x6E]

  const TRANSLATION_KEY := "\\VarFileInfo\\Translation"

  /** Char for char, the key's code points are the units. */
  lemma TranslationKeyChars()
    ensures |TRANSLATION_KEY| == |TRANSLATION_KEY_UNITS|
    ensures forall i :: 0 <= i < |TRANSLATION_KEY| ==> TRANSLATION_KEY[i] as int == TRANSLATION_KEY_UNITS[i]
  {
  }

  /** The units are the UTF-16 encoding of the key. */
  lemma TranslationKeyUnits()
    ensures Utf16.Encode(TRANSLATION_KEY) == TRANSLATION_KEY_UNITS
  {
    TranslationKeyChars();
    Utf16.EncodeBmp(TRANSLATION_KEY);
    assert seq(|TRANSLATION_KEY|, i requires 0 <= i < |TRANSLATION_KEY| => TRANSLATION_KEY[i] as int) == TRANSLATION_KEY_UNITS;
  }

  /** What `file_descriptions` relies on about the translation query: `len`
      bytes are readable at the pointer, and they form whole entries. */
  predicate TranslationReplyWellSized(q: Option<QueryValue>)
  {
    q.Some? ==> q.value.len <= |q.value.buffer| && q.value.len % TRANSLATION_ENTRY_SIZE == 0
  }

  /** The translation table's bytes, as `from_raw_parts(ptr, len)` sees them. */
  function TableBytes(q: QueryValue): (bytes: seq<u8>)
    requires q.len <= |q.buffer|
  {
    q.buffer[..q.len]
  }

  /** One `FileInfo` per entry, each holding a reference to the same blob. */
  function Describe(blob: seq<u8>, entries: seq<TranslationEntry>): (r: seq<FileInfo>)
    ensures |r| == |entries|
    ensures forall k :: 0 <= k < |r| ==> r[k] == FileInfo(blob, entries[k].language, entries[k].codePage)
  {
    seq(|entries|, k requires 0 <= k < |entries| => FileInfo(blob, entries[k].language, entries[k].codePage))
  }

  /** `Process::file_descriptions` after the blob is loaded. `version` is the
      outcome of resolving the executable path and loading its version
      resource (`None` when one of those OS calls fails); an empty blob is the
      `assert_ne!` the source panics on. A failed translation query is an
      error; otherwise there is one `FileInfo` per entry, in table order. */
  function FileDescriptions(version: Option<seq<u8>>, query: VerQuery): (r: Result<seq<FileInfo>>)
    requires version.Some? ==> |version.value| > 0
    requires version.Some? ==> TranslationReplyWellSized(query(version.value, TRANSLATION_KEY_UNITS))
    ensures r.Err? ==> r.error == Windows
    ensures version.None? ==> r.Err?
    ensures version.Some? ==> (r.Ok? <==> query(version.value, TRANSLATION_KEY_UNITS).Some?)
    ensures r.Ok? ==>
              var bytes := TableBytes(query(version.value, TRANSLATION_KEY_UNITS).value);
              && |r.value| == |bytes| / TRANSLATION_ENTRY_SIZE
              && forall k :: 0 <= k < |r.value| ==>
                   && r.value[k].data == version.value
                   && r.value[k].language == U16FromBytes(bytes[4 * k .. 4 * k + 2])
                   && r.value[k].codePage == U16FromBytes(bytes[4 * k + 2 .. 4 * k + 4])
  {
    match version
    case None => Err(Windows)
    case Some(blob) =>
      match query(blob, TRANSLATION_KEY_UNITS)
      case None => Err(Windows)
      case Some(q) => Ok(Describe(blob, DecodeTranslations(TableBytes(q))))
  }

  /** Whatever table the resource holds, `file_descriptions` lists exactly its
      entries, in order, each sharing the blob. */
  lemma {:induction false} DescriptionsListTable(blob: seq<u8>, query: VerQuery, entries: seq<TranslationEntry>)
    requires |blob| > 0
    requires var table := EncodeTranslations(entries);
             query(blob, TRANSLATION_KEY_UNITS) == Some(QueryValue(table, |table|))
    ensures FileDescriptions(Some(blob), query) == Ok(Describe(blob, entries))
  {
    var table := EncodeTranslations(entries);
    assert TableBytes(QueryValue(table, |table|)) == table;
    TranslationsRoundTrip(entries);
  }

  /** An empty translation table gives no `FileInfo`, and no error. */
  lemma EmptyTableNoDescriptions(blob: seq<u8>, query: VerQuery)
    requires |blob| > 0
    requires query(blob, TRANSLATION_KEY_UNITS).Some?
    requires query(blob, TRANSLATION_KEY_UNITS).value.len == 0
    ensures FileDescriptions(Some(blob), query) == Ok([])
  {
  }
}
