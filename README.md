# tegra-eeprom-tool, modelled in Dafny

This project models the core of tegra-eeprom-tool, a utility for the
256-byte identification EEPROM on NVIDIA Jetson carrier boards and compute
modules (CVMs). The model covers three parts of the tool:

- **The EEPROM library** (`eeprom.c`). It validates the raw record with a
  table-driven CRC-8, a layout version and, on a compute module, the "NVCB"
  configuration-block header. It decodes the raw record into the logical
  `module_eeprom_t`, with string padding stripped and MAC addresses
  byte-reversed. It re-encodes a logical record into the cache, which is
  reinitialised first if invalid, then sealed with the CRC and written.
- **The editing tool** (`tegra-eeprom-tool.c`). This covers the field table
  and field-name lookup, MAC address formatting and parsing, and the
  `show`, `get`, `set`, `verify` and `write` commands on a session. It also
  covers the write-back of unsaved changes on exit.
- **The boardspec helper** (`boardspec.c`). It reads the compute-module
  EEPROM and turns a vendor part number `699-8bbbb-ssss-fff RRR` into the
  identifier `bbbb-fff-ssss-RRR-<prod mode>-<chip revision>`.

Modules, in dependency order:

| file | module | what it holds |
|---|---|---|
| libc.dfy | `Libc` | bytes, `errno` values, and the C library calls the core uses (`strlen`, `strncpy`, `memcpy`, `memset`, `snprintf`, `strcasecmp`, `strncasecmp`, `tolower`, `isxdigit`, `isprint`) |
| checksum.dfy | `Checksum` | `crc_table` and `calc_crc8`, proved equal to the bitwise Dallas/Maxim CRC-8, with its error-detection facts |
| layout.dfy | `Layout` | the raw record layout (offsets, constants) and the logical record `ModuleEeprom` |
| codec.dfy | `EepromCodec` | `eeprom_data_valid`, `extract_string`, `extract_macaddr`, decoding (`eeprom_read`), and cache preparation for `eeprom_write`, as functions and loop methods |
| codec_properties.dfy | `CodecProperties` | what the codec guarantees: validity after a write, what each step keeps and changes, and read-after-write |
| eeprom.dfy | `Eeprom` | the handle `EepromContext` (`struct eeprom_context_s`), a class whose cache is an array and whose methods follow the C code step by step |
| mactext.dfy | `MacText` | `format_macaddr` (as written and corrected) and `parse_macaddr`, with the round trip between them |
| fields.dfy | `Fields` | the `eeprom_fields` table, `parse_fieldname`, `format_field`, and how a field sits in the logical record |
| commands.dfy | `Commands` | what `show` and `get` print, and how `set` checks its arguments and changes the record |
| session.dfy | `Session` | the session `ToolContext` (`struct context_s`), a class with the five commands and the exit path of `main` |
| boardspec.dfy | `Boardspec` | `tegra_boardspec`: the checks, the EEPROM read, and the formatted identifier |

The device behind a handle is the field `EepromContext.device`. How the
final `lseek`/`write` of `eeprom_write` turns out is the parameter
`Transport`. What `tegra_boardspec` learns from the platform is the
parameter `Platform`: the production-mode fuse, the SoC type, the I2C
address, and which way of opening the EEPROM works with what contents.

## Model

| member | source | states |
|---|---|---|
| Libc.StrLen | tegra-eeprom-tool.c:334 | `strlen`: the index of the first NUL, with no NUL before it, or the whole length when there is none |
| Libc.CStr | tegra-eeprom-tool.c:246-248 | the C string a buffer holds: a NUL-free prefix followed by a NUL or the end of the buffer |
| Libc.CStrTerminated | tegra-eeprom-tool.c:157-158 | a buffer holding `p`, a NUL, then anything, holds the C string of `p` |
| Libc.StrNCpy | eeprom.c:332 | `strncpy` into `n` bytes: the C string of the first `n` source bytes, then NUL fill to `n` |
| Libc.Snprintf | boardspec.c:125-132 | what `snprintf` stores for a given size: nothing for size 0; otherwise the text cut to size-1 bytes, then a NUL |
| Libc.Memset | eeprom.c:139 | `memset` changes exactly the `n` bytes at `off`, to `c` |
| Libc.Memcpy | eeprom.c:137 | `memcpy` changes exactly the bytes at `off`, to the source |
| Libc.Strncpy | eeprom.c:331-337 | the `strncpy` loop changes exactly the `n` bytes at `off`, to `StrNCpy(src, n)` |
| Libc.ToLower | tegra-eeprom-tool.c:137 | `tolower` in the C locale: 'A'..'Z' become 'a'..'z', every other byte is kept |
| Libc.IsXDigit | tegra-eeprom-tool.c:135 | `isxdigit`: '0'..'9', 'a'..'f' and 'A'..'F' |
| Libc.IsPrint | boardspec.c:116 | `isprint` in the C locale: space through '~' |
| Libc.StrNCaseEq | tegra-eeprom-tool.c:335-337 | `strncasecmp(a, b, n) == 0`: the first `n` bytes agree after `tolower`, reading NUL past a string's end |
| Libc.StrCaseEq | tegra-eeprom-tool.c:175 | `strcasecmp(a, b) == 0`: agreement after `tolower` up to and including the terminator |
| Libc.StrCaseEqIff | tegra-eeprom-tool.c:175 | `strcasecmp` of two C strings is 0 iff they have the same length and agree after `tolower` at every index |
| Libc.StrNCaseEqPrefix | tegra-eeprom-tool.c:335-337 | `strncasecmp(a, b, strlen(a))` is 0 iff `a` is a case-insensitive prefix of `b` |
| Checksum.CrcTable | eeprom.c:65-83 | the 256 entries of `crc_table`, by index |
| Checksum.Crc8 | eeprom.c:88-91 | the checksum: `crc := crc_table[crc ^ b]` folded over the bytes in order from 0 |
| Checksum.CalcCrc8 | eeprom.c:85-93 | the down-counting loop returns the table CRC of the first `buflen` bytes |
| Checksum.TableIsMaxim | eeprom.c:65-83 | every `crc_table` entry equals eight shifts of the reflected 0x8C register on its index |
| Checksum.MaximByteInjective | eeprom.c:65-83 | the register map of one byte is one-to-one |
| Checksum.MaximLossless | eeprom.c:65-83 | the bitwise map is one-to-one and fixes 0 |
| Checksum.TableLossless | eeprom.c:65-83 | the table is one-to-one and fixes 0 |
| Checksum.FoldAgrees | eeprom.c:88-91 | two tables that agree on every byte give the same CRC on every input |
| Checksum.Crc8IsMaxim | eeprom.c:85-93 | the table-driven CRC equals the bitwise Maxim CRC-8 on every byte string |
| Checksum.FoldAppend | eeprom.c:89-90 | the CRC of `p + q` continues from the CRC of `p` |
| Checksum.FoldInjective | eeprom.c:89-90 | with a lossless table, different starting registers stay different over any suffix |
| Checksum.FoldDetectsByteChange | eeprom.c:89-90 | with a lossless table, changing any one byte changes the CRC |
| Checksum.FoldResidue | eeprom.c:89-90 | with a lossless table, appending `c` gives CRC 0 iff `c` is the CRC of what precedes it |
| Checksum.Crc8DetectsByteChange | eeprom.c:85-93 | `calc_crc8` catches every single-byte change |
| Checksum.Crc8Residue | eeprom.c:105 | the stored checksum matches iff the CRC over all 256 bytes is 0 |
| Layout.Le16 | eeprom.c:107 | `le16toh` of a stored 16-bit field is below 65536 |
| Layout.Le16Constants | eeprom.c:322-327 | the little-endian encodings of version 1, length 28 and MAC-format version 0 read back as those values |
| EepromCodec.RecordValid | eeprom.c:101-119 | `eeprom_data_valid`: the stored checksum is the CRC of bytes 0..254 and the header checks pass |
| EepromCodec.HeaderValid | eeprom.c:107-116 | layout version 1; for a CVM also "NVCB", "M1" and MAC-format version 0 |
| EepromCodec.DecodeFields | eeprom.c:276-290 | the logical record of a raw one: customer type iff byte 20 is 0xCC, strings extracted, MACs reversed |
| EepromCodec.Decode | eeprom.c:264-293 | `eeprom_read`: EFAULT and the cleared record for an invalid record, else 0 and `DecodeFields` |
| EepromCodec.Reinit | eeprom.c:320-329 | the fresh record an invalid cache is reset to |
| EepromCodec.WriteBase | eeprom.c:320-329 | the record the write starts from: the cache if valid, else `Reinit` |
| EepromCodec.PackStrings | eeprom.c:331-337 | the part number (with the 0xCC marker for a customer one) and the asset id stored with `strncpy` |
| EepromCodec.PackMacs | eeprom.c:338-356 | the seven MACs stored reversed on a CVM; elsewhere the placeholder, with "FFFF" and "FF" over the signature and tag |
| EepromCodec.Sealed | eeprom.c:357 | byte 255 replaced by the CRC of bytes 0..254 |
| EepromCodec.Prepared | eeprom.c:319-357 | the cache `eeprom_write` sends: start, strings, MACs, then the checksum |
| EepromCodec.KeptLength | eeprom.c:130-135 | the length left once trailing pad bytes `c` are stripped: every byte after it is `c`, and the byte before it is not |
| EepromCodec.ExtractedLength | eeprom.c:128-135 | the length `extract_string` keeps is at most the field width |
| EepromCodec.ExtractedString | eeprom.c:125-141 | `extract_string` fills exactly the field width |
| EepromCodec.TextLength | eeprom.c:128-135 | the trimming loops of `extract_string` compute `ExtractedLength` |
| EepromCodec.ExtractString | eeprom.c:125-141 | `extract_string` changes exactly the destination field, to `ExtractedString(src)` |
| EepromCodec.FillTail | eeprom.c:138-139 | the zero fill after the kept text changes exactly the tail, to NULs |
| EepromCodec.ExtractedSplice | eeprom.c:136-139 | copying the kept prefix and zero-filling the rest stores `ExtractedString` |
| EepromCodec.MacReversed | eeprom.c:148-155 | byte `i` of the result is byte `5 - i` of the input |
| EepromCodec.ExtractMacaddr | eeprom.c:148-155 | the reversing loop changes exactly the six destination bytes, to `MacReversed(src)` |
| CodecProperties.ChecksumMatchIffResidueZero | eeprom.c:105 | the checksum test passes iff the whole record's CRC is 0 |
| CodecProperties.ValidDetectsByteChange | eeprom.c:101-119 | changing any single byte of a valid record makes `eeprom_data_valid` fail |
| CodecProperties.ExtractFixed | eeprom.c:130-141 | a field whose last byte is not 0xFF is returned by `extract_string` unchanged |
| CodecProperties.ExtractAllPadding | eeprom.c:130-139 | a field of all 0xFF, or all NUL, extracts to all NULs |
| CodecProperties.ExtractUnpadded | eeprom.c:130-137 | a field ending in neither pad byte is copied whole |
| CodecProperties.ExtractIdempotent | eeprom.c:125-141 | extracting an extracted string changes nothing |
| CodecProperties.ExtractAfterStrNCpy | eeprom.c:331-337 | what `strncpy` packs, `extract_string` recovers unchanged, unless the field is full and ends in 0xFF |
| CodecProperties.MacReversedTwice | eeprom.c:339-345 | reversing a MAC on write and again on read gives it back |
| CodecProperties.ReinitContents | eeprom.c:320-329 | every byte of the reinitialised record: version 1, and for a CVM "NVCB", length 28, "M1" and version 0; all others 0 |
| CodecProperties.WriteBaseHeaderValid | eeprom.c:320-329 | the record the write starts from always has a valid version and, for a CVM, a valid header |
| CodecProperties.PackStringsKeeps | eeprom.c:331-337 | packing the strings changes no byte outside the part number and asset id |
| CodecProperties.PackMacsKeeps | eeprom.c:338-356 | packing the MACs changes no byte outside the seven MAC fields (and, off a CVM, the signature and tag) |
| CodecProperties.SealedKeeps | eeprom.c:357 | sealing changes no byte before the checksum |
| CodecProperties.SealedChecksum | eeprom.c:357 | after sealing, byte 255 is the CRC of bytes 0..254 |
| CodecProperties.PreparedKeeps | eeprom.c:319-357 | every byte the write does not rewrite keeps its value from the starting record |
| CodecProperties.SameHeaderOutsideRewritten | eeprom.c:101-119 | records that agree outside the rewritten bytes have the same version and CVM header |
| CodecProperties.PreparedSameHeader | eeprom.c:319-357 | the prepared cache has the header of the record the write started from |
| CodecProperties.HeaderValidTransfers | eeprom.c:107-116 | header validity depends only on the header bytes |
| CodecProperties.PreparedHeaderValid | eeprom.c:319-357 | the prepared cache has a valid header |
| CodecProperties.PreparedValid | eeprom.c:308-357 | whatever the cache held, `eeprom_write` prepares a record that `eeprom_data_valid` accepts |
| CodecProperties.SealedSlice | eeprom.c:357 | sealing keeps every slice before the checksum |
| CodecProperties.PackStringsFields | eeprom.c:331-337 | the part number (with the 0xCC marker for a customer one) and the asset id hold what `strncpy` packed |
| CodecProperties.PackMacsFields | eeprom.c:338-356 | packing MACs keeps both strings, and stores each MAC reversed (CVM) or the placeholder (other modules) |
| CodecProperties.PlaceholderSymmetric | eeprom.c:29 | the all-0xFF placeholder reads back as itself |
| CodecProperties.SameBeforeChecksum | eeprom.c:276-290 | records equal before the checksum agree on every slice there |
| CodecProperties.DecodeFieldsIgnoresChecksum | eeprom.c:276-290 | decoding reads nothing from the checksum byte |
| CodecProperties.PackedFieldsStored | eeprom.c:331-356 | packing the strings, then the MACs, stores every field of the record |
| CodecProperties.StoredStringsDecode | eeprom.c:276-283 | stored strings decode to the part-number type, part number and asset id as the write normalised them |
| CodecProperties.StoredMacsDecode | eeprom.c:284-290 | stored MACs decode to the record's MACs (CVM) or the placeholder (other modules) |
| CodecProperties.StoredDecodes | eeprom.c:276-290 | a record holding the stored fields decodes to the normalised record |
| CodecProperties.SealedDecodes | eeprom.c:357 | sealing keeps the decoded fields |
| CodecProperties.ReadAfterWrite | eeprom.c:264-357 | reading back what a write prepared succeeds, and returns the written record as normalised |
| Eeprom.Delivered | eeprom.c:359-366 | a full write leaves the cache on the device, a failed seek leaves it unchanged, and each byte is either new or old |
| Eeprom.EepromContext.Open | eeprom.c:217-227 | `eeprom_open`: a writable handle whose cache holds the device contents |
| Eeprom.EepromContext.OpenI2c | eeprom.c:190-209 | `eeprom_open_i2c`: a read-only handle whose cache holds the device contents |
| Eeprom.EepromContext.Close | eeprom.c:235-240 | `eeprom_close` releases an open handle, which no operation may use afterwards, and changes nothing else |
| Eeprom.EepromContext.IsReadonly | eeprom.c:247-252 | `eeprom_readonly`: the handle's read-only flag |
| Eeprom.EepromContext.DataValid | eeprom.c:101-119 | `eeprom_data_valid` returns whether the cache passes the CRC, version and CVM header checks |
| Eeprom.EepromContext.Read | eeprom.c:264-293 | `eeprom_read` returns EFAULT and the cleared record for an invalid cache, else 0 and the decoded fields |
| Eeprom.EepromContext.ReadFields | eeprom.c:276-290 | the extraction steps of `eeprom_read` build the decoded record |
| Eeprom.EepromContext.ReadAssetId | eeprom.c:283 | the asset id is extracted from bytes 74..88 |
| Eeprom.EepromContext.ReadPartnumber | eeprom.c:276-282 | a 0xCC first byte gives a customer part number from bytes 21..41, else a vendor one from 20..41 |
| Eeprom.EepromContext.ReadMac | eeprom.c:284-290 | a MAC is read byte-reversed |
| Eeprom.EepromContext.Write | eeprom.c:308-369 | `eeprom_write`: EROFS on a read-only handle with nothing changed; else the cache becomes `Prepared`, and the device gets what the transfer delivers |
| Eeprom.EepromContext.Transfer | eeprom.c:359-366 | the seek-and-write loop leaves the cache unchanged, fails unless all 256 bytes go out, and leaves the device as `Delivered` |
| Eeprom.EepromContext.Prepare | eeprom.c:320-357 | the cache-preparation steps compute `Prepared` |
| Eeprom.EepromContext.StartFromValid | eeprom.c:320-329 | an invalid cache is reinitialised; a valid one is kept |
| Eeprom.EepromContext.PackAndSeal | eeprom.c:331-357 | strings, then MACs, then the CRC |
| Eeprom.EepromContext.Reinitialise | eeprom.c:321-328 | the cache becomes the fresh record for its module type |
| Eeprom.EepromContext.StoreStrings | eeprom.c:331-337 | the cache becomes `PackStrings` of itself |
| Eeprom.EepromContext.StoreMacs | eeprom.c:338-356 | the cache becomes `PackMacs` of itself |
| Eeprom.EepromContext.Seal | eeprom.c:357 | byte 255 becomes the CRC of bytes 0..254 |
| MacText.HexChar | tegra-eeprom-tool.c:119 | a nibble's `%x` digit is a lowercase hex digit that `hexdigit` maps back to the nibble |
| MacText.HexDigit | tegra-eeprom-tool.c:108-113 | `hexdigit` of a lowercase hex digit is below 16 |
| MacText.HexDigitInverse | tegra-eeprom-tool.c:108-113 | a lowercase hex digit is the `%x` digit of its `hexdigit` value |
| MacText.HexPair | tegra-eeprom-tool.c:119 | `%02x` gives two hex digits whose parsed value is the byte |
| MacText.Joined | tegra-eeprom-tool.c:119-120 | colon-joined pairs are 3n-1 bytes with no NUL |
| MacText.MacString | tegra-eeprom-tool.c:119-120 | the formatted address is 17 bytes with no NUL |
| MacText.SizeMinusOne | tegra-eeprom-tool.c:119 | `bufsize - 1` in `size_t`: one less for a positive size, the largest value for 0 |
| MacText.FormattedAsWritten | tegra-eeprom-tool.c:119-122 | the as-written `format_macaddr` leaves the buffer length unchanged |
| MacText.FormatMacaddrAsWritten | tegra-eeprom-tool.c:115-126 | `format_macaddr` as written returns 17 and leaves `FormattedAsWritten` in the buffer |
| MacText.AsWrittenTruncatesAt18 | tegra-eeprom-tool.c:119-122 | with an 18-byte buffer, the as-written formatter keeps only 16 of the 17 characters |
| MacText.AsWrittenOverruns | tegra-eeprom-tool.c:121-122 | with a buffer of 1 to 17 bytes, the as-written formatter clears byte 17, past the buffer's end, and no other byte beyond it |
| MacText.AsWrittenUnboundedAtZero | tegra-eeprom-tool.c:119-122 | with a zero-byte buffer, `bufsize - 1` wraps around and all 18 bytes of text and NUL are stored past the end |
| MacText.Formatted | tegra-eeprom-tool.c:119 | the corrected formatter leaves the buffer length unchanged |
| MacText.FormatMacaddr | tegra-eeprom-tool.c:115-126 | the corrected `format_macaddr` returns 17 and leaves `Formatted` in the buffer |
| MacText.FormattedWhole | tegra-eeprom-tool.c:115-126 | with room for 18 bytes, the corrected formatter stores the whole address |
| MacText.FormattersAgree | tegra-eeprom-tool.c:115-126 | from 19 bytes up, both formatters store the same bytes |
| MacText.Pairs | tegra-eeprom-tool.c:134-142 | a successful scan of `k` pairs yields `k` bytes |
| MacText.ParsedMac | tegra-eeprom-tool.c:128-144 | `parse_macaddr` succeeds iff six pairs are read and then the text ends |
| MacText.PairsStep | tegra-eeprom-tool.c:135-140 | one round of the loop: a pair is read, then one optional ':' or '-' is skipped |
| MacText.CursorStep | tegra-eeprom-tool.c:135-140 | the cursor step of the loop matches `PairsStep` on the rest of the text |
| MacText.ParseMacaddr | tegra-eeprom-tool.c:128-144 | returns 0 iff the text is a MAC address, and then fills `a` with its six bytes; otherwise -1 |
| MacText.ScanPairs | tegra-eeprom-tool.c:134-141 | the loop stops after six pairs, at the end, or at a non-hex digit, with the bytes read so far stored |
| MacText.ParseEnd | tegra-eeprom-tool.c:134-142 | zero pairs remaining succeed only at the end of text; missing hex digits fail |
| MacText.JoinedParses | tegra-eeprom-tool.c:128-144 | colon-joined pairs parse back to their bytes |
| MacText.SpelledParses | tegra-eeprom-tool.c:134-141 | pairs separated by ':', '-' or nothing parse back to their bytes |
| MacText.PairThenRest | tegra-eeprom-tool.c:138-140 | after a pair and its optional separator, the scan resumes exactly at the next pair |
| MacText.ParseFormatRoundTrip | tegra-eeprom-tool.c:115-144 | `parse_macaddr` of what `format_macaddr` prints gives the address back |
| Fields.FieldName | tegra-eeprom-tool.c:53-61 | each field's name as bytes has the length of its spelling |
| Fields.FactoryNamesPrintable | tegra-eeprom-tool.c:53-55 | the first three field names are printable ASCII |
| Fields.FieldNamesPrintable | tegra-eeprom-tool.c:56-58 | fields 3 to 5 have printable ASCII names |
| Fields.VendorNamesPrintable | tegra-eeprom-tool.c:59-61 | the vendor MAC names are printable ASCII |
| Fields.FieldNamesAreCStrings | tegra-eeprom-tool.c:53-61 | no field name contains a NUL |
| Fields.FieldNameLengthsDiffer | tegra-eeprom-tool.c:53-61 | no two field names have the same length, so no name matches two entries |
| Fields.FirstMatchFrom | tegra-eeprom-tool.c:175 | the first entry from `k` on whose name matches ignoring case, or -1 if none does |
| Fields.FieldIndex | tegra-eeprom-tool.c:171-177 | `parse_fieldname` gives the first case-insensitive match, or -1 exactly when no name matches |
| Fields.ParseFieldname | tegra-eeprom-tool.c:171-177 | the search loop returns `FieldIndex` |
| Fields.FieldIndexOfName | tegra-eeprom-tool.c:171-177 | any case spelling of a field's name finds that field |
| Fields.FieldBytes | tegra-eeprom-tool.c:53-61 | field `i` of the record has the length the table gives |
| Fields.WithField | tegra-eeprom-tool.c:352-363 | storing into one field sets that field and changes no other field, nor the part-number type |
| Fields.FieldsDetermineRecord | tegra-eeprom-tool.c:43-62 | the nine fields and the part-number type make up the whole record |
| Fields.FieldText | tegra-eeprom-tool.c:146-169 | a formatted field is a C string of at most 22 bytes |
| Fields.CopiedLength | tegra-eeprom-tool.c:154-156 | a string field is cut to `bufsize - 1` bytes only when it does not fit with its NUL |
| Fields.FormatField | tegra-eeprom-tool.c:146-169 | strings copied, cut and terminated, MACs formatted; with a buffer above 22 bytes the buffer holds the field's text |
| Fields.StringValue | tegra-eeprom-tool.c:352-356 | the stored string is the value, then NULs to the field width |
| Fields.StringValueText | tegra-eeprom-tool.c:346-356 | a string field set to a C string reads back as that string |
| Fields.FillString | tegra-eeprom-tool.c:352-356 | the copy and zero-fill loop builds `StringValue` |
| Commands.PartnumTypeWord | tegra-eeprom-tool.c:334-342 | the part-number type for the `set` argument: `strncasecmp` against "customer" first, then "nvidia", else none |
| Commands.PartnumTypeWordMeaning | tegra-eeprom-tool.c:334-342 | the type argument selects customer iff it abbreviates "customer" (the empty one does), nvidia iff it abbreviates only "nvidia", and is refused otherwise |
| Commands.ShowLinesStep | tegra-eeprom-tool.c:240-249 | showing one more field appends its line |
| Commands.ShownOnBoard | tegra-eeprom-tool.c:241-242 | a carrier board shows only the part number and the asset id |
| Commands.ShownOnModule | tegra-eeprom-tool.c:240-249 | a compute module shows all nine fields in table order |
| Commands.SetAccepted | tegra-eeprom-tool.c:307-364 | whether `set` succeeds: argument count, field name, read-only flag, module type, type word for the part number, and the value's fit |
| Commands.SetResult | tegra-eeprom-tool.c:334-364 | the record after a successful `set`: the type for the part number, then the field's new bytes |
| Commands.SetBytes | tegra-eeprom-tool.c:345-364 | the bytes `set` stores fill the field exactly |
| Commands.SetThenGet | tegra-eeprom-tool.c:345-364 | after `set`, `get` prints the given string, or a MAC text that parses to the same bytes; other fields keep their values; the type changes only for the part number |
| Commands.ShowField | tegra-eeprom-tool.c:243-248 | the `show` line for a field: name, type tag for the part number, then the field's text |
| Commands.GetField | tegra-eeprom-tool.c:283-288 | the `get` line: the field's text, then the type tag for the part number |
| Commands.ListFields | tegra-eeprom-tool.c:240-249 | the loop prints the `show` line of each field the module type has, in table order |
| Commands.ShowNext | tegra-eeprom-tool.c:241-248 | one loop round prints the field's line iff the module type has it |
| Commands.StoreValue | tegra-eeprom-tool.c:345-364 | an overlong string or unparsable MAC returns 1 with nothing stored; otherwise returns 0 with the field set |
| Commands.SetRecord | tegra-eeprom-tool.c:299-373 | `set` succeeds iff every check passes, leaving `SetResult`; a failure after a valid type word for the part number leaves that type stored, any other failure leaves the record as it was |
| Session.ToolContext.constructor | tegra-eeprom-tool.c:619-621 | the session starts with the record read, `havedata` iff the cache is valid, the handle's read-only flag, and nothing modified |
| Session.ToolContext.DoShow | tegra-eeprom-tool.c:230-253 | returns 1 without output when there is no record and no change; else prints the shown fields and returns 0 |
| Session.ToolContext.GetAccepted | tegra-eeprom-tool.c:266-282 | whether `get` succeeds, in the order `do_get` checks: an argument, a known field, data, a field this module has |
| Session.ToolContext.DoGet | tegra-eeprom-tool.c:260-291 | for NUL-free arguments (C strings), returns 0 iff the field is known, present on this module, and there is data; then prints its `get` line |
| Session.ToolContext.DoSet | tegra-eeprom-tool.c:299-373 | returns 0 iff `set` is accepted; then the record is `SetResult` and marked modified; on failure the record keeps a part-number type already stored, and is otherwise unchanged |
| Session.ToolContext.DoVerify | tegra-eeprom-tool.c:380-394 | returns 0 iff there are no unsaved changes and the cache is valid, then prints "Verification successful" |
| Session.ToolContext.DoWrite | tegra-eeprom-tool.c:401-428 | refused, with nothing changed, when read-only or there is nothing to write; else writes, and a full write leaves data saved and unmodified |
| Session.ToolContext.Save | tegra-eeprom-tool.c:420-426 | the `eeprom_write` call and its effect on the session flags |
| Session.ToolContext.MarkSaved | tegra-eeprom-tool.c:424-425 | after a successful write the session has data and no changes |
| Session.ToolContext.Depart | tegra-eeprom-tool.c:645-657 | unsaved changes are written on exit; a failed write turns status 0 into -1; the handle is closed |
| Boardspec.Bounded | boardspec.c:126-129 | `%-w.ws`: the field's C string within `w` bytes, padded with spaces to `w` |
| Boardspec.BoardRev | boardspec.c:115-117 | the revision is up to three bytes from offset 19, present iff byte 18 is a blank and byte 19 is printable |
| Boardspec.Decimal | boardspec.c:126-132 | `%lu`/`%u`: decimal digits with no leading zero, "0" for zero |
| Boardspec.DecimalValue | boardspec.c:126 | the printed digits stand for the number |
| Boardspec.DigitValue | boardspec.c:126 | a digit character stands for its digit |
| Boardspec.BoardspecText | boardspec.c:125-132 | the identifier: board id, fab, SKU, revision, prod mode and chip revision, joined by dashes |
| Boardspec.BoardspecOutcome | boardspec.c:73-134 | the outcome of `tegra_boardspec`, check by check, ending in the identifier |
| Boardspec.TegraBoardspec | boardspec.c:61-134 | -1 with the errno of the failing check and the buffer untouched, or the identifier's length with `snprintf`'s output in the buffer; the handle, when opened, is closed |
| Boardspec.FormatBoardspec | boardspec.c:125-132 | returns the identifier's full length, and the buffer holds what `snprintf` stores |
| Boardspec.ReadAndClose | boardspec.c:83-99 | opens sysfs or the bus, reads as `eeprom_read` does, and closes the handle on both paths |
| Boardspec.BoardspecNulFree | boardspec.c:125-132 | the identifier contains no NUL |
| Boardspec.BoardspecColumns | boardspec.c:126-129 | board id, fab and SKU columns are 4, 3 and 4 bytes, separated by dashes |
| Boardspec.BoardspecTail | boardspec.c:126-132 | the revision, prod mode and chip revision follow, dash-separated; the last byte is '2' on Tegra194, else '0' |
| Boardspec.ChipDigit | boardspec.c:132 | the chip revision prints as '2' on Tegra194, else '0' |
| Boardspec.DashedLayout | boardspec.c:126 | where each piece sits in the dash-joined identifier |
| Boardspec.PieceAt | boardspec.c:126 | a piece that follows a prefix sits right after it |
| Boardspec.DashedNulFree | boardspec.c:126 | joining NUL-free pieces with dashes gives a NUL-free text |
| Boardspec.WellFormedBoardspec | boardspec.c:104-132 | for a well-formed `699-8bbbb-ssss-fff RRR` part number, the identifier is `bbbb-fff-ssss-RRR-<prod>-<chip>` |
| Boardspec.BoundedWhole | boardspec.c:126-129 | a column with no NUL is printed as is |
| Boardspec.SnprintfCString | boardspec.c:125-132 | the caller's buffer holds the identifier as a C string, cut to `bufsiz - 1` bytes when it does not fit |
| Boardspec.FormattedWhen | boardspec.c:73-134 | an identifier is produced iff every check passes, the EEPROM is valid, and the part number is a vendor one |
| Boardspec.FailureCauses | boardspec.c:76-103 | ENODEV iff no SoC or no address; ENOMSG iff a valid customer part number; EFAULT iff the EEPROM opened is invalid |

## Left out

- Device I/O is not modelled. The descriptors, `open`, `ioctl(I2C_SLAVE_FORCE)` and `close` are left out. So is the read loop of `open_common` (eeprom.c:173-181), which does not stop if `read` returns 0 before 256 bytes. A handle is opened on given device contents, and `Open`/`OpenI2c` cannot fail. An open that fails appears in `Boardspec.Platform` as a missing EEPROM.
- `calloc` failure in `open_common` and in `main` is not modelled.
- The final `lseek` and `write` of `eeprom_write` are the `Transport` parameter. Their `errno` is modelled as EIO, since what the C library sets there is outside the core.
- Eeprom.EepromContext.Transfer: the write loop of `eeprom_write` (eeprom.c:362-366) never ends if `write` returns 0, since `remain` does not shrink. `Transport` has no outcome for this hang, as it has none for the matching read loop of `open_common`.
- The command line is not modelled: `main`'s option parsing, the device-path and I2C-address probing, `command_loop`, the editline prompt, `print_usage` and `do_help`. The session starts once the handle is open.
- Messages printed on standard error are left out. Only the status they go with is modelled.
- Standard output is a list of lines, one per `printf`.
- Each `show`/`get` line comes from a fresh 128-byte `strbuf`. Earlier contents of the buffer do not matter once it is terminated.
- The default branches of `format_field` and `do_set` (unknown field type) cannot be reached with the nine-entry table. `FieldType` has only the two kinds.
- cvm.c (SoC detection and the module's I2C address) is not part of this model. Its answers are the `Platform` fields `soc` and `hasAddress`.
- `get_prod_mode` (boardspec.c:27-51) is not part of this model: the fuse value is the `Platform` field `prodMode`. Its failure is modelled as `errno` EIO, which the C code leaves to whatever the failing call set.
- tegra-boardspec.c (the command-line wrapper of `tegra_boardspec`) is not part of this model.
- The sysfs path of the module EEPROM that `tegra_boardspec` formats and tests with `access` is left out. `Platform.sysfsEeprom` says whether opening it succeeds.
- Boardspec.TegraBoardspec: when no EEPROM opens, the C code returns -1 with whatever `errno` the failing `open`, `ioctl` or `read` set (eeprom.c:175-179, eeprom.c:200-206, eeprom.c:222-224). The model reports EIO there.
- Boardspec.TegraBoardspec: on success the C code leaves `errno` as it was. The model's `errno` output is constrained only on failure.
- Boardspec.TegraBoardspec: `prod_mode` is an `unsigned long`, and the model's `nat` has no upper bound. Every value the fuse can hold fits.
- Bytes are unsigned. The `char` comparisons in `extract_string`, in `eeprom_read` (`rawdata->partnumber[0] == 0xcc`, eeprom.c:276) and in `tegra_boardspec` are modelled on `unsigned char`. With a signed `char`, `src[len-1] == 0xff` in `extract_string` could never hold, and `eeprom_read` would never recognise a customer part number.
- Libc.ToLower: models `tolower` in the C locale, which is the locale of one-shot commands. The interactive loop calls `setlocale(LC_CTYPE, "")` (tegra-eeprom-tool.c:452). After that, case folding follows LC_CTYPE from the environment. This affects field-name lookup (`strcasecmp`, tegra-eeprom-tool.c:175), the part-number type word (`strncasecmp`, tegra-eeprom-tool.c:335-337) and MAC parsing (`tolower`, tegra-eeprom-tool.c:137). A locale whose `tolower('I')` is not 'i' refuses spellings that `Fields.FieldIndex` and `Commands.PartnumTypeWord` accept. Libc.StrCaseEq, Libc.StrNCaseEq and the lookups built on them are C-locale folding too.
- CodecProperties.ReadAfterWrite: holds for records that `Survives` admits. A full string field ending in 0xFF reads back with that byte taken for padding. A vendor part number starting with 0xCC reads back as a customer one. Both are left outside the lemma rather than given a separate statement.
- MacText.FormatMacaddrAsWritten: memory is modelled only up to the buffer given, which must reach byte 17. The out-of-bounds stores for buffers under 18 bytes are stated by `MacText.AsWrittenOverruns` and `MacText.AsWrittenUnboundedAtZero` as changes beyond `bufsize`. What they overwrite in a real program (a neighbouring variable, or a fault) is not modelled.
- Fields.FormatField: formats MACs with the corrected `format_macaddr` (see Findings). `MacText.FormattersAgree` shows that the 128-byte buffers of the tool get the same bytes either way.
- Behaviours of the code that the model keeps:
  - `strncpy` zero-fills the rest of a field.
  - `eeprom_write` reports no error for an overlong string.
  - `cfgblk_len` is stored without `htole16`, so the model stores 28 little-endian, as on the little-endian targets.
  - A `set partnumber` whose value is too long still changes the part-number type (`Commands.SetRecord`).

## Findings

| source | as written | input that shows it | evidently intended | confidence | as-written member | corrected member |
|---|---|---|---|---|---|---|
| tegra-eeprom-tool.c:119-122 | `format_macaddr` gives `snprintf` only `bufsize - 1` bytes, then writes a NUL at `buf[n]` with `n` = 17 | `bufsize` = 18, exactly the text plus its NUL: the stored string is 16 characters and loses the last hex digit. With `bufsize` from 1 to 17, `buf[17]` is cleared past the buffer's end; with `bufsize` = 0, `bufsize - 1` wraps and `snprintf` stores 18 bytes into an empty buffer | the whole 17-character address whenever the buffer has room for it and its NUL | not executed; latent, since the tool always passes 128 bytes | MacText.FormatMacaddrAsWritten, MacText.AsWrittenTruncatesAt18, MacText.AsWrittenOverruns, MacText.AsWrittenUnboundedAtZero | MacText.FormatMacaddr, MacText.FormattedWhole |
