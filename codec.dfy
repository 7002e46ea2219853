/**
 * The record codec of eeprom.c: the validity check, the two field
 * transcoders (`extract_string`, `extract_macaddr`), the decoding of a raw
 * record into the logical one (`eeprom_read`), and the in-memory
 * preparation of a raw record from a logical one (`eeprom_write` up to and
 * including the checksum).
 *
 * Each is given here as a specification function over the 256-byte image;
 * the transcoders are also methods over a byte array, proved against their
 * functions, that the handle in eeprom.dfy runs.
 */
module EepromCodec {
  import opened Libc
  import opened Checksum
  import opened Layout

  /* ---- eeprom_data_valid ---- */

  /**
   * `eeprom_data_valid`: the stored checksum is the CRC of bytes 0..254 and
   * the header checks pass.
   */
  predicate RecordValid(raw: Image, mtype: ModuleType)
  {
    raw[CrcOff] == Crc8(raw[..CrcOff]) && HeaderValid(raw, mtype)
  }

  /**
   * The header checks of `eeprom_data_valid`: layout version 1 and, for a
   * compute module only, the "NVCB" signature, the "M1" MAC-format tag and
   * MAC-format version 0.
   */
  predicate HeaderValid(raw: Image, mtype: ModuleType)
  {
    Le16(raw, VersionOff) == LayoutVersion
    && (mtype == Cvm ==>
          raw[CfgblkSigOff..CfgblkSigOff + 4] == CfgblkSig
          && raw[MacfmtTagOff..MacfmtTagOff + 2] == MacfmtTag
          && Le16(raw, MacfmtVersionOff) == MacfmtVersion)
  }

  /* ---- extract_string ---- */

  /** How many bytes of `s` remain once every trailing `c` is dropped. */
  function KeptLength(s: seq<Byte>, c: Byte): (k: nat)
    ensures k <= |s|
    ensures forall i :: k <= i < |s| ==> s[i] == c
    ensures k == 0 || s[k - 1] != c
  {
    if s == [] || s[|s| - 1] != c then |s| else KeptLength(s[..|s| - 1], c)
  }

  /**
   * The length `extract_string` keeps: trailing 0xFF bytes are padding when
   * the last byte is 0xFF, trailing NULs when it is NUL, and otherwise the
   * whole field is text.
   */
  function ExtractedLength(src: seq<Byte>): (k: nat)
    requires |src| > 0
    ensures k <= |src|
  {
    if src[|src| - 1] == 0xff then KeptLength(src, 0xff)
    else if src[|src| - 1] == 0 then KeptLength(src, 0)
    else |src|
  }

  /** What `extract_string` leaves in its destination: the kept bytes, then zeros to the field width. */
  function ExtractedString(src: seq<Byte>): (r: seq<Byte>)
    requires |src| > 0
    ensures |r| == |src|
  {
    var k := ExtractedLength(src);
    src[..k] + Zeros(|src| - k)
  }

  /**
   * The first half of `extract_string`: `len` starts at the field width and
   * counts down over trailing 0xFF bytes when the last byte is 0xFF, over
   * trailing NULs when it is NUL, and not at all otherwise.
   */
  method TextLength(src: seq<Byte>) returns (len: nat)
    requires |src| > 0
    ensures len == ExtractedLength(src)
  {
    len := |src|;
    if src[len - 1] == 0xff {
      while len > 0 && src[len - 1] == 0xff
        invariant KeptLength(src, 0xff) <= len <= |src|
      {
        len := len - 1;
      }
    } else if src[len - 1] == 0 {
      while len > 0 && src[len - 1] == 0
        invariant KeptLength(src, 0) <= len <= |src|
      {
        len := len - 1;
      }
    }
  }

  /**
   * `extract_string(dst + doff, src, |src|)`: finds the text length, copies
   * that many bytes and zero-fills the rest of the field.
   */
  method ExtractString(dst: array<Byte>, doff: nat, src: seq<Byte>)
    requires |src| > 0 && doff + |src| <= dst.Length
    modifies dst
    ensures dst[..] == Splice(old(dst[..]), doff, ExtractedString(src))
  {
    var maxlen := |src|;
    var len := TextLength(src);
    ghost var before := dst[..];
    if len > 0 {
      Memcpy(dst, doff, src[..len]);
    } else {
      SpliceNothing(before, doff);
    }
    FillTail(dst, doff + len, maxlen - len);
    ExtractedSplice(before, doff, src);
  }

  /** The `if (len < maxlen) memset(...)` tail of `extract_string`: `n` zeros at `off`, nothing when `n` is 0. */
  method FillTail(dst: array<Byte>, off: nat, n: nat)
    requires off + n <= dst.Length
    modifies dst
    ensures dst[..] == Splice(old(dst[..]), off, Repeat(0, n))
  {
    if n > 0 {
      Memset(dst, off, 0, n);
    } else {
      SpliceNothing(dst[..], off);
    }
  }

  /** Copying the kept bytes and then zero-filling the rest of the field stores the extracted string. */
  lemma ExtractedSplice(s: seq<Byte>, doff: nat, src: seq<Byte>)
    requires |src| > 0 && doff + |src| <= |s|
    ensures var k := ExtractedLength(src);
      Splice(Splice(s, doff, src[..k]), doff + k, Repeat(0, |src| - k)) == Splice(s, doff, ExtractedString(src))
  {
    var k := ExtractedLength(src);
    assert Repeat(0, |src| - k) == Zeros(|src| - k);
    SpliceConcat(s, doff, src[..k], Zeros(|src| - k));
  }

  /* ---- extract_macaddr ---- */

  /** The six bytes of `m` in reverse order. */
  function MacReversed(m: seq<Byte>): (r: Mac)
    requires |m| == 6
    ensures forall i :: 0 <= i < 6 ==> r[i] == m[5 - i]
  {
    [m[5], m[4], m[3], m[2], m[1], m[0]]
  }

  /** `extract_macaddr(dst + doff, src)`: the byte-reversing copy, `dst[5 - i] = src[i]`. */
  method ExtractMacaddr(dst: array<Byte>, doff: nat, src: seq<Byte>)
    requires |src| == 6 && doff + 6 <= dst.Length
    modifies dst
    ensures dst[..] == Splice(old(dst[..]), doff, MacReversed(src))
  {
    for i := 0 to 6
      invariant forall k :: 0 <= k < dst.Length ==>
        dst[k] == if doff + 6 - i <= k < doff + 6 then src[doff + 5 - k] else old(dst[k])
    {
      dst[doff + 5 - i] := src[i];
    }
  }

  /* ---- eeprom_read ---- */

  /** The logical record of a raw record that passed validation. */
  function DecodeFields(raw: Image): ModuleEeprom
  {
    var customer := raw[PartnumberOff] == CustomerMarker;
    ModuleEeprom(
      if customer then Customer else Nvidia,
      if customer then ExtractedString(raw[PartnumberOff + 1..PartnumberOff + PartnumberLen]) + [0]
      else ExtractedString(raw[PartnumberOff..PartnumberOff + PartnumberLen]),
      MacReversed(raw[FactoryWifiMacOff..FactoryWifiMacOff + 6]),
      MacReversed(raw[FactoryBtMacOff..FactoryBtMacOff + 6]),
      MacReversed(raw[FactoryWifiAltMacOff..FactoryWifiAltMacOff + 6]),
      MacReversed(raw[FactoryEtherMacOff..FactoryEtherMacOff + 6]),
      ExtractedString(raw[AssetIdOff..AssetIdOff + AssetIdLen]),
      MacReversed(raw[VendorWifiMacOff..VendorWifiMacOff + 6]),
      MacReversed(raw[VendorBtMacOff..VendorBtMacOff + 6]),
      MacReversed(raw[VendorEtherMacOff..VendorEtherMacOff + 6]))
  }

  /**
   * `eeprom_read`: an invalid record gives -1 with `errno` EFAULT and the
   * cleared record; a valid one gives 0 and its decoded fields.
   */
  function Decode(raw: Image, mtype: ModuleType): (Status, ModuleEeprom)
  {
    if RecordValid(raw, mtype) then (Ok, DecodeFields(raw)) else (Fail(EFAULT), ZeroRecord())
  }

  /* ---- eeprom_write, cache preparation ---- */

  /**
   * The record an invalid cache is reset to: all zeros with layout version 1;
   * a compute module also gets "NVCB", block length 28, "M1" and MAC-format
   * version 0.
   */
  function Reinit(mtype: ModuleType): Image
  {
    var z := Splice(Zeros(ImageSize), VersionOff, LayoutVersionLe);
    if mtype == Cvm then
      Splice(Splice(Splice(Splice(z,
        CfgblkSigOff, CfgblkSig),
        CfgblkLenOff, CfgblkLengthLe),
        MacfmtTagOff, MacfmtTag),
        MacfmtVersionOff, MacfmtVersionLe)
    else z
  }

  /** The record the write starts from: the cache itself when valid, otherwise a fresh one. */
  function WriteBase(raw: Image, mtype: ModuleType): Image
  {
    if RecordValid(raw, mtype) then raw else Reinit(mtype)
  }

  /**
   * The strings packed with `strncpy`: a vendor part number over all 22
   * bytes, a customer one as the 0xCC marker then 21 bytes, the asset id
   * over 15 bytes.
   */
  function PackStrings(s: Image, rec: ModuleEeprom): Image
  {
    var p :=
      if rec.partnumberType == Nvidia then Splice(s, PartnumberOff, StrNCpy(rec.partnumber, PartnumberLen))
      else Splice(Splice(s, PartnumberOff, [CustomerMarker]), PartnumberOff + 1, StrNCpy(rec.partnumber, PartnumberLen - 1));
    Splice(p, AssetIdOff, StrNCpy(rec.assetId, AssetIdLen))
  }

  /**
   * The MAC fields: byte-reversed logical MACs for a compute module; for any
   * other module the placeholder 0xFF x 6 in all seven, with "FFFF" over the
   * signature and "FF" over the MAC-format tag.
   */
  function PackMacs(s: Image, mtype: ModuleType, rec: ModuleEeprom): Image
  {
    if mtype == Cvm then
      Splice(Splice(Splice(Splice(Splice(Splice(Splice(s,
        FactoryWifiMacOff, MacReversed(rec.factoryWifiMac)),
        FactoryBtMacOff, MacReversed(rec.factoryBtMac)),
        FactoryWifiAltMacOff, MacReversed(rec.factoryWifiAltMac)),
        FactoryEtherMacOff, MacReversed(rec.factoryEtherMac)),
        VendorWifiMacOff, MacReversed(rec.vendorWifiMac)),
        VendorBtMacOff, MacReversed(rec.vendorBtMac)),
        VendorEtherMacOff, MacReversed(rec.vendorEtherMac))
    else
      Splice(Splice(Splice(Splice(Splice(Splice(Splice(Splice(Splice(s,
        CfgblkSigOff, CfgblkNone),
        MacfmtTagOff, CfgblkNone[..2]),
        FactoryWifiMacOff, MacPlaceholder),
        FactoryBtMacOff, MacPlaceholder),
        FactoryWifiAltMacOff, MacPlaceholder),
        FactoryEtherMacOff, MacPlaceholder),
        VendorWifiMacOff, MacPlaceholder),
        VendorBtMacOff, MacPlaceholder),
        VendorEtherMacOff, MacPlaceholder)
  }

  /** Byte 255 replaced by the CRC of bytes 0..254. */
  function Sealed(s: Image): Image
  {
    s[..CrcOff] + [Crc8(s[..CrcOff])]
  }

  /** The cache as `eeprom_write` leaves it just before the device is written. */
  function Prepared(raw: Image, mtype: ModuleType, rec: ModuleEeprom): Image
  {
    Sealed(PackMacs(PackStrings(WriteBase(raw, mtype), rec), mtype, rec))
  }
}
