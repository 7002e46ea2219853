/**
 * The EEPROM handle of eeprom.c (`struct eeprom_context_s`): the module
 * type, the read-only flag and the 256-byte cache of the raw record, with
 * `eeprom_data_valid`, `eeprom_read`, `eeprom_write` and `eeprom_readonly`.
 *
 * The file descriptor is replaced by `device`, the contents of the EEPROM
 * (or EEPROM image file) behind the handle; the outcome of the final seek
 * and write is a parameter of `Write`.
 */
module Eeprom {
  import opened Libc
  import opened Checksum
  import opened Layout
  import opened EepromCodec

  /** A count of bytes short of the whole record. */
  type PartialCount = k: nat | k < ImageSize

  /** How the `lseek` and `write` calls at the end of `eeprom_write` turn out. */
  datatype Transport =
    | SeekFails                          // `lseek` fails: nothing is written
    | WriteFails(written: PartialCount)  // a `write` fails after `written` bytes went out
    | WritesAll                          // all 256 bytes reach the device

  /**
   * What the device holds after the transfer of `cache` over what it held
   * before: a write that fails part way leaves the first bytes new and the
   * rest old.
   */
  function Delivered(io: Transport, cache: Image, before: Image): (after: Image)
    ensures io.WritesAll? ==> after == cache
    ensures io.SeekFails? ==> after == before
    ensures forall i :: 0 <= i < ImageSize ==> after[i] == cache[i] || after[i] == before[i]
  {
    match io
    case SeekFails => before
    case WriteFails(k) => cache[..k] + before[k..]
    case WritesAll => cache
  }

  class EepromContext {
    /** Which EEPROM the handle was opened for. */
    const mtype: ModuleType
    /** Set for a handle opened on the raw I2C bus, which is never written. */
    const readonly: bool
    /** The cached raw record (`eeprom_data`). */
    const data: array<Byte>
    /** What the device holds. */
    var device: Image
    /** Set by `eeprom_close`. */
    var closed: bool

    /** The cache is a whole record, and the handle has not been released by `eeprom_close`. */
    ghost predicate Valid()
      reads this
    {
      data.Length == ImageSize && !closed
    }

    /** `eeprom_open`: a writable handle over a device or image file holding `contents`. */
    constructor Open(contents: Image, mtype: ModuleType)
      ensures Valid() && fresh(data)
      ensures this.mtype == mtype && !IsReadonly()
      ensures data[..] == contents && device == contents && !closed
    {
      this.mtype := mtype;
      readonly := false;
      data := new Byte[ImageSize](i requires 0 <= i < ImageSize => contents[i]);
      device := contents;
      closed := false;
    }

    /** `eeprom_open_i2c`: a read-only handle over an EEPROM on the raw I2C bus holding `contents`. */
    constructor OpenI2c(contents: Image, mtype: ModuleType)
      ensures Valid() && fresh(data)
      ensures this.mtype == mtype && IsReadonly()
      ensures data[..] == contents && device == contents && !closed
    {
      this.mtype := mtype;
      readonly := true;
      data := new Byte[ImageSize](i requires 0 <= i < ImageSize => contents[i]);
      device := contents;
      closed := false;
    }

    /** `eeprom_close`: the descriptor is closed and the handle released; nothing else changes. */
    method Close()
      requires Valid()
      modifies this`closed
      ensures closed && !Valid()
    {
      closed := true;
    }

    /** `eeprom_readonly`. */
    function IsReadonly(): bool
      reads this
    {
      readonly
    }

    /**
     * `eeprom_data_valid`: the checksum over bytes 0..254 first, then the
     * layout version, then for a compute module the signature, tag and
     * MAC-format version.
     */
    method DataValid() returns (ok: bool)
      requires Valid()
      ensures ok == RecordValid(data[..], mtype)
    {
      var crc := CalcCrc8(data, CrcOff);
      if data[CrcOff] != crc {
        return false;
      }
      if Le16(data[..], VersionOff) != LayoutVersion {
        return false;
      }
      if mtype == Cvm {
        if data[CfgblkSigOff..CfgblkSigOff + 4] != CfgblkSig {
          return false;
        }
        if data[MacfmtTagOff..MacfmtTagOff + 2] != MacfmtTag {
          return false;
        }
        if Le16(data[..], MacfmtVersionOff) != MacfmtVersion {
          return false;
        }
      }
      return true;
    }

    /**
     * `eeprom_read`: the caller's record is cleared, then filled from the
     * cache when the cache is valid; an invalid cache gives -1 with EFAULT.
     * The cache is not changed.
     */
    method Read() returns (st: Status, rec: ModuleEeprom)
      requires Valid()
      ensures (st, rec) == Decode(data[..], mtype)
    {
      var ok := DataValid();
      if !ok {
        return Fail(EFAULT), ZeroRecord();
      }
      st := Ok;
      rec := ReadFields(data[..]);
    }

    /** The filling of the cleared caller's record from a valid cache. */
    static method ReadFields(raw: Image) returns (rec: ModuleEeprom)
      ensures rec == DecodeFields(raw)
    {
      var ptype, pn := ReadPartnumber(raw);
      var asset := ReadAssetId(raw);
      var m1 := ReadMac(raw, FactoryWifiMacOff);
      var m2 := ReadMac(raw, FactoryBtMacOff);
      var m3 := ReadMac(raw, FactoryWifiAltMacOff);
      var m4 := ReadMac(raw, FactoryEtherMacOff);
      var m5 := ReadMac(raw, VendorWifiMacOff);
      var m6 := ReadMac(raw, VendorBtMacOff);
      var m7 := ReadMac(raw, VendorEtherMacOff);
      rec := ModuleEeprom(ptype, pn, m1, m2, m3, m4, asset, m5, m6, m7);
    }

    /** The asset id of `eeprom_read`, extracted into a cleared 15-byte field. */
    static method ReadAssetId(raw: Image) returns (asset: AssetId)
      ensures asset == ExtractedString(raw[AssetIdOff..AssetIdOff + AssetIdLen])
    {
      var dst := new Byte[AssetIdLen](_ => 0);
      ExtractString(dst, 0, raw[AssetIdOff..AssetIdOff + AssetIdLen]);
      asset := dst[..];
    }

    /**
     * The part number of `eeprom_read`: a customer one when the first raw
     * byte is the 0xCC marker, extracted from the 21 bytes after it into a
     * cleared 22-byte field; otherwise a vendor one from all 22 bytes.
     */
    static method ReadPartnumber(raw: Image) returns (ptype: PartnumType, pn: PartNumber)
      ensures ptype == DecodeFields(raw).partnumberType && pn == DecodeFields(raw).partnumber
    {
      var dst := new Byte[PartnumberLen](_ => 0);
      if raw[PartnumberOff] == CustomerMarker {
        ptype := Customer;
        ExtractString(dst, 0, raw[PartnumberOff + 1..PartnumberOff + PartnumberLen]);
        assert dst[..] == ExtractedString(raw[PartnumberOff + 1..PartnumberOff + PartnumberLen]) + [0];
      } else {
        ptype := Nvidia;
        ExtractString(dst, 0, raw[PartnumberOff..PartnumberOff + PartnumberLen]);
      }
      pn := dst[..];
    }

    /** One `extract_macaddr` of `eeprom_read`: the MAC at `off` of the raw record, into a cleared 6-byte field. */
    static method ReadMac(raw: Image, off: nat) returns (m: Mac)
      requires off + MacLen <= ImageSize
      ensures m == MacReversed(raw[off..off + MacLen])
    {
      var dst := new Byte[MacLen](_ => 0);
      ExtractMacaddr(dst, 0, raw[off..off + MacLen]);
      m := dst[..];
    }

    /**
     * `eeprom_write`: a read-only handle gives -1 with EROFS and changes
     * nothing. Otherwise the cache is re-initialised if invalid, the record
     * is packed into it and sealed with its checksum, and then the cache is
     * written out; a failing seek or write gives -1 and leaves the device with
     * whatever part of the cache reached it.
     */
    method Write(rec: ModuleEeprom, io: Transport) returns (st: Status)
      requires Valid()
      modifies data, this`device
      ensures readonly ==> (st, data[..], device) == (Fail(EROFS), old(data[..]), old(device))
      ensures !readonly ==>
        (data[..], st, device)
        == (Prepared(old(data[..]), mtype, rec), if io.WritesAll? then Ok else Fail(EIO), Delivered(io, data[..], old(device)))
    {
      if readonly {
        return Fail(EROFS);
      }
      Prepare(rec);
      st := Transfer(io);
    }

    /** The `lseek` to offset 0 and the `write` loop that send the cache to the device. */
    method Transfer(io: Transport) returns (st: Status)
      requires Valid()
      modifies this`device
      ensures data[..] == old(data[..])
      ensures st == if io.WritesAll? then Ok else Fail(EIO)
      ensures device == Delivered(io, data[..], old(device))
    {
      match io {
        case SeekFails =>
          st := Fail(EIO);
        case WriteFails(k) =>
          if k < ImageSize {
            device := data[..k] + device[k..];
          }
          st := Fail(EIO);
        case WritesAll =>
          device := data[..];
          st := Ok;
      }
    }

    /** The cache preparation of `eeprom_write`, up to and including the checksum. */
    method Prepare(rec: ModuleEeprom)
      requires Valid()
      modifies data
      ensures data[..] == Prepared(old(data[..]), mtype, rec)
    {
      StartFromValid();
      PackAndSeal(rec);
    }

    /** A valid cache is kept as it is; an invalid one is re-initialised. */
    method StartFromValid()
      requires Valid()
      modifies data
      ensures data[..] == WriteBase(old(data[..]), mtype)
    {
      var ok := DataValid();
      if !ok {
        Reinitialise();
      }
    }

    /** Packing the record into the cache and storing the checksum of bytes 0..254. */
    method PackAndSeal(rec: ModuleEeprom)
      requires Valid()
      modifies data
      ensures data[..] == Sealed(PackMacs(PackStrings(old(data[..]), rec), mtype, rec))
    {
      StoreStrings(rec);
      StoreMacs(rec);
      var crc := CalcCrc8(data, CrcOff);
      Seal(crc);
    }

    /** The re-initialisation of an invalid cache in `eeprom_write`. */
    method Reinitialise()
      requires Valid()
      modifies data
      ensures data[..] == Reinit(mtype)
    {
      Memset(data, 0, 0, ImageSize);
      assert Repeat(0, ImageSize) == Zeros(ImageSize);
      SpliceWhole(old(data[..]), Zeros(ImageSize));
      Memcpy(data, VersionOff, LayoutVersionLe);
      if mtype == Cvm {
        Memcpy(data, CfgblkSigOff, CfgblkSig);
        Memcpy(data, CfgblkLenOff, CfgblkLengthLe);
        Memcpy(data, MacfmtTagOff, MacfmtTag);
        Memcpy(data, MacfmtVersionOff, MacfmtVersionLe);
      }
    }

    /** The `strncpy` packing of the part number (with the 0xCC marker for a customer one) and the asset id. */
    method StoreStrings(rec: ModuleEeprom)
      requires Valid()
      modifies data
      ensures data[..] == PackStrings(old(data[..]), rec)
    {
      if rec.partnumberType == Nvidia {
        Strncpy(data, PartnumberOff, rec.partnumber, PartnumberLen);
      } else {
        ghost var before := data[..];
        data[PartnumberOff] := CustomerMarker;
        assert data[..] == Splice(before, PartnumberOff, [CustomerMarker]);
        Strncpy(data, PartnumberOff + 1, rec.partnumber, PartnumberLen - 1);
      }
      Strncpy(data, AssetIdOff, rec.assetId, AssetIdLen);
    }

    /**
     * The MAC fields: the byte-reversed logical MACs on a compute module;
     * otherwise "FFFF", "FF" and the placeholder in all seven.
     */
    method StoreMacs(rec: ModuleEeprom)
      requires Valid()
      modifies data
      ensures data[..] == PackMacs(old(data[..]), mtype, rec)
    {
      if mtype == Cvm {
        ExtractMacaddr(data, FactoryWifiMacOff, rec.factoryWifiMac);
        ExtractMacaddr(data, FactoryBtMacOff, rec.factoryBtMac);
        ExtractMacaddr(data, FactoryWifiAltMacOff, rec.factoryWifiAltMac);
        ExtractMacaddr(data, FactoryEtherMacOff, rec.factoryEtherMac);
        ExtractMacaddr(data, VendorWifiMacOff, rec.vendorWifiMac);
        ExtractMacaddr(data, VendorBtMacOff, rec.vendorBtMac);
        ExtractMacaddr(data, VendorEtherMacOff, rec.vendorEtherMac);
      } else {
        Memcpy(data, CfgblkSigOff, CfgblkNone);
        Memcpy(data, MacfmtTagOff, CfgblkNone[..2]);
        Memcpy(data, FactoryWifiMacOff, MacPlaceholder);
        Memcpy(data, FactoryBtMacOff, MacPlaceholder);
        Memcpy(data, FactoryWifiAltMacOff, MacPlaceholder);
        Memcpy(data, FactoryEtherMacOff, MacPlaceholder);
        Memcpy(data, VendorWifiMacOff, MacPlaceholder);
        Memcpy(data, VendorBtMacOff, MacPlaceholder);
        Memcpy(data, VendorEtherMacOff, MacPlaceholder);
      }
    }

    /** `rawdata->crc8 = crc`, with `crc` the checksum of bytes 0..254. */
    method Seal(crc: Byte)
      requires Valid() && crc == Crc8(data[..CrcOff])
      modifies data
      ensures data[..] == Sealed(old(data[..]))
    {
      data[CrcOff] := crc;
      assert data[..CrcOff] == old(data[..CrcOff]);
    }
  }
}
