/**
 * What the record codec of eeprom.c guarantees: the checksum catches every
 * single-byte change, `extract_string` is stable on what it produces and on
 * what `strncpy` packs, MAC reversal undoes itself, a prepared record always
 * validates and keeps every byte it does not rewrite, and reading back a
 * prepared record returns the logical record as the write normalised it.
 */
module CodecProperties {
  import opened Libc
  import opened Checksum
  import opened Layout
  import opened EepromCodec

  /* ---- Checksum ---- */

  /** The stored checksum matches exactly when the CRC over all 256 bytes is 0. */
  lemma ChecksumMatchIffResidueZero(raw: Image)
    ensures raw[CrcOff] == Crc8(raw[..CrcOff]) <==> Crc8(raw) == 0
  {
    assert raw == raw[..CrcOff] + [raw[CrcOff]];
    Crc8Residue(raw[..CrcOff], raw[CrcOff]);
  }

  /** A valid record stops being valid when any one of its 256 bytes changes. */
  lemma ValidDetectsByteChange(raw: Image, mtype: ModuleType, i: nat, v: Byte)
    requires RecordValid(raw, mtype) && i < ImageSize && v != raw[i]
    ensures !RecordValid(raw[i := v], mtype)
  {
    var t := raw[i := v];
    if i < CrcOff {
      assert t[..CrcOff] == raw[..CrcOff][i := v];
      Crc8DetectsByteChange(raw[..CrcOff], i, v);
    } else {
      assert t[..CrcOff] == raw[..CrcOff];
    }
  }

  /* ---- extract_string ---- */

  /** A field that does not end in 0xFF is its own extraction. */
  lemma ExtractFixed(x: seq<Byte>)
    requires |x| > 0 && x[|x| - 1] != 0xff
    ensures ExtractedString(x) == x
  {
    var k := ExtractedLength(x);
    forall i | 0 <= i < |x| ensures ExtractedString(x)[i] == x[i] {
      if k <= i {
        assert x[i] == 0;
      }
    }
  }

  /** A field made only of 0xFF bytes, or only of NULs, extracts to all zeros. */
  lemma ExtractAllPadding(src: seq<Byte>)
    requires |src| > 0
    requires (forall i :: 0 <= i < |src| ==> src[i] == 0xff) || (forall i :: 0 <= i < |src| ==> src[i] == 0)
    ensures ExtractedString(src) == Zeros(|src|)
  {
    assert ExtractedLength(src) == 0;
  }

  /** A field whose last byte is neither 0xFF nor NUL is kept whole. */
  lemma ExtractUnpadded(src: seq<Byte>)
    requires |src| > 0 && src[|src| - 1] != 0xff && src[|src| - 1] != 0
    ensures ExtractedString(src) == src
  {
  }

  /** Extracting an extracted field changes nothing. */
  lemma ExtractIdempotent(src: seq<Byte>)
    requires |src| > 0
    ensures ExtractedString(ExtractedString(src)) == ExtractedString(src)
  {
    var r := ExtractedString(src);
    if ExtractedLength(src) < |src| {
      assert r[|src| - 1] == 0;
    } else {
      assert r == src;
    }
    ExtractFixed(r);
  }

  /**
   * A string survives the `strncpy` into an `n`-byte field when it has a NUL
   * within the field or its `n`-th byte is not 0xFF (a full field ending in
   * 0xFF would read back with that byte taken for padding).
   */
  predicate Packable(s: seq<Byte>, n: nat)
    requires 1 <= n <= |s|
  {
    StrLen(s[..n]) < n || s[n - 1] != 0xff
  }

  /** What `strncpy` packs, `extract_string` recovers unchanged. */
  lemma ExtractAfterStrNCpy(s: seq<Byte>, n: nat)
    requires 1 <= n <= |s| && Packable(s, n)
    ensures ExtractedString(StrNCpy(s, n)) == StrNCpy(s, n)
  {
    var t := StrNCpy(s, n);
    if StrLen(s[..n]) < n {
      assert t[n - 1] == 0;
    } else {
      assert t == s[..n];
    }
    ExtractFixed(t);
  }

  /* ---- extract_macaddr ---- */

  /** Reversing a MAC twice gives it back. */
  lemma MacReversedTwice(m: seq<Byte>)
    requires |m| == 6
    ensures MacReversed(MacReversed(m)) == m
  {
  }

  /* ---- eeprom_write ---- */

  /** Bytes of the seven MAC fields. */
  predicate MacByte(i: nat)
  {
    FactoryWifiMacOff <= i < FactoryEtherMacOff + MacLen || VendorWifiMacOff <= i < VendorEtherMacOff + MacLen
  }

  /** Bytes the write rewrites: the strings, the MACs, the checksum, and for other modules the signature and tag. */
  predicate Rewritten(mtype: ModuleType, i: nat)
  {
    PartnumberOff <= i < PartnumberOff + PartnumberLen
    || AssetIdOff <= i < AssetIdOff + AssetIdLen
    || MacByte(i)
    || i == CrcOff
    || (mtype == Normal && (CfgblkSigOff <= i < CfgblkSigOff + 4 || MacfmtTagOff <= i < MacfmtTagOff + 2))
  }

  /** The fresh record holds version 1 and, for a compute module, the configuration-block header; all else is 0. */
  lemma ReinitContents(mtype: ModuleType, i: nat)
    requires i < ImageSize
    ensures Reinit(mtype)[i] ==
      if i == VersionOff then 1
      else if mtype == Cvm && CfgblkSigOff <= i < CfgblkSigOff + 4 then CfgblkSig[i - CfgblkSigOff]
      else if mtype == Cvm && i == CfgblkLenOff then CfgblkLength as Byte
      else if mtype == Cvm && MacfmtTagOff <= i < MacfmtTagOff + 2 then MacfmtTag[i - MacfmtTagOff]
      else 0
  {
    var z := Splice(Zeros(ImageSize), VersionOff, LayoutVersionLe);
    assert z[i] == if i == VersionOff then 1 else 0;
    if mtype == Cvm {
      var z1 := Splice(z, CfgblkSigOff, CfgblkSig);
      assert z1[i] == if CfgblkSigOff <= i < CfgblkSigOff + 4 then CfgblkSig[i - CfgblkSigOff] else z[i];
      var z2 := Splice(z1, CfgblkLenOff, CfgblkLengthLe);
      assert z2[i] == if i == CfgblkLenOff then CfgblkLength as Byte else if i == CfgblkLenOff + 1 then 0 else z1[i];
      var z3 := Splice(z2, MacfmtTagOff, MacfmtTag);
      assert z3[i] == if MacfmtTagOff <= i < MacfmtTagOff + 2 then MacfmtTag[i - MacfmtTagOff] else z2[i];
      var z4 := Splice(z3, MacfmtVersionOff, MacfmtVersionLe);
      assert z4[i] == if MacfmtVersionOff <= i < MacfmtVersionOff + 2 then 0 else z3[i];
      assert Reinit(mtype) == z4;
    }
  }

  /** The record the write starts from passes the header checks. */
  lemma WriteBaseHeaderValid(raw: Image, mtype: ModuleType)
    ensures HeaderValid(WriteBase(raw, mtype), mtype)
  {
    if !RecordValid(raw, mtype) {
      var z := Reinit(mtype);
      ReinitContents(mtype, 0);
      ReinitContents(mtype, 1);
      if mtype == Cvm {
        forall i | CfgblkSigOff <= i < CfgblkSigOff + 4 ensures z[i] == CfgblkSig[i - CfgblkSigOff] {
          ReinitContents(mtype, i);
        }
        forall i | MacfmtTagOff <= i < MacfmtTagOff + 2 ensures z[i] == MacfmtTag[i - MacfmtTagOff] {
          ReinitContents(mtype, i);
        }
        ReinitContents(mtype, MacfmtVersionOff);
        ReinitContents(mtype, MacfmtVersionOff + 1);
        assert z[CfgblkSigOff..CfgblkSigOff + 4] == CfgblkSig;
        assert z[MacfmtTagOff..MacfmtTagOff + 2] == MacfmtTag;
      }
    }
  }

  /** Packing the strings touches only the part-number and asset-id fields. */
  lemma PackStringsKeeps(s: Image, rec: ModuleEeprom, i: nat)
    requires i < ImageSize
    requires !(PartnumberOff <= i < PartnumberOff + PartnumberLen) && !(AssetIdOff <= i < AssetIdOff + AssetIdLen)
    ensures PackStrings(s, rec)[i] == s[i]
  {
    var p :=
      if rec.partnumberType == Nvidia then Splice(s, PartnumberOff, StrNCpy(rec.partnumber, PartnumberLen))
      else Splice(Splice(s, PartnumberOff, [CustomerMarker]), PartnumberOff + 1, StrNCpy(rec.partnumber, PartnumberLen - 1));
    if rec.partnumberType == Nvidia {
      SpliceOut(s, PartnumberOff, StrNCpy(rec.partnumber, PartnumberLen), i);
    } else {
      SpliceOut(s, PartnumberOff, [CustomerMarker], i);
      SpliceOut(Splice(s, PartnumberOff, [CustomerMarker]), PartnumberOff + 1, StrNCpy(rec.partnumber, PartnumberLen - 1), i);
    }
    SpliceOut(p, AssetIdOff, StrNCpy(rec.assetId, AssetIdLen), i);
  }

  /** Packing the MACs touches only the MAC fields and, for other modules, the signature and tag. */
  lemma PackMacsKeeps(s: Image, mtype: ModuleType, rec: ModuleEeprom, i: nat)
    requires i < ImageSize && !MacByte(i)
    requires mtype == Normal ==> !(CfgblkSigOff <= i < CfgblkSigOff + 4 || MacfmtTagOff <= i < MacfmtTagOff + 2)
    ensures PackMacs(s, mtype, rec)[i] == s[i]
  {
    var s0 := if mtype == Cvm then s else Splice(Splice(s, CfgblkSigOff, CfgblkNone), MacfmtTagOff, CfgblkNone[..2]);
    if mtype == Normal {
      SpliceOut(s, CfgblkSigOff, CfgblkNone, i);
      SpliceOut(Splice(s, CfgblkSigOff, CfgblkNone), MacfmtTagOff, CfgblkNone[..2], i);
    }
    var s1 := Splice(s0, FactoryWifiMacOff, StoredMac(mtype, rec.factoryWifiMac));
    SpliceOut(s0, FactoryWifiMacOff, StoredMac(mtype, rec.factoryWifiMac), i);
    var s2 := Splice(s1, FactoryBtMacOff, StoredMac(mtype, rec.factoryBtMac));
    SpliceOut(s1, FactoryBtMacOff, StoredMac(mtype, rec.factoryBtMac), i);
    var s3 := Splice(s2, FactoryWifiAltMacOff, StoredMac(mtype, rec.factoryWifiAltMac));
    SpliceOut(s2, FactoryWifiAltMacOff, StoredMac(mtype, rec.factoryWifiAltMac), i);
    var s4 := Splice(s3, FactoryEtherMacOff, StoredMac(mtype, rec.factoryEtherMac));
    SpliceOut(s3, FactoryEtherMacOff, StoredMac(mtype, rec.factoryEtherMac), i);
    var s5 := Splice(s4, VendorWifiMacOff, StoredMac(mtype, rec.vendorWifiMac));
    SpliceOut(s4, VendorWifiMacOff, StoredMac(mtype, rec.vendorWifiMac), i);
    var s6 := Splice(s5, VendorBtMacOff, StoredMac(mtype, rec.vendorBtMac));
    SpliceOut(s5, VendorBtMacOff, StoredMac(mtype, rec.vendorBtMac), i);
    var s7 := Splice(s6, VendorEtherMacOff, StoredMac(mtype, rec.vendorEtherMac));
    SpliceOut(s6, VendorEtherMacOff, StoredMac(mtype, rec.vendorEtherMac), i);
    assert PackMacs(s, mtype, rec) == s7;
  }

  /** Sealing rewrites only the checksum byte. */
  lemma SealedKeeps(s: Image, i: nat)
    requires i < CrcOff
    ensures Sealed(s)[i] == s[i]
  {
  }

  /** Sealing stores the checksum of the bytes before it. */
  lemma SealedChecksum(s: Image)
    ensures Sealed(s)[CrcOff] == Crc8(Sealed(s)[..CrcOff])
  {
    assert Sealed(s)[..CrcOff] == s[..CrcOff];
  }

  /** Every byte the write does not rewrite keeps the value it had in the record the write started from. */
  lemma PreparedKeeps(raw: Image, mtype: ModuleType, rec: ModuleEeprom, i: nat)
    requires i < ImageSize && !Rewritten(mtype, i)
    ensures Prepared(raw, mtype, rec)[i] == WriteBase(raw, mtype)[i]
  {
    var b := WriteBase(raw, mtype);
    var s := PackStrings(b, rec);
    var m := PackMacs(s, mtype, rec);
    PackStringsKeeps(b, rec, i);
    PackMacsKeeps(s, mtype, rec, i);
    SealedKeeps(m, i);
  }

  /** The bytes the header checks read agree between `a` and `b`. */
  predicate SameHeader(a: Image, b: Image, mtype: ModuleType)
  {
    a[VersionOff] == b[VersionOff] && a[VersionOff + 1] == b[VersionOff + 1]
    && (mtype == Cvm ==>
          a[CfgblkSigOff..CfgblkSigOff + 4] == b[CfgblkSigOff..CfgblkSigOff + 4]
          && a[MacfmtTagOff..MacfmtTagOff + 2] == b[MacfmtTagOff..MacfmtTagOff + 2]
          && a[MacfmtVersionOff] == b[MacfmtVersionOff] && a[MacfmtVersionOff + 1] == b[MacfmtVersionOff + 1])
  }

  /** Two records that agree outside the bytes the write rewrites have the same header. */
  lemma SameHeaderOutsideRewritten(a: Image, b: Image, mtype: ModuleType)
    requires forall i :: 0 <= i < ImageSize && !Rewritten(mtype, i) ==> a[i] == b[i]
    ensures SameHeader(a, b, mtype)
  {
    if mtype == Cvm {
      assert !Rewritten(mtype, CfgblkSigOff);
      assert a[CfgblkSigOff..CfgblkSigOff + 4] == b[CfgblkSigOff..CfgblkSigOff + 4];
      assert a[MacfmtTagOff..MacfmtTagOff + 2] == b[MacfmtTagOff..MacfmtTagOff + 2];
    }
  }

  /** The write leaves the bytes the header checks read as they were in the record it started from. */
  lemma PreparedSameHeader(raw: Image, mtype: ModuleType, rec: ModuleEeprom)
    ensures SameHeader(WriteBase(raw, mtype), Prepared(raw, mtype, rec), mtype)
  {
    var b := WriteBase(raw, mtype);
    var p := Prepared(raw, mtype, rec);
    forall i | 0 <= i < ImageSize && !Rewritten(mtype, i) ensures b[i] == p[i] {
      PreparedKeeps(raw, mtype, rec, i);
    }
    SameHeaderOutsideRewritten(b, p, mtype);
  }

  /** The header checks read only the header bytes. */
  lemma HeaderValidTransfers(a: Image, b: Image, mtype: ModuleType)
    requires SameHeader(a, b, mtype) && HeaderValid(a, mtype)
    ensures HeaderValid(b, mtype)
  {
  }

  /** A prepared record passes the header checks: the write never rewrites the header bytes. */
  lemma PreparedHeaderValid(raw: Image, mtype: ModuleType, rec: ModuleEeprom)
    ensures HeaderValid(Prepared(raw, mtype, rec), mtype)
  {
    WriteBaseHeaderValid(raw, mtype);
    PreparedSameHeader(raw, mtype, rec);
    HeaderValidTransfers(WriteBase(raw, mtype), Prepared(raw, mtype, rec), mtype);
  }

  /** A prepared record always passes `eeprom_data_valid`, whatever the cache held. */
  lemma PreparedValid(raw: Image, mtype: ModuleType, rec: ModuleEeprom)
    ensures RecordValid(Prepared(raw, mtype, rec), mtype)
  {
    PreparedHeaderValid(raw, mtype, rec);
    SealedChecksum(PackMacs(PackStrings(WriteBase(raw, mtype), rec), mtype, rec));
  }

  /* ---- eeprom_read after eeprom_write ---- */

  /** Sealing leaves every range before the checksum byte as it was. */
  lemma SealedSlice(s: Image, lo: nat, hi: nat)
    requires lo <= hi <= CrcOff
    ensures Sealed(s)[lo..hi] == s[lo..hi]
  {
    var t := Sealed(s);
    assert t[..CrcOff] == s[..CrcOff];
    assert t[lo..hi] == t[..CrcOff][lo..hi];
  }

  /** Where the strings land: the part number (after the marker for a customer one) and the asset id, `strncpy`-packed. */
  lemma PackStringsFields(s: Image, rec: ModuleEeprom)
    ensures rec.partnumberType == Nvidia ==>
      PackStrings(s, rec)[PartnumberOff..PartnumberOff + PartnumberLen] == StrNCpy(rec.partnumber, PartnumberLen)
    ensures rec.partnumberType == Customer ==>
      PackStrings(s, rec)[PartnumberOff] == CustomerMarker
      && PackStrings(s, rec)[PartnumberOff + 1..PartnumberOff + PartnumberLen] == StrNCpy(rec.partnumber, PartnumberLen - 1)
    ensures PackStrings(s, rec)[AssetIdOff..AssetIdOff + AssetIdLen] == StrNCpy(rec.assetId, AssetIdLen)
  {
    var p :=
      if rec.partnumberType == Nvidia then Splice(s, PartnumberOff, StrNCpy(rec.partnumber, PartnumberLen))
      else Splice(Splice(s, PartnumberOff, [CustomerMarker]), PartnumberOff + 1, StrNCpy(rec.partnumber, PartnumberLen - 1));
    var asset := StrNCpy(rec.assetId, AssetIdLen);
    SpliceSlice(p, AssetIdOff, asset);
    SpliceKeepsSlice(p, AssetIdOff, asset, PartnumberOff, PartnumberOff + PartnumberLen);
    if rec.partnumberType == Nvidia {
      SpliceSlice(s, PartnumberOff, StrNCpy(rec.partnumber, PartnumberLen));
    } else {
      var m := Splice(s, PartnumberOff, [CustomerMarker]);
      SpliceIn(s, PartnumberOff, [CustomerMarker], PartnumberOff);
      SpliceOut(m, PartnumberOff + 1, StrNCpy(rec.partnumber, PartnumberLen - 1), PartnumberOff);
      SpliceOut(p, AssetIdOff, asset, PartnumberOff);
      SpliceSlice(m, PartnumberOff + 1, StrNCpy(rec.partnumber, PartnumberLen - 1));
    }
  }

  /** The value the write stores for a MAC field: the reversed MAC on a compute module, the placeholder elsewhere. */
  function StoredMac(mtype: ModuleType, m: Mac): seq<Byte>
  {
    if mtype == Cvm then MacReversed(m) else MacPlaceholder
  }

  /** Where the MACs land, and that packing them leaves the string fields alone. */
  lemma PackMacsFields(s: Image, mtype: ModuleType, rec: ModuleEeprom)
    ensures PackMacs(s, mtype, rec)[PartnumberOff..PartnumberOff + PartnumberLen] == s[PartnumberOff..PartnumberOff + PartnumberLen]
    ensures PackMacs(s, mtype, rec)[AssetIdOff..AssetIdOff + AssetIdLen] == s[AssetIdOff..AssetIdOff + AssetIdLen]
    ensures PackMacs(s, mtype, rec)[FactoryWifiMacOff..FactoryWifiMacOff + 6] == StoredMac(mtype, rec.factoryWifiMac)
    ensures PackMacs(s, mtype, rec)[FactoryBtMacOff..FactoryBtMacOff + 6] == StoredMac(mtype, rec.factoryBtMac)
    ensures PackMacs(s, mtype, rec)[FactoryWifiAltMacOff..FactoryWifiAltMacOff + 6] == StoredMac(mtype, rec.factoryWifiAltMac)
    ensures PackMacs(s, mtype, rec)[FactoryEtherMacOff..FactoryEtherMacOff + 6] == StoredMac(mtype, rec.factoryEtherMac)
    ensures PackMacs(s, mtype, rec)[VendorWifiMacOff..VendorWifiMacOff + 6] == StoredMac(mtype, rec.vendorWifiMac)
    ensures PackMacs(s, mtype, rec)[VendorBtMacOff..VendorBtMacOff + 6] == StoredMac(mtype, rec.vendorBtMac)
    ensures PackMacs(s, mtype, rec)[VendorEtherMacOff..VendorEtherMacOff + 6] == StoredMac(mtype, rec.vendorEtherMac)
  {
    var s0 := if mtype == Cvm then s else Splice(Splice(s, CfgblkSigOff, CfgblkNone), MacfmtTagOff, CfgblkNone[..2]);
    var s1 := Splice(s0, FactoryWifiMacOff, StoredMac(mtype, rec.factoryWifiMac));
    var s2 := Splice(s1, FactoryBtMacOff, StoredMac(mtype, rec.factoryBtMac));
    var s3 := Splice(s2, FactoryWifiAltMacOff, StoredMac(mtype, rec.factoryWifiAltMac));
    var s4 := Splice(s3, FactoryEtherMacOff, StoredMac(mtype, rec.factoryEtherMac));
    var s5 := Splice(s4, VendorWifiMacOff, StoredMac(mtype, rec.vendorWifiMac));
    var s6 := Splice(s5, VendorBtMacOff, StoredMac(mtype, rec.vendorBtMac));
    var s7 := Splice(s6, VendorEtherMacOff, StoredMac(mtype, rec.vendorEtherMac));
    assert PackMacs(s, mtype, rec) == s7;
    if mtype == Normal {
      SpliceKeepsSlice(s, CfgblkSigOff, CfgblkNone, PartnumberOff, PartnumberOff + PartnumberLen);
      SpliceKeepsSlice(Splice(s, CfgblkSigOff, CfgblkNone), MacfmtTagOff, CfgblkNone[..2], PartnumberOff, PartnumberOff + PartnumberLen);
      SpliceKeepsSlice(s, CfgblkSigOff, CfgblkNone, AssetIdOff, AssetIdOff + AssetIdLen);
      SpliceKeepsSlice(Splice(s, CfgblkSigOff, CfgblkNone), MacfmtTagOff, CfgblkNone[..2], AssetIdOff, AssetIdOff + AssetIdLen);
    }
    SpliceKeepsSlice(s0, FactoryWifiMacOff, StoredMac(mtype, rec.factoryWifiMac), PartnumberOff, PartnumberOff + PartnumberLen);
    SpliceKeepsSlice(s0, FactoryWifiMacOff, StoredMac(mtype, rec.factoryWifiMac), AssetIdOff, AssetIdOff + AssetIdLen);
    SpliceKeepsSlice(s1, FactoryBtMacOff, StoredMac(mtype, rec.factoryBtMac), PartnumberOff, PartnumberOff + PartnumberLen);
    SpliceKeepsSlice(s1, FactoryBtMacOff, StoredMac(mtype, rec.factoryBtMac), AssetIdOff, AssetIdOff + AssetIdLen);
    SpliceKeepsSlice(s2, FactoryWifiAltMacOff, StoredMac(mtype, rec.factoryWifiAltMac), PartnumberOff, PartnumberOff + PartnumberLen);
    SpliceKeepsSlice(s2, FactoryWifiAltMacOff, StoredMac(mtype, rec.factoryWifiAltMac), AssetIdOff, AssetIdOff + AssetIdLen);
    SpliceKeepsSlice(s3, FactoryEtherMacOff, StoredMac(mtype, rec.factoryEtherMac), PartnumberOff, PartnumberOff + PartnumberLen);
    SpliceKeepsSlice(s3, FactoryEtherMacOff, StoredMac(mtype, rec.factoryEtherMac), AssetIdOff, AssetIdOff + AssetIdLen);
    SpliceKeepsSlice(s4, VendorWifiMacOff, StoredMac(mtype, rec.vendorWifiMac), PartnumberOff, PartnumberOff + PartnumberLen);
    SpliceKeepsSlice(s4, VendorWifiMacOff, StoredMac(mtype, rec.vendorWifiMac), AssetIdOff, AssetIdOff + AssetIdLen);
    SpliceKeepsSlice(s5, VendorBtMacOff, StoredMac(mtype, rec.vendorBtMac), PartnumberOff, PartnumberOff + PartnumberLen);
    SpliceKeepsSlice(s5, VendorBtMacOff, StoredMac(mtype, rec.vendorBtMac), AssetIdOff, AssetIdOff + AssetIdLen);
    SpliceKeepsSlice(s6, VendorEtherMacOff, StoredMac(mtype, rec.vendorEtherMac), PartnumberOff, PartnumberOff + PartnumberLen);
    SpliceKeepsSlice(s6, VendorEtherMacOff, StoredMac(mtype, rec.vendorEtherMac), AssetIdOff, AssetIdOff + AssetIdLen);
    SpliceSlice(s0, FactoryWifiMacOff, StoredMac(mtype, rec.factoryWifiMac));
    SpliceKeepsSlice(s1, FactoryBtMacOff, StoredMac(mtype, rec.factoryBtMac), FactoryWifiMacOff, FactoryWifiMacOff + 6);
    SpliceKeepsSlice(s2, FactoryWifiAltMacOff, StoredMac(mtype, rec.factoryWifiAltMac), FactoryWifiMacOff, FactoryWifiMacOff + 6);
    SpliceKeepsSlice(s3, FactoryEtherMacOff, StoredMac(mtype, rec.factoryEtherMac), FactoryWifiMacOff, FactoryWifiMacOff + 6);
    SpliceKeepsSlice(s4, VendorWifiMacOff, StoredMac(mtype, rec.vendorWifiMac), FactoryWifiMacOff, FactoryWifiMacOff + 6);
    SpliceKeepsSlice(s5, VendorBtMacOff, StoredMac(mtype, rec.vendorBtMac), FactoryWifiMacOff, FactoryWifiMacOff + 6);
    SpliceKeepsSlice(s6, VendorEtherMacOff, StoredMac(mtype, rec.vendorEtherMac), FactoryWifiMacOff, FactoryWifiMacOff + 6);
    SpliceSlice(s1, FactoryBtMacOff, StoredMac(mtype, rec.factoryBtMac));
    SpliceKeepsSlice(s2, FactoryWifiAltMacOff, StoredMac(mtype, rec.factoryWifiAltMac), FactoryBtMacOff, FactoryBtMacOff + 6);
    SpliceKeepsSlice(s3, FactoryEtherMacOff, StoredMac(mtype, rec.factoryEtherMac), FactoryBtMacOff, FactoryBtMacOff + 6);
    SpliceKeepsSlice(s4, VendorWifiMacOff, StoredMac(mtype, rec.vendorWifiMac), FactoryBtMacOff, FactoryBtMacOff + 6);
    SpliceKeepsSlice(s5, VendorBtMacOff, StoredMac(mtype, rec.vendorBtMac), FactoryBtMacOff, FactoryBtMacOff + 6);
    SpliceKeepsSlice(s6, VendorEtherMacOff, StoredMac(mtype, rec.vendorEtherMac), FactoryBtMacOff, FactoryBtMacOff + 6);
    SpliceSlice(s2, FactoryWifiAltMacOff, StoredMac(mtype, rec.factoryWifiAltMac));
    SpliceKeepsSlice(s3, FactoryEtherMacOff, StoredMac(mtype, rec.factoryEtherMac), FactoryWifiAltMacOff, FactoryWifiAltMacOff + 6);
    SpliceKeepsSlice(s4, VendorWifiMacOff, StoredMac(mtype, rec.vendorWifiMac), FactoryWifiAltMacOff, FactoryWifiAltMacOff + 6);
    SpliceKeepsSlice(s5, VendorBtMacOff, StoredMac(mtype, rec.vendorBtMac), FactoryWifiAltMacOff, FactoryWifiAltMacOff + 6);
    SpliceKeepsSlice(s6, VendorEtherMacOff, StoredMac(mtype, rec.vendorEtherMac), FactoryWifiAltMacOff, FactoryWifiAltMacOff + 6);
    SpliceSlice(s3, FactoryEtherMacOff, StoredMac(mtype, rec.factoryEtherMac));
    SpliceKeepsSlice(s4, VendorWifiMacOff, StoredMac(mtype, rec.vendorWifiMac), FactoryEtherMacOff, FactoryEtherMacOff + 6);
    SpliceKeepsSlice(s5, VendorBtMacOff, StoredMac(mtype, rec.vendorBtMac), FactoryEtherMacOff, FactoryEtherMacOff + 6);
    SpliceKeepsSlice(s6, VendorEtherMacOff, StoredMac(mtype, rec.vendorEtherMac), FactoryEtherMacOff, FactoryEtherMacOff + 6);
    SpliceSlice(s4, VendorWifiMacOff, StoredMac(mtype, rec.vendorWifiMac));
    SpliceKeepsSlice(s5, VendorBtMacOff, StoredMac(mtype, rec.vendorBtMac), VendorWifiMacOff, VendorWifiMacOff + 6);
    SpliceKeepsSlice(s6, VendorEtherMacOff, StoredMac(mtype, rec.vendorEtherMac), VendorWifiMacOff, VendorWifiMacOff + 6);
    SpliceSlice(s5, VendorBtMacOff, StoredMac(mtype, rec.vendorBtMac));
    SpliceKeepsSlice(s6, VendorEtherMacOff, StoredMac(mtype, rec.vendorEtherMac), VendorBtMacOff, VendorBtMacOff + 6);
    SpliceSlice(s6, VendorEtherMacOff, StoredMac(mtype, rec.vendorEtherMac));
  }

  /** Reversing the placeholder gives the placeholder. */
  lemma PlaceholderSymmetric()
    ensures MacReversed(MacPlaceholder) == MacPlaceholder
  {
  }

  /** Two records that agree before the checksum byte agree on every range there. */
  lemma SameBeforeChecksum(a: Image, b: Image, lo: nat, hi: nat)
    requires a[..CrcOff] == b[..CrcOff] && lo <= hi <= CrcOff
    ensures a[lo..hi] == b[lo..hi]
  {
    forall i | lo <= i < hi ensures a[i] == b[i] {
      assert a[i] == a[..CrcOff][i] && b[i] == b[..CrcOff][i];
    }
  }

  /** Decoding does not read the checksum byte. */
  lemma DecodeFieldsIgnoresChecksum(a: Image, b: Image)
    requires a[..CrcOff] == b[..CrcOff]
    ensures DecodeFields(a) == DecodeFields(b)
  {
    assert a[PartnumberOff] == a[..CrcOff][PartnumberOff];
    SameBeforeChecksum(a, b, PartnumberOff, PartnumberOff + PartnumberLen);
    SameBeforeChecksum(a, b, PartnumberOff + 1, PartnumberOff + PartnumberLen);
    SameBeforeChecksum(a, b, AssetIdOff, AssetIdOff + AssetIdLen);
    SameBeforeChecksum(a, b, FactoryWifiMacOff, FactoryWifiMacOff + 6);
    SameBeforeChecksum(a, b, FactoryBtMacOff, FactoryBtMacOff + 6);
    SameBeforeChecksum(a, b, FactoryWifiAltMacOff, FactoryWifiAltMacOff + 6);
    SameBeforeChecksum(a, b, FactoryEtherMacOff, FactoryEtherMacOff + 6);
    SameBeforeChecksum(a, b, VendorWifiMacOff, VendorWifiMacOff + 6);
    SameBeforeChecksum(a, b, VendorBtMacOff, VendorBtMacOff + 6);
    SameBeforeChecksum(a, b, VendorEtherMacOff, VendorEtherMacOff + 6);
  }

  /**
   * The record a read returns after a write of `rec`: the part number as
   * `strncpy` packed it (a customer one keeps its final NUL), the asset id as
   * packed, and the MACs of a compute module; any other module reads back the
   * placeholder in all seven MACs.
   */
  function Normalized(rec: ModuleEeprom, mtype: ModuleType): ModuleEeprom
  {
    var pn: PartNumber :=
      if rec.partnumberType == Nvidia then StrNCpy(rec.partnumber, PartnumberLen)
      else StrNCpy(rec.partnumber, PartnumberLen - 1) + [0];
    var asset: AssetId := StrNCpy(rec.assetId, AssetIdLen);
    var ph: Mac := MacPlaceholder;
    if mtype == Cvm then rec.(partnumber := pn, assetId := asset)
    else rec.(partnumber := pn, assetId := asset,
              factoryWifiMac := ph, factoryBtMac := ph, factoryWifiAltMac := ph, factoryEtherMac := ph,
              vendorWifiMac := ph, vendorBtMac := ph, vendorEtherMac := ph)
  }

  /**
   * The records a write and a read carry through as `Normalized` says: the
   * packed strings do not end in 0xFF unless a NUL is in them, and a vendor
   * part number does not start with the 0xCC customer marker.
   */
  predicate Survives(rec: ModuleEeprom)
  {
    Packable(rec.assetId, AssetIdLen)
    && if rec.partnumberType == Nvidia then rec.partnumber[0] != CustomerMarker && Packable(rec.partnumber, PartnumberLen)
       else Packable(rec.partnumber, PartnumberLen - 1)
  }

  /** `m` holds the fields of `rec` where and as the write stores them. */
  predicate FieldsStored(m: Image, mtype: ModuleType, rec: ModuleEeprom)
  {
    (rec.partnumberType == Nvidia ==>
      m[PartnumberOff..PartnumberOff + PartnumberLen] == StrNCpy(rec.partnumber, PartnumberLen))
    && (rec.partnumberType == Customer ==>
      m[PartnumberOff] == CustomerMarker
      && m[PartnumberOff + 1..PartnumberOff + PartnumberLen] == StrNCpy(rec.partnumber, PartnumberLen - 1))
    && m[AssetIdOff..AssetIdOff + AssetIdLen] == StrNCpy(rec.assetId, AssetIdLen)
    && m[FactoryWifiMacOff..FactoryWifiMacOff + 6] == StoredMac(mtype, rec.factoryWifiMac)
    && m[FactoryBtMacOff..FactoryBtMacOff + 6] == StoredMac(mtype, rec.factoryBtMac)
    && m[FactoryWifiAltMacOff..FactoryWifiAltMacOff + 6] == StoredMac(mtype, rec.factoryWifiAltMac)
    && m[FactoryEtherMacOff..FactoryEtherMacOff + 6] == StoredMac(mtype, rec.factoryEtherMac)
    && m[VendorWifiMacOff..VendorWifiMacOff + 6] == StoredMac(mtype, rec.vendorWifiMac)
    && m[VendorBtMacOff..VendorBtMacOff + 6] == StoredMac(mtype, rec.vendorBtMac)
    && m[VendorEtherMacOff..VendorEtherMacOff + 6] == StoredMac(mtype, rec.vendorEtherMac)
  }

  /** Packing the strings and then the MACs stores every field of the record. */
  lemma PackedFieldsStored(s: Image, mtype: ModuleType, rec: ModuleEeprom)
    ensures FieldsStored(PackMacs(PackStrings(s, rec), mtype, rec), mtype, rec)
  {
    var q := PackStrings(s, rec);
    var m := PackMacs(q, mtype, rec);
    PackStringsFields(s, rec);
    PackMacsFields(q, mtype, rec);
    if rec.partnumberType == Customer {
      assert m[PartnumberOff] == m[PartnumberOff..PartnumberOff + PartnumberLen][0];
      assert q[PartnumberOff] == q[PartnumberOff..PartnumberOff + PartnumberLen][0];
      assert m[PartnumberOff + 1..PartnumberOff + PartnumberLen] == m[PartnumberOff..PartnumberOff + PartnumberLen][1..];
      assert q[PartnumberOff + 1..PartnumberOff + PartnumberLen] == q[PartnumberOff..PartnumberOff + PartnumberLen][1..];
    }
  }

  /** Decoding stored strings gives the part number and asset id as the write normalised them. */
  lemma StoredStringsDecode(m: Image, mtype: ModuleType, rec: ModuleEeprom)
    requires FieldsStored(m, mtype, rec) && Survives(rec)
    ensures var d := DecodeFields(m);
      var n := Normalized(rec, mtype);
      d.partnumberType == n.partnumberType && d.partnumber == n.partnumber && d.assetId == n.assetId
  {
    ExtractAfterStrNCpy(rec.assetId, AssetIdLen);
    if rec.partnumberType == Nvidia {
      ExtractAfterStrNCpy(rec.partnumber, PartnumberLen);
      assert m[PartnumberOff] == m[PartnumberOff..PartnumberOff + PartnumberLen][0];
    } else {
      ExtractAfterStrNCpy(rec.partnumber, PartnumberLen - 1);
    }
  }

  /** Decoding stored MACs gives the MACs as the write normalised them. */
  lemma StoredMacsDecode(m: Image, mtype: ModuleType, rec: ModuleEeprom)
    requires FieldsStored(m, mtype, rec)
    ensures var d := DecodeFields(m);
      var n := Normalized(rec, mtype);
      d.factoryWifiMac == n.factoryWifiMac && d.factoryBtMac == n.factoryBtMac
      && d.factoryWifiAltMac == n.factoryWifiAltMac && d.factoryEtherMac == n.factoryEtherMac
      && d.vendorWifiMac == n.vendorWifiMac && d.vendorBtMac == n.vendorBtMac && d.vendorEtherMac == n.vendorEtherMac
  {
    PlaceholderSymmetric();
    if mtype == Cvm {
      MacReversedTwice(rec.factoryWifiMac);
      MacReversedTwice(rec.factoryBtMac);
      MacReversedTwice(rec.factoryWifiAltMac);
      MacReversedTwice(rec.factoryEtherMac);
      MacReversedTwice(rec.vendorWifiMac);
      MacReversedTwice(rec.vendorBtMac);
      MacReversedTwice(rec.vendorEtherMac);
    }
  }

  /** A record holding the stored fields of `rec` decodes to the normalised `rec`. */
  lemma StoredDecodes(m: Image, mtype: ModuleType, rec: ModuleEeprom)
    requires FieldsStored(m, mtype, rec) && Survives(rec)
    ensures DecodeFields(m) == Normalized(rec, mtype)
  {
    StoredStringsDecode(m, mtype, rec);
    StoredMacsDecode(m, mtype, rec);
  }

  /** Sealing keeps the decoded fields. */
  lemma SealedDecodes(m: Image, mtype: ModuleType, rec: ModuleEeprom)
    requires FieldsStored(m, mtype, rec) && Survives(rec)
    ensures DecodeFields(Sealed(m)) == Normalized(rec, mtype)
  {
    StoredDecodes(m, mtype, rec);
    assert Sealed(m)[..CrcOff] == m[..CrcOff];
    DecodeFieldsIgnoresChecksum(Sealed(m), m);
  }

  /**
   * Reading back what a write prepared succeeds, whatever the cache held
   * before, and returns the written record as the write normalised it.
   */
  lemma ReadAfterWrite(raw: Image, mtype: ModuleType, rec: ModuleEeprom)
    requires Survives(rec)
    ensures Decode(Prepared(raw, mtype, rec), mtype) == (Ok, Normalized(rec, mtype))
  {
    PreparedValid(raw, mtype, rec);
    PackedFieldsStored(WriteBase(raw, mtype), mtype, rec);
    SealedDecodes(PackMacs(PackStrings(WriteBase(raw, mtype), rec), mtype, rec), mtype, rec);
  }
}
