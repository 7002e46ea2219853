/**
 * The identification EEPROM's data: the 256-byte raw layout (version 1) as
 * stored on the device, the module and part-number classes, and the logical
 * record that tools read and edit (`module_eeprom_t`).
 *
 * Multi-byte integers in the raw layout are little-endian.
 */
module Layout {
  import opened Libc

  /** A whole raw record, exactly as many bytes as the device holds. */
  const ImageSize := 256
  type Image = s: seq<Byte> | |s| == 256 witness seq(256, _ => 0)

  /** A logical MAC address, most significant byte first. */
  type Mac = s: seq<Byte> | |s| == 6 witness [0, 0, 0, 0, 0, 0]

  /** Width of the part-number field, in the raw layout and in the logical record. */
  const PartnumberLen := 22
  type PartNumber = s: seq<Byte> | |s| == 22 witness seq(22, _ => 0)

  /** Width of the asset-id field, in the raw layout and in the logical record. */
  const AssetIdLen := 15
  type AssetId = s: seq<Byte> | |s| == 15 witness seq(15, _ => 0)

  const MacLen := 6

  /* Byte offsets of the fields of the raw layout. */
  const VersionOff := 0
  const LengthOff := 2
  const PartnumberOff := 20
  const PaddingOff := 42
  const FactoryWifiMacOff := 50
  const FactoryBtMacOff := 56
  const FactoryWifiAltMacOff := 62
  const FactoryEtherMacOff := 68
  const AssetIdOff := 74
  const CfgblkSigOff := 150
  const CfgblkLenOff := 154
  const MacfmtTagOff := 156
  const MacfmtVersionOff := 158
  const VendorWifiMacOff := 160
  const VendorBtMacOff := 166
  const VendorEtherMacOff := 172
  const CrcOff := 255

  /* Constants of the layout. */
  const LayoutVersion := 1
  const CfgblkSig: seq<Byte> := [0x4e, 0x56, 0x43, 0x42]    // "NVCB"
  const CfgblkNone: seq<Byte> := [0x46, 0x46, 0x46, 0x46]   // "FFFF"
  const CfgblkLength := 28
  const MacfmtTag: seq<Byte> := [0x4d, 0x31]                // "M1"
  const MacfmtVersion := 0
  const MacPlaceholder: seq<Byte> := [0xff, 0xff, 0xff, 0xff, 0xff, 0xff]
  /** First raw part-number byte of a customer part number. */
  const CustomerMarker: Byte := 0xcc

  /** Whether the EEPROM belongs to the compute module ("cvm") or to a carrier board. */
  datatype ModuleType = Cvm | Normal

  /** Who assigned the part number. */
  datatype PartnumType = Nvidia | Customer

  /** The logical record (`module_eeprom_t`); MAC addresses are most significant byte first. */
  datatype ModuleEeprom = ModuleEeprom(
    partnumberType: PartnumType,
    partnumber: PartNumber,
    factoryWifiMac: Mac,
    factoryBtMac: Mac,
    factoryWifiAltMac: Mac,
    factoryEtherMac: Mac,
    assetId: AssetId,
    vendorWifiMac: Mac,
    vendorBtMac: Mac,
    vendorEtherMac: Mac)

  /** The record a cleared (`memset` to 0) `module_eeprom_t` holds: type nvidia (enum value 0), all bytes zero. */
  function ZeroRecord(): ModuleEeprom
  {
    var m: Mac := Zeros(6);
    ModuleEeprom(Nvidia, Zeros(22), m, m, m, m, Zeros(15), m, m, m)
  }

  /** The little-endian 16-bit integer stored at `off`. */
  function Le16(raw: seq<Byte>, off: nat): (v: nat)
    requires off + 2 <= |raw|
    ensures v < 0x1_0000
  {
    raw[off] as nat + 256 * raw[off + 1] as nat
  }

  /* The little-endian encodings (`htole16`) of the 16-bit constants the write path stores. */
  const LayoutVersionLe: seq<Byte> := [1, 0]
  const CfgblkLengthLe: seq<Byte> := [28, 0]
  const MacfmtVersionLe: seq<Byte> := [0, 0]

  /** Each stored encoding reads back as its constant. */
  lemma Le16Constants()
    ensures Le16(LayoutVersionLe, 0) == LayoutVersion
    ensures Le16(CfgblkLengthLe, 0) == CfgblkLength
    ensures Le16(MacfmtVersionLe, 0) == MacfmtVersion
  {
  }
}
