/**
 * The field table of tegra-eeprom-tool.c (`eeprom_fields`) and the three
 * helpers built on it: `parse_fieldname`, which looks a field up by name,
 * `format_field`, which renders a field of the logical record as text, and
 * the field access `do_set` performs through the table's offsets.
 */
module Fields {
  import opened Libc
  import opened Layout
  import opened MacText

  /** How a field is shown and set. */
  datatype FieldType = CharString | MacAddress

  /** One row of `eeprom_fields`: name, width in bytes, type and whether only a compute module has it. */
  datatype FieldDesc = FieldDesc(name: string, length: nat, fieldType: FieldType, cvmOnly: bool)

  /** `EEPROM_FIELD_COUNT`. */
  const FieldCount := 9

  /** The `name` column of `eeprom_fields`. */
  function NameText(i: nat): string
    requires i < FieldCount
  {
    if i == 0 then "partnumber"
    else if i == 1 then "factory-default-wifi-mac"
    else if i == 2 then "factory-default-bt-mac"
    else if i == 3 then "factory-default-wifi-alt-mac"
    else if i == 4 then "factory-default-ether-mac"
    else if i == 5 then "asset-id"
    else if i == 6 then "vendor-wifi-mac"
    else if i == 7 then "vendor-bt-mac"
    else "vendor-ether-mac"
  }

  /** Row `i` of `eeprom_fields`. */
  function Field(i: nat): FieldDesc
    requires i < FieldCount
  {
    if i == 0 then FieldDesc(NameText(0), PartnumberLen, CharString, false)
    else if i == 1 then FieldDesc(NameText(1), MacLen, MacAddress, true)
    else if i == 2 then FieldDesc(NameText(2), MacLen, MacAddress, true)
    else if i == 3 then FieldDesc(NameText(3), MacLen, MacAddress, true)
    else if i == 4 then FieldDesc(NameText(4), MacLen, MacAddress, true)
    else if i == 5 then FieldDesc(NameText(5), AssetIdLen, CharString, false)
    else if i == 6 then FieldDesc(NameText(6), MacLen, MacAddress, true)
    else if i == 7 then FieldDesc(NameText(7), MacLen, MacAddress, true)
    else FieldDesc(NameText(8), MacLen, MacAddress, true)
  }

  /** The name of field `i` as the C string the tool compares against. */
  function FieldName(i: nat): (n: seq<Byte>)
    requires i < FieldCount
    ensures |n| == |Field(i).name|
  {
    Ascii(Field(i).name)
  }

  /** The names are printable text (stated in three parts, to keep each proof small). */
  lemma FactoryNamesPrintable()
    ensures forall i :: 0 <= i < 3 ==> PrintableAscii(Field(i).name)
  {
  }

  lemma FieldNamesPrintable()
    ensures forall i :: 3 <= i < 6 ==> PrintableAscii(Field(i).name)
  {
  }

  lemma VendorNamesPrintable()
    ensures forall i :: 6 <= i < FieldCount ==> PrintableAscii(Field(i).name)
  {
  }

  /** Every field name is a C string. */
  lemma FieldNamesAreCStrings()
    ensures forall i :: 0 <= i < FieldCount ==> NulFree(FieldName(i))
  {
    FactoryNamesPrintable();
    FieldNamesPrintable();
    VendorNamesPrintable();
    forall i | 0 <= i < FieldCount ensures NulFree(FieldName(i)) {
      AsciiNulFree(Field(i).name);
    }
  }

  /** No two field names have the same length. */
  lemma FieldNameLengthsDiffer()
    ensures forall i, j :: 0 <= i < j < FieldCount ==> |FieldName(i)| != |FieldName(j)|
  {
  }

  /* ---- parse_fieldname ---- */

  /** The index of the first field from `k` on whose name `s` matches case-insensitively, or -1. */
  function FirstMatchFrom(s: seq<Byte>, k: nat): (i: int)
    requires k <= FieldCount
    ensures i == -1 || k <= i < FieldCount
    ensures i >= 0 ==> StrCaseEq(s, FieldName(i))
    ensures forall j :: k <= j < FieldCount && (i < 0 || j < i) ==> !StrCaseEq(s, FieldName(j))
    decreases FieldCount - k
  {
    if k == FieldCount then -1
    else if StrCaseEq(s, FieldName(k)) then k
    else FirstMatchFrom(s, k + 1)
  }

  /**
   * What `parse_fieldname` returns: the index of the first field whose name
   * equals `s` ignoring case, or -1 when there is none.
   */
  function FieldIndex(s: seq<Byte>): (i: int)
    ensures -1 <= i < FieldCount
    ensures i >= 0 ==> StrCaseEq(s, FieldName(i)) && forall j :: 0 <= j < i ==> !StrCaseEq(s, FieldName(j))
    ensures i == -1 ==> forall j :: 0 <= j < FieldCount ==> !StrCaseEq(s, FieldName(j))
  {
    FirstMatchFrom(s, 0)
  }

  /** `parse_fieldname`: the index loop over the table, stopping at the first `strcasecmp` match. */
  method ParseFieldname(s: seq<Byte>) returns (i: int)
    ensures i == FieldIndex(s)
  {
    var k := 0;
    while k < FieldCount && !StrCaseEq(s, FieldName(k))
      invariant 0 <= k <= FieldCount
      invariant FirstMatchFrom(s, k) == FieldIndex(s)
    {
      k := k + 1;
    }
    i := if k >= FieldCount then -1 else k;
  }

  /**
   * A name matches at most one field: any spelling of field `k`'s name in
   * any mix of cases looks up field `k`, and so does the name itself.
   */
  lemma FieldIndexOfName(s: seq<Byte>, k: nat)
    requires k < FieldCount && NulFree(s)
    requires |s| == |FieldName(k)| && forall i :: 0 <= i < |s| ==> ToLower(s[i]) == ToLower(FieldName(k)[i])
    ensures FieldIndex(s) == k
  {
    FieldNamesAreCStrings();
    FieldNameLengthsDiffer();
    StrCaseEqIff(s, FieldName(k));
    var i := FieldIndex(s);
    if 0 <= i < k {
      StrCaseEqIff(s, FieldName(i));
      assert false;
    }
  }

  /* ---- the fields of the logical record ---- */

  /** The bytes of field `i` of the record (`data + eeprom_fields[i].offset`, `length` bytes). */
  function FieldBytes(rec: ModuleEeprom, i: nat): (b: seq<Byte>)
    requires i < FieldCount
    ensures |b| == Field(i).length
  {
    if i == 0 then rec.partnumber
    else if i == 1 then rec.factoryWifiMac
    else if i == 2 then rec.factoryBtMac
    else if i == 3 then rec.factoryWifiAltMac
    else if i == 4 then rec.factoryEtherMac
    else if i == 5 then rec.assetId
    else if i == 6 then rec.vendorWifiMac
    else if i == 7 then rec.vendorBtMac
    else rec.vendorEtherMac
  }

  /**
   * The record with the bytes of field `i` replaced by `b`: that field then
   * holds `b`, and every other field and the part-number type are as before.
   */
  function WithField(rec: ModuleEeprom, i: nat, b: seq<Byte>): (r: ModuleEeprom)
    requires i < FieldCount && |b| == Field(i).length
    ensures FieldBytes(r, i) == b
    ensures forall j :: 0 <= j < FieldCount && j != i ==> FieldBytes(r, j) == FieldBytes(rec, j)
    ensures r.partnumberType == rec.partnumberType
  {
    if i == 0 then rec.(partnumber := b)
    else if i == 5 then rec.(assetId := b)
    else
      var m: Mac := b;
      if i == 1 then rec.(factoryWifiMac := m)
      else if i == 2 then rec.(factoryBtMac := m)
      else if i == 3 then rec.(factoryWifiAltMac := m)
      else if i == 4 then rec.(factoryEtherMac := m)
      else if i == 6 then rec.(vendorWifiMac := m)
      else if i == 7 then rec.(vendorBtMac := m)
      else rec.(vendorEtherMac := m)
  }

  /** Two records with the same part-number type and the same bytes in every field are the same record. */
  lemma FieldsDetermineRecord(a: ModuleEeprom, b: ModuleEeprom)
    requires a.partnumberType == b.partnumberType
    requires forall j :: 0 <= j < FieldCount ==> FieldBytes(a, j) == FieldBytes(b, j)
    ensures a == b
  {
    assert FieldBytes(a, 0) == FieldBytes(b, 0) && FieldBytes(a, 1) == FieldBytes(b, 1);
    assert FieldBytes(a, 2) == FieldBytes(b, 2) && FieldBytes(a, 3) == FieldBytes(b, 3);
    assert FieldBytes(a, 4) == FieldBytes(b, 4) && FieldBytes(a, 5) == FieldBytes(b, 5);
    assert FieldBytes(a, 6) == FieldBytes(b, 6) && FieldBytes(a, 7) == FieldBytes(b, 7);
    assert FieldBytes(a, 8) == FieldBytes(b, 8);
  }

  /* ---- format_field ---- */

  /**
   * The text of field `i` once formatted into a large enough buffer: a
   * string field up to its first NUL, a MAC address as six colon-separated
   * lowercase hex pairs.
   */
  function FieldText(rec: ModuleEeprom, i: nat): (t: seq<Byte>)
    requires i < FieldCount
    ensures NulFree(t) && |t| <= 22
  {
    var b := FieldBytes(rec, i);
    if Field(i).fieldType == CharString then CStr(b) else MacString(b)
  }

  /** How many bytes of a string field of width `length` fit a buffer of `bufsize` with the terminator. */
  function CopiedLength(length: nat, bufsize: nat): (n: nat)
    requires 1 <= bufsize
    ensures n <= length && n < bufsize
    ensures n == length || n == bufsize - 1
  {
    if length >= bufsize then bufsize - 1 else length
  }

  /**
   * `format_field(ctx, i, strbuf, bufsize)`: a string field is copied, cut
   * to `bufsize - 1` bytes, and terminated; a MAC field is formatted by
   * `format_macaddr`. Once the buffer can take the longest field and its
   * terminator, it holds exactly the field's text.
   */
  method FormatField(rec: ModuleEeprom, i: nat, strbuf: array<Byte>, bufsize: nat) returns (len: int)
    requires i < FieldCount && 1 <= bufsize <= strbuf.Length
    modifies strbuf
    ensures Field(i).fieldType == CharString ==>
      len == CopiedLength(Field(i).length, bufsize)
      && strbuf[..] == Splice(old(strbuf[..]), 0, FieldBytes(rec, i)[..len] + [0])
    ensures Field(i).fieldType == MacAddress ==>
      len == 17 && strbuf[..] == Formatted(old(strbuf[..]), bufsize, FieldBytes(rec, i))
    ensures bufsize > PartnumberLen ==> CStr(strbuf[..]) == FieldText(rec, i)
  {
    var b := FieldBytes(rec, i);
    match Field(i).fieldType
    case CharString =>
      len := Field(i).length;
      if len >= bufsize {
        len := bufsize - 1;
      }
      Memcpy(strbuf, 0, b[..len] + [0]);
      if bufsize > PartnumberLen {
        assert b[..len] == b;
        assert strbuf[..] == b + [0] + strbuf[len + 1..];
        CStrTerminated(b, strbuf[len + 1..]);
      }
    case MacAddress =>
      len := FormatMacaddr(strbuf, bufsize, b);
      if bufsize > PartnumberLen {
        FormattedWhole(old(strbuf[..]), bufsize, b);
      }
  }

  /* ---- do_set: the new contents of a field ---- */

  /**
   * The contents `do_set` gives a string field of width `n` for a value that
   * fits: the value, then zeros to the field width.
   */
  function StringValue(v: seq<Byte>, n: nat): (b: seq<Byte>)
    requires |v| <= n
    ensures |b| == n && b[..|v|] == v
    ensures forall k :: |v| <= k < n ==> b[k] == 0
  {
    v + Zeros(n - |v|)
  }

  /** A string field set to a C string shows that string again. */
  lemma StringValueText(v: seq<Byte>, n: nat)
    requires |v| <= n && NulFree(v)
    ensures CStr(StringValue(v, n)) == v
  {
    if |v| < n {
      assert StringValue(v, n) == v + [0] + Zeros(n - |v| - 1);
      CStrTerminated(v, Zeros(n - |v| - 1));
    }
    CStrWhole(v);
  }

  /**
   * The `memcpy` and zero-fill loop of `do_set` on a string field, building
   * the field's new bytes from the value.
   */
  method FillString(v: seq<Byte>, n: nat) returns (b: seq<Byte>)
    requires |v| <= n
    ensures b == StringValue(v, n)
  {
    b := v;
    var len := |v|;
    while len < n
      invariant |v| <= len <= n && |b| == len
      invariant b == v + Zeros(len - |v|)
    {
      b := b + [0];
      len := len + 1;
    }
  }
}
