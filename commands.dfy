/**
 * The command logic of tegra-eeprom-tool.c over values: what `show` and
 * `get` print for a record, how `set` reads its arguments, and the record
 * a successful `set` leaves. The session in session.dfy runs these against
 * its state.
 */
module Commands {
  import opened Libc
  import opened Layout
  import opened MacText
  import opened Fields

  const Newline: Byte := 0x0a

  /* ---- the part-number type argument of `set partnumber` ---- */

  /** Whether `w` is a prefix of the literal `word` ignoring case, the empty string included. */
  predicate CasePrefix(w: seq<Byte>, word: string)
  {
    |w| <= |word| && forall i :: 0 <= i < |w| ==> ToLower(w[i]) == ToLower(Ascii(word)[i])
  }

  /**
   * The type `do_set` gives the part number for the argument `w`:
   * `strncasecmp(w, "customer", strlen(w))` is tried first, then the same
   * against "nvidia"; anything else is refused.
   */
  function PartnumTypeWord(w: seq<Byte>): Option<PartnumType>
  {
    if StrNCaseEq(w, Ascii("customer"), |w|) then Some(Customer)
    else if StrNCaseEq(w, Ascii("nvidia"), |w|) then Some(Nvidia)
    else None
  }

  /**
   * The argument selects customer exactly when it abbreviates "customer"
   * (so the empty argument does), nvidia exactly when it abbreviates
   * "nvidia" and not "customer", and nothing otherwise.
   */
  lemma PartnumTypeWordMeaning(w: seq<Byte>)
    requires NulFree(w)
    ensures PartnumTypeWord(w) == Some(Customer) <==> CasePrefix(w, "customer")
    ensures PartnumTypeWord(w) == Some(Nvidia) <==> !CasePrefix(w, "customer") && CasePrefix(w, "nvidia")
    ensures PartnumTypeWord(w) == None <==> !CasePrefix(w, "customer") && !CasePrefix(w, "nvidia")
  {
    assert PrintableAscii("customer") && PrintableAscii("nvidia");
    AsciiNulFree("customer");
    AsciiNulFree("nvidia");
    StrNCaseEqPrefix(w, Ascii("customer"));
    StrNCaseEqPrefix(w, Ascii("nvidia"));
  }

  /* ---- what the commands print ---- */

  /** Whether field `i` exists on a module of type `mtype`. */
  predicate Supported(mtype: ModuleType, i: nat)
    requires i < FieldCount
  {
    mtype == Cvm || !Field(i).cvmOnly
  }

  /** The part-number type as `show` prints it after the field name. */
  function ShowTag(rec: ModuleEeprom, i: nat): seq<Byte>
  {
    if i != 0 then [] else if rec.partnumberType == Nvidia then Ascii("[nvidia]") else Ascii("[customer]")
  }

  /** The part-number type as `get` prints it after the value. */
  function GetTag(rec: ModuleEeprom, i: nat): seq<Byte>
  {
    if i != 0 then [] else if rec.partnumberType == Nvidia then Ascii(" [nvidia]") else Ascii(" [customer]")
  }

  /** One line of `show`: `name[type]: value`. */
  function ShowLine(rec: ModuleEeprom, i: nat): seq<Byte>
    requires i < FieldCount
  {
    FieldName(i) + ShowTag(rec, i) + Ascii(": ") + FieldText(rec, i) + [Newline]
  }

  /** The line of `get`: `value [type]`. */
  function GetLine(rec: ModuleEeprom, i: nat): seq<Byte>
    requires i < FieldCount
  {
    FieldText(rec, i) + GetTag(rec, i) + [Newline]
  }

  /** An index into the field table. */
  type FieldId = i: nat | i < FieldCount

  /** The fields `show` lists among the first `k`, in table order: those the module type has. */
  function ShownBelow(mtype: ModuleType, k: nat): (fs: seq<FieldId>)
    requires k <= FieldCount
  {
    if k == 0 then []
    else if Supported(mtype, k - 1) then ShownBelow(mtype, k - 1) + [k - 1]
    else ShownBelow(mtype, k - 1)
  }

  /** The fields `show` lists. */
  function ShownFields(mtype: ModuleType): seq<FieldId>
  {
    ShownBelow(mtype, FieldCount)
  }

  /** The `show` lines of the fields `fs`, one after the other. */
  function ShowLines(rec: ModuleEeprom, fs: seq<FieldId>): seq<seq<Byte>>
  {
    seq(|fs|, j requires 0 <= j < |fs| => ShowLine(rec, fs[j]))
  }

  /** Showing one more field appends its line. */
  lemma ShowLinesStep(rec: ModuleEeprom, fs: seq<FieldId>, i: FieldId)
    ensures ShowLines(rec, fs + [i]) == ShowLines(rec, fs) + [ShowLine(rec, i)]
  {
  }

  /** A carrier board shows its part number and asset id and nothing else. */
  lemma {:induction false} ShownOnBoard()
    ensures ShownFields(Normal) == [0, 5]
  {
    assert ShownBelow(Normal, 1) == [0];
    assert ShownBelow(Normal, 5) == [0];
    assert ShownBelow(Normal, 6) == [0, 5];
  }

  /** A compute module shows all nine fields in table order. */
  lemma {:induction false} ShownOnModule()
    ensures ShownFields(Cvm) == [0, 1, 2, 3, 4, 5, 6, 7, 8]
  {
    assert ShownBelow(Cvm, 3) == [0, 1, 2];
    assert ShownBelow(Cvm, 6) == [0, 1, 2, 3, 4, 5];
  }

  /* ---- the effect of `set` ---- */

  /** The argument holding the value: the third for the part number, which takes a type first, else the second. */
  function ValueIndex(i: nat): nat
  {
    if i == 0 then 2 else 1
  }

  /** Whether `set args` succeeds, checked in the order `do_set` checks. */
  predicate SetAccepted(args: seq<seq<Byte>>, readonly: bool, mtype: ModuleType)
  {
    |args| >= 2
    && var i := FieldIndex(args[0]);
    i >= 0 && !readonly && Supported(mtype, i)
    && (i == 0 ==> |args| >= 3 && PartnumTypeWord(args[1]).Some?)
    && ValueFits(i, args[ValueIndex(i)])
  }

  /** Whether `v` is a value `set` accepts for field `i`: a short enough string, or a MAC address. */
  predicate ValueFits(i: nat, v: seq<Byte>)
    requires i < FieldCount
  {
    match Field(i).fieldType
    case CharString => |v| <= Field(i).length
    case MacAddress => ParsedMac(v).Some?
  }

  /** The bytes a successful `set` stores in field `i` for the value `v`. */
  function SetBytes(i: nat, v: seq<Byte>): (b: seq<Byte>)
    requires i < FieldCount && ValueFits(i, v)
    ensures |b| == Field(i).length
  {
    match Field(i).fieldType
    case CharString => StringValue(v, Field(i).length)
    case MacAddress => ParsedMac(v).value
  }

  /** The record after a successful `set args`. */
  function SetResult(rec: ModuleEeprom, args: seq<seq<Byte>>, readonly: bool, mtype: ModuleType): ModuleEeprom
    requires SetAccepted(args, readonly, mtype)
  {
    var i := FieldIndex(args[0]);
    var r := if i == 0 then rec.(partnumberType := PartnumTypeWord(args[1]).value) else rec;
    WithField(r, i, SetBytes(i, args[ValueIndex(i)]))
  }

  /**
   * After a successful `set`, `get` on the same field prints the value given
   * for a string field, and for a MAC field a text that parses to the same
   * six bytes; every other field is untouched, and the part-number type
   * changes only when the part number is set.
   */
  lemma SetThenGet(rec: ModuleEeprom, args: seq<seq<Byte>>, readonly: bool, mtype: ModuleType)
    requires SetAccepted(args, readonly, mtype)
    requires forall k :: 0 <= k < |args| ==> NulFree(args[k])
    ensures var i := FieldIndex(args[0]);
      var r := SetResult(rec, args, readonly, mtype);
      var v := args[ValueIndex(i)];
      (Field(i).fieldType == CharString ==> FieldText(r, i) == v)
      && (Field(i).fieldType == MacAddress ==> ParsedMac(FieldText(r, i)) == ParsedMac(v))
      && (forall j :: 0 <= j < FieldCount && j != i ==> FieldBytes(r, j) == FieldBytes(rec, j))
      && r.partnumberType == if i == 0 then PartnumTypeWord(args[1]).value else rec.partnumberType
  {
    var i := FieldIndex(args[0]);
    var v := args[ValueIndex(i)];
    var r := SetResult(rec, args, readonly, mtype);
    if Field(i).fieldType == CharString {
      StringValueText(v, Field(i).length);
    } else {
      ParseFormatRoundTrip(ParsedMac(v).value);
    }
  }

  /**
   * The `printf` of `do_show` for field `i`, after `format_field` into a
   * 128-byte `strbuf`: the line that goes to standard output.
   */
  method ShowField(rec: ModuleEeprom, i: FieldId) returns (line: seq<Byte>)
    ensures line == ShowLine(rec, i)
  {
    var strbuf := new Byte[128];
    var len := FormatField(rec, i, strbuf, strbuf.Length);
    line := FieldName(i) + ShowTag(rec, i) + Ascii(": ") + CStr(strbuf[..]) + [Newline];
  }

  /**
   * The `printf` of `do_get` for field `i`, after `format_field` into a
   * 128-byte `strbuf`: the line that goes to standard output.
   */
  method GetField(rec: ModuleEeprom, i: FieldId) returns (line: seq<Byte>)
    ensures line == GetLine(rec, i)
  {
    var strbuf := new Byte[128];
    var len := FormatField(rec, i, strbuf, strbuf.Length);
    line := CStr(strbuf[..]) + GetTag(rec, i) + [Newline];
  }

  /** The loop of `do_show`: the line of every field the module type has, in table order. */
  method ListFields(rec: ModuleEeprom, mtype: ModuleType) returns (out: seq<seq<Byte>>)
    ensures out == ShowLines(rec, ShownFields(mtype))
  {
    out := [];
    for i := 0 to FieldCount
      invariant out == ShowLines(rec, ShownBelow(mtype, i))
    {
      out := ShowNext(rec, mtype, i, out);
    }
  }

  /** One round of the loop of `do_show`: field `i`'s line is printed when the module type has the field. */
  method ShowNext(rec: ModuleEeprom, mtype: ModuleType, i: FieldId, out: seq<seq<Byte>>) returns (out': seq<seq<Byte>>)
    requires out == ShowLines(rec, ShownBelow(mtype, i))
    ensures out' == ShowLines(rec, ShownBelow(mtype, i + 1))
  {
    out' := out;
    if Supported(mtype, i) {
      var line := ShowField(rec, i);
      ShowLinesStep(rec, ShownBelow(mtype, i), i);
      out' := out + [line];
    }
  }

  /**
   * The value step of `do_set`: a string longer than the field, or a text
   * `parse_macaddr` refuses, is refused (1) and changes nothing; otherwise
   * the field is stored, a string padded with NULs to the field's length.
   */
  method StoreValue(rec0: ModuleEeprom, i: FieldId, v: seq<Byte>) returns (ret: int, rec: ModuleEeprom)
    requires NulFree(v)
    ensures (ret == 0, ret == 0 || ret == 1) == (ValueFits(i, v), true)
    ensures rec == if ret == 0 then WithField(rec0, i, SetBytes(i, v)) else rec0
  {
    match Field(i).fieldType {
      case CharString =>
        if |v| > Field(i).length {
          return 1, rec0;
        }
        var b := FillString(v, Field(i).length);
        rec := WithField(rec0, i, b);
      case MacAddress =>
        var addr := new Byte[MacLen];
        var rc := ParseMacaddr(addr, v);
        if rc < 0 {
          return 1, rec0;
        }
        rec := WithField(rec0, i, addr[..]);
    }
    ret := 0;
  }

  /**
   * `do_set` on the record `rec` of a session with the given read-only flag
   * and module type: checks, in order, the argument count, the field name,
   * the read-only flag and the module type, and for the part number the
   * type argument, which it stores at once; then checks the value against
   * the field (length for a string, `parse_macaddr` for a MAC) and stores
   * it. A refused value for the part number still leaves the new type in
   * place.
   */
  method SetRecord(rec0: ModuleEeprom, args: seq<seq<Byte>>, readonly: bool, mtype: ModuleType)
    returns (ret: int, rec: ModuleEeprom)
    requires forall k :: 0 <= k < |args| ==> NulFree(args[k])
    ensures (ret == 0, ret == 0 || ret == 1) == (SetAccepted(args, readonly, mtype), true)
    ensures ret == 0 ==> rec == SetResult(rec0, args, readonly, mtype)
    ensures ret != 0 && rec != rec0 ==>
      |args| >= 3 && FieldIndex(args[0]) == 0 && !readonly && PartnumTypeWord(args[1]).Some?
      && |args[2]| > PartnumberLen && rec == rec0.(partnumberType := PartnumTypeWord(args[1]).value)
    ensures ret != 0 ==>
      rec == if |args| >= 3 && FieldIndex(args[0]) == 0 && !readonly && PartnumTypeWord(args[1]).Some?
             then rec0.(partnumberType := PartnumTypeWord(args[1]).value)
             else rec0
  {
    rec := rec0;
    if |args| < 2 {
      return 1, rec;
    }
    var i := ParseFieldname(args[0]);
    if i < 0 {
      return 1, rec;
    }
    if readonly {
      return 1, rec;
    }
    if !Supported(mtype, i) {
      return 1, rec;
    }
    var valindex := 1;
    if i == 0 {
      if |args| < 3 {
        return 1, rec;
      }
      valindex := 2;
      var len := |args[1]|;  // strlen of a C string
      if StrNCaseEq(args[1], Ascii("customer"), len) {
        rec := rec.(partnumberType := Customer);
      } else if StrNCaseEq(args[1], Ascii("nvidia"), len) {
        rec := rec.(partnumberType := Nvidia);
      } else {
        return 1, rec;
      }
    }
    ret, rec := StoreValue(rec, i, args[valindex]);
  }
}
