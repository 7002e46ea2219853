/**
 * `tegra_boardspec` of boardspec.c: the compute-module EEPROM is opened and
 * read, and a vendor part number of the form `699-8bbbb-ssss-fff RRR`
 * (board id, SKU, fab, board revision) is turned into the identifier
 * `bbbb-fff-ssss-RRR-<prod mode>-<chip revision>`.
 *
 * What the platform probing returns (the production-mode fuse, the SoC type,
 * the EEPROM's I2C address, which of the two ways of opening the EEPROM
 * works and what the EEPROM holds) is a parameter, `Platform`.
 */
module Boardspec {
  import opened Libc
  import opened Layout
  import opened EepromCodec
  import opened Eeprom

  /** `tegra_soctype_t`: the SoC families the tool knows, and the "invalid" answer of `cvm_soctype`. */
  datatype SocType = Tegra186 | Tegra194 | Tegra210 | InvalidSoc

  /** What the platform probing done by `tegra_boardspec` finds. */
  datatype Platform = Platform(
    prodMode: Option<nat>,        // `get_prod_mode`: the fuse value, or None when it fails
    soc: SocType,                 // `cvm_soctype()`
    hasAddress: bool,             // `cvm_i2c_address()` is not NULL
    sysfsEeprom: Option<Image>,   // the EEPROM through its sysfs file, when the file exists and `eeprom_open` succeeds
    busEeprom: Option<Image>)     // the EEPROM through `eeprom_open_i2c`, when that succeeds

  /** How `tegra_boardspec` ends: -1 with an `errno`, or the identifier it formats. */
  datatype Outcome = Failed(errno: Errno) | Formatted(text: seq<Byte>)

  const Dash: Byte := 0x2d
  const Space: Byte := 0x20
  const Zero: Byte := 0x30

  /* ---- the identifier ---- */

  /**
   * `%-<w>.<w>s` of `&pn[off]`: at most `w` bytes, up to the first NUL,
   * left-justified and padded with spaces to `w`.
   */
  function Bounded(pn: PartNumber, off: nat, w: nat): (r: seq<Byte>)
    requires off + w <= PartnumberLen
    ensures |r| == w && NulFree(r)
    ensures var k := StrLen(pn[off..off + w]);
      r[..k] == pn[off..off + k] && forall i :: k <= i < w ==> r[i] == Space
  {
    var t := CStr(pn[off..off + w]);
    t + Repeat(Space, w - |t|)
  }

  /**
   * The board revision: the three bytes after the blank at offset 18 when
   * the first of them is printable, else nothing (the `boardrev` buffer
   * stays zeroed).
   */
  function BoardRev(pn: PartNumber): (r: seq<Byte>)
    ensures |r| <= 3 && NulFree(r) && r == pn[19..19 + |r|]
    ensures r == [] <==> !(pn[18] == Space && IsPrint(pn[19]))
  {
    if pn[18] == Space && IsPrint(pn[19]) then CStr(pn[19..22]) else []
  }

  /** The decimal digit for `d`. */
  function Digit(d: nat): (c: Byte)
    requires d < 10
  {
    Zero + d as Byte
  }

  predicate IsDigit(c: Byte)
  {
    Zero <= c <= Zero + 9
  }

  /** `%lu` / `%u` of `n`: its decimal digits, without leading zeros. */
  function Decimal(n: nat): (r: seq<Byte>)
    ensures |r| >= 1 && forall i :: 0 <= i < |r| ==> IsDigit(r[i])
    ensures r[0] == Zero <==> n == 0
    ensures n == 0 ==> r == [Zero]
    decreases n
  {
    if n < 10 then [Digit(n)] else Decimal(n / 10) + [Digit(n % 10)]
  }

  /** The number a string of decimal digits stands for. */
  function DigitsValue(s: seq<Byte>): nat
    requires forall i :: 0 <= i < |s| ==> IsDigit(s[i])
  {
    if s == [] then 0 else 10 * DigitsValue(s[..|s| - 1]) + (s[|s| - 1] - Zero) as nat
  }

  /** The chip revision printed last: 2 for Tegra194, 0 for everything else. */
  function ChipRevision(soc: SocType): nat
  {
    if soc == Tegra194 then 2 else 0
  }

  /** The `snprintf` text of `tegra_boardspec`: board id, fab, SKU, revision, prod mode, chip revision. */
  function BoardspecText(pn: PartNumber, prodMode: nat, soc: SocType): seq<Byte>
  {
    Dashed(Bounded(pn, 5, 4), Bounded(pn, 15, 3), Bounded(pn, 10, 4), BoardRev(pn), Decimal(prodMode), Decimal(ChipRevision(soc)))
  }

  /* ---- the steps of tegra_boardspec ---- */

  /** The EEPROM `tegra_boardspec` ends up reading: the sysfs file if it opens, the raw bus otherwise. */
  function OpenedEeprom(p: Platform): Option<Image>
  {
    if p.sysfsEeprom.Some? then p.sysfsEeprom else p.busEeprom
  }

  /** Whether `tegra_boardspec` gets as far as opening an EEPROM. */
  predicate Opens(p: Platform)
  {
    p.prodMode.Some? && p.soc != InvalidSoc && p.hasAddress && OpenedEeprom(p).Some?
  }

  /**
   * What `tegra_boardspec` does, check by check: a failed fuse read, no SoC
   * or no I2C address (ENODEV), no EEPROM, an EEPROM that `eeprom_read`
   * rejects, a customer part number (ENOMSG), and otherwise the identifier.
   */
  function BoardspecOutcome(p: Platform): Outcome
  {
    if p.prodMode.None? then Failed(EIO)
    else if p.soc == InvalidSoc || !p.hasAddress then Failed(ENODEV)
    else if OpenedEeprom(p).None? then Failed(EIO)
    else
      var d := Decode(OpenedEeprom(p).value, Cvm);
      if d.0.Fail? then Failed(d.0.errno)
      else if d.1.partnumberType != Nvidia then Failed(ENOMSG)
      else Formatted(BoardspecText(d.1.partnumber, p.prodMode.value, p.soc))
  }

  /**
   * `tegra_boardspec(buf, bufsiz)`: -1 with `errno` set when a check fails;
   * otherwise `snprintf` stores what fits of the identifier in `buf` and its
   * full length is returned. The EEPROM handle, when one was opened, is
   * closed before returning.
   */
  method TegraBoardspec(buf: array<Byte>, bufsiz: nat, p: Platform) returns (ret: int, errno: Errno, ghost ctx: EepromContext?)
    requires bufsiz <= buf.Length
    modifies buf
    ensures BoardspecOutcome(p).Failed? ==>
      (ret, errno, buf[..]) == (-1, BoardspecOutcome(p).errno, old(buf[..]))
    ensures BoardspecOutcome(p).Formatted? ==>
      var text := BoardspecOutcome(p).text;
      ret == |text| && buf[..] == Splice(old(buf[..]), 0, Snprintf(text, bufsiz))
    ensures ctx != null <==> Opens(p)
    ensures ctx != null ==> fresh(ctx) && ctx.closed
  {
    ctx := null;
    errno := EIO;
    if p.prodMode.None? {
      return -1, EIO, ctx;
    }
    var prodMode := p.prodMode.value;
    if p.soc == InvalidSoc || !p.hasAddress {
      return -1, ENODEV, ctx;
    }
    var raw := OpenedEeprom(p);
    if raw.None? {
      return -1, EIO, ctx;
    }
    var st, rec, e := ReadAndClose(raw.value, p.sysfsEeprom.Some?);
    ctx := e;
    if st.Fail? {
      return -1, st.errno, ctx;
    }
    if rec.partnumberType != Nvidia {
      return -1, ENOMSG, ctx;
    }
    ret := FormatBoardspec(buf, bufsiz, rec.partnumber, prodMode, p.soc);
  }

  /** The closing `snprintf(buf, bufsiz, ...)` of `tegra_boardspec`. */
  method FormatBoardspec(buf: array<Byte>, bufsiz: nat, pn: PartNumber, prodMode: nat, soc: SocType) returns (ret: int)
    requires bufsiz <= buf.Length
    modifies buf
    ensures ret == |BoardspecText(pn, prodMode, soc)|
    ensures buf[..] == Splice(old(buf[..]), 0, Snprintf(BoardspecText(pn, prodMode, soc), bufsiz))
  {
    var text := BoardspecText(pn, prodMode, soc);
    Memcpy(buf, 0, Snprintf(text, bufsiz));
    ret := |text|;
  }

  /**
   * Opening the EEPROM (through its sysfs file or the raw bus), `eeprom_read`
   * and `eeprom_close`: the handle is closed whether or not the read
   * succeeds.
   */
  method ReadAndClose(raw: Image, sysfs: bool) returns (st: Status, rec: ModuleEeprom, ghost ctx: EepromContext)
    ensures (st, rec) == Decode(raw, Cvm)
    ensures fresh(ctx) && ctx.closed
  {
    var e: EepromContext;
    if sysfs {
      e := new EepromContext.Open(raw, Cvm);
    } else {
      e := new EepromContext.OpenI2c(raw, Cvm);
    }
    ctx := e;
    st, rec := e.Read();
    if st.Fail? {
      e.Close();
      return;
    }
    e.Close();
  }

  /* ---- properties ---- */

  /** Reading back the digits `%lu` prints gives the number printed. */
  lemma {:induction false} DecimalValue(n: nat)
    ensures DigitsValue(Decimal(n)) == n
    decreases n
  {
    if n < 10 {
      DigitValue(n);
    } else {
      var r := Decimal(n);
      assert r == Decimal(n / 10) + [Digit(n % 10)];
      assert r[..|r| - 1] == Decimal(n / 10);
      DecimalValue(n / 10);
      DigitValue(n % 10);
    }
  }

  /** The digit printed for `d` reads back as `d`. */
  lemma DigitValue(d: nat)
    requires d < 10
    ensures (Digit(d) - Zero) as nat == d
  {
    if d == 0 {} else if d == 1 {} else if d == 2 {} else if d == 3 {} else if d == 4 {}
    else if d == 5 {} else if d == 6 {} else if d == 7 {} else if d == 8 {} else {}
  }

  /** The identifier never holds a NUL, so `snprintf`'s return is its `strlen`. */
  lemma BoardspecNulFree(pn: PartNumber, prodMode: nat, soc: SocType)
    ensures NulFree(BoardspecText(pn, prodMode, soc))
  {
    var dec, chip := Decimal(prodMode), Decimal(ChipRevision(soc));
    assert NulFree(dec) && NulFree(chip) by {
      forall i | 0 <= i < |dec| ensures dec[i] != 0 { assert IsDigit(dec[i]); }
      forall i | 0 <= i < |chip| ensures chip[i] != 0 { assert IsDigit(chip[i]); }
    }
    DashedNulFree(Bounded(pn, 5, 4), Bounded(pn, 15, 3), Bounded(pn, 10, 4), BoardRev(pn), dec, chip);
  }

  /** The identifier starts with the board id, the fab and the SKU in fixed columns, each followed by '-'. */
  lemma BoardspecColumns(pn: PartNumber, prodMode: nat, soc: SocType)
    ensures var t := BoardspecText(pn, prodMode, soc);
      |t| > 14 && t[..4] == Bounded(pn, 5, 4) && t[5..8] == Bounded(pn, 15, 3) && t[9..13] == Bounded(pn, 10, 4)
      && t[4] == Dash && t[8] == Dash && t[13] == Dash
  {
    var a, b, c, r, d, e := Bounded(pn, 5, 4), Bounded(pn, 15, 3), Bounded(pn, 10, 4), BoardRev(pn), Decimal(prodMode), Decimal(ChipRevision(soc));
    assert BoardspecText(pn, prodMode, soc) == Dashed(a, b, c, r, d, e);
    DashedLayout(a, b, c, r, d, e);
  }

  /**
   * After the SKU come the revision, the prod mode and the chip revision,
   * each after a '-'; the chip revision is the last byte.
   */
  lemma BoardspecTail(pn: PartNumber, prodMode: nat, soc: SocType)
    ensures var t := BoardspecText(pn, prodMode, soc);
      var rl := |BoardRev(pn)|;
      var dl := |Decimal(prodMode)|;
      |t| == 17 + rl + dl
      && t[14..14 + rl] == BoardRev(pn) && t[15 + rl..15 + rl + dl] == Decimal(prodMode)
      && t[14 + rl] == Dash && t[15 + rl + dl] == Dash
      && t[16 + rl + dl] == if soc == Tegra194 then Zero + 2 else Zero
  {
    var a, b, c, r, d, e := Bounded(pn, 5, 4), Bounded(pn, 15, 3), Bounded(pn, 10, 4), BoardRev(pn), Decimal(prodMode), Decimal(ChipRevision(soc));
    ChipDigit(soc);
    assert BoardspecText(pn, prodMode, soc) == Dashed(a, b, c, r, d, e);
    DashedLayout(a, b, c, r, d, e);
  }

  /** The chip revision is printed as one digit, '2' for Tegra194 and '0' otherwise. */
  lemma ChipDigit(soc: SocType)
    ensures Decimal(ChipRevision(soc)) == [if soc == Tegra194 then Zero + 2 else Zero]
  {
  }

  /** Six fields joined by '-', as the format string of `tegra_boardspec` joins them. */
  function Dashed(a: seq<Byte>, b: seq<Byte>, c: seq<Byte>, r: seq<Byte>, d: seq<Byte>, e: seq<Byte>): seq<Byte>
  {
    a + [Dash] + b + [Dash] + c + [Dash] + r + [Dash] + d + [Dash] + e
  }

  /** The columns of six joined fields. */
  lemma DashedLayout(a: seq<Byte>, b: seq<Byte>, c: seq<Byte>, r: seq<Byte>, d: seq<Byte>, e: seq<Byte>)
    requires |a| == 4 && |b| == 3 && |c| == 4 && |e| == 1
    ensures var t := Dashed(a, b, c, r, d, e);
      |t| == 17 + |r| + |d|
      && t[..4] == a && t[5..8] == b && t[9..13] == c
      && t[14..14 + |r|] == r && t[15 + |r|..15 + |r| + |d|] == d
      && t[4] == t[8] == t[13] == t[14 + |r|] == t[15 + |r| + |d|] == Dash
      && t[16 + |r| + |d|] == e[0]
  {
    var t := Dashed(a, b, c, r, d, e);
    var p1 := a + [Dash];
    var p2 := p1 + b + [Dash];
    var p3 := p2 + c + [Dash];
    var p4 := p3 + r + [Dash];
    var p5 := p4 + d + [Dash];
    assert t == p5 + e;
    assert p4 <= p5 <= t;
    assert p1 <= p2 <= p3 <= p4;
    PieceAt(a, [Dash], t);
    PieceAt(p1, b, t);
    PieceAt(p1 + b, [Dash], t);
    PieceAt(p2, c, t);
    PieceAt(p2 + c, [Dash], t);
    PieceAt(p3, r, t);
    PieceAt(p3 + r, [Dash], t);
    PieceAt(p4, d, t);
    PieceAt(p4 + d, [Dash], t);
    PieceAt(p5, e, t);
  }

  /** A piece `y` that follows a prefix `x` of `t` occupies the columns after `x`. */
  lemma PieceAt(x: seq<Byte>, y: seq<Byte>, t: seq<Byte>)
    requires x + y <= t
    ensures t[|x|..|x| + |y|] == y && t[..|x|] == x
  {
    assert t[..|x| + |y|] == x + y;
    assert (x + y)[|x|..] == y;
  }

  /** Joining NUL-free fields gives a NUL-free text. */
  lemma DashedNulFree(a: seq<Byte>, b: seq<Byte>, c: seq<Byte>, r: seq<Byte>, d: seq<Byte>, e: seq<Byte>)
    requires NulFree(a) && NulFree(b) && NulFree(c) && NulFree(r) && NulFree(d) && NulFree(e)
    ensures NulFree(Dashed(a, b, c, r, d, e))
  {
    var t := a;
    var pieces := [[Dash], b, [Dash], c, [Dash], r, [Dash], d, [Dash], e];
    NulFreeConcat(t, pieces[0]); t := t + pieces[0];
    NulFreeConcat(t, pieces[1]); t := t + pieces[1];
    NulFreeConcat(t, pieces[2]); t := t + pieces[2];
    NulFreeConcat(t, pieces[3]); t := t + pieces[3];
    NulFreeConcat(t, pieces[4]); t := t + pieces[4];
    NulFreeConcat(t, pieces[5]); t := t + pieces[5];
    NulFreeConcat(t, pieces[6]); t := t + pieces[6];
    NulFreeConcat(t, pieces[7]); t := t + pieces[7];
    NulFreeConcat(t, pieces[8]); t := t + pieces[8];
    NulFreeConcat(t, pieces[9]); t := t + pieces[9];
    assert t == Dashed(a, b, c, r, d, e);
  }

  /**
   * For a part number laid out as `699-8bbbb-ssss-fff RRR` with no NULs in
   * the fields, the identifier is `bbbb-fff-ssss-RRR-<prod mode>-<chip revision>`.
   */
  lemma WellFormedBoardspec(pn: PartNumber, prodMode: nat, soc: SocType)
    requires NulFree(pn[5..9]) && NulFree(pn[10..14]) && NulFree(pn[15..18]) && NulFree(pn[19..22])
    requires pn[18] == Space && IsPrint(pn[19])
    ensures BoardspecText(pn, prodMode, soc)
      == pn[5..9] + [Dash] + pn[15..18] + [Dash] + pn[10..14] + [Dash] + pn[19..22] + [Dash]
         + Decimal(prodMode) + [Dash] + Decimal(ChipRevision(soc))
  {
    BoundedWhole(pn, 5, 4);
    BoundedWhole(pn, 15, 3);
    BoundedWhole(pn, 10, 4);
    CStrWhole(pn[19..22]);
  }

  /** A bounded field with no NUL in its columns is printed as it is. */
  lemma BoundedWhole(pn: PartNumber, off: nat, w: nat)
    requires off + w <= PartnumberLen && NulFree(pn[off..off + w])
    ensures Bounded(pn, off, w) == pn[off..off + w]
  {
    CStrWhole(pn[off..off + w]);
  }

  /**
   * What a caller finds in `buf` afterwards: the whole identifier when it
   * fits with its terminator, else its first `bufsiz - 1` bytes.
   */
  lemma SnprintfCString(b: seq<Byte>, text: seq<Byte>, size: nat)
    requires NulFree(text) && 0 < size <= |b|
    ensures CStr(Splice(b, 0, Snprintf(text, size))) == if |text| < size then text else text[..size - 1]
  {
    var w := Snprintf(text, size);
    var k := |w| - 1;
    var r := Splice(b, 0, w);
    assert r[..k] == w[..k];
    assert r[k] == 0;
    CStrAt(r, k);
  }

  /**
   * When `tegra_boardspec` formats the identifier: the fuse, the SoC and the
   * address are known, an EEPROM opens, it passes `eeprom_read`'s checks and
   * its part number is NVIDIA's.
   */
  lemma FormattedWhen(p: Platform)
    ensures BoardspecOutcome(p).Formatted? <==>
      Opens(p) && RecordValid(OpenedEeprom(p).value, Cvm) && OpenedEeprom(p).value[PartnumberOff] != CustomerMarker
  {
  }

  /** Which check fails decides the `errno`: ENODEV and ENOMSG each come from exactly one check. */
  lemma FailureCauses(p: Platform)
    ensures BoardspecOutcome(p) == Failed(ENODEV) <==> p.prodMode.Some? && (p.soc == InvalidSoc || !p.hasAddress)
    ensures BoardspecOutcome(p) == Failed(ENOMSG) <==>
      Opens(p) && RecordValid(OpenedEeprom(p).value, Cvm) && OpenedEeprom(p).value[PartnumberOff] == CustomerMarker
    ensures BoardspecOutcome(p) == Failed(EFAULT) <==> Opens(p) && !RecordValid(OpenedEeprom(p).value, Cvm)
  {
  }
}
