/**
 * The checksum engine of the identification EEPROM (eeprom.c, `crc_table`
 * and `calc_crc8`): an 8-bit table-driven CRC, started at 0 and folded as
 * `crc := table[crc xor b]` over the bytes in order.
 *
 * The table is proved equal, entry by entry, to the bitwise Dallas/Maxim
 * 1-Wire CRC-8 (reflected polynomial 0x8C, Maxim Application Note 27), so
 * the table-driven checksum equals the bitwise one on every input; from that
 * follow the error-detection facts the record validator relies on.
 */
module Checksum {
  import opened Libc

  /**
   * `crc_table[b]`: the 256 entries of the table, looked up by halving the
   * index range; the leaves, read top to bottom, are the table in index order.
   */
  function CrcTable(b: Byte): Byte
  {
    if b < 0x80 then
      if b < 0x40 then
        if b < 0x20 then
          if b < 0x10 then
            if b < 0x08 then
              if b < 0x04 then
                if b < 0x02 then (if b < 0x01 then 0x00 else 0x5e) else (if b < 0x03 then 0xbc else 0xe2)
              else
                if b < 0x06 then (if b < 0x05 then 0x61 else 0x3f) else (if b < 0x07 then 0xdd else 0x83)
            else
              if b < 0x0c then
                if b < 0x0a then (if b < 0x09 then 0xc2 else 0x9c) else (if b < 0x0b then 0x7e else 0x20)
              else
                if b < 0x0e then (if b < 0x0d then 0xa3 else 0xfd) else (if b < 0x0f then 0x1f else 0x41)
          else
            if b < 0x18 then
              if b < 0x14 then
                if b < 0x12 then (if b < 0x11 then 0x9d else 0xc3) else (if b < 0x13 then 0x21 else 0x7f)
              else
                if b < 0x16 then (if b < 0x15 then 0xfc else 0xa2) else (if b < 0x17 then 0x40 else 0x1e)
            else
              if b < 0x1c then
                if b < 0x1a then (if b < 0x19 then 0x5f else 0x01) else (if b < 0x1b then 0xe3 else 0xbd)
              else
                if b < 0x1e then (if b < 0x1d then 0x3e else 0x60) else (if b < 0x1f then 0x82 else 0xdc)
        else
          if b < 0x30 then
            if b < 0x28 then
              if b < 0x24 then
                if b < 0x22 then (if b < 0x21 then 0x23 else 0x7d) else (if b < 0x23 then 0x9f else 0xc1)
              else
                if b < 0x26 then (if b < 0x25 then 0x42 else 0x1c) else (if b < 0x27 then 0xfe else 0xa0)
            else
              if b < 0x2c then
                if b < 0x2a then (if b < 0x29 then 0xe1 else 0xbf) else (if b < 0x2b then 0x5d else 0x03)
              else
                if b < 0x2e then (if b < 0x2d then 0x80 else 0xde) else (if b < 0x2f then 0x3c else 0x62)
          else
            if b < 0x38 then
              if b < 0x34 then
                if b < 0x32 then (if b < 0x31 then 0xbe else 0xe0) else (if b < 0x33 then 0x02 else 0x5c)
              else
                if b < 0x36 then (if b < 0x35 then 0xdf else 0x81) else (if b < 0x37 then 0x63 else 0x3d)
            else
              if b < 0x3c then
                if b < 0x3a then (if b < 0x39 then 0x7c else 0x22) else (if b < 0x3b then 0xc0 else 0x9e)
              else
                if b < 0x3e then (if b < 0x3d then 0x1d else 0x43) else (if b < 0x3f then 0xa1 else 0xff)
      else
        if b < 0x60 then
          if b < 0x50 then
            if b < 0x48 then
              if b < 0x44 then
                if b < 0x42 then (if b < 0x41 then 0x46 else 0x18) else (if b < 0x43 then 0xfa else 0xa4)
              else
                if b < 0x46 then (if b < 0x45 then 0x27 else 0x79) else (if b < 0x47 then 0x9b else 0xc5)
            else
              if b < 0x4c then
                if b < 0x4a then (if b < 0x49 then 0x84 else 0xda) else (if b < 0x4b then 0x38 else 0x66)
              else
                if b < 0x4e then (if b < 0x4d then 0xe5 else 0xbb) else (if b < 0x4f then 0x59 else 0x07)
          else
            if b < 0x58 then
              if b < 0x54 then
                if b < 0x52 then (if b < 0x51 then 0xdb else 0x85) else (if b < 0x53 then 0x67 else 0x39)
              else
                if b < 0x56 then (if b < 0x55 then 0xba else 0xe4) else (if b < 0x57 then 0x06 else 0x58)
            else
              if b < 0x5c then
                if b < 0x5a then (if b < 0x59 then 0x19 else 0x47) else (if b < 0x5b then 0xa5 else 0xfb)
              else
                if b < 0x5e then (if b < 0x5d then 0x78 else 0x26) else (if b < 0x5f then 0xc4 else 0x9a)
        else
          if b < 0x70 then
            if b < 0x68 then
              if b < 0x64 then
                if b < 0x62 then (if b < 0x61 then 0x65 else 0x3b) else (if b < 0x63 then 0xd9 else 0x87)
              else
                if b < 0x66 then (if b < 0x65 then 0x04 else 0x5a) else (if b < 0x67 then 0xb8 else 0xe6)
            else
              if b < 0x6c then
                if b < 0x6a then (if b < 0x69 then 0xa7 else 0xf9) else (if b < 0x6b then 0x1b else 0x45)
              else
                if b < 0x6e then (if b < 0x6d then 0xc6 else 0x98) else (if b < 0x6f then 0x7a else 0x24)
          else
            if b < 0x78 then
              if b < 0x74 then
                if b < 0x72 then (if b < 0x71 then 0xf8 else 0xa6) else (if b < 0x73 then 0x44 else 0x1a)
              else
                if b < 0x76 then (if b < 0x75 then 0x99 else 0xc7) else (if b < 0x77 then 0x25 else 0x7b)
            else
              if b < 0x7c then
                if b < 0x7a then (if b < 0x79 then 0x3a else 0x64) else (if b < 0x7b then 0x86 else 0xd8)
              else
                if b < 0x7e then (if b < 0x7d then 0x5b else 0x05) else (if b < 0x7f then 0xe7 else 0xb9)
    else
      if b < 0xc0 then
        if b < 0xa0 then
          if b < 0x90 then
            if b < 0x88 then
              if b < 0x84 then
                if b < 0x82 then (if b < 0x81 then 0x8c else 0xd2) else (if b < 0x83 then 0x30 else 0x6e)
              else
                if b < 0x86 then (if b < 0x85 then 0xed else 0xb3) else (if b < 0x87 then 0x51 else 0x0f)
            else
              if b < 0x8c then
                if b < 0x8a then (if b < 0x89 then 0x4e else 0x10) else (if b < 0x8b then 0xf2 else 0xac)
              else
                if b < 0x8e then (if b < 0x8d then 0x2f else 0x71) else (if b < 0x8f then 0x93 else 0xcd)
          else
            if b < 0x98 then
              if b < 0x94 then
                if b < 0x92 then (if b < 0x91 then 0x11 else 0x4f) else (if b < 0x93 then 0xad else 0xf3)
              else
                if b < 0x96 then (if b < 0x95 then 0x70 else 0x2e) else (if b < 0x97 then 0xcc else 0x92)
            else
              if b < 0x9c then
                if b < 0x9a then (if b < 0x99 then 0xd3 else 0x8d) else (if b < 0x9b then 0x6f else 0x31)
              else
                if b < 0x9e then (if b < 0x9d then 0xb2 else 0xec) else (if b < 0x9f then 0x0e else 0x50)
        else
          if b < 0xb0 then
            if b < 0xa8 then
              if b < 0xa4 then
                if b < 0xa2 then (if b < 0xa1 then 0xaf else 0xf1) else (if b < 0xa3 then 0x13 else 0x4d)
              else
                if b < 0xa6 then (if b < 0xa5 then 0xce else 0x90) else (if b < 0xa7 then 0x72 else 0x2c)
            else
              if b < 0xac then
                if b < 0xaa then (if b < 0xa9 then 0x6d else 0x33) else (if b < 0xab then 0xd1 else 0x8f)
              else
                if b < 0xae then (if b < 0xad then 0x0c else 0x52) else (if b < 0xaf then 0xb0 else 0xee)
          else
            if b < 0xb8 then
              if b < 0xb4 then
                if b < 0xb2 then (if b < 0xb1 then 0x32 else 0x6c) else (if b < 0xb3 then 0x8e else 0xd0)
              else
                if b < 0xb6 then (if b < 0xb5 then 0x53 else 0x0d) else (if b < 0xb7 then 0xef else 0xb1)
            else
              if b < 0xbc then
                if b < 0xba then (if b < 0xb9 then 0xf0 else 0xae) else (if b < 0xbb then 0x4c else 0x12)
              else
                if b < 0xbe then (if b < 0xbd then 0x91 else 0xcf) else (if b < 0xbf then 0x2d else 0x73)
      else
        if b < 0xe0 then
          if b < 0xd0 then
            if b < 0xc8 then
              if b < 0xc4 then
                if b < 0xc2 then (if b < 0xc1 then 0xca else 0x94) else (if b < 0xc3 then 0x76 else 0x28)
              else
                if b < 0xc6 then (if b < 0xc5 then 0xab else 0xf5) else (if b < 0xc7 then 0x17 else 0x49)
            else
              if b < 0xcc then
                if b < 0xca then (if b < 0xc9 then 0x08 else 0x56) else (if b < 0xcb then 0xb4 else 0xea)
              else
                if b < 0xce then (if b < 0xcd then 0x69 else 0x37) else (if b < 0xcf then 0xd5 else 0x8b)
          else
            if b < 0xd8 then
              if b < 0xd4 then
                if b < 0xd2 then (if b < 0xd1 then 0x57 else 0x09) else (if b < 0xd3 then 0xeb else 0xb5)
              else
                if b < 0xd6 then (if b < 0xd5 then 0x36 else 0x68) else (if b < 0xd7 then 0x8a else 0xd4)
            else
              if b < 0xdc then
                if b < 0xda then (if b < 0xd9 then 0x95 else 0xcb) else (if b < 0xdb then 0x29 else 0x77)
              else
                if b < 0xde then (if b < 0xdd then 0xf4 else 0xaa) else (if b < 0xdf then 0x48 else 0x16)
        else
          if b < 0xf0 then
            if b < 0xe8 then
              if b < 0xe4 then
                if b < 0xe2 then (if b < 0xe1 then 0xe9 else 0xb7) else (if b < 0xe3 then 0x55 else 0x0b)
              else
                if b < 0xe6 then (if b < 0xe5 then 0x88 else 0xd6) else (if b < 0xe7 then 0x34 else 0x6a)
            else
              if b < 0xec then
                if b < 0xea then (if b < 0xe9 then 0x2b else 0x75) else (if b < 0xeb then 0x97 else 0xc9)
              else
                if b < 0xee then (if b < 0xed then 0x4a else 0x14) else (if b < 0xef then 0xf6 else 0xa8)
          else
            if b < 0xf8 then
              if b < 0xf4 then
                if b < 0xf2 then (if b < 0xf1 then 0x74 else 0x2a) else (if b < 0xf3 then 0xc8 else 0x96)
              else
                if b < 0xf6 then (if b < 0xf5 then 0x15 else 0x4b) else (if b < 0xf7 then 0xa9 else 0xf7)
            else
              if b < 0xfc then
                if b < 0xfa then (if b < 0xf9 then 0xb6 else 0xe8) else (if b < 0xfb then 0x0a else 0x54)
              else
                if b < 0xfe then (if b < 0xfd then 0xd7 else 0x89) else (if b < 0xff then 0x6b else 0x35)  }

  /** `crc` folded over `s` in order, one substitution `crc := table(crc xor b)` per byte. */
  function CrcFold(table: Byte -> Byte, crc: Byte, s: seq<Byte>): Byte
  {
    if s == [] then crc else table(CrcFold(table, crc, s[..|s| - 1]) ^ s[|s| - 1])
  }

  /** The checksum of `s`: the table-driven fold started at 0. */
  function Crc8(s: seq<Byte>): Byte
  {
    CrcFold(CrcTable, 0, s)
  }

  /**
   * `calc_crc8(buf, buflen)`: walks the first `buflen` bytes of `buf` with a
   * down-counter and a cursor, exactly as the C loop does.
   */
  method CalcCrc8(buf: array<Byte>, buflen: nat) returns (crc: Byte)
    requires buflen <= buf.Length
    ensures crc == Crc8(buf[..buflen])
  {
    crc := 0;
    var p := 0;
    var remaining := buflen;
    while remaining > 0
      invariant p + remaining == buflen
      invariant crc == Crc8(buf[..p])
    {
      assert buf[..p + 1][..p] == buf[..p];
      crc := CrcTable(crc ^ buf[p]);
      p := p + 1;
      remaining := remaining - 1;
    }
  }

  /* ---- The bitwise reference: Maxim Application Note 27 ---- */

  /** One shift of the reflected CRC-8 register with polynomial 0x8C. */
  function ShiftStep(c: Byte): Byte
  {
    if c & 1 == 1 then (c >> 1) ^ 0x8C else c >> 1
  }

  /** Eight shifts: the register after one byte has been xor-ed into it. */
  function MaximByte(x: Byte): Byte
  {
    ShiftStep(ShiftStep(ShiftStep(ShiftStep(ShiftStep(ShiftStep(ShiftStep(ShiftStep(x))))))))
  }

  /** The bitwise CRC-8 of `s`, register started at 0. */
  function MaximCrc(s: seq<Byte>): Byte
  {
    CrcFold(MaximByte, 0, s)
  }

  /** A substitution that loses nothing: distinct inputs give distinct outputs, and 0 is fixed. */
  ghost predicate Lossless(table: Byte -> Byte)
  {
    table(0) == 0 && forall x: Byte, y: Byte :: table(x) == table(y) ==> x == y
  }

  /** Every table entry is the bitwise register map of its index. */
  lemma TableIsMaxim(b: Byte)
    ensures CrcTable(b) == MaximByte(b)
  {
  }

  /** The register map is one-to-one (a bit-level fact about the eight shifts). */
  lemma MaximByteInjective(x: Byte, y: Byte)
    ensures MaximByte(x) == MaximByte(y) ==> x == y
  {
  }

  /** The bitwise register map loses nothing. */
  lemma MaximLossless()
    ensures Lossless(MaximByte)
  {
    forall x: Byte, y: Byte ensures MaximByte(x) == MaximByte(y) ==> x == y {
      MaximByteInjective(x, y);
    }
  }

  /** Hence `crc_table` loses nothing either. */
  lemma TableLossless()
    ensures Lossless(CrcTable)
  {
    MaximLossless();
    forall x: Byte, y: Byte ensures CrcTable(x) == CrcTable(y) ==> x == y {
      TableIsMaxim(x);
      TableIsMaxim(y);
    }
    TableIsMaxim(0);
  }

  /** Folds with pointwise-equal tables agree. */
  lemma {:induction false} FoldAgrees(t1: Byte -> Byte, t2: Byte -> Byte, crc: Byte, s: seq<Byte>)
    requires forall b :: t1(b) == t2(b)
    ensures CrcFold(t1, crc, s) == CrcFold(t2, crc, s)
  {
    if s != [] {
      FoldAgrees(t1, t2, crc, s[..|s| - 1]);
    }
  }

  /** The table-driven checksum equals the bitwise CRC-8 on every input. */
  lemma Crc8IsMaxim(s: seq<Byte>)
    ensures Crc8(s) == MaximCrc(s)
  {
    forall b ensures CrcTable(b) == MaximByte(b) {
      TableIsMaxim(b);
    }
    FoldAgrees(CrcTable, MaximByte, 0, s);
  }

  /** Folding over a concatenation folds over each part in turn. */
  lemma {:induction false} FoldAppend(table: Byte -> Byte, crc: Byte, p: seq<Byte>, q: seq<Byte>)
    ensures CrcFold(table, crc, p + q) == CrcFold(table, CrcFold(table, crc, p), q)
  {
    if q != [] {
      assert (p + q)[..|p + q| - 1] == p + q[..|q| - 1];
      FoldAppend(table, crc, p, q[..|q| - 1]);
    } else {
      assert p + q == p;
    }
  }

  /** With a lossless table, two different registers stay different whatever bytes follow. */
  lemma {:induction false} FoldInjective(table: Byte -> Byte, c1: Byte, c2: Byte, q: seq<Byte>)
    requires Lossless(table) && c1 != c2
    ensures CrcFold(table, c1, q) != CrcFold(table, c2, q)
  {
    if q != [] {
      FoldInjective(table, c1, c2, q[..|q| - 1]);
    }
  }

  /** With a lossless table, changing any single byte changes the fold. */
  lemma FoldDetectsByteChange(table: Byte -> Byte, s: seq<Byte>, i: nat, v: Byte)
    requires Lossless(table) && i < |s| && v != s[i]
    ensures CrcFold(table, 0, s[i := v]) != CrcFold(table, 0, s)
  {
    var t := s[i := v];
    var pre := s[..i];
    var post := s[i + 1..];
    assert s == (pre + [s[i]]) + post;
    assert t == (pre + [v]) + post;
    assert (pre + [s[i]])[..i] == pre;
    assert (pre + [v])[..i] == pre;
    FoldAppend(table, 0, pre + [s[i]], post);
    FoldAppend(table, 0, pre + [v], post);
    FoldInjective(table, CrcFold(table, 0, pre + [s[i]]), CrcFold(table, 0, pre + [v]), post);
  }

  /** With a lossless table, appending the fold to its data gives 0, and only that byte does. */
  lemma FoldResidue(table: Byte -> Byte, s: seq<Byte>, c: Byte)
    requires Lossless(table)
    ensures CrcFold(table, 0, s + [c]) == 0 <==> c == CrcFold(table, 0, s)
  {
    assert (s + [c])[..|s|] == s;
  }

  /**
   * The checksum detects every change of a single byte: altering any one byte
   * of the input always alters the checksum.
   */
  lemma Crc8DetectsByteChange(s: seq<Byte>, i: nat, v: Byte)
    requires i < |s| && v != s[i]
    ensures Crc8(s[i := v]) != Crc8(s)
  {
    TableLossless();
    FoldDetectsByteChange(CrcTable, s, i, v);
  }

  /**
   * Appending the checksum to its data gives a sequence whose checksum is 0,
   * and the checksum is the only byte with that property.
   */
  lemma Crc8Residue(s: seq<Byte>, c: Byte)
    ensures Crc8(s + [c]) == 0 <==> c == Crc8(s)
  {
    TableLossless();
    FoldResidue(CrcTable, s, c);
  }
}
