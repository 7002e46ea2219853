/**
 * The text form of a MAC address in tegra-eeprom-tool.c: `hexdigit`,
 * `parse_macaddr` (six two-digit hex pairs, each optionally followed by one
 * ':' or '-') and `format_macaddr` (six lower-case `%02x` pairs joined by
 * ':').
 */
module MacText {
  import opened Libc
  import opened Layout

  const Colon: Byte := 0x3a
  const Hyphen: Byte := 0x2d

  /* ---- hexdigit ---- */

  /** The lower-case hex digit of a value below 16, as `%x` prints it. */
  function HexChar(n: Byte): (c: Byte)
    requires n < 16
    ensures IsXDigit(c) && ToLower(c) == c
    ensures HexDigit(c) == n && c != 0
  {
    if n < 10 then 0x30 + n else 0x61 + (n - 10)
  }

  /**
   * `hexdigit`: 'a'..'f' give 10..15, anything else `c - '0'` truncated to a
   * byte; callers lower-case the character first.
   */
  function HexDigit(c: Byte): (v: Byte)
    ensures IsXDigit(c) && ToLower(c) == c ==> v < 16
  {
    if 0x61 <= c <= 0x66 then 10 + (c - 0x61) else c - 0x30
  }

  /** Every lower-case hex digit is the digit `%x` prints for its value. */
  lemma HexDigitInverse(c: Byte)
    requires IsXDigit(c) && ToLower(c) == c
    ensures HexChar(HexDigit(c)) == c
  {
  }

  /** The byte two hex digits spell: `(hexdigit(tolower(hi)) << 4) | hexdigit(tolower(lo))`. */
  function PairValue(hi: Byte, lo: Byte): Byte
  {
    (HexDigit(ToLower(hi)) << 4) | HexDigit(ToLower(lo))
  }

  /* ---- format_macaddr ---- */

  /** `%02x` of one byte. */
  function HexPair(b: Byte): (p: seq<Byte>)
    ensures |p| == 2 && IsXDigit(p[0]) && IsXDigit(p[1]) && p[0] != 0 && p[1] != 0
    ensures PairValue(p[0], p[1]) == b
  {
    [HexChar(b >> 4), HexChar(b & 0xf)]
  }

  /** The `%02x` pairs of the bytes of `a`, joined by ':'. */
  function Joined(a: seq<Byte>): (t: seq<Byte>)
    requires |a| > 0
    ensures |t| == 3 * |a| - 1 && NulFree(t)
  {
    if |a| == 1 then HexPair(a[0]) else HexPair(a[0]) + [Colon] + Joined(a[1..])
  }

  /** `"%02x:%02x:%02x:%02x:%02x:%02x"` of the six bytes: 17 characters. */
  function MacString(a: Mac): (t: seq<Byte>)
    ensures |t| == 17 && NulFree(t)
  {
    Joined(a)
  }

  /** The largest `size_t` on the 64-bit targets. */
  const SizeMax: nat := 0xFFFF_FFFF_FFFF_FFFF

  /** `bufsize - 1` computed in `size_t`: 0 wraps around to the largest value. */
  function SizeMinusOne(bufsize: nat): (n: nat)
    ensures bufsize > 0 ==> n + 1 == bufsize
    ensures bufsize == 0 ==> n == SizeMax
  {
    if bufsize == 0 then SizeMax else bufsize - 1
  }

  /**
   * What `format_macaddr(buf, bufsize, a)` leaves in memory, as written:
   * `snprintf` is given `bufsize - 1` bytes (in `size_t`), then `buf[n]` is
   * cleared with `n` the untruncated length 17. `buf` is the memory from the
   * buffer's start on; it reaches at least to byte 17, which the code always
   * writes, even when the buffer's own `bufsize` bytes end before it.
   */
  function FormattedAsWritten(buf: seq<Byte>, bufsize: nat, a: Mac): (r: seq<Byte>)
    requires bufsize <= |buf| && 18 <= |buf|
    ensures |r| == |buf|
  {
    Splice(Splice(buf, 0, Snprintf(MacString(a), SizeMinusOne(bufsize))), 17, [0])
  }

  /** `format_macaddr` as written (see `FormattedAsWritten`); returns `snprintf`'s 17. */
  method FormatMacaddrAsWritten(buf: array<Byte>, bufsize: nat, a: Mac) returns (n: int)
    requires bufsize <= buf.Length && 18 <= buf.Length
    modifies buf
    ensures n == 17
    ensures buf[..] == FormattedAsWritten(old(buf[..]), bufsize, a)
  {
    var text := MacString(a);
    Memcpy(buf, 0, Snprintf(text, SizeMinusOne(bufsize)));
    n := |text|;
    if n > 0 {
      ghost var before := buf[..];
      buf[n] := 0;
      assert buf[..] == Splice(before, 17, [0]);
    }
  }

  /** A buffer of 18 bytes, exactly enough for the text and its NUL, loses the last hex digit. */
  lemma AsWrittenTruncatesAt18(buf: seq<Byte>, a: Mac)
    requires 18 <= |buf|
    ensures CStr(FormattedAsWritten(buf, 18, a)) == MacString(a)[..16]
  {
    var r := FormattedAsWritten(buf, 18, a);
    assert r[16] == 0;
    assert r[..16] == MacString(a)[..16];
    CStrAt(r, 16);
  }

  /**
   * A buffer of 1 to 17 bytes: `buf[17]` lies past its end, and the code
   * clears it all the same, leaving every other byte beyond the buffer alone.
   */
  lemma AsWrittenOverruns(buf: seq<Byte>, bufsize: nat, a: Mac)
    requires 1 <= bufsize < 18 <= |buf|
    ensures FormattedAsWritten(buf, bufsize, a)[bufsize..] == buf[bufsize..][17 - bufsize := 0]
  {
    var w := Snprintf(MacString(a), bufsize - 1);
    var r := FormattedAsWritten(buf, bufsize, a);
    var t := buf[bufsize..][17 - bufsize := 0];
    assert |w| <= bufsize;
    forall i | 0 <= i < |t|
      ensures r[bufsize..][i] == t[i]
    {
      SpliceOut(buf, 0, w, bufsize + i);
      if i == 17 - bufsize {
        SpliceIn(Splice(buf, 0, w), 17, [0], 17);
      } else {
        SpliceOut(Splice(buf, 0, w), 17, [0], bufsize + i);
      }
    }
  }

  /**
   * A zero-byte buffer: `bufsize - 1` wraps around, so `snprintf` is not
   * limited and stores the whole text and its NUL, 18 bytes past the end.
   */
  lemma AsWrittenUnboundedAtZero(buf: seq<Byte>, a: Mac)
    requires 18 <= |buf|
    ensures FormattedAsWritten(buf, 0, a)[..18] == MacString(a) + [0]
  {
    var w := Snprintf(MacString(a), SizeMinusOne(0));
    assert w == MacString(a) + [0];
    var r := FormattedAsWritten(buf, 0, a);
    assert Splice(buf, 0, w)[..18] == w;
    assert r[..18] == Splice(buf, 0, w)[..18][17 := 0];
  }

  /** The corrected `format_macaddr`: `snprintf` given the whole buffer. */
  function Formatted(buf: seq<Byte>, bufsize: nat, a: Mac): (r: seq<Byte>)
    requires 1 <= bufsize <= |buf|
    ensures |r| == |buf|
  {
    Splice(buf, 0, Snprintf(MacString(a), bufsize))
  }

  /** `format_macaddr` with `snprintf(buf, bufsize, ...)`; returns the text length 17. */
  method FormatMacaddr(buf: array<Byte>, bufsize: nat, a: Mac) returns (n: int)
    requires 1 <= bufsize <= buf.Length
    modifies buf
    ensures n == 17
    ensures buf[..] == Formatted(old(buf[..]), bufsize, a)
  {
    var text := MacString(a);
    Memcpy(buf, 0, Snprintf(text, bufsize));
    n := |text|;
  }

  /** With room for the text and its NUL, the corrected formatter stores the whole text. */
  lemma FormattedWhole(buf: seq<Byte>, bufsize: nat, a: Mac)
    requires 18 <= bufsize <= |buf|
    ensures CStr(Formatted(buf, bufsize, a)) == MacString(a)
  {
    var r := Formatted(buf, bufsize, a);
    assert r[..17] == MacString(a);
    CStrAt(r, 17);
  }

  /** From 19 bytes up (the tool's buffers have 128) the two formatters store the same bytes. */
  lemma FormattersAgree(buf: seq<Byte>, bufsize: nat, a: Mac)
    requires 19 <= bufsize <= |buf|
    ensures FormattedAsWritten(buf, bufsize, a) == Formatted(buf, bufsize, a)
  {
  }

  /* ---- parse_macaddr ---- */

  /** A separator `parse_macaddr` skips after a pair. */
  predicate IsSeparator(c: Byte)
  {
    c == Colon || c == Hyphen
  }

  /**
   * The bytes spelled by `s` when it is exactly `k` hex pairs, each
   * optionally followed by one separator; `None` otherwise.
   */
  function Pairs(s: seq<Byte>, k: nat): (r: Option<seq<Byte>>)
    ensures r.Some? ==> |r.value| == k
  {
    if k == 0 then (if s == [] then Some([]) else None)
    else if |s| < 2 || !IsXDigit(s[0]) || !IsXDigit(s[1]) then None
    else
      match Pairs(AfterPair(s), k - 1)
      case None => None
      case Some(t) => Some([PairValue(s[0], s[1])] + t)
  }

  /** The MAC address `parse_macaddr` accepts in `s`, if any. */
  function ParsedMac(s: seq<Byte>): (m: Option<Mac>)
    ensures m.Some? <==> Pairs(s, 6).Some?
    ensures m.Some? ==> m.value == Pairs(s, 6).value
  {
    match Pairs(s, 6)
    case None => None
    case Some(t) => var m: Mac := t; Some(m)
  }

  /** What is left of `s` after its first pair and the separator after it, if any. */
  function AfterPair(s: seq<Byte>): seq<Byte>
    requires |s| >= 2
  {
    if |s| > 2 && IsSeparator(s[2]) then s[3..] else s[2..]
  }

  /** `p` in front of the bytes of `o`, if any. */
  function Prepend(p: seq<Byte>, o: Option<seq<Byte>>): Option<seq<Byte>>
  {
    match o
    case None => None
    case Some(t) => Some(p + t)
  }

  /** Consuming one pair: what the rest spells goes after the pair's byte. */
  lemma PairsStep(s: seq<Byte>, k: nat, p: seq<Byte>)
    requires k > 0 && |s| >= 2 && IsXDigit(s[0]) && IsXDigit(s[1])
    ensures Prepend(p, Pairs(s, k)) == Prepend(p + [PairValue(s[0], s[1])], Pairs(AfterPair(s), k - 1))
  {
    match Pairs(AfterPair(s), k - 1)
    case None =>
    case Some(t) =>
      assert p + ([PairValue(s[0], s[1])] + t) == p + [PairValue(s[0], s[1])] + t;
  }

  /** The loop step of `parse_macaddr`, from cursor `start` to cursor `next`. */
  lemma CursorStep(buf: seq<Byte>, start: nat, next: nat, k: nat, parsed: seq<Byte>)
    requires NulFree(buf) && k > 0 && start + 2 <= |buf| && IsXDigit(buf[start]) && IsXDigit(buf[start + 1])
    requires next == if IsSeparator(At(buf, start + 2)) then start + 3 else start + 2
    ensures next <= |buf|
    ensures Prepend(parsed, Pairs(buf[start..], k))
         == Prepend(parsed + [PairValue(buf[start], buf[start + 1])], Pairs(buf[next..], k - 1))
  {
    var rest := buf[start..];
    PairsStep(rest, k, parsed);
    assert buf[next..] == AfterPair(rest);
  }

  /**
   * `parse_macaddr(a, buf)`: 0 with the six bytes in `a` exactly when `buf`
   * is six hex pairs with optional separators and nothing after; -1
   * otherwise (with `a` partly written).
   */
  method ParseMacaddr(a: array<Byte>, buf: seq<Byte>) returns (rc: int)
    requires a.Length == 6 && NulFree(buf)
    modifies a
    ensures rc == 0 || rc == -1
    ensures rc == 0 <==> ParsedMac(buf).Some?
    ensures rc == 0 ==> a[..] == ParsedMac(buf).value
  {
    var count, cp := ScanPairs(a, buf);
    ParseEnd(buf[cp..], 6 - count);
    rc := if count == 6 && At(buf, cp) == 0 then 0 else -1;
  }

  /**
   * The loop of `parse_macaddr`: up to six pairs are stored in `a`; it stops
   * at the end of the text, after the sixth pair, or before anything that is
   * not two hex digits.
   */
  method ScanPairs(a: array<Byte>, buf: seq<Byte>) returns (count: nat, cp: nat)
    requires a.Length == 6 && NulFree(buf)
    modifies a
    ensures count <= 6 && cp <= |buf|
    ensures Pairs(buf, 6) == Prepend(a[..count], Pairs(buf[cp..], 6 - count))
    ensures count == 6 || cp == |buf| || !IsXDigit(At(buf, cp)) || !IsXDigit(At(buf, cp + 1))
  {
    cp := 0;
    count := 0;
    ghost var whole := Pairs(buf, 6);
    assert buf[cp..] == buf;
    assert whole == Prepend([], whole) by {
      if whole.Some? { assert [] + whole.value == whole.value; }
    }
    while At(buf, cp) != 0 && count < 6
      invariant 0 <= count <= 6 && cp <= |buf|
      invariant whole == Prepend(a[..count], Pairs(buf[cp..], 6 - count))
      decreases |buf| - cp
    {
      if !IsXDigit(At(buf, cp)) || !IsXDigit(At(buf, cp + 1)) {
        break;
      }
      ghost var start := cp;
      ghost var parsed := a[..count];
      a[count] := PairValue(buf[cp], buf[cp + 1]);
      assert a[..count + 1] == parsed + [PairValue(buf[cp], buf[cp + 1])];
      count := count + 1;
      cp := cp + 2;
      if At(buf, cp) == Colon || At(buf, cp) == Hyphen {
        cp := cp + 1;
      }
      CursorStep(buf, start, cp, 6 - count + 1, parsed);
    }
  }

  /**
   * Where `parse_macaddr`'s loop stops: with pairs still wanted, text that is
   * empty or does not start with two hex digits spells nothing; with none
   * wanted, only the empty text is accepted.
   */
  lemma ParseEnd(s: seq<Byte>, k: nat)
    ensures k == 0 ==> (Pairs(s, k).Some? <==> s == [])
    ensures k > 0 && (s == [] || !IsXDigit(At(s, 0)) || !IsXDigit(At(s, 1))) ==> Pairs(s, k) == None
  {
  }

  /** The joined pairs of `a` spell `a`. */
  lemma {:induction false} JoinedParses(a: seq<Byte>)
    requires |a| > 0
    ensures Pairs(Joined(a), |a|) == Some(a)
    decreases |a|
  {
    var t := Joined(a);
    var p := HexPair(a[0]);
    if |a| == 1 {
      assert AfterPair(t) == [];
      assert [PairValue(t[0], t[1])] + [] == a;
    } else {
      assert t == p + [Colon] + Joined(a[1..]);
      assert AfterPair(t) == Joined(a[1..]);
      JoinedParses(a[1..]);
      assert [a[0]] + a[1..] == a;
    }
  }

  /** The separators `parse_macaddr` allows after a pair: none, ':' or '-'. */
  predicate SeparatorChoice(sep: seq<Byte>)
  {
    sep == [] || sep == [Colon] || sep == [Hyphen]
  }

  /** The `%02x` pairs of `a`, pair `i` followed by `seps[i]`. */
  function Spelled(a: seq<Byte>, seps: seq<seq<Byte>>): seq<Byte>
    requires |seps| == |a|
  {
    if a == [] then [] else HexPair(a[0]) + seps[0] + Spelled(a[1..], seps[1..])
  }

  /**
   * `parse_macaddr` accepts any number of pairs with any mix of separators,
   * a trailing one included, and reads back the bytes they spell.
   */
  lemma {:induction false} SpelledParses(a: seq<Byte>, seps: seq<seq<Byte>>)
    requires |seps| == |a| && forall i :: 0 <= i < |seps| ==> SeparatorChoice(seps[i])
    ensures Pairs(Spelled(a, seps), |a|) == Some(a)
    decreases |a|
  {
    if a != [] {
      var rest := Spelled(a[1..], seps[1..]);
      assert SeparatorChoice(seps[0]);
      if rest != [] {
        assert rest[0] == HexPair(a[1])[0];
      }
      PairThenRest(a[0], seps[0], rest);
      SpelledParses(a[1..], seps[1..]);
      assert [a[0]] + a[1..] == a;
    }
  }

  /** After a pair and its separator, `parse_macaddr` goes on at what follows, when that does not start with a separator. */
  lemma PairThenRest(b: Byte, sep: seq<Byte>, rest: seq<Byte>)
    requires SeparatorChoice(sep) && (rest != [] ==> !IsSeparator(rest[0]))
    ensures AfterPair(HexPair(b) + sep + rest) == rest
  {
    var s := HexPair(b) + sep + rest;
    if sep == [] {
      if rest != [] {
        assert s[2] == rest[0];
      }
      assert s[2..] == rest;
    } else {
      assert s[2] == sep[0];
      assert s[3..] == rest;
    }
  }

  /** What `format_macaddr` prints, `parse_macaddr` reads back as the same address. */
  lemma ParseFormatRoundTrip(a: Mac)
    ensures ParsedMac(MacString(a)) == Some(a)
  {
    JoinedParses(a);
  }
}
