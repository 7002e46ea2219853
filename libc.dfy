/**
 * The small part of the C library the EEPROM code relies on, stated over
 * byte sequences: C strings, `strncpy`, `strlen`, case-insensitive
 * comparison, character classes, and `memset`/`memcpy`/`strncpy` into a
 * byte array.
 *
 * A `char` is taken to be unsigned (0..255), as on the aarch64 target the
 * tool runs on; see README.md for the places where that matters.
 */
module Libc {

  /** One byte of memory. */
  type Byte = bv8

  /** The `errno` values the EEPROM code sets; `EIO` stands for whatever a failed system call left there. */
  datatype Errno = EFAULT | EROFS | ENODEV | ENOMSG | EIO

  /** A value that may be absent. */
  datatype Option<T> = None | Some(value: T)

  /** A C status return: 0, or -1 with `errno` set. */
  datatype Status = Ok | Fail(errno: Errno)

  /** `n` zero bytes. */
  function Zeros(n: nat): (z: seq<Byte>)
    ensures |z| == n
    ensures forall i :: 0 <= i < n ==> z[i] == 0
  {
    seq(n, _ => 0)
  }

  /** `n` copies of byte `c`. */
  function Repeat(c: Byte, n: nat): (z: seq<Byte>)
    ensures |z| == n
    ensures forall i :: 0 <= i < n ==> z[i] == c
  {
    seq(n, _ => c)
  }

  /** ASCII text as bytes (each character truncated to 8 bits, as a C cast does). */
  function Ascii(s: string): (b: seq<Byte>)
    ensures |b| == |s|
  {
    seq(|s|, i requires 0 <= i < |s| => (s[i] as int % 256) as Byte)
  }

  /** Text made of printable ASCII characters only, as the string literals of the tool are. */
  predicate PrintableAscii(s: string)
  {
    forall i :: 0 <= i < |s| ==> ' ' <= s[i] <= '~'
  }

  /** A C string: a byte sequence with no NUL in it (the terminator is implicit). */
  predicate NulFree(s: seq<Byte>)
  {
    forall i :: 0 <= i < |s| ==> s[i] != 0
  }

  /** Two C strings put together make a C string. */
  lemma NulFreeConcat(a: seq<Byte>, b: seq<Byte>)
    requires NulFree(a) && NulFree(b)
    ensures NulFree(a + b)
  {
    forall i | 0 <= i < |a + b| ensures (a + b)[i] != 0 {
      if i >= |a| { assert (a + b)[i] == b[i - |a|]; }
    }
  }

  /** A printable literal is a C string once converted to bytes. */
  lemma AsciiNulFree(s: string)
    requires PrintableAscii(s)
    ensures NulFree(Ascii(s))
  {
    forall i | 0 <= i < |s| ensures Ascii(s)[i] != 0 {
      var c := s[i] as int;
      assert 32 <= c <= 126;
      assert Ascii(s)[i] == (c % 256) as Byte;
    }
  }

  /** The byte at index `i` of a C string; reading at or past its end yields the terminator. */
  function At(s: seq<Byte>, i: nat): Byte
  {
    if i < |s| then s[i] else 0
  }

  /**
   * `strnlen(s, |s|)`: the index of the first NUL in `s`, or `|s|` if there is none.
   */
  function StrLen(s: seq<Byte>): (k: nat)
    ensures k <= |s|
    ensures forall i :: 0 <= i < k ==> s[i] != 0
    ensures k < |s| ==> s[k] == 0
  {
    if s == [] || s[0] == 0 then 0 else 1 + StrLen(s[1..])
  }

  /** The C string held in a buffer: the bytes before the first NUL. */
  function CStr(s: seq<Byte>): (t: seq<Byte>)
    ensures NulFree(t) && |t| <= |s|
    ensures t == s[..|t|]
    ensures |t| < |s| ==> s[|t|] == 0
  {
    s[..StrLen(s)]
  }

  /** A C string is its own contents. */
  lemma CStrWhole(s: seq<Byte>)
    requires NulFree(s)
    ensures CStr(s) == s
  {
  }

  /** A buffer holding `p`, a terminator and anything after holds the C string of `p`. */
  lemma {:induction false} CStrTerminated(p: seq<Byte>, rest: seq<Byte>)
    ensures CStr(p + [0] + rest) == CStr(p)
    decreases |p|
  {
    if p != [] && p[0] != 0 {
      assert (p + [0] + rest)[1..] == p[1..] + [0] + rest;
      CStrTerminated(p[1..], rest);
    }
  }

  /** The C string of a buffer whose first `k` bytes are NUL-free and whose byte `k` is NUL. */
  lemma CStrAt(s: seq<Byte>, k: nat)
    requires k < |s| && s[k] == 0 && NulFree(s[..k])
    ensures CStr(s) == s[..k]
  {
    var t := CStr(s);
    forall i | 0 <= i < k ensures s[i] != 0 {
      assert s[..k][i] == s[i];
    }
  }

  /**
   * What `strncpy(dst, src, n)` leaves in `dst[0..n)`: the bytes of `src` up to
   * (not including) its first NUL, at most `n` of them, then zeros up to `n`.
   */
  function StrNCpy(src: seq<Byte>, n: nat): (r: seq<Byte>)
    requires n <= |src|
    ensures |r| == n
    ensures r == CStr(src[..n]) + Zeros(n - |CStr(src[..n])|)
  {
    var k := StrLen(src[..n]);
    src[..k] + Zeros(n - k)
  }

  /** `s` with `piece` written over it starting at offset `off`. */
  function Splice(s: seq<Byte>, off: nat, piece: seq<Byte>): (r: seq<Byte>)
    requires off + |piece| <= |s|
    ensures |r| == |s|
  {
    s[..off] + piece + s[off + |piece|..]
  }

  /** A byte inside the piece is the piece's. */
  lemma SpliceIn(s: seq<Byte>, off: nat, piece: seq<Byte>, i: nat)
    requires off <= i < off + |piece| <= |s|
    ensures Splice(s, off, piece)[i] == piece[i - off]
  {
  }

  /** A byte clear of the piece is kept. */
  lemma SpliceOut(s: seq<Byte>, off: nat, piece: seq<Byte>, i: nat)
    requires off + |piece| <= |s| && i < |s| && !(off <= i < off + |piece|)
    ensures Splice(s, off, piece)[i] == s[i]
  {
  }

  /** Writing `p` and then `q` right after it is writing `p + q`. */
  lemma SpliceConcat(s: seq<Byte>, off: nat, p: seq<Byte>, q: seq<Byte>)
    requires off + |p| + |q| <= |s|
    ensures Splice(Splice(s, off, p), off + |p|, q) == Splice(s, off, p + q)
  {
    var l := Splice(Splice(s, off, p), off + |p|, q);
    var r := Splice(s, off, p + q);
    forall i | 0 <= i < |s| ensures l[i] == r[i] {
      if off <= i < off + |p| { assert (p + q)[i - off] == p[i - off]; }
      else if off + |p| <= i < off + |p| + |q| { assert (p + q)[i - off] == q[i - off - |p|]; }
    }
  }

  /** After a splice, the spliced range holds the piece. */
  lemma SpliceSlice(s: seq<Byte>, off: nat, piece: seq<Byte>)
    requires off + |piece| <= |s|
    ensures Splice(s, off, piece)[off..off + |piece|] == piece
  {
  }

  /** After a splice, a range clear of the piece holds what it held before. */
  lemma SpliceKeepsSlice(s: seq<Byte>, off: nat, piece: seq<Byte>, lo: nat, hi: nat)
    requires off + |piece| <= |s| && lo <= hi <= |s|
    requires hi <= off || off + |piece| <= lo
    ensures Splice(s, off, piece)[lo..hi] == s[lo..hi]
  {
  }

  /** Writing over the whole of `s` leaves just the piece. */
  lemma SpliceWhole(s: seq<Byte>, piece: seq<Byte>)
    requires |piece| == |s|
    ensures Splice(s, 0, piece) == piece
  {
  }

  /** Writing nothing changes nothing. */
  lemma SpliceNothing(s: seq<Byte>, off: nat)
    requires off <= |s|
    ensures Splice(s, off, []) == s
  {
    assert s[..off] + s[off..] == s;
  }

  /**
   * What `snprintf(buf, size, ...)` stores when the formatted text is `text`:
   * at most `size - 1` bytes of it and a terminating NUL, nothing when `size` is 0.
   * (The call itself returns `|text|` whatever it stores.)
   */
  function Snprintf(text: seq<Byte>, size: nat): (w: seq<Byte>)
    ensures size == 0 ==> w == []
    ensures size > 0 ==> |w| == if |text| < size then |text| + 1 else size
    ensures size > 0 ==> w[|w| - 1] == 0 && w[..|w| - 1] == text[..|w| - 1]
  {
    if size == 0 then [] else if |text| < size then text + [0] else text[..size - 1] + [0]
  }

  /** `tolower` in the C locale. */
  function ToLower(c: Byte): Byte
  {
    if 0x41 <= c <= 0x5A then c + 0x20 else c
  }

  /** `isxdigit`: '0'..'9', 'a'..'f', 'A'..'F'. */
  predicate IsXDigit(c: Byte)
  {
    (0x30 <= c <= 0x39) || (0x61 <= c <= 0x66) || (0x41 <= c <= 0x46)
  }

  /** `isprint` in the C locale: space through '~'. */
  predicate IsPrint(c: Byte)
  {
    0x20 <= c <= 0x7E
  }

  /** `strncasecmp(a, b, n) == 0` for two C strings. */
  predicate StrNCaseEq(a: seq<Byte>, b: seq<Byte>, n: nat)
  {
    forall i :: 0 <= i < n ==> ToLower(At(a, i)) == ToLower(At(b, i))
  }

  /** `strcasecmp(a, b) == 0` for two C strings: equal up to and including the terminator. */
  predicate StrCaseEq(a: seq<Byte>, b: seq<Byte>)
  {
    StrNCaseEq(a, b, if |a| < |b| then |b| + 1 else |a| + 1)
  }

  /**
   * For C strings, `strcasecmp` equality is equal length and equal bytes once
   * folded to lower case.
   */
  lemma StrCaseEqIff(a: seq<Byte>, b: seq<Byte>)
    requires NulFree(a) && NulFree(b)
    ensures StrCaseEq(a, b) <==> |a| == |b| && forall i :: 0 <= i < |a| ==> ToLower(a[i]) == ToLower(b[i])
  {
    var n := if |a| < |b| then |b| + 1 else |a| + 1;
    if StrCaseEq(a, b) {
      var m := if |a| < |b| then |a| else |b|;
      assert ToLower(At(a, m)) == ToLower(At(b, m));
      forall i | 0 <= i < |a| ensures ToLower(a[i]) == ToLower(b[i]) {
        assert ToLower(At(a, i)) == ToLower(At(b, i));
      }
    }
    if |a| == |b| && (forall i :: 0 <= i < |a| ==> ToLower(a[i]) == ToLower(b[i])) {
      forall i | 0 <= i < n ensures ToLower(At(a, i)) == ToLower(At(b, i)) {
        if i < |a| { assert At(a, i) == a[i] && At(b, i) == b[i]; }
      }
    }
  }

  /**
   * `strncasecmp(a, b, strlen(a)) == 0` holds for C strings exactly when `a`
   * is a case-insensitive prefix of `b` (the empty string included).
   */
  lemma StrNCaseEqPrefix(a: seq<Byte>, b: seq<Byte>)
    requires NulFree(a) && NulFree(b)
    ensures StrNCaseEq(a, b, |a|) <==> |a| <= |b| && forall i :: 0 <= i < |a| ==> ToLower(a[i]) == ToLower(b[i])
  {
    if StrNCaseEq(a, b, |a|) {
      if 0 < |a| {
        var m := if |b| < |a| then |b| else |a| - 1;
        assert ToLower(At(a, m)) == ToLower(At(b, m));
      }
      forall i | 0 <= i < |a| ensures ToLower(a[i]) == ToLower(b[i]) {
        assert ToLower(At(a, i)) == ToLower(At(b, i));
      }
    }
    if |a| <= |b| && (forall i :: 0 <= i < |a| ==> ToLower(a[i]) == ToLower(b[i])) {
      forall i | 0 <= i < |a| ensures ToLower(At(a, i)) == ToLower(At(b, i)) {
        assert At(a, i) == a[i] && At(b, i) == b[i];
      }
    }
  }

  /** `memset(a + off, c, n)`. */
  method Memset(a: array<Byte>, off: nat, c: Byte, n: nat)
    requires off + n <= a.Length
    modifies a
    ensures a[..] == Splice(old(a[..]), off, Repeat(c, n))
  {
    var i := 0;
    while i < n
      invariant 0 <= i <= n
      invariant forall k :: 0 <= k < a.Length ==> a[k] == if off <= k < off + i then c else old(a[k])
    {
      a[off + i] := c;
      i := i + 1;
    }
  }

  /** `memcpy(a + off, src, |src|)`. */
  method Memcpy(a: array<Byte>, off: nat, src: seq<Byte>)
    requires off + |src| <= a.Length
    modifies a
    ensures a[..] == Splice(old(a[..]), off, src)
  {
    var i := 0;
    while i < |src|
      invariant 0 <= i <= |src|
      invariant forall k :: 0 <= k < a.Length ==> a[k] == if off <= k < off + i then src[k - off] else old(a[k])
    {
      a[off + i] := src[i];
      i := i + 1;
    }
  }

  /**
   * `strncpy(a + off, src, n)`: copy bytes of `src` until its first NUL or
   * `n` bytes, then fill the rest of the `n` bytes with zeros.
   */
  method Strncpy(a: array<Byte>, off: nat, src: seq<Byte>, n: nat)
    requires n <= |src| && off + n <= a.Length
    modifies a
    ensures a[..] == Splice(old(a[..]), off, StrNCpy(src, n))
  {
    ghost var k := StrLen(src[..n]);
    ghost var before := a[..];
    var i := 0;
    while i < n && src[i] != 0
      invariant 0 <= i <= k
      invariant forall j :: 0 <= j < a.Length ==> a[j] == if off <= j < off + i then src[j - off] else old(a[j])
    {
      a[off + i] := src[i];
      i := i + 1;
    }
    while i < n
      invariant k <= i <= n
      invariant forall j :: 0 <= j < a.Length ==>
        a[j] == if off <= j < off + k then src[j - off] else if off + k <= j < off + i then 0 else old(a[j])
    {
      a[off + i] := 0;
      i := i + 1;
    }
    assert a[..] == Splice(before, off, StrNCpy(src, n)) by {
      var r := StrNCpy(src, n);
      forall j | 0 <= j < a.Length ensures a[j] == Splice(before, off, r)[j] {
        if off <= j < off + n {
          SpliceIn(before, off, r, j);
          if j < off + k { assert r[j - off] == src[..k][j - off]; } else { assert r[j - off] == Zeros(n - k)[j - off - k]; }
        } else {
          SpliceOut(before, off, r, j);
        }
      }
    }
  }
}
