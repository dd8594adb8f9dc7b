/**
 * NUL-terminated strings held in fixed-size `char` buffers, as the loopback
 * discovery uses them: `strlen`, `strncpy`, `strncat`, `strcpy`, `strncmp`,
 * `atoi`, and `read` filling the front of a buffer.
 *
 * A source string is the text of a C string: it holds no NUL.
 *
 * Each buffer operation is given twice: a function on the whole buffer value
 * (what the buffer holds afterwards) and a method that updates an `array<char>`
 * in place and is proved to leave exactly that value.
 */
module CStrings {

  const NUL: char := '\0'

  function Min(a: nat, b: nat): nat { if a <= b then a else b }

  predicate NoNul(s: seq<char>) {
    forall i :: 0 <= i < |s| ==> s[i] != NUL
  }

  /** `n` NUL characters (the padding `strncpy` writes). */
  function Nuls(n: nat): (r: seq<char>)
    ensures |r| == n && forall i :: 0 <= i < n ==> r[i] == NUL
  {
    if n == 0 then [] else Nuls(n - 1) + [NUL]
  }

  /** strlen: the index of the first NUL (the whole buffer when there is none). */
  function StrLen(b: seq<char>): (n: nat)
    ensures n <= |b|
    ensures forall i :: 0 <= i < n ==> b[i] != NUL
    ensures n < |b| ==> b[n] == NUL
  {
    if b == [] || b[0] == NUL then 0 else 1 + StrLen(b[1..])
  }

  /** The C string a buffer holds: everything before its first NUL. */
  function CStr(b: seq<char>): (s: seq<char>)
    ensures NoNul(s) && s <= b
    ensures |s| < |b| ==> b[|s|] == NUL
  {
    b[..StrLen(b)]
  }

  /** A buffer that holds `s` followed by a NUL holds the C string `s`. */
  lemma CStrOf(b: seq<char>, s: seq<char>)
    requires NoNul(s) && |s| < |b| && b[..|s|] == s && b[|s|] == NUL
    ensures StrLen(b) == |s| && CStr(b) == s
  {
  }

  // ---------------------------------------------------------------------------
  // Buffer values after each library call

  /** strncpy(b, s, n): the first n characters of s, NUL padding up to n, the rest untouched. */
  function StrNCpyInto(b: seq<char>, s: seq<char>, n: nat): (r: seq<char>)
    requires NoNul(s) && n <= |b|
    ensures |r| == |b|
  {
    var k := Min(|s|, n);
    s[..k] + Nuls(n - k) + b[n..]
  }

  /** strncat(b, s, n): at most n characters of s after the string b holds, then a NUL. */
  function StrNCatInto(b: seq<char>, s: seq<char>, n: nat): (r: seq<char>)
    requires NoNul(s) && CatEnd(StrLen(b), |s|, n) < |b|
    ensures |r| == |b|
  {
    var l := StrLen(b);
    var k := Min(|s|, n);
    b[..l] + s[..k] + [NUL] + b[l + k + 1..]
  }

  /** strcpy(b, s): s and its NUL at the front, the rest untouched. */
  function StrCpyInto(b: seq<char>, s: seq<char>): (r: seq<char>)
    requires NoNul(s) && |s| < |b|
    ensures |r| == |b|
  {
    s + [NUL] + b[|s| + 1..]
  }

  /** read(fd, b, count) that returned the bytes d: d at the front, the rest untouched. */
  function ReadInto(b: seq<char>, d: seq<char>): (r: seq<char>)
    requires |d| <= |b|
    ensures |r| == |b|
  {
    d + b[|d|..]
  }

  lemma {:induction false} CStrAfterNCpy(b: seq<char>, s: seq<char>, n: nat)
    requires NoNul(s) && |s| < n <= |b|
    ensures CStr(StrNCpyInto(b, s, n)) == s
  {
    var r := StrNCpyInto(b, s, n);
    assert r[..|s|] == s;
    assert r[|s|] == Nuls(n - |s|)[0];
    CStrOf(r, s);
  }

  lemma {:induction false} CStrAfterNCat(b: seq<char>, s: seq<char>, n: nat)
    requires NoNul(s) && CatEnd(StrLen(b), |s|, n) < |b|
    ensures CStr(StrNCatInto(b, s, n)) == CStr(b) + s[..Min(|s|, n)]
  {
    var r := StrNCatInto(b, s, n);
    var t := CStr(b) + s[..Min(|s|, n)];
    assert r[..|t|] == t;
    assert r[|t|] == NUL;
    CStrOf(r, t);
  }

  lemma {:induction false} CStrAfterCpy(b: seq<char>, s: seq<char>)
    requires NoNul(s) && |s| < |b|
    ensures CStr(StrCpyInto(b, s)) == s
  {
    var r := StrCpyInto(b, s);
    assert r[..|s|] == s;
    CStrOf(r, s);
  }

  // ---------------------------------------------------------------------------
  // The same calls on a buffer updated in place

  method StrNCpy(buf: array<char>, s: seq<char>, n: nat)
    requires NoNul(s) && n <= buf.Length
    modifies buf
    ensures buf[..] == StrNCpyInto(old(buf[..]), s, n)
    ensures |s| < n ==> CStr(buf[..]) == s
  {
    ghost var before := buf[..];
    forall i | 0 <= i < n {
      buf[i] := if i < |s| then s[i] else NUL;
    }
    assert buf[..] == StrNCpyInto(before, s, n);
    if |s| < n {
      CStrAfterNCpy(before, s, n);
    }
  }

  method StrNCat(buf: array<char>, s: seq<char>, n: nat)
    requires NoNul(s) && CatEnd(StrLen(buf[..]), |s|, n) < buf.Length
    modifies buf
    ensures buf[..] == StrNCatInto(old(buf[..]), s, n)
    ensures CStr(buf[..]) == old(CStr(buf[..])) + s[..Min(|s|, n)]
  {
    ghost var before := buf[..];
    var l := StrLen(buf[..]);
    var k := Min(|s|, n);
    forall i | l <= i <= l + k {
      buf[i] := if i < l + k then s[i - l] else NUL;
    }
    assert buf[..] == StrNCatInto(before, s, n);
    CStrAfterNCat(before, s, n);
  }

  method StrCpy(buf: array<char>, s: seq<char>)
    requires NoNul(s) && |s| < buf.Length
    modifies buf
    ensures buf[..] == StrCpyInto(old(buf[..]), s)
    ensures CStr(buf[..]) == s
  {
    ghost var before := buf[..];
    forall i | 0 <= i <= |s| {
      buf[i] := if i < |s| then s[i] else NUL;
    }
    assert buf[..] == StrCpyInto(before, s);
    CStrAfterCpy(before, s);
  }

  /** The copy `read` makes of the bytes it returns into the front of the buffer. */
  method ReadIntoBuffer(buf: array<char>, d: seq<char>)
    requires |d| <= buf.Length
    modifies buf
    ensures buf[..] == ReadInto(old(buf[..]), d)
  {
    ghost var before := buf[..];
    forall i | 0 <= i < |d| {
      buf[i] := d[i];
    }
    assert buf[..] == ReadInto(before, d);
  }

  // ---------------------------------------------------------------------------
  // strncmp

  /** The character at i, reading past the end of a sequence as the terminating NUL. */
  function At(a: seq<char>, i: nat): char {
    if i < |a| then a[i] else NUL
  }

  /**
   * strncmp(a, b, n) == 0: the first n characters agree, stopping early at a
   * common NUL. Equivalently, the two agree at every position below n up to
   * and including the end of the string in `a`.
   */
  predicate StrNEq(a: seq<char>, b: seq<char>, n: nat)
    ensures StrNEq(a, b, n) <==> AgreeUpTo(a, b, n)
    decreases n
  {
    if n == 0 then true
    else if At(a, 0) != At(b, 0) then false
    else if At(a, 0) == NUL then true
    else
      AgreeShift(a, b, n);
      StrNEq(a[1..], b[1..], n - 1)
  }

  /** `a` and `b` agree below n, up to and including the NUL that ends the string in `a`. */
  predicate AgreeUpTo(a: seq<char>, b: seq<char>, n: nat) {
    forall i :: 0 <= i < n && i <= StrLen(a) ==> At(a, i) == At(b, i)
  }

  /** After a common non-NUL first character, agreement is agreement of the rests. */
  lemma AgreeShift(a: seq<char>, b: seq<char>, n: nat)
    requires n > 0 && |a| > 0 && |b| > 0 && a[0] != NUL && a[0] == b[0]
    ensures AgreeUpTo(a, b, n) <==> AgreeUpTo(a[1..], b[1..], n - 1)
  {
    assert StrLen(a[1..]) == StrLen(a) - 1;
    if AgreeUpTo(a, b, n) {
      forall i | 0 <= i < n - 1 && i <= StrLen(a[1..])
        ensures At(a[1..], i) == At(b[1..], i)
      {
        assert At(a, i + 1) == At(b, i + 1);
      }
    }
    if AgreeUpTo(a[1..], b[1..], n - 1) {
      forall i | 0 <= i < n && i <= StrLen(a)
        ensures At(a, i) == At(b, i)
      {
        if i > 0 {
          assert At(a[1..], i - 1) == At(b[1..], i - 1);
        }
      }
    }
  }

  /**
   * Comparing against a literal without NULs, strncmp reports equality exactly
   * when the buffer's first n characters are the literal's: a NUL or the end of
   * the buffer before n characters is a mismatch.
   */
  lemma {:induction false} StrNEqLiteral(a: seq<char>, s: seq<char>, n: nat)
    requires NoNul(s) && n <= |s|
    ensures StrNEq(a, s, n) <==> (n <= |a| && a[..n] == s[..n])
    decreases n
  {
    if n > 0 {
      assert At(s, 0) == s[0] != NUL;
      if At(a, 0) == At(s, 0) {
        StrNEqLiteral(a[1..], s[1..], n - 1);
        if n <= |a| {
          assert a[..n] == [a[0]] + a[1..][..n - 1];
        }
        assert s[..n] == [s[0]] + s[1..][..n - 1];
      } else if n <= |a| {
        assert a[..n][0] != s[..n][0];
      }
    }
  }

  // ---------------------------------------------------------------------------
  // atoi

  predicate IsSpace(c: char) {
    c == ' ' || c == '\t' || c == '\n' || c == '\U{0B}' || c == '\U{0C}' || c == '\r'
  }

  predicate IsDigit(c: char) { '0' <= c <= '9' }

  predicate AllDigits(d: seq<char>) { forall i :: 0 <= i < |d| ==> IsDigit(d[i]) }

  function SkipSpace(s: seq<char>): (t: seq<char>)
    ensures |t| <= |s| && t == s[|s| - |t|..]
    ensures |t| > 0 ==> !IsSpace(t[0])
  {
    if |s| > 0 && IsSpace(s[0]) then SkipSpace(s[1..]) else s
  }

  /** The longest run of decimal digits at the front of s. */
  function LeadingDigits(s: seq<char>): (d: seq<char>)
    ensures AllDigits(d) && d <= s
    ensures |d| < |s| ==> !IsDigit(s[|d|])
  {
    if |s| > 0 && IsDigit(s[0]) then [s[0]] + LeadingDigits(s[1..]) else []
  }

  function DigitsValue(d: seq<char>): nat
    requires AllDigits(d)
  {
    if d == [] then 0 else 10 * DigitsValue(d[..|d| - 1]) + (d[|d| - 1] as int - '0' as int)
  }

  /** The value of the digit run at the front of t. */
  function Unsigned(t: seq<char>): nat {
    DigitsValue(LeadingDigits(t))
  }

  /** atoi after the white space: an optional sign, then the digit run. */
  function SignedValue(t: seq<char>): int {
    if |t| > 0 && t[0] == '-' then -(Unsigned(t[1..]) as int)
    else if |t| > 0 && t[0] == '+' then Unsigned(t[1..])
    else Unsigned(t)
  }

  /** atoi: leading white space, an optional sign, then decimal digits up to the first other character. */
  function Atoi(s: seq<char>): (r: int)
    ensures var t := SkipSpace(s);
      (t == [] || (t[0] != '-' && t[0] != '+' && !IsDigit(t[0]))) ==> r == 0
    ensures r < 0 ==> |SkipSpace(s)| > 0 && SkipSpace(s)[0] == '-'
  {
    SignedValue(SkipSpace(s))
  }

  /** The decimal numeral of n, as the kernel prints a device minor. */
  function Decimal(n: nat): (d: seq<char>)
    ensures |d| > 0 && AllDigits(d)
  {
    if n < 10 then [(n + '0' as int) as char] else Decimal(n / 10) + [(n % 10 + '0' as int) as char]
  }

  lemma {:induction false} DigitsValueDecimal(n: nat)
    ensures DigitsValue(Decimal(n)) == n
  {
    if n >= 10 {
      var d := Decimal(n);
      assert d[..|d| - 1] == Decimal(n / 10);
      DigitsValueDecimal(n / 10);
    }
  }

  lemma {:induction false} LeadingDigitsStop(d: seq<char>, tail: seq<char>)
    requires AllDigits(d)
    requires tail == [] || !IsDigit(tail[0])
    ensures LeadingDigits(d + tail) == d
    decreases |d|
  {
    if d != [] {
      LeadingDigitsStop(d[1..], tail);
      assert (d + tail)[1..] == d[1..] + tail;
    } else {
      assert d + tail == tail;
    }
  }

  lemma {:induction false} SkipSpaceStop(ws: seq<char>, rest: seq<char>)
    requires forall i :: 0 <= i < |ws| ==> IsSpace(ws[i])
    requires rest == [] || !IsSpace(rest[0])
    ensures SkipSpace(ws + rest) == rest
    decreases |ws|
  {
    if ws != [] {
      assert (ws + rest)[1..] == ws[1..] + rest;
      SkipSpaceStop(ws[1..], rest);
    } else {
      assert ws + rest == rest;
    }
  }

  /** atoi reads back a printed minor number: white space, the numeral, then anything but a digit. */
  lemma {:induction false} AtoiDecimal(ws: seq<char>, n: nat, tail: seq<char>)
    requires forall i :: 0 <= i < |ws| ==> IsSpace(ws[i])
    requires tail == [] || !IsDigit(tail[0])
    ensures Atoi(ws + Decimal(n) + tail) == n
  {
    var d := Decimal(n);
    var t := d + tail;
    assert ws + d + tail == ws + t;
    assert t[0] == d[0] && IsDigit(d[0]);
    SkipSpaceStop(ws, t);
    LeadingDigitsStop(d, tail);
    assert t[0] != '-' && t[0] != '+';
    DigitsValueDecimal(n);
    assert SignedValue(t) == n;
  }

  lemma {:induction false} SkipSpaceAppend(s: seq<char>, x: seq<char>)
    requires x != [] && !IsSpace(x[0])
    ensures SkipSpace(s + x) == SkipSpace(s) + x
    decreases |s|
  {
    if s == [] {
      assert s + x == x;
    } else if IsSpace(s[0]) {
      assert (s + x)[1..] == s[1..] + x;
      SkipSpaceAppend(s[1..], x);
    } else {
      assert (s + x)[0] == s[0];
    }
  }

  /** atoi stops at the first NUL: what the buffer holds after it does not matter. */
  lemma {:induction false} AtoiStopsAtNul(s: seq<char>, rest: seq<char>)
    ensures Atoi(s + [NUL] + rest) == Atoi(s)
  {
    var x := [NUL] + rest;
    assert s + [NUL] + rest == s + x;
    SkipSpaceAppend(s, x);
    SignedValueStops(SkipSpace(s), x);
  }

  lemma {:induction false} SignedValueStops(t: seq<char>, x: seq<char>)
    requires x != [] && x[0] == NUL
    ensures SignedValue(t + x) == SignedValue(t)
  {
    if |t| > 0 {
      assert (t + x)[0] == t[0];
      if t[0] == '-' || t[0] == '+' {
        assert (t + x)[1..] == t[1..] + x;
        LeadingDigitsSplit(t[1..], x);
      } else {
        LeadingDigitsSplit(t, x);
      }
    } else {
      assert t + x == x;
      LeadingDigitsSplit([], x);
    }
  }

  /** Appending something that starts with a non-digit does not change the leading digit run. */
  lemma {:induction false} LeadingDigitsSplit(s: seq<char>, x: seq<char>)
    requires x != [] && !IsDigit(x[0])
    ensures LeadingDigits(s + x) == LeadingDigits(s)
    decreases |s|
  {
    if s == [] {
      assert s + x == x;
    } else if IsDigit(s[0]) {
      assert (s + x)[1..] == s[1..] + x;
      LeadingDigitsSplit(s[1..], x);
    }
  }

  // ---------------------------------------------------------------------------
  // The strncat bound

  /** The index at which strncat writes its NUL onto a string of length len. */
  function CatEnd(len: nat, srcLen: nat, n: nat): nat {
    len + Min(srcLen, n)
  }

  /** The bound the discovery passes as written: sizeof(buffer) - strlen(buffer). */
  function CatBoundAsWritten(size: nat, len: nat): nat
    requires len <= size
  {
    size - len
  }

  /** A bound that leaves room for the terminating NUL whatever the source string. */
  function CatBound(size: nat, len: nat): (n: nat)
    requires len < size
    ensures forall srcLen: nat :: CatEnd(len, srcLen, n) < size
  {
    size - len - 1
  }

  /** Where both bounds keep the whole source string they copy the same characters. */
  lemma CatBoundAgrees(size: nat, len: nat, srcLen: nat)
    requires len + srcLen < size
    ensures Min(srcLen, CatBound(size, len)) == Min(srcLen, CatBoundAsWritten(size, len)) == srcLen
  {
  }
}
