/** Models of the C library routines both variants of the flag parser lean on:
    `strncmp`, `strsep` with a one-character delimiter set, `sscanf` with a
    single `%d` directive, and the left-justified `%-*s` field of `printf`.

    A C string is modelled as the `seq<char>` of the characters before its
    terminating NUL; the terminator itself is implicit. */
module LibC {
  import opened Wrappers

  /** No NUL inside: `s` can be the contents of a C string. */
  predicate IsCString(s: string) {
    forall i :: 0 <= i < |s| ==> s[i] != '\0'
  }

  /** The character a `char *` pointing at `s` reads: the terminator once `s` is exhausted. */
  function Head(s: string): char {
    if |s| == 0 then '\0' else s[0]
  }

  // ---------------------------------------------------------------------------
  // strncmp

  /** `strncmp(a, b, n) == 0`: the two strings agree on their first `n`
      characters, the comparison stopping early at a terminator both share. */
  predicate StrNCmpEq(a: string, b: string, n: nat)
    decreases n
  {
    if n == 0 then true
    else if Head(a) != Head(b) then false
    else if Head(a) == '\0' then true
    else StrNCmpEq(a[1..], b[1..], n - 1)
  }

  /** `strncmp(a, b, strlen(b)) == 0` holds exactly when `b` is a prefix of `a`.
      Only `b` must be a C string: a NUL in `a` inside the compared range
      differs from `b`'s character there, and also breaks the prefix. */
  lemma {:induction false} StrNCmpEqIsPrefix(a: string, b: string)
    requires IsCString(b)
    ensures StrNCmpEq(a, b, |b|) <==> b <= a
    decreases |b|
  {
    if |b| == 0 {
    } else if |a| == 0 {
      assert Head(b) == b[0] != '\0';
    } else if a[0] != b[0] {
      assert !(b <= a) by { assert a[0] != b[0]; }
    } else {
      assert IsCString(b[1..]) by {
        forall i | 0 <= i < |b[1..]| ensures b[1..][i] != '\0' {
          assert b[1..][i] == b[i + 1];
        }
      }
      StrNCmpEqIsPrefix(a[1..], b[1..]);
      assert b <= a <==> b[1..] <= a[1..] by {
        if b[1..] <= a[1..] {
          assert b == [b[0]] + b[1..] && a == [a[0]] + a[1..];
        }
        if b <= a {
          assert a[1..][..|b| - 1] == a[..|b|][1..];
        }
      }
    }
  }

  // ---------------------------------------------------------------------------
  // strsep

  /** `strsep(&p, [d])` on a non-NULL `p` holding `s`: the token up to the first
      `d` (which `strsep` overwrites with NUL), and where `p` is left — just past
      that `d`, or NULL when `s` holds no `d`. */
  function Strsep(s: string, d: char): (r: (string, Option<string>))
    ensures d !in r.0
    ensures r.1.None? ==> r.0 == s
    ensures r.1.Some? ==> s == r.0 + [d] + r.1.value
    decreases |s|
  {
    if |s| == 0 then ("", None)
    else if s[0] == d then ("", Some(s[1..]))
    else
      var (tok, rest) := Strsep(s[1..], d);
      assert s == [s[0]] + s[1..];
      ([s[0]] + tok, rest)
  }

  /** Undoing a split: joining a `d`-free token, `d` and any remainder, then
      splitting again, gives back the token and the remainder; a `d`-free
      string splits into itself and NULL. */
  lemma {:induction false} StrsepInverse(tok: string, d: char, rest: string)
    requires d !in tok
    ensures Strsep(tok + [d] + rest, d) == (tok, Some(rest))
    ensures Strsep(tok, d) == (tok, None)
    decreases |tok|
  {
    if |tok| == 0 {
      assert tok + [d] + rest == [d] + rest;
    } else {
      assert tok[0] != d by { assert tok[0] in tok; }
      assert d !in tok[1..] by {
        forall i | 0 <= i < |tok[1..]| ensures tok[1..][i] != d {
          assert tok[1..][i] == tok[i + 1];
        }
      }
      StrsepInverse(tok[1..], d, rest);
      assert (tok + [d] + rest)[1..] == tok[1..] + [d] + rest;
      assert [tok[0]] + tok[1..] == tok;
    }
  }

  // ---------------------------------------------------------------------------
  // sscanf(str, "%d", &n)

  /** The characters `isspace` accepts in the C locale. */
  predicate IsSpace(c: char) {
    c == ' ' || c == '\t' || c == '\n' || c == '\U{000B}' || c == '\U{000C}' || c == '\r'
  }

  predicate IsDigit(c: char) {
    '0' <= c <= '9'
  }

  predicate AllDigits(s: string) {
    forall i :: 0 <= i < |s| ==> IsDigit(s[i])
  }

  /** What `%d` skips first: the leading white space of `s`. */
  function SkipSpace(s: string): (r: string)
    ensures |r| <= |s| && r == s[|s| - |r|..]
    ensures forall i :: 0 <= i < |s| - |r| ==> IsSpace(s[i])
    ensures |r| == 0 || !IsSpace(r[0])
    decreases |s|
  {
    if |s| > 0 && IsSpace(s[0]) then SkipSpace(s[1..]) else s
  }

  /** Length of the run of decimal digits `s` starts with. */
  function DigitRun(s: string): (k: nat)
    ensures k <= |s|
    ensures AllDigits(s[..k])
    ensures k == |s| || !IsDigit(s[k])
    decreases |s|
  {
    if |s| > 0 && IsDigit(s[0]) then
      var k := 1 + DigitRun(s[1..]);
      assert s[..k] == [s[0]] + s[1..][..k - 1];
      k
    else 0
  }

  /** The number a string of decimal digits denotes. */
  function DigitsValue(d: string): nat
    requires AllDigits(d)
    decreases |d|
  {
    if |d| == 0 then 0
    else 10 * DigitsValue(d[..|d| - 1]) + (d[|d| - 1] as int - '0' as int)
  }

  /** The digits part of `%d`: the value of the longest run of digits `u`
      starts with, of which there must be at least one. */
  function ScanDigits(u: string): (r: Option<nat>)
    ensures r.Some? <==> |u| > 0 && IsDigit(u[0])
  {
    var k := DigitRun(u);
    if k == 0 then None else Some(DigitsValue(u[..k]))
  }

  /** A `%d` field at the start of `t`: an optional sign, then at least one
      digit. */
  predicate SignedField(t: string) {
    |t| > 0 && (IsDigit(t[0]) || ((t[0] == '-' || t[0] == '+') && |t| > 1 && IsDigit(t[1])))
  }

  /** What `%d` converts: after any white space, a signed field. */
  predicate HasIntField(s: string) {
    SignedField(SkipSpace(s))
  }

  /** `%d` once the white space is skipped: an optional sign, then the digits. */
  function ScanSigned(t: string): (r: Option<int>)
    ensures r.Some? <==> SignedField(t)
  {
    if |t| > 0 && t[0] == '-' then
      match ScanDigits(t[1..])
      case Some(m) => Some(-(m as int))
      case None => None
    else if |t| > 0 && t[0] == '+' then
      match ScanDigits(t[1..])
      case Some(m) => Some(m)
      case None => None
    else
      match ScanDigits(t)
      case Some(m) => Some(m)
      case None => None
  }

  /** `sscanf(s, "%d", &n)`: `Some(n)` when the single conversion succeeds
      (return value 1), `None` when it does not (0, or EOF on a blank string).
      The width of C's `int` is not modelled: the value is a mathematical
      integer. */
  function ScanInt(s: string): (r: Option<int>)
    ensures r.Some? <==> HasIntField(s)
    ensures r.Some? ==> exists i :: 0 <= i < |s| && IsDigit(s[i])
    ensures |s| > 0 && IsDigit(s[0]) ==> r.Some?
  {
    var t := SkipSpace(s);
    var r := ScanSigned(t);
    assert r.Some? ==> IsDigit(s[|s| - |t|]) || IsDigit(s[|s| - |t| + 1]) by {
      if r.Some? {
        if |t| > 0 && (t[0] == '-' || t[0] == '+') {
          assert t[1..][0] == s[|s| - |t| + 1];
        } else {
          assert t[0] == s[|s| - |t|];
        }
      }
    }
    r
  }

  /** The character of a decimal digit `d`. */
  function DigitChar(d: nat): (c: char)
    requires d < 10
    ensures IsDigit(c) && c as int - '0' as int == d
  {
    ('0' as int + d) as char
  }

  /** The decimal digits of `n`, most significant first, as `printf("%d")` writes them. */
  function NatDigits(n: nat): string
    decreases n
  {
    if n < 10 then [DigitChar(n)] else NatDigits(n / 10) + [DigitChar(n % 10)]
  }

  /** `printf("%d", n)`. */
  function DecimalString(n: int): string {
    if n < 0 then "-" + NatDigits(-n) else NatDigits(n)
  }

  lemma {:induction false} NatDigitsValue(n: nat)
    ensures |NatDigits(n)| > 0 && AllDigits(NatDigits(n))
    ensures DigitsValue(NatDigits(n)) == n
    decreases n
  {
    if n >= 10 {
      NatDigitsValue(n / 10);
      var d := NatDigits(n);
      assert d == NatDigits(n / 10) + [DigitChar(n % 10)];
      assert d[..|d| - 1] == NatDigits(n / 10);
    }
  }

  lemma {:induction false} SkipSpaceAppend(ws: string, s: string)
    requires forall i :: 0 <= i < |ws| ==> IsSpace(ws[i])
    requires |s| == 0 || !IsSpace(s[0])
    ensures SkipSpace(ws + s) == s
    decreases |ws|
  {
    if |ws| > 0 {
      assert (ws + s)[1..] == ws[1..] + s;
      SkipSpaceAppend(ws[1..], s);
    } else {
      assert ws + s == s;
    }
  }

  lemma {:induction false} DigitRunAppend(d: string, rest: string)
    requires AllDigits(d)
    requires |rest| == 0 || !IsDigit(rest[0])
    ensures DigitRun(d + rest) == |d|
    ensures (d + rest)[..|d|] == d
    decreases |d|
  {
    if |d| == 0 {
      assert d + rest == rest;
    } else {
      assert (d + rest)[1..] == d[1..] + rest;
      assert AllDigits(d[1..]) by {
        forall i | 0 <= i < |d[1..]| ensures IsDigit(d[1..][i]) {
          assert d[1..][i] == d[i + 1];
        }
      }
      DigitRunAppend(d[1..], rest);
    }
  }

  /** The digits `printf("%d")` writes for `m`, followed by a non-digit, read back as `m`. */
  lemma ScanDigitsNat(m: nat, rest: string)
    requires |rest| == 0 || !IsDigit(rest[0])
    ensures ScanDigits(NatDigits(m) + rest) == Some(m)
  {
    NatDigitsValue(m);
    DigitRunAppend(NatDigits(m), rest);
  }

  /** A negative number: the sign, then its magnitude's digits. */
  lemma ScanSignedNegative(m: nat, rest: string)
    requires m > 0
    requires |rest| == 0 || !IsDigit(rest[0])
    ensures ScanSigned("-" + NatDigits(m) + rest) == Some(-(m as int))
  {
    var s := "-" + NatDigits(m) + rest;
    assert s[0] == '-';
    assert s[1..] == NatDigits(m) + rest;
    ScanDigitsNat(m, rest);
  }

  /** A number that is not negative: its digits, no sign. */
  lemma ScanSignedNonNegative(m: nat, rest: string)
    requires |rest| == 0 || !IsDigit(rest[0])
    ensures ScanSigned(NatDigits(m) + rest) == Some(m)
  {
    var s := NatDigits(m) + rest;
    NatDigitsValue(m);
    assert s[0] == NatDigits(m)[0];
    ScanDigitsNat(m, rest);
  }

  lemma ScanSignedDecimal(n: int, rest: string)
    requires |rest| == 0 || !IsDigit(rest[0])
    ensures ScanSigned(DecimalString(n) + rest) == Some(n)
  {
    if n < 0 {
      ScanSignedNegative(-n, rest);
    } else {
      ScanSignedNonNegative(n, rest);
    }
  }

  /** `%d` reads back what `printf("%d")` wrote, whatever white space precedes
      it and whatever non-digit follows it. */
  lemma ScanIntDecimal(ws: string, n: int, rest: string)
    requires forall i :: 0 <= i < |ws| ==> IsSpace(ws[i])
    requires |rest| == 0 || !IsDigit(rest[0])
    ensures ScanInt(ws + DecimalString(n) + rest) == Some(n)
  {
    var s := DecimalString(n) + rest;
    NatDigitsValue(if n < 0 then -n else n);
    assert s[0] == '-' || IsDigit(s[0]) by {
      if n >= 0 { assert s[0] == NatDigits(n)[0]; }
    }
    assert ws + DecimalString(n) + rest == ws + s;
    SkipSpaceAppend(ws, s);
    ScanSignedDecimal(n, rest);
  }

  /** The integer a sign and a run of digits denote. */
  function SignedValue(sign: string, d: string): int
    requires AllDigits(d)
  {
    if sign == "-" then -(DigitsValue(d) as int) else DigitsValue(d)
  }

  /** A run of digits followed by a non-digit reads as the run's value,
      leading zeros included. */
  lemma ScanDigitsRun(d: string, rest: string)
    requires |d| > 0 && AllDigits(d)
    requires |rest| == 0 || !IsDigit(rest[0])
    ensures ScanDigits(d + rest) == Some(DigitsValue(d))
  {
    DigitRunAppend(d, rest);
  }

  /** The sign, if any, then the digits: `-` negates, `+` and no sign do not. */
  lemma ScanSignedDigits(sign: string, d: string, rest: string)
    requires sign == "" || sign == "+" || sign == "-"
    requires |d| > 0 && AllDigits(d)
    requires |rest| == 0 || !IsDigit(rest[0])
    ensures ScanSigned(sign + d + rest) == Some(SignedValue(sign, d))
  {
    ScanDigitsRun(d, rest);
    if sign == "" {
      assert sign + d + rest == d + rest;
      assert (d + rest)[0] == d[0];
    } else {
      assert sign + d + rest == [sign[0]] + (d + rest);
      assert (sign + d + rest)[1..] == d + rest;
    }
  }

  /** `%d` on any field it accepts: white space, an optional sign, digits
      (leading zeros allowed), then anything but a digit, stores the value of
      the sign and digits. */
  lemma ScanIntDigits(ws: string, sign: string, d: string, rest: string)
    requires forall i :: 0 <= i < |ws| ==> IsSpace(ws[i])
    requires sign == "" || sign == "+" || sign == "-"
    requires |d| > 0 && AllDigits(d)
    requires |rest| == 0 || !IsDigit(rest[0])
    ensures ScanInt(ws + sign + d + rest) == Some(SignedValue(sign, d))
  {
    var t := sign + d + rest;
    assert t[0] == if sign == "" then d[0] else sign[0];
    assert ws + sign + d + rest == ws + t;
    SkipSpaceAppend(ws, t);
    ScanSignedDigits(sign, d, rest);
  }

  // ---------------------------------------------------------------------------
  // printf("%-*s", width, s)

  /** `n` blanks. */
  function Blanks(n: nat): (b: string)
    ensures |b| == n
    ensures forall i :: 0 <= i < n ==> b[i] == ' '
  {
    seq(n, _ => ' ')
  }

  /** The field `printf("%-*s", width, s)` writes: `s`, then blanks up to
      `width` columns; a longer `s` is never truncated. */
  function PadRight(s: string, width: int): (r: string)
    ensures |r| == if |s| < width then width else |s|
    ensures r == s + Blanks(|r| - |s|)
  {
    if |s| < width then s + Blanks(width - |s|) else (assert s + Blanks(0) == s; s)
  }
}
