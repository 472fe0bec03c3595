/** String primitives the client relies on, over `seq<char>`: decimal
    rendering and `padStart`, the lexicographic comparison behind `<` on
    strings, `split(c)[0]`, single-occurrence `replace`, ASCII lower-casing
    and `includes`. */
module Text {

  predicate IsDigit(c: char) {
    '0' <= c <= '9'
  }

  function Digit(n: int): (c: char)
    requires 0 <= n < 10
    ensures IsDigit(c)
  {
    ('0' as int + n) as char
  }

  /** Value of a single digit character. */
  function DigitValue(c: char): int {
    c as int - '0' as int
  }

  predicate AllDigits(s: string) {
    forall i :: 0 <= i < |s| ==> IsDigit(s[i])
  }

  /** `String(n)` for a non-negative integer: shortest decimal form. */
  function DecimalDigits(n: nat): (s: string)
    ensures 1 <= |s|
    decreases n
  {
    if n < 10 then [Digit(n)] else DecimalDigits(n / 10) + [Digit(n % 10)]
  }

  /** `String(i)` for any integer: a leading '-' for negatives. */
  function IntToString(i: int): string {
    if i < 0 then "-" + DecimalDigits(-i) else DecimalDigits(i)
  }

  function Repeat(c: char, k: nat): (s: string)
    ensures |s| == k
  {
    if k == 0 then [] else Repeat(c, k - 1) + [c]
  }

  /** `s.padStart(width, c)`: left-filled with `c` up to `width`; a string
      already at least `width` long is returned unchanged. */
  function PadStart(s: string, width: nat, c: char): (r: string)
    ensures |r| == if |s| >= width then |s| else width
  {
    if |s| >= width then s else Repeat(c, width - |s|) + s
  }

  /** `String(n).padStart(width, '0')`. */
  function ZeroPad(n: nat, width: nat): (s: string)
    ensures |s| >= width
  {
    PadStart(DecimalDigits(n), width, '0')
  }

  function Pow10(w: nat): (p: nat)
    ensures p >= 1
  {
    if w == 0 then 1 else 10 * Pow10(w - 1)
  }

  /** The `w` least significant decimal digits of `n`, most significant first. */
  function FixedDigits(n: nat, w: nat): (s: string)
    ensures |s| == w
  {
    if w == 0 then [] else FixedDigits(n / 10, w - 1) + [Digit(n % 10)]
  }

  /** Decimal value of a digit string, read most significant first. */
  function DigitsValue(s: string): int {
    if |s| == 0 then 0 else DigitsValue(s[..|s| - 1]) * 10 + DigitValue(s[|s| - 1])
  }

  lemma {:induction false} FixedDigitsOfZero(w: nat)
    ensures FixedDigits(0, w) == Repeat('0', w)
  {
    if w > 0 {
      FixedDigitsOfZero(w - 1);
    }
  }

  lemma {:induction false} DecimalDigitsLength(n: nat, w: nat)
    requires w >= 1 && n < Pow10(w)
    ensures |DecimalDigits(n)| <= w
  {
    if n >= 10 {
      DecimalDigitsLength(n / 10, w - 1);
    }
  }

  /** Zero-padding to a width that holds every digit of `n` gives exactly
      the `w` low digits of `n`. */
  lemma {:induction false} ZeroPadIsFixed(n: nat, w: nat)
    requires w >= 1 && n < Pow10(w)
    ensures ZeroPad(n, w) == FixedDigits(n, w)
  {
    DecimalDigitsLength(n, w);
    var d := DecimalDigits(n);
    if n < 10 {
      FixedDigitsOfZero(w - 1);
      assert FixedDigits(n, w) == FixedDigits(0, w - 1) + [Digit(n)];
      assert ZeroPad(n, w) == Repeat('0', w - 1) + [Digit(n)];
    } else {
      ZeroPadIsFixed(n / 10, w - 1);
      var d' := DecimalDigits(n / 10);
      assert d == d' + [Digit(n % 10)];
      assert ZeroPad(n / 10, w - 1) == Repeat('0', w - 1 - |d'|) + d';
      assert ZeroPad(n, w) == Repeat('0', w - |d|) + d;
      assert Repeat('0', w - |d|) == Repeat('0', w - 1 - |d'|);
    }
  }

  lemma {:induction false} DecimalDigitsAreDigits(n: nat)
    ensures AllDigits(DecimalDigits(n))
    decreases n
  {
    if n >= 10 {
      DecimalDigitsAreDigits(n / 10);
    }
  }

  lemma {:induction false} RepeatDigit(c: char, k: nat)
    requires IsDigit(c)
    ensures AllDigits(Repeat(c, k))
  {
    if k > 0 {
      RepeatDigit(c, k - 1);
    }
  }

  /** Zero-padded numbers contain nothing but digits. */
  lemma ZeroPadDigits(n: nat, width: nat)
    ensures AllDigits(ZeroPad(n, width))
  {
    DecimalDigitsAreDigits(n);
    var d := DecimalDigits(n);
    if |d| < width {
      RepeatDigit('0', width - |d|);
    }
  }

  /** A digit string holds no letter, space or punctuation. */
  lemma DigitsExclude(s: string, c: char)
    requires AllDigits(s) && !IsDigit(c)
    ensures c !in s
  {
  }

  /** Reading back fixed-width digits yields the number. */
  lemma {:induction false} FixedDigitsValue(n: nat, w: nat)
    requires n < Pow10(w)
    ensures DigitsValue(FixedDigits(n, w)) == n
  {
    if w > 0 {
      FixedDigitsValue(n / 10, w - 1);
      var s := FixedDigits(n, w);
      assert s[..|s| - 1] == FixedDigits(n / 10, w - 1);
      assert DigitValue(s[|s| - 1]) == n % 10;
      assert DigitsValue(s) == (n / 10) * 10 + n % 10;
    }
  }

  /** The lexicographic order JavaScript uses for `<` on strings (compared by
      code unit; a proper prefix sorts first). */
  predicate LexLess(a: string, b: string)
    decreases |a|
  {
    if |a| == 0 then |b| > 0
    else if |b| == 0 then false
    else a[0] < b[0] || (a[0] == b[0] && LexLess(a[1..], b[1..]))
  }

  /** Comparing two concatenations whose first parts have equal length: the
      first parts decide unless they are equal. */
  lemma {:induction false} LexLessConcat(p1: string, s1: string, p2: string, s2: string)
    requires |p1| == |p2|
    ensures LexLess(p1 + s1, p2 + s2) <==> LexLess(p1, p2) || (p1 == p2 && LexLess(s1, s2))
    decreases |p1|
  {
    if |p1| == 0 {
      assert p1 + s1 == s1 && p2 + s2 == s2;
    } else {
      assert (p1 + s1)[1..] == p1[1..] + s1;
      assert (p2 + s2)[1..] == p2[1..] + s2;
      LexLessConcat(p1[1..], s1, p2[1..], s2);
      assert p1 == p2 <==> p1[0] == p2[0] && p1[1..] == p2[1..] by {
        if p1[0] == p2[0] && p1[1..] == p2[1..] {
          assert p1 == [p1[0]] + p1[1..];
          assert p2 == [p2[0]] + p2[1..];
        }
      }
    }
  }

  /** Equal-length fields joined by a separator compare field by field. */
  lemma JoinedFieldsOrder(p1: string, s1: string, p2: string, s2: string, sep: char)
    requires |p1| == |p2|
    ensures LexLess(p1 + [sep] + s1, p2 + [sep] + s2) <==> LexLess(p1, p2) || (p1 == p2 && LexLess(s1, s2))
    ensures p1 + [sep] + s1 == p2 + [sep] + s2 <==> p1 == p2 && s1 == s2
  {
    LexLessConcat(p1 + [sep], s1, p2 + [sep], s2);
    LexLessConcat(p1, [sep], p2, [sep]);
    assert p1 + [sep] == p2 + [sep] <==> p1 == p2 by {
      if p1 + [sep] == p2 + [sep] {
        assert p1 == (p1 + [sep])[..|p1|];
      }
    }
    if p1 + [sep] + s1 == p2 + [sep] + s2 {
      assert p1 + [sep] == (p1 + [sep] + s1)[..|p1| + 1];
      assert p2 + [sep] == (p2 + [sep] + s2)[..|p1| + 1];
      assert s1 == (p1 + [sep] + s1)[|p1| + 1..];
      assert s2 == (p2 + [sep] + s2)[|p1| + 1..];
    }
  }

  /** Three fields of widths 4, 2 and 2 joined by '-' (a `YYYY-MM-DD`
      shape) compare field by field, most significant first. */
  lemma DashedFieldsOrder(ya: string, ma: string, da: string, yb: string, mb: string, db: string)
    requires |ya| == |yb| && |ma| == |mb|
    ensures LexLess(ya + "-" + ma + "-" + da, yb + "-" + mb + "-" + db)
        <==> LexLess(ya, yb) || (ya == yb && (LexLess(ma, mb) || (ma == mb && LexLess(da, db))))
    ensures ya + "-" + ma + "-" + da == yb + "-" + mb + "-" + db <==> ya == yb && ma == mb && da == db
  {
    JoinedFieldsOrder(ya, ma, yb, mb, '-');
    assert ya + "-" + ma + "-" + da == (ya + "-" + ma) + ['-'] + da;
    assert yb + "-" + mb + "-" + db == (yb + "-" + mb) + ['-'] + db;
    JoinedFieldsOrder(ya + "-" + ma, da, yb + "-" + mb, db, '-');
  }

  /** On fixed-width digit strings, lexicographic order is numeric order. */
  lemma {:induction false} FixedDigitsOrder(a: nat, b: nat, w: nat)
    requires a < Pow10(w) && b < Pow10(w)
    ensures LexLess(FixedDigits(a, w), FixedDigits(b, w)) <==> a < b
    ensures FixedDigits(a, w) == FixedDigits(b, w) <==> a == b
  {
    FixedDigitsValue(a, w);
    FixedDigitsValue(b, w);
    if w > 0 {
      FixedDigitsOrder(a / 10, b / 10, w - 1);
      LexLessConcat(FixedDigits(a / 10, w - 1), [Digit(a % 10)], FixedDigits(b / 10, w - 1), [Digit(b % 10)]);
    }
  }

  /** `s.split(c)[0]`: everything before the first `c`, or all of `s`. */
  function TakeUntil(s: string, c: char): (r: string)
    ensures r <= s
    ensures c !in r
    ensures |r| < |s| ==> s[|r|] == c
  {
    if |s| == 0 || s[0] == c then [] else [s[0]] + TakeUntil(s[1..], c)
  }

  /** Splitting at the separator that follows a separator-free prefix. */
  lemma {:induction false} TakeUntilPrefix(p: string, c: char, rest: string)
    requires c !in p
    ensures TakeUntil(p + [c] + rest, c) == p
  {
    if |p| > 0 {
      assert (p + [c] + rest)[1..] == p[1..] + [c] + rest;
      TakeUntilPrefix(p[1..], c, rest);
    } else {
      assert p + [c] + rest == [c] + rest;
    }
  }

  /** `s.replace(c, d)` with one-character strings: only the FIRST occurrence
      of `c` is replaced. */
  function ReplaceFirst(s: string, c: char, d: char): (r: string)
    ensures |r| == |s|
  {
    if |s| == 0 then []
    else if s[0] == c then [d] + s[1..]
    else [s[0]] + ReplaceFirst(s[1..], c, d)
  }

  lemma {:induction false} ReplaceFirstAt(p: string, c: char, d: char, rest: string)
    requires c !in p
    ensures ReplaceFirst(p + [c] + rest, c, d) == p + [d] + rest
  {
    var s := p + [c] + rest;
    if |p| > 0 {
      assert s[0] == p[0] != c;
      assert s[1..] == p[1..] + [c] + rest;
      ReplaceFirstAt(p[1..], c, d, rest);
      assert ReplaceFirst(s, c, d) == [p[0]] + (p[1..] + [d] + rest);
      assert p + [d] + rest == [p[0]] + (p[1..] + [d] + rest);
    } else {
      assert p + [c] + rest == [c] + rest;
      assert ([c] + rest)[1..] == rest;
    }
  }

  /** `s.length` in JavaScript: the number of UTF-16 code units, two for a
      character outside the Basic Multilingual Plane and one otherwise. */
  function Utf16Length(s: string): nat {
    if |s| == 0 then 0
    else Utf16Length(s[..|s| - 1]) + (if s[|s| - 1] >= '\U{10000}' then 2 else 1)
  }

  /** The UTF-16 length lies between the number of characters and twice it,
      and equals the number of characters when all lie in the Basic
      Multilingual Plane. */
  lemma {:induction false} Utf16LengthBounds(s: string)
    ensures |s| <= Utf16Length(s) <= 2 * |s|
    ensures (forall i :: 0 <= i < |s| ==> s[i] < '\U{10000}') ==> Utf16Length(s) == |s|
  {
    if |s| > 0 {
      Utf16LengthBounds(s[..|s| - 1]);
      var p := s[..|s| - 1];
      assert forall i :: 0 <= i < |p| ==> p[i] == s[i];
    }
  }

  /** `toLowerCase` restricted to ASCII letters. */
  function LowerChar(c: char): char {
    if 'A' <= c <= 'Z' then (c as int + 32) as char else c
  }

  function Lower(s: string): string {
    seq(|s|, i requires 0 <= i < |s| => LowerChar(s[i]))
  }

  /** `hay.includes(needle)`: `needle` occurs at some position of `hay`. */
  predicate Contains(hay: string, needle: string) {
    exists i :: 0 <= i <= |hay| && needle <= hay[i..]
  }

  /** A number with `10^(w-1) <= n < 10^w` renders as exactly `w`
      digits, so `String(n)` and its fixed-width form coincide. */
  lemma {:induction false} DecimalDigitsFixed(n: nat, w: nat)
    requires w >= 1 && Pow10(w - 1) <= n < Pow10(w)
    ensures DecimalDigits(n) == FixedDigits(n, w)
    decreases w
  {
    if w == 1 {
      assert FixedDigits(n / 10, 0) == [];
    } else {
      assert Pow10(w - 1) == 10 * Pow10(w - 2);
      DecimalDigitsFixed(n / 10, w - 1);
    }
  }
}
