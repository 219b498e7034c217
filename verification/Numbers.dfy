/** Numbers as text (kernel/std/stdlib.cpp): `strtol`, exact with saturation at a 32-bit `long`, and `itoa`,
    which it inverts. */
module Numbers {

  const LONG_MAX := 0x7FFF_FFFF
  const LONG_MIN := -0x8000_0000
  const TWO32 := 0x1_0000_0000

  /** A C string without its terminator; a plain `char` is signed. */
  type Char = c: int | -128 <= c < 128

  predicate IsText(text: seq<Char>) { forall c <- text :: c != 0 }

  /** The character at i, the terminator included. */
  function At(text: seq<Char>, i: nat): Char
    requires i <= |text|
  {
    if i < |text| then text[i] else 0
  }

  const MINUS: Char := 45
  const PLUS: Char := 43
  const ZERO: Char := 48
  const UPPER_X: Char := 88
  const LOWER_X: Char := 120

  predicate IsSpace(c: Char) { 9 <= c <= 13 || c == 32 }

  /** The value of a digit, 36 for every other character. The upper-case letters are others: the macro that
      recognises them is not parenthesised, so 1 is subtracted and too much is left for any base. */
  function Digit(c: Char): (d: nat)
    ensures d <= 36
  {
    if 48 <= c <= 57 then c - 48 else if 97 <= c <= 122 then c - 87 else 36
  }

  function DigitChar(d: nat): Char
    requires d < 36
  {
    if d < 10 then d + 48 else d + 87
  }

  // ---------------------------------------------------------------- what a text says

  function Spaces(text: seq<Char>): (n: nat)
    ensures n <= |text|
  {
    if text != [] && IsSpace(text[0]) then 1 + Spaces(text[1..]) else 0
  }

  function DigitRun(text: seq<Char>, base: nat): (n: nat)
    ensures n <= |text|
  {
    if text != [] && Digit(text[0]) < base then 1 + DigitRun(text[1..], base) else 0
  }

  /** The number digits stand for. */
  function Value(digits: seq<Char>, base: nat): nat {
    if digits == [] then 0
    else Value(digits[..|digits| - 1], base) * base + Digit(digits[|digits| - 1])
  }

  /** Where the digits start, and how to read them. */
  datatype Layout = Layout(neg: bool, base: nat, first: nat)

  predicate HexPrefix(text: seq<Char>, p: nat, base: nat) {
    (base == 0 || base == 16) && p + 1 < |text| && text[p] == ZERO && (text[p + 1] == LOWER_X || text[p + 1] == UPPER_X)
  }

  function LayoutOf(text: seq<Char>, base: nat): (l: Layout)
    ensures l.first <= |text|
  {
    var w := Spaces(text);
    var p := if At(text, w) == MINUS || At(text, w) == PLUS then w + 1 else w;
    var neg := At(text, w) == MINUS;
    if HexPrefix(text, p, base) then Layout(neg, 16, p + 2)
    else if base == 0 then Layout(neg, if At(text, p) == ZERO then 8 else 10, p)
    else Layout(neg, base, p)
  }

  function Clamp(x: int): int {
    if x > LONG_MAX then LONG_MAX else if x < LONG_MIN then LONG_MIN else x
  }

  /** What `strtol` returns, and the index its end pointer names. */
  datatype Parsed = Parsed(value: int, end: nat)

  /** The number of the longest run of digits, saturated; without digits, 0 and the whole text unread. */
  function Parse(text: seq<Char>, base: nat): Parsed {
    var l := LayoutOf(text, base);
    var n := DigitRun(text[l.first..], l.base);
    var v: int := Value(text[l.first..l.first + n], l.base);
    if n == 0 then Parsed(0, 0) else Parsed(Clamp(if l.neg then -v else v), l.first + n)
  }

  // ---------------------------------------------------------------- strtol

  /** `unsigned` arithmetic, named to keep the loops' proofs free of products. */
  function Quo(v: nat, d: nat): nat requires d > 0 { v / d }
  function Rem(v: nat, d: nat): nat requires d > 0 { v % d }
  function Times(v: int, d: int): int { v * d }

  function ToLong(x: int): int {
    if x % TWO32 <= LONG_MAX then x % TWO32 else x % TWO32 - TWO32
  }

  /** The loop's test: over the limit exactly when the next value is. */
  lemma CutoffExact(acc: nat, c: nat, base: nat, limit: nat)
    requires base > 0 && c < base
    ensures acc > limit / base || (acc == limit / base && c > limit % base) <==> acc * base + c > limit
  {
    var q, r := limit / base, limit % base;
    assert limit == q * base + r;
    if acc > q { MulLe(q + 1, acc, base); } else if acc < q { MulLe(acc + 1, q, base); }
  }

  lemma MulLe(a: nat, b: nat, m: nat)
    requires a <= b
    ensures a * m <= b * m
  {}

  /** One pass of the loop: what it tests, and that what it adds wraps around nowhere. */
  lemma Accumulates(v: nat, d: nat, base: nat, limit: nat)
    requires base > 0 && d < base && limit < TWO32
    ensures v > limit / base || (v == limit / base && d > limit % base) <==> v * base + d > limit
    ensures v > limit ==> v * base + d > limit
    ensures v * base + d <= limit ==> (v * base % TWO32 + d) % TWO32 == v * base + d
  {
    CutoffExact(v, d, base, limit);
    if v > limit { OverStaysOver(v, base, d, limit); }
    if v * base + d <= limit { Below(v * base, d); }
  }

  lemma Below(a: nat, d: nat)
    requires a + d < TWO32
    ensures (a % TWO32 + d) % TWO32 == a + d
  {}

  lemma DigitOf(c: Char)
    ensures 48 <= c <= 57 ==> Digit(c) == c - 48
    ensures 65 <= c <= 90 ==> Digit(c) == 36 <= c - 1
    ensures 97 <= c <= 122 ==> Digit(c) == c - 87
  {}

  lemma NoDigit(c: Char)
    requires !(48 <= c <= 57) && !(97 <= c <= 122)
    ensures Digit(c) == 36
  {}

  /** The loop's variables after k digits: `any` is negative once the value is over the limit. */
  ghost predicate Held(text: seq<Char>, l: Layout, k: nat, limit: nat, acc: int, any: int)
    requires l.first + k <= |text|
  {
    var v := Value(text[l.first..l.first + k], l.base);
    && k <= DigitRun(text[l.first..], l.base)
    && (any == 0 <==> k == 0)
    && (any < 0 <==> v > limit)
    && (any >= 0 ==> acc == v)
  }

  lemma HeldAtStart(text: seq<Char>, l: Layout, limit: nat)
    requires l.first <= |text|
    ensures Held(text, l, 0, limit, 0, 0)
  {}

  lemma HeldStep(text: seq<Char>, l: Layout, k: nat, limit: nat, acc: int, any: int, d: nat)
    requires l.first + k <= |text| && d == Digit(At(text, l.first + k)) < l.base <= 36 && limit < TWO32
    requires Held(text, l, k, limit, acc, any)
    ensures l.first + k < |text|
    ensures if any < 0 || acc > Quo(limit, l.base) || (acc == Quo(limit, l.base) && d > Rem(limit, l.base))
            then Held(text, l, k + 1, limit, acc, -1)
            else Held(text, l, k + 1, limit, (Times(acc, l.base) % TWO32 + d) % TWO32, 1)
  {
    NoDigit(0);
    hide Digit, Value, DigitRun;
    RunStep(text, l.first, k, l.base);
    Accumulates(Value(text[l.first..l.first + k], l.base), d, l.base, limit);
  }

  /** A character that is no digit ends the run. */
  lemma HeldAtEnd(text: seq<Char>, l: Layout, k: nat, limit: nat, acc: int, any: int)
    requires l.first + k <= |text| && Held(text, l, k, limit, acc, any)
    requires Digit(At(text, l.first + k)) >= l.base
    ensures k == DigitRun(text[l.first..], l.base)
    ensures (any == 0 <==> k == 0) && (any < 0 <==> Value(text[l.first..l.first + k], l.base) > limit)
    ensures any >= 0 ==> acc == Value(text[l.first..l.first + k], l.base)
  {
    if l.first + k < |text| { RunStep(text, l.first, k, l.base); }
  }

  /** The result, from how the loop left its variables after the k digits of the run. */
  lemma Saturates(text: seq<Char>, base0: nat, k: nat, acc: int, any: int)
    requires base0 == 0 || 2 <= base0 <= 36
    requires var l := LayoutOf(text, base0);
             && k == DigitRun(text[l.first..], l.base) && (any == 0 <==> k == 0)
             && var v, limit := Value(text[l.first..l.first + k], l.base), if l.neg then TWO32 / 2 else LONG_MAX;
             && (any < 0 <==> v > limit)
             && acc == if any < 0 then (if l.neg then LONG_MIN + TWO32 else LONG_MAX)
                       else if l.neg then (TWO32 - v) % TWO32 else v
    ensures Parse(text, base0) == Parsed(ToLong(acc), if k == 0 then 0 else LayoutOf(text, base0).first + k)
  {
    hide DigitRun, LayoutOf, Value;
    var l := LayoutOf(text, base0);
    if k == 0 { NoDigits(text[l.first..l.first], l.base); }
  }

  lemma NoDigits(digits: seq<Char>, base: nat)
    ensures digits == [] ==> Value(digits, base) == 0
  {}

  lemma OverStaysOver(v: nat, base: nat, d: nat, limit: nat)
    requires v > limit && base > 0
    ensures v * base + d > limit
  {
    MulLe(1, base, v);
  }

  /** One more digit of the run. */
  lemma RunStep(text: seq<Char>, first: nat, k: nat, base: nat)
    requires first + k < |text| && k <= DigitRun(text[first..], base)
    ensures k == DigitRun(text[first..], base) <==> Digit(text[first + k]) >= base
    ensures Value(text[first..first + k + 1], base) == Value(text[first..first + k], base) * base + Digit(text[first + k])
    decreases k
  {
    assert text[first..first + k + 1][..k] == text[first..first + k];
    if k > 0 {
      assert text[first..][1..] == text[first + 1..];
      RunStep(text, first + 1, k - 1, base);
    }
  }

  lemma SpacesStep(text: seq<Char>, k: nat)
    requires k < |text| && k <= Spaces(text)
    ensures k == Spaces(text) <==> !IsSpace(text[k])
    decreases k
  {
    if k > 0 { SpacesStep(text[1..], k - 1); }
  }

  lemma SpacesAt(text: seq<Char>, k: nat)
    requires k <= Spaces(text)
    ensures if IsSpace(At(text, k)) then k < Spaces(text) else k == Spaces(text)
  {
    if k < |text| { SpacesStep(text, k); }
  }

  lemma NotAtEnd(text: seq<Char>, i: nat)
    requires i <= |text|
    ensures At(text, i) != 0 ==> i < |text|
  {}

  lemma LayoutCases(text: seq<Char>, base: nat)
    ensures var w := Spaces(text); var c := At(text, w);
            var p := if c == MINUS || c == PLUS then w + 1 else w;
            && p <= |text|
            && (HexPrefix(text, p, base) <==> (base == 0 || base == 16) && At(text, p) == ZERO
                                              && (At(text, p + 1) == LOWER_X || At(text, p + 1) == UPPER_X))
            && LayoutOf(text, base) == if HexPrefix(text, p, base) then Layout(c == MINUS, 16, p + 2)
                                       else Layout(c == MINUS, if base != 0 then base else if At(text, p) == ZERO then 8 else 10, p)
  {
    hide Spaces;
  }

  /** Reads `text` as a number of the given base (0: by its prefix). `s` counts the characters fetched, so
      that c is the character before it. */
  method Strtol(text: seq<Char>, base0: nat) returns (value: int, end: nat)
    requires IsText(text) && (base0 == 0 || 2 <= base0 <= 36)
    ensures Parsed(value, end) == Parse(text, base0)
  {
    hide Digit, Value, DigitRun, Spaces, Parse, Held, ToLong, LayoutOf, HexPrefix, Quo, Rem, Times, At, IsSpace, IsText;
    var base, s, c, neg := base0, 1, At(text, 0), false;
    SpacesAt(text, 0);
    while IsSpace(c)
      invariant 1 <= s <= |text| + 1 && s - 1 <= Spaces(text) && c == At(text, s - 1)
      invariant IsSpace(c) ==> s - 1 < Spaces(text)
      invariant !IsSpace(c) ==> s - 1 == Spaces(text)
      decreases |text| - s
    {
      SpacesAt(text, s);
      c := At(text, s);
      s := s + 1;
    }
    NotAtEnd(text, s - 1);
    LayoutCases(text, base0);
    if c == MINUS {
      neg := true;
      c := At(text, s);
      s := s + 1;
    } else if c == PLUS {
      c := At(text, s);
      s := s + 1;
    }
    NotAtEnd(text, s - 1);
    if s <= |text| { NotAtEnd(text, s); }
    if (base == 0 || base == 16) && c == ZERO && (At(text, s) == LOWER_X || At(text, s) == UPPER_X) {
      c := At(text, s + 1);
      s := s + 2;
      base := 16;
    }
    if base == 0 { base := if c == ZERO then 8 else 10; }
    ghost var l := LayoutOf(text, base0);
    assert l == Layout(neg, base, s - 1) && 2 <= base <= 36;

    var limit := if neg then TWO32 - (LONG_MIN + TWO32) else LONG_MAX;
    var cutlim := Rem(limit, base);
    var cutoff := Quo(limit, base);
    var acc, any := 0, 0;
    ghost var k := 0;
    HeldAtStart(text, l, limit);
    while true
      invariant s == l.first + k + 1 <= |text| + 1
      invariant Held(text, l, k, limit, acc, any)
      invariant c == At(text, s - 1)
      decreases |text| - k
    {
      var d;
      if 48 <= c <= 57 { d := c - 48; }
      else if 65 <= c <= 90 { d := c - 1; }
      else if 97 <= c <= 122 { d := c - 87; }
      else { NoDigit(c); break; }
      if d >= base { DigitOf(c); break; }
      DigitOf(c);
      HeldStep(text, l, k, limit, acc, any, d);
      if any < 0 || acc > cutoff || (acc == cutoff && d > cutlim) {
        any := -1;
      } else {
        any := 1;
        acc := Times(acc, base) % TWO32;
        acc := (acc + d) % TWO32;
      }
      k := k + 1;
      c := At(text, s);
      s := s + 1;
    }
    HeldAtEnd(text, l, k, limit, acc, any);
    if any < 0 {
      acc := if neg then LONG_MIN + TWO32 else LONG_MAX;
    } else if neg {
      acc := (TWO32 - acc) % TWO32;
    }
    Saturates(text, base0, k, acc, any);
    return ToLong(acc), if any != 0 then s - 1 else 0;
  }

  // ---------------------------------------------------------------- itoa

  /** The digits of v, most significant first. */
  function Numeral(v: nat, radix: nat): (text: seq<Char>)
    requires 2 <= radix <= 36
    ensures |text| > 0
  {
    Quotient(v, radix);
    (if v < radix then [] else Numeral(v / radix, radix)) + [DigitChar(v % radix)]
  }

  /** What `itoa` prints the digits of: the `unsigned` value, negated first for a negative decimal. */
  function Magnitude(value: int, radix: nat): nat {
    (if radix == 10 && value < 0 then -value else value) % TWO32
  }

  function Printed(value: int, radix: nat): seq<Char>
    requires 2 <= radix <= 36
  {
    (if radix == 10 && value < 0 then [MINUS] else []) + Numeral(Magnitude(value, radix), radix)
  }

  function Power(b: nat, n: nat): nat { if n == 0 then 1 else b * Power(b, n - 1) }

  predicate IsLong(value: int) { LONG_MIN <= value <= LONG_MAX }

  /** n digits hold exactly the numbers below the n-th power. */
  lemma {:induction false} DigitCount(v: nat, radix: nat, n: nat)
    requires 2 <= radix <= 36 && n > 0
    ensures |Numeral(v, radix)| <= n <==> v < Power(radix, n)
    decreases v
  {
    if n == 1 {
      assert Power(radix, 1) == radix * Power(radix, 0) == radix;
    } else if v < radix {
      PowerAtLeast(radix, n);
    } else {
      Quotient(v, radix);
      DigitCount(v / radix, radix, n - 1);
      DivBelow(v, radix, Power(radix, n - 1));
    }
  }

  lemma PowerAtLeast(b: nat, n: nat)
    requires b > 0 && n > 0
    ensures Power(b, n) >= b
  {
    if n > 1 { PowerAtLeast(b, n - 1); MulLe(1, b, Power(b, n - 1)); }
  }

  lemma Quotient(v: nat, d: nat)
    requires d >= 2
    ensures 0 <= v % d < d && v == v / d * d + v % d
    ensures if v < d then v / d == 0 && v % d == v else 0 < v / d < v
  {
    if v >= d { MulLe(2, d, v / d); }
  }

  lemma DivBelow(v: nat, d: nat, p: nat)
    requires d > 0
    ensures v / d < p <==> v < d * p
  {
    var q, r := v / d, v % d;
    assert v == q * d + r;
    if q < p { MulLe(q + 1, p, d); } else { MulLe(p, q, d); }
  }

  /** From radix 4 on, sixteen digits are enough for every `int`. */
  lemma SixteenSuffice(value: int, radix: nat)
    requires 4 <= radix <= 36 && IsLong(value)
    ensures Magnitude(value, radix) < Power(radix, 16)
  {
    PowerGrows(4, radix, 16);
    assert Power(4, 8) == 0x1_0000;
    assert Power(4, 16) == 0x1_0000 * Power(4, 8);
  }

  lemma {:induction false} PowerGrows(a: nat, b: nat, n: nat)
    requires a <= b
    ensures Power(a, n) <= Power(b, n)
  {
    if n > 0 {
      PowerGrows(a, b, n - 1);
      MulLe(a, b, Power(a, n - 1));
      MulLe(Power(a, n - 1), Power(b, n - 1), b);
    }
  }

  /** Prints into `sp`. The scratch digits are least significant first; `tmp` holds sixteen. */
  method Itoa(value: int, sp: array<Char>, radix: nat) returns (len: nat)
    requires 2 <= radix <= 36 && IsLong(value)
    requires Magnitude(value, radix) < Power(radix, 16)
    requires |Printed(value, radix)| < sp.Length
    modifies sp
    ensures len == |Printed(value, radix)|
    ensures sp[..len] == Printed(value, radix) && sp[len] == 0
    ensures forall k :: len < k < sp.Length ==> sp[k] == old(sp[k])
  {
    hide Numeral, Power, Printed, Magnitude;
    PrintedSplits(value, radix);
    var sign := radix == 10 && value < 0;
    var v: nat := (if sign then 0 - value else value) % TWO32;
    var tmp := new Char[16];
    ghost var digits := Numeral(v, radix);
    DigitCount(v, radix, 16);
    var tp := Scratch(v, radix, tmp);
    len := tp;
    var at := 0;
    if sign {
      sp[0] := MINUS;
      at := 1;
      len := len + 1;
    }
    ghost var n, first := tp, at;
    while tp > 0
      invariant tp + at == len == first + n && 0 <= tp <= n
      invariant sign ==> sp[0] == MINUS
      invariant forall k :: 0 <= k < n ==> tmp[k] == digits[n - 1 - k]
      invariant forall k :: 0 <= k < n - tp ==> sp[first + k] == digits[k]
      invariant forall k :: len < k < sp.Length ==> sp[k] == old(sp[k])
    {
      tp := tp - 1;
      sp[at] := tmp[tp];
      at := at + 1;
    }
    sp[at] := 0;
    Joined(sp[..], first, digits);
  }

  lemma Joined(s: seq<Char>, first: nat, digits: seq<Char>)
    requires first <= 1 && first + |digits| <= |s| && (first == 1 ==> s[0] == MINUS)
    requires forall k :: 0 <= k < |digits| ==> s[first + k] == digits[k]
    ensures s[..first + |digits|] == (if first == 1 then [MINUS] else []) + digits
  {}

  /** The first loop of `itoa`: the digits into the scratch buffer, least significant first. */
  method Scratch(value: nat, radix: nat, tmp: array<Char>) returns (tp: nat)
    requires 2 <= radix <= 36 && |Numeral(value, radix)| <= tmp.Length
    modifies tmp
    ensures tp == |Numeral(value, radix)| && forall k :: 0 <= k < tp ==> tmp[k] == Numeral(value, radix)[tp - 1 - k]
  {
    hide Numeral, Reverse, IsTail, DigitChar, Quo, Rem;
    tp := 0;
    var v := value;
    ghost var digits := Numeral(v, radix);
    TailStart(v, radix);
    while v != 0 || tp == 0
      invariant tp <= tmp.Length && IsTail(digits, v, radix, tmp[..tp])
      decreases v, if tp == 0 then 1 else 0
    {
      TailStep(digits, v, radix, tmp[..tp]);
      ghost var before := tmp[..tp];
      var i := Rem(v, radix);
      v := Quo(v, radix);
      tmp[tp] := DigitChar(i);
      tp := tp + 1;
      assert tmp[..tp] == before + [DigitChar(i)];
    }
    TailEnds(digits, radix, tmp[..tp]);
    assert forall k :: 0 <= k < tp ==> tmp[k] == tmp[..tp][k] == digits[tp - 1 - k];
  }

  lemma PrintedSplits(value: int, radix: nat)
    requires 2 <= radix <= 36
    ensures var sign := radix == 10 && value < 0;
            && Magnitude(value, radix) == (if sign then 0 - value else value) % TWO32
            && Printed(value, radix) == (if sign then [MINUS] else []) + Numeral(Magnitude(value, radix), radix)
  {}

  function Reverse(s: seq<Char>): (r: seq<Char>)
    ensures |r| == |s|
  {
    if s == [] then [] else Reverse(s[1..]) + [s[0]]
  }

  lemma {:induction false} ReverseAt(s: seq<Char>, k: nat)
    requires k < |s|
    ensures Reverse(s)[k] == s[|s| - 1 - k]
  {
    if |s| > 1 { ReverseAt(s[1..], if k < |s| - 1 then k else 0); }
  }

  /** The digits so far, turned around, end the numeral; what v still holds comes before them. */
  ghost predicate IsTail(numeral: seq<Char>, v: nat, radix: nat, digits: seq<Char>)
    requires 2 <= radix <= 36
  {
    numeral == (if v == 0 && digits != [] then [] else Numeral(v, radix)) + Reverse(digits)
  }

  lemma TailStart(v: nat, radix: nat)
    requires 2 <= radix <= 36
    ensures IsTail(Numeral(v, radix), v, radix, [])
  {}

  lemma TailEnds(numeral: seq<Char>, radix: nat, digits: seq<Char>)
    requires 2 <= radix <= 36 && digits != [] && IsTail(numeral, 0, radix, digits)
    ensures |numeral| == |digits| && forall k :: 0 <= k < |numeral| ==> numeral[k] == digits[|digits| - 1 - k]
  {
    forall k | 0 <= k < |numeral| ensures numeral[k] == digits[|digits| - 1 - k] { ReverseAt(digits, k); }
  }

  lemma TailStep(numeral: seq<Char>, v: nat, radix: nat, digits: seq<Char>)
    requires 2 <= radix <= 36 && (v != 0 || digits == []) && IsTail(numeral, v, radix, digits)
    ensures Rem(v, radix) < 36 && IsTail(numeral, Quo(v, radix), radix, digits + [DigitChar(Rem(v, radix))])
    ensures |digits| < |numeral| && Quo(v, radix) <= v && (v != 0 ==> Quo(v, radix) < v)
  {
    Quotient(v, radix);
    NumeralSplits(v, radix);
    hide Numeral, DigitChar, Reverse;
    var c := DigitChar(v % radix);
    ReverseAppend(digits, c);
    var front := if v < radix then [] else Numeral(v / radix, radix);
    assert front + [c] + Reverse(digits) == front + ([c] + Reverse(digits));
  }

  lemma NumeralSplits(v: nat, radix: nat)
    requires 2 <= radix <= 36
    ensures Numeral(v, radix) == (if v < radix then [] else Numeral(v / radix, radix)) + [DigitChar(v % radix)]
  {}

  lemma {:induction false} ReverseAppend(s: seq<Char>, c: Char)
    ensures Reverse(s + [c]) == [c] + Reverse(s)
  {
    if s != [] {
      ReverseAppend(s[1..], c);
      assert (s + [c])[1..] == s[1..] + [c];
    }
  }

  // ---------------------------------------------------------------- the round trip

  /** All of a numeral is digits of its radix, and their value is the number. */
  lemma {:induction false} NumeralReads(v: nat, radix: nat)
    requires 2 <= radix <= 36
    ensures var text := Numeral(v, radix);
            && (forall c <- text :: Digit(c) < radix && c >= 48)
            && Value(text, radix) == v
    decreases v
  {
    Quotient(v, radix);
    NumeralSplits(v, radix);
    if v >= radix { NumeralReads(v / radix, radix); }
    hide Numeral;
    var text, front := Numeral(v, radix), if v < radix then [] else Numeral(v / radix, radix);
    ValueAppend(front, DigitChar(v % radix), radix);
  }

  lemma ValueAppend(front: seq<Char>, c: Char, base: nat)
    ensures Value(front + [c], base) == Value(front, base) * base + Digit(c)
  {
    assert (front + [c])[..|front|] == front;
  }

  lemma {:induction false} AllDigits(text: seq<Char>, base: nat)
    requires forall c <- text :: Digit(c) < base
    ensures DigitRun(text, base) == |text|
  {
    if text != [] { AllDigits(text[1..], base); }
  }

  /** The layout of printed text: at most a sign, then its digits, which never look like a prefix. */
  lemma PrintedLayout(value: int, radix: nat)
    requires 2 <= radix <= 36
    ensures var neg := radix == 10 && value < 0;
            && IsText(Printed(value, radix))
            && LayoutOf(Printed(value, radix), radix) == Layout(neg, radix, if neg then 1 else 0)
  {
    hide Numeral, Value;
    NumeralReads(Magnitude(value, radix), radix);
    var text := Printed(value, radix);
    var digits := Numeral(Magnitude(value, radix), radix);
    assert digits[0] in digits && text[|text| - |digits|] == digits[0];
    if |digits| > 1 { assert digits[1] in digits && text[|text| - |digits| + 1] == digits[1]; }
    LayoutCases(text, radix);
  }

  /** All of printed text after the sign is the digit run. */
  lemma PrintedDigits(value: int, radix: nat)
    requires 2 <= radix <= 36
    ensures var text, m := Printed(value, radix), Magnitude(value, radix);
            var first := if radix == 10 && value < 0 then 1 else 0;
            && LayoutOf(text, radix) == Layout(radix == 10 && value < 0, radix, first)
            && first < |text| && text[first..] == Numeral(m, radix) && DigitRun(text[first..], radix) == |text| - first
            && Value(text[first..first + (|text| - first)], radix) == m
  {
    var text, m := Printed(value, radix), Magnitude(value, radix);
    PrintedLayout(value, radix);
    NumeralReads(m, radix);
    hide Numeral, Value, LayoutOf, DigitRun, Magnitude;
    var first := if radix == 10 && value < 0 then 1 else 0;
    assert text[first..] == Numeral(m, radix);
    assert text[first..first + (|text| - first)] == text[first..];
    AllDigits(Numeral(m, radix), radix);
  }

  lemma PrintedIsIso(value: int, radix: nat)
    requires 2 <= radix <= 36
    ensures IsoParse(Printed(value, radix), radix) == Parse(Printed(value, radix), radix)
  {
    hide Printed, Numeral, Value, LayoutOf, IsoParse, Parse, DigitRun, Magnitude, PrefixRead, IsoDigit;
    PrintedDigits(value, radix);
    IsoExactly(Printed(value, radix), radix);
    NulIsNoDigit();
  }

  lemma NulIsNoDigit()
    ensures IsoDigit(0) == 36
  {}

  /** Printing and parsing back gives the value exactly for decimal text or a value that is not negative; a
      negative value in another radix is printed as its `unsigned` reading and saturates. All of the text is
      read either way, and the standard reads it alike. */
  lemma PrintThenParse(value: int, radix: nat)
    requires 2 <= radix <= 36 && -0x8000_0000 <= value <= 0x7FFF_FFFF
    ensures IsText(Printed(value, radix))
    ensures Parse(Printed(value, radix), radix)
            == Parsed(if radix == 10 || value >= 0 then value else LONG_MAX, |Printed(value, radix)|)
    ensures IsoParse(Printed(value, radix), radix) == Parse(Printed(value, radix), radix)
  {
    hide Printed, Numeral, Value, LayoutOf, IsoParse, DigitRun;
    PrintedLayout(value, radix);
    PrintedIsIso(value, radix);
    PrintedDigits(value, radix);
  }

  // ---------------------------------------------------------------- ISO C11, section 7.22.1.4

  /** The white space of the C locale. */
  predicate IsoSpace(c: Char) {
    c == ' ' as int || c == '\t' as int || c == '\n' as int || c == '\U{B}' as int || c == '\U{C}' as int || c == '\r' as int
  }

  /** Letters of either case are digits. */
  function IsoDigit(c: Char): (d: nat)
    ensures d <= 36
  {
    if '0' as int <= c <= '9' as int then c - '0' as int
    else if 'a' as int <= c <= 'z' as int then c - 'a' as int + 10
    else if 'A' as int <= c <= 'Z' as int then c - 'A' as int + 10
    else 36
  }

  function IsoSpaces(text: seq<Char>): (n: nat)
    ensures n <= |text|
  {
    if text != [] && IsoSpace(text[0]) then 1 + IsoSpaces(text[1..]) else 0
  }

  function IsoRun(text: seq<Char>, base: nat): (n: nat)
    ensures n <= |text|
  {
    if text != [] && IsoDigit(text[0]) < base then 1 + IsoRun(text[1..], base) else 0
  }

  function IsoValue(digits: seq<Char>, base: nat): nat {
    if digits == [] then 0
    else IsoValue(digits[..|digits| - 1], base) * base + IsoDigit(digits[|digits| - 1])
  }

  predicate IsoPrefix(text: seq<Char>, p: nat, base: nat) {
    (base == 0 || base == 16) && p + 1 < |text| && text[p] == '0' as int
    && (text[p + 1] == 'x' as int || text[p + 1] == 'X' as int)
    && p + 2 < |text| && IsoDigit(text[p + 2]) < 16
  }

  /** A prefix needs a digit after it; without one, the number is its 0. */
  function IsoLayout(text: seq<Char>, base: nat): (l: Layout)
    ensures l.first <= |text|
  {
    var w := IsoSpaces(text);
    var neg := w < |text| && text[w] == '-' as int;
    var p := if w < |text| && (text[w] == '-' as int || text[w] == '+' as int) then w + 1 else w;
    if IsoPrefix(text, p, base) then Layout(neg, 16, p + 2)
    else if base == 0 then Layout(neg, if p < |text| && text[p] == '0' as int then 8 else 10, p)
    else Layout(neg, base, p)
  }

  /** Out of range, the nearest `long`. */
  function IsoLong(x: int): int {
    if x > 2147483647 then 2147483647 else if x < -2147483648 then -2147483648 else x
  }

  function IsoParse(text: seq<Char>, base: nat): Parsed {
    var l := IsoLayout(text, base);
    var n := IsoRun(text[l.first..], l.base);
    var v: int := IsoValue(text[l.first..l.first + n], l.base);
    if n == 0 then Parsed(0, 0) else Parsed(IsoLong(if l.neg then -v else v), l.first + n)
  }

  lemma {:induction false} SpacesAgree(text: seq<Char>)
    ensures IsoSpaces(text) == Spaces(text)
  {
    if text != [] { SpacesAgree(text[1..]); }
  }

  lemma {:induction false} RunsAgree(text: seq<Char>, base: nat)
    ensures var n := DigitRun(text, base);
            if n < |text| && IsoDigit(text[n]) < base then IsoRun(text, base) > n else IsoRun(text, base) == n
  {
    if text != [] && Digit(text[0]) < base {
      RunsAgree(text[1..], base);
    }
  }

  lemma {:induction false} ValuesAgree(digits: seq<Char>, base: nat)
    requires DigitRun(digits, base) == |digits| && base <= 36
    ensures IsoValue(digits, base) == Value(digits, base)
  {
    var n := |digits|;
    if n > 0 {
      AllOfRun(digits, base, n - 1);
      PartOfRun(digits, base, n - 1);
      ValuesAgree(digits[..n - 1], base);
    }
  }

  lemma {:induction false} AllOfRun(text: seq<Char>, base: nat, k: nat)
    requires k < DigitRun(text, base)
    ensures Digit(text[k]) < base
  {
    if k > 0 { AllOfRun(text[1..], base, k - 1); }
  }

  lemma {:induction false} PartOfRun(text: seq<Char>, base: nat, k: nat)
    requires k <= DigitRun(text, base)
    ensures DigitRun(text[..k], base) == k
  {
    if k > 0 {
      PartOfRun(text[1..], base, k - 1);
      assert text[..k][1..] == text[1..][..k - 1];
    }
  }

  /** `strtol` is the standard's exactly when its digit run is not ended by an upper-case digit, and a prefix
      has a digit after it. */
  lemma IsoExactly(text: seq<Char>, base: nat)
    requires base == 0 || 2 <= base <= 36
    ensures var l := LayoutOf(text, base);
            var n := DigitRun(text[l.first..], l.base);
            && l.first + n <= |text|
            && (Parse(text, base) == IsoParse(text, base)
                <==> IsoDigit(At(text, l.first + n)) >= l.base && !(PrefixRead(text, base) && n == 0))
  {
    ClampAgrees();
    hide Spaces, Value, IsoValue, Clamp, IsoLong, LayoutOf, IsoLayout, HexPrefix, PrefixRead, Digit, IsoDigit, DigitRun, IsoRun;
    var l := LayoutOf(text, base);
    var n := DigitRun(text[l.first..], l.base);
    PrefixBase(text, base);
    if PrefixRead(text, base) && n == 0 && IsoDigit(At(text, l.first)) >= 16 {
      BarePrefix(text, base);
    } else {
      SameLayout(text, base);
      SameRun(text, l.first, l.base);
    }
  }

  lemma ClampAgrees()
    ensures forall x: int :: Clamp(x) == IsoLong(x)
  {}

  lemma PrefixBase(text: seq<Char>, base: nat)
    ensures PrefixRead(text, base) ==> LayoutOf(text, base).base == 16
  {}

  /** From a common start, the runs and their values differ exactly when an upper-case digit comes next. */
  lemma SameRun(text: seq<Char>, first: nat, base: nat)
    requires first <= |text| && 2 <= base <= 36
    ensures var n := DigitRun(text[first..], base);
            && first + n <= |text|
            && if IsoDigit(At(text, first + n)) < base then IsoRun(text[first..], base) > n
               else IsoRun(text[first..], base) == n
                    && IsoValue(text[first..first + n], base) == Value(text[first..first + n], base)
  {
    hide DigitRun, IsoRun, Value, IsoValue;
    var t := text[first..];
    var n := DigitRun(t, base);
    RunsAgree(t, base);
    PartOfRun(t, base, n);
    assert t[..n] == text[first..first + n];
    ValuesAgree(t[..n], base);
  }

  /** Whether a hexadecimal prefix is taken. */
  predicate PrefixRead(text: seq<Char>, base: nat) {
    var w := Spaces(text);
    HexPrefix(text, if At(text, w) == MINUS || At(text, w) == PLUS then w + 1 else w, base)
  }

  lemma SameLayout(text: seq<Char>, base: nat)
    requires base == 0 || 2 <= base <= 36
    requires PrefixRead(text, base) ==>
               DigitRun(text[LayoutOf(text, base).first..], 16) > 0 || IsoDigit(At(text, LayoutOf(text, base).first)) < 16
    ensures IsoLayout(text, base) == LayoutOf(text, base) && 2 <= LayoutOf(text, base).base <= 36
  {
    SpacesAgree(text);
    hide Spaces, IsoSpaces;
  }

  lemma BarePrefix(text: seq<Char>, base: nat)
    requires PrefixRead(text, base) && IsoDigit(At(text, LayoutOf(text, base).first)) >= 16
    ensures IsoParse(text, base).end > 0
  {
    SpacesAgree(text);
    hide Spaces, IsoSpaces, IsoValue, IsoLong;
    var i := IsoLayout(text, base);
    assert text[i.first..][0] == ZERO && IsoDigit(ZERO) == 0;
  }

  /** The two ways to differ: a prefix without a digit, read to its 0 by the standard and not at all here, and
      an upper-case digit, which is 10 to the standard. */
  lemma NotIso()
    ensures Parse([ZERO, LOWER_X], 16) == Parsed(0, 0) && IsoParse([ZERO, LOWER_X], 16) == Parsed(0, 1)
    ensures Parse([65], 16) == Parsed(0, 0) && IsoParse([65], 16) == Parsed(10, 1)
  {
    var zx: seq<Char>, upper: seq<Char> := [ZERO, LOWER_X], [65];
    assert Spaces(zx) == 0 && Spaces(upper) == 0 && IsoSpaces(zx) == 0 && IsoSpaces(upper) == 0;
    assert IsoLayout(zx, 16) == Layout(false, 16, 0) && zx[0..] == zx && zx[1..] == [LOWER_X];
    assert IsoRun(zx, 16) == 1 + IsoRun(zx[1..], 16) == 1;
    assert zx[0..1] == [ZERO] && IsoValue([ZERO], 16) == 0;
    assert IsoLayout(upper, 16) == Layout(false, 16, 0) && upper[0..] == upper && upper[0..1] == upper;
    assert IsoRun(upper, 16) == 1 && IsoValue(upper, 16) == 10;
  }
}
