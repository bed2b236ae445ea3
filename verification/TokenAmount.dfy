/** Token amounts as decimal strings: an integer amount with the decimal point put in, padded or trimmed. */
module TokenAmount {
  import opened Arithmetic
  import opened Wrappers

  function Pow10(n: nat): (r: nat)
    ensures r >= 1
  {
    if n == 0 then 1 else 10 * Pow10(n - 1)
  }

  // ---------------------------------------------------------------------------------------------
  // Digits

  predicate IsDigit(c: char) {
    '0' <= c <= '9'
  }

  predicate AllDigits(s: string) {
    forall i :: 0 <= i < |s| ==> IsDigit(s[i])
  }

  function DigitChar(d: nat): (c: char)
    requires d < 10
    ensures IsDigit(c) && DigitValue(c) == d
  {
    ('0' as int + d) as char
  }

  function DigitValue(c: char): (d: nat)
    requires IsDigit(c)
    ensures d < 10
  {
    c as int - '0' as int
  }

  /** The decimal digits of a number, without leading zeros. */
  function ToDigits(n: nat): (s: string)
    ensures s != [] && AllDigits(s)
    ensures |s| > 1 ==> s[0] != '0'
  {
    if n < 10 then [DigitChar(n)] else ToDigits(n / 10) + [DigitChar(n % 10)]
  }

  /** The number that digits denote. */
  function DigitsValue(s: string): nat
    requires AllDigits(s)
  {
    if s == [] then 0 else 10 * DigitsValue(s[..|s| - 1]) + DigitValue(s[|s| - 1])
  }

  lemma {:induction false} ToDigitsValue(n: nat)
    ensures DigitsValue(ToDigits(n)) == n
  {
    if n < 10 {
      assert ToDigits(n)[..0] == [];
    } else {
      ToDigitsValue(n / 10);
      assert ToDigits(n)[..|ToDigits(n)| - 1] == ToDigits(n / 10);
    }
  }

  /** No superfluous zero in front. */
  predicate Canonical(s: string) {
    s != [] && AllDigits(s) && (|s| > 1 ==> s[0] != '0')
  }

  lemma {:induction false} CanonicalIsPositive(s: string)
    requires Canonical(s) && |s| > 1
    ensures DigitsValue(s) >= 10
    decreases |s|
  {
    var front := s[..|s| - 1];
    if |front| > 1 {
      CanonicalIsPositive(front);
    } else {
      assert front[..0] == [] && DigitsValue(front) == DigitValue(s[0]);
    }
  }

  /** A number has exactly one spelling in digits without superfluous zeros, the one that is printed. */
  lemma {:induction false} ToDigitsUnique(s: string)
    requires Canonical(s)
    ensures ToDigits(DigitsValue(s)) == s
    decreases |s|
  {
    var front, last := s[..|s| - 1], s[|s| - 1];
    assert s == front + [last];
    if |s| == 1 {
      assert DigitsValue(front) == 0;
    } else {
      CanonicalIsPositive(s);
      ToDigitsUnique(front);
      assert DigitsValue(s) / 10 == DigitsValue(front) && DigitsValue(s) % 10 == DigitValue(last);
    }
  }

  function Zeros(n: nat): (s: string)
    ensures |s| == n && AllDigits(s) && forall i :: 0 <= i < n ==> s[i] == '0'
  {
    seq(n, _ => '0')
  }

  /** Zeros on the left, up to a given width. */
  function PadLeft(s: string, width: nat): (r: string)
    requires AllDigits(s)
    ensures AllDigits(r) && |r| >= width && |r| >= |s|
  {
    Zeros(if |s| < width then width - |s| else 0) + s
  }

  lemma {:induction false} LeadingZeros(n: nat, s: string)
    requires AllDigits(s)
    ensures AllDigits(Zeros(n) + s) && DigitsValue(Zeros(n) + s) == DigitsValue(s)
    decreases |s| + n
  {
    if s == [] {
      if n > 0 {
        assert (Zeros(n) + s)[..n - 1] == Zeros(n - 1) + s;
        LeadingZeros(n - 1, s);
      } else {
        assert Zeros(n) + s == [];
      }
    } else {
      var k := |s| - 1;
      assert (Zeros(n) + s)[..n + k] == Zeros(n) + s[..k];
      LeadingZeros(n, s[..k]);
    }
  }

  // ---------------------------------------------------------------------------------------------
  // Printing

  function RealNumberString(amount: nat, decimals: nat): (s: string) {
    if decimals > 0 then
      var s := PadLeft(ToDigits(amount), decimals + 1);
      s[..|s| - decimals] + "." + s[|s| - decimals..]
    else ToDigits(amount)
  }

  function TrimEnd(s: string, c: char): (r: string)
    ensures |r| <= |s| && r == s[..|r|]
    ensures r != [] ==> r[|r| - 1] != c
    ensures forall i :: |r| <= i < |s| ==> s[i] == c
  {
    if s != [] && s[|s| - 1] == c then TrimEnd(s[..|s| - 1], c) else s
  }

  function RealNumberStringTrimmed(amount: nat, decimals: nat): (s: string) {
    if decimals > 0 then TrimEnd(TrimEnd(RealNumberString(amount, decimals), '0'), '.')
    else RealNumberString(amount, decimals)
  }

  // ---------------------------------------------------------------------------------------------
  // Printing into buffers

  /** Digits from the last to the first. */
  method WriteDigits(amount: nat) returns (s: string)
    ensures s == ToDigits(amount)
  {
    s := [DigitChar(amount % 10)];
    var n := amount / 10;
    while n > 0
      invariant ToDigits(amount) == (if n > 0 then ToDigits(n) else []) + s
    {
      s := [DigitChar(n % 10)] + s;
      n := n / 10;
    }
  }

  method FormatPadded(amount: nat, width: nat) returns (s: string)
    ensures s == PadLeft(ToDigits(amount), width)
  {
    var digits := WriteDigits(amount);
    s := digits;
    while |s| < width
      invariant |digits| <= |s| && (|s| <= width || s == digits)
      invariant s == Zeros(|s| - |digits|) + digits
    {
      s := ['0'] + s;
    }
  }

  /** Moves the tail of the buffer up by one, from the end, and writes into the gap. */
  method InsertPoint(s: string, at: nat) returns (buffer: array<char>)
    requires at <= |s|
    ensures fresh(buffer) && buffer[..] == s[..at] + "." + s[at..]
  {
    buffer := new char[|s| + 1];
    for i := 0 to |s|
      invariant forall j :: 0 <= j < i ==> buffer[j] == s[j]
    {
      buffer[i] := s[i];
    }
    for k := |s| downto at
      invariant forall j :: 0 <= j < |s| && j <= k ==> buffer[j] == s[j]
      invariant forall j :: k < j <= |s| ==> buffer[j] == s[j - 1]
    {
      buffer[k + 1] := buffer[k];
    }
    buffer[at] := '.';
  }

  /** Steps back from the end over the characters to be trimmed. */
  method TrimEndMatches(s: string, c: char) returns (r: string)
    ensures r == TrimEnd(s, c)
  {
    var n := |s|;
    while n > 0 && s[n - 1] == c
      invariant 0 <= n <= |s| && forall i :: n <= i < |s| ==> s[i] == c
    {
      n := n - 1;
    }
    assert n == |TrimEnd(s, c)|;
    r := s[..n];
  }

  method PrintRealNumber(amount: nat, decimals: nat) returns (s: string)
    ensures s == RealNumberString(amount, decimals)
  {
    if decimals > 0 {
      s := FormatPadded(amount, decimals + 1);
      var buffer := InsertPoint(s, |s| - decimals);
      s := buffer[..];
    } else {
      s := FormatPadded(amount, 0);
    }
  }

  method PrintRealNumberTrimmed(amount: nat, decimals: nat) returns (s: string)
    ensures s == RealNumberStringTrimmed(amount, decimals)
  {
    s := PrintRealNumber(amount, decimals);
    if decimals > 0 {
      var zerosTrimmed := TrimEndMatches(s, '0');
      s := TrimEndMatches(zerosTrimmed, '.');
    }
  }

  // ---------------------------------------------------------------------------------------------
  // Reading back

  /** A numeral: digits, and if there is a point, more digits after it. */
  datatype Numeral = Numeral(whole: string, fraction: Option<string>)

  ghost predicate Spells(s: string, numeral: Numeral) {
    && AllDigits(numeral.whole) && numeral.whole != []
    && match numeral.fraction
       case None => s == numeral.whole
       case Some(f) => AllDigits(f) && f != [] && s == numeral.whole + "." + f
  }

  lemma OnlyPoint(s: string, n: Numeral)
    requires Spells(s, n)
    ensures forall k :: 0 <= k < |s| && (n.fraction.Some? ==> k != |n.whole|) ==> IsDigit(s[k])
    ensures n.fraction.Some? ==> |n.whole| < |s| && s[|n.whole|] == '.'
  {
    if n.fraction.Some? {
      var w, f := n.whole, n.fraction.value;
      forall k | 0 <= k < |s| && k != |w| ensures IsDigit(s[k]) {
        if k < |w| {
          assert s[k] == w[k];
        } else {
          assert s[k] == f[k - |w| - 1];
        }
      }
    }
  }

  /** A string spells at most one numeral. */
  lemma SpellsUnique(s: string, a: Numeral, b: Numeral)
    requires Spells(s, a) && Spells(s, b)
    ensures a == b
  {
    OnlyPoint(s, a);
    OnlyPoint(s, b);
    if a.fraction.Some? {
      assert |a.whole| == |b.whole|;
      assert a.whole == s[..|a.whole|] && b.whole == s[..|b.whole|];
      assert a.fraction.value == s[|a.whole| + 1..] && b.fraction.value == s[|b.whole| + 1..];
    }
  }

  ghost function FractionOf(numeral: Numeral): string {
    if numeral.fraction.Some? then numeral.fraction.value else []
  }

  /** The number that a numeral denotes. */
  ghost function Denotes(numeral: Numeral): real
    requires AllDigits(numeral.whole + FractionOf(numeral))
  {
    DigitsValue(numeral.whole + FractionOf(numeral)) as real / Pow10(|FractionOf(numeral)|) as real
  }

  // ---------------------------------------------------------------------------------------------
  // The padded string

  lemma {:induction false} Pow10Sum(a: nat, b: nat)
    ensures Pow10(a + b) == Pow10(a) * Pow10(b)
    decreases b
  {
    if b > 0 {
      Pow10Sum(a, b - 1);
      assert 10 * (Pow10(a) * Pow10(b - 1)) == Pow10(a) * (10 * Pow10(b - 1));
    }
  }

  ghost function PaddedNumeral(amount: nat, decimals: nat): Numeral {
    var s := PadLeft(ToDigits(amount), decimals + 1);
    if decimals > 0 then Numeral(s[..|s| - decimals], Some(s[|s| - decimals..])) else Numeral(ToDigits(amount), None)
  }

  lemma PointSplits(s: string, k: nat)
    requires AllDigits(s) && 0 < k < |s|
    ensures var w, f := s[..|s| - k], s[|s| - k..];
            && Spells(w + "." + f, Numeral(w, Some(f)))
            && |f| == k && w + f == s
  {
  }

  lemma PaddedSpells(amount: nat, decimals: nat)
    ensures Spells(RealNumberString(amount, decimals), PaddedNumeral(amount, decimals))
    ensures AllDigits(PaddedNumeral(amount, decimals).whole + FractionOf(PaddedNumeral(amount, decimals)))
    ensures DigitsValue(PaddedNumeral(amount, decimals).whole + FractionOf(PaddedNumeral(amount, decimals))) == amount
    ensures |FractionOf(PaddedNumeral(amount, decimals))| == decimals
  {
    var n, d := PaddedNumeral(amount, decimals), ToDigits(amount);
    ToDigitsValue(amount);
    if decimals > 0 {
      PointSplits(PadLeft(d, decimals + 1), decimals);
      LeadingZeros(if |d| < decimals + 1 then decimals + 1 - |d| else 0, d);
    } else {
      assert n.whole + FractionOf(n) == d;
    }
  }

  /** Reading back the padded string gives exactly the amount divided by ten to the decimals. */
  lemma PaddedIsExact(amount: nat, decimals: nat)
    ensures Spells(RealNumberString(amount, decimals), PaddedNumeral(amount, decimals))
    ensures AllDigits(PaddedNumeral(amount, decimals).whole + FractionOf(PaddedNumeral(amount, decimals)))
    ensures Denotes(PaddedNumeral(amount, decimals)) == amount as real / Pow10(decimals) as real
  {
    PaddedSpells(amount, decimals);
  }

  // ---------------------------------------------------------------------------------------------
  // The trimmed string

  /** The fraction without its trailing zeros, and no point if nothing is left of it. */
  ghost function TrimmedNumeral(amount: nat, decimals: nat): Numeral {
    var n := PaddedNumeral(amount, decimals);
    if decimals == 0 then n
    else
      var f := TrimEnd(n.fraction.value, '0');
      Numeral(n.whole, if f == [] then None else Some(f))
  }

  lemma {:induction false} TrimEndConcat(a: string, b: string, c: char)
    ensures TrimEnd(b, c) != [] ==> TrimEnd(a + b, c) == a + TrimEnd(b, c)
    ensures TrimEnd(b, c) == [] ==> TrimEnd(a + b, c) == TrimEnd(a, c)
    decreases |b|
  {
    if b == [] {
      assert a + b == a;
    } else if b[|b| - 1] == c {
      assert (a + b)[..|a + b| - 1] == a + b[..|b| - 1];
      TrimEndConcat(a, b[..|b| - 1], c);
    }
  }

  lemma TrimKeeps(s: string, c: char)
    requires s != [] && s[|s| - 1] != c
    ensures TrimEnd(s, c) == s
  {
  }

  lemma TrimPoint(w: string)
    requires w != [] && AllDigits(w)
    ensures TrimEnd(TrimEnd(w + ".", '0'), '.') == w
  {
    TrimKeeps(w + ".", '0');
    TrimKeeps(w, '.');
    assert (w + ".")[..|w + "."| - 1] == w;
  }

  lemma TrimNumber(w: string, f: string)
    requires w != [] && AllDigits(w) && AllDigits(f)
    ensures var t := TrimEnd(f, '0');
            && Spells(TrimEnd(TrimEnd(w + "." + f, '0'), '.'), Numeral(w, if t == [] then None else Some(t)))
            && (t != [] ==> t[|t| - 1] != '0')
  {
    TrimEndConcat(w + ".", f, '0');
    var t := TrimEnd(f, '0');
    if t == [] {
      TrimPoint(w);
    } else {
      TrimKeeps(w + "." + t, '.');
    }
  }

  /**
   What trimming leaves: the whole part with all its zeros, and the fraction down to its last digit
   that is not zero; no point if there is no such digit.
   */
  lemma TrimmedSpells(amount: nat, decimals: nat)
    ensures Spells(RealNumberStringTrimmed(amount, decimals), TrimmedNumeral(amount, decimals))
    ensures TrimmedNumeral(amount, decimals).whole == PaddedNumeral(amount, decimals).whole
    ensures decimals > 0 && TrimmedNumeral(amount, decimals).fraction.Some? ==>
              var f := TrimmedNumeral(amount, decimals).fraction.value; f[|f| - 1] != '0'
  {
    PaddedSpells(amount, decimals);
    if decimals > 0 {
      var n := PaddedNumeral(amount, decimals);
      TrimNumber(n.whole, n.fraction.value);
    }
  }

  lemma TenTimes(v: nat, p: nat)
    ensures 10 * (v * p) == v * (10 * p)
  {
  }

  lemma {:induction false} TrailingZeros(s: string, k: nat)
    requires AllDigits(s) && k <= |s| && forall i :: |s| - k <= i < |s| ==> s[i] == '0'
    ensures AllDigits(s[..|s| - k]) && DigitsValue(s) == DigitsValue(s[..|s| - k]) * Pow10(k)
    decreases k
  {
    if k == 0 {
      assert s[..|s|] == s;
    } else {
      var s' := s[..|s| - 1];
      TrailingZeros(s', k - 1);
      assert s'[..|s'| - (k - 1)] == s[..|s| - k];
      assert DigitsValue(s) == 10 * DigitsValue(s');
      TenTimes(DigitsValue(s[..|s| - k]), Pow10(k - 1));
    }
  }

  lemma QuotientScaled(a: real, b: real, c: real)
    requires b > 0.0 && c > 0.0
    ensures (a * c) / (b * c) == a / b
  {
    var x := a / b;
    assert a == x * b;
    assert a * c == x * (b * c);
    assert b * c > 0.0;
  }

  lemma {:induction false} RealProduct(a: nat, b: nat)
    ensures (a * b) as real == a as real * b as real
    decreases b
  {
    if b > 0 {
      RealProduct(a, b - 1);
      assert a * b == a * (b - 1) + a;
      assert (a * b) as real == (a * (b - 1)) as real + a as real;
      assert b as real == (b - 1) as real + 1.0;
    }
  }

  lemma ScaledBack(m: nat, k: nat, j: nat)
    ensures m as real / Pow10(k) as real == (m * Pow10(j)) as real / Pow10(k + j) as real
  {
    Pow10Sum(k, j);
    RealProduct(m, Pow10(j));
    RealProduct(Pow10(k), Pow10(j));
    QuotientScaled(m as real, Pow10(k) as real, Pow10(j) as real);
  }

  lemma TrimmedScales(amount: nat, decimals: nat)
    ensures var t := TrimmedNumeral(amount, decimals);
            var f := FractionOf(t);
            && AllDigits(t.whole + f)
            && |f| <= decimals
            && DigitsValue(t.whole + f) * Pow10(decimals - |f|) == amount
  {
    PaddedSpells(amount, decimals);
    var p, t := PaddedNumeral(amount, decimals), TrimmedNumeral(amount, decimals);
    if decimals > 0 {
      var f := TrimEnd(p.fraction.value, '0');
      var k := decimals - |f|;
      var s := p.whole + p.fraction.value;
      TrailingZeros(s, k);
      assert s[..|s| - k] == t.whole + FractionOf(t);
    }
  }

  /** Reading back the trimmed string gives exactly the amount divided by ten to the decimals. */
  lemma TrimmedIsExact(amount: nat, decimals: nat)
    ensures Spells(RealNumberStringTrimmed(amount, decimals), TrimmedNumeral(amount, decimals))
    ensures AllDigits(TrimmedNumeral(amount, decimals).whole + FractionOf(TrimmedNumeral(amount, decimals)))
    ensures Denotes(TrimmedNumeral(amount, decimals)) == amount as real / Pow10(decimals) as real
  {
    TrimmedSpells(amount, decimals);
    TrimmedScales(amount, decimals);
    var t := TrimmedNumeral(amount, decimals);
    var f := FractionOf(t);
    ScaledBack(DigitsValue(t.whole + f), |f|, decimals - |f|);
  }

  /** Different amounts never look the same. */
  lemma TrimmedIsInjective(a: nat, b: nat, decimals: nat)
    requires RealNumberStringTrimmed(a, decimals) == RealNumberStringTrimmed(b, decimals)
    ensures a == b
  {
    TrimmedIsExact(a, decimals);
    TrimmedIsExact(b, decimals);
    SpellsUnique(RealNumberStringTrimmed(a, decimals), TrimmedNumeral(a, decimals), TrimmedNumeral(b, decimals));
    SameQuotient(a as real, b as real, Pow10(decimals) as real);
  }

  lemma SameQuotient(a: real, b: real, c: real)
    requires c > 0.0 && a / c == b / c
    ensures a == b
  {
    assert a == (a / c) * c && b == (b / c) * c;
  }

  // ---------------------------------------------------------------------------------------------
  // The whole part is the quotient, the fraction the remainder

  function Quotient(n: nat, d: nat): (q: nat)
    requires d > 0
  {
    assert n < (n + 1) * d by {
      MulAtLeast(n + 1, d);
      MulMonotone(1, d, n + 1);
      assert (n + 1) * d == d * (n + 1);
    }
    QuotientInRange(n, d, n + 1);
    n / d
  }

  lemma {:induction false} DigitsCut(n: nat, k: nat)
    requires k < |ToDigits(n)|
    ensures ToDigits(n)[..|ToDigits(n)| - k] == ToDigits(Quotient(n, Pow10(k)))
    decreases k
  {
    if k == 0 {
      assert n / 1 == n;
    } else {
      assert n >= 10;
      var d := ToDigits(n / 10);
      assert ToDigits(n)[..|d|] == d;
      DigitsCut(n / 10, k - 1);
      assert ToDigits(n)[..|ToDigits(n)| - k] == d[..|d| - (k - 1)];
      DivideTwice(n, k);
    }
  }

  lemma DivideTwice(n: nat, k: nat)
    requires k > 0
    ensures Quotient(n / 10, Pow10(k - 1)) == Quotient(n, Pow10(k))
  {
    var p := Pow10(k - 1);
    var q, r := Quotient(n / 10, p), (n / 10) % p;
    assert n / 10 == q * p + r;
    assert n == 10 * (q * p + r) + n % 10;
    assert n == q * (10 * p) + (10 * r + n % 10);
    assert 0 <= 10 * r + n % 10 < 10 * p;
    DivModUnique(n, 10 * p, q, 10 * r + n % 10);
  }

  /** The whole part that is printed is the quotient, without superfluous zeros. */
  lemma WholePartIsQuotient(amount: nat, decimals: nat)
    requires decimals > 0
    ensures PaddedNumeral(amount, decimals).whole == ToDigits(Quotient(amount, Pow10(decimals)))
  {
    var d := ToDigits(amount);
    if |d| > decimals {
      DigitsCut(amount, decimals);
      assert PadLeft(d, decimals + 1) == d;
    } else {
      ShortIsSmall(amount, decimals);
      var s := PadLeft(d, decimals + 1);
      assert |s| == decimals + 1 && s[..1] == ['0'];
    }
  }

  /** In both printed forms the part before the point starts with a zero only if it is a lone zero. */
  lemma PrintedWholeIsCanonical(amount: nat, decimals: nat)
    ensures Canonical(PaddedNumeral(amount, decimals).whole)
    ensures Canonical(TrimmedNumeral(amount, decimals).whole)
  {
    if decimals > 0 {
      WholePartIsQuotient(amount, decimals);
    }
  }

  /**
   The printed number is determined: it is the quotient spelled without superfluous zeros, followed by exactly
   as many digits as there are decimals, and all the digits together denote the amount.
   */
  lemma PaddedIsTheOnly(amount: nat, decimals: nat, n: Numeral)
    requires Canonical(n.whole) && AllDigits(n.whole + FractionOf(n))
    requires n.fraction.Some? <==> decimals > 0
    requires |FractionOf(n)| == decimals && DigitsValue(n.whole + FractionOf(n)) == amount
    ensures n == PaddedNumeral(amount, decimals)
  {
    var p, all := PaddedNumeral(amount, decimals), n.whole + FractionOf(n);
    assert FractionOf(n) == all[|n.whole|..];
    PaddedSpells(amount, decimals);
    PrintedWholeIsCanonical(amount, decimals);
    SplitDigits(n.whole, FractionOf(n));
    SplitDigits(p.whole, FractionOf(p));
    DigitsBelow(FractionOf(n));
    DigitsBelow(FractionOf(p));
    SameParts(DigitsValue(n.whole), DigitsValue(FractionOf(n)), DigitsValue(p.whole), DigitsValue(FractionOf(p)), Pow10(decimals));
    ToDigitsUnique(n.whole);
    ToDigitsUnique(p.whole);
    SameLengthSameDigits(FractionOf(n), FractionOf(p));
  }

  lemma SameParts(a: nat, b: nat, c: nat, d: nat, p: nat)
    requires b < p && d < p && a * p + b == c * p + d
    ensures a == c && b == d
  {
    DivModUnique(a * p + b, p, a, b);
    DivModUnique(c * p + d, p, c, d);
  }

  lemma {:induction false} SplitDigits(a: string, b: string)
    requires AllDigits(a) && AllDigits(b)
    ensures AllDigits(a + b) && DigitsValue(a + b) == DigitsValue(a) * Pow10(|b|) + DigitsValue(b)
    decreases |b|
  {
    if b == [] {
      assert a + b == a;
    } else {
      var k := |b| - 1;
      assert (a + b)[..|a| + k] == a + b[..k];
      SplitDigits(a, b[..k]);
      TenTimes(DigitsValue(a), Pow10(k));
    }
  }

  lemma {:induction false} DigitsBelow(s: string)
    requires AllDigits(s)
    ensures DigitsValue(s) < Pow10(|s|)
    decreases |s|
  {
    if s != [] {
      DigitsBelow(s[..|s| - 1]);
    }
  }

  lemma {:induction false} SameLengthSameDigits(a: string, b: string)
    requires AllDigits(a) && AllDigits(b) && |a| == |b| && DigitsValue(a) == DigitsValue(b)
    ensures a == b
    decreases |a|
  {
    if a != [] {
      var k := |a| - 1;
      assert a == a[..k] + [a[k]] && b == b[..k] + [b[k]];
      assert DigitsValue(a[..k]) == DigitsValue(b[..k]) && DigitValue(a[k]) == DigitValue(b[k]);
      SameLengthSameDigits(a[..k], b[..k]);
    }
  }

  lemma {:induction false} ShortIsSmall(n: nat, k: nat)
    requires |ToDigits(n)| <= k
    ensures n < Pow10(k) && Quotient(n, Pow10(k)) == 0
    decreases k
  {
    if n >= 10 {
      ShortIsSmall(n / 10, k - 1);
    } else {
      assert Pow10(k) == 10 * Pow10(k - 1);
    }
    DivModUnique(n, Pow10(k), 0, n);
  }

  // ---------------------------------------------------------------------------------------------
  // The record

  datatype UiTokenAmount = UiTokenAmount(decimals: nat, amount: string, uiAmountString: string)

  function ToUiAmount(amount: nat, decimals: nat): UiTokenAmount {
    UiTokenAmount(decimals, ToDigits(amount), RealNumberStringTrimmed(amount, decimals))
  }

  /** Parsing a 64-bit number, with or without a plus sign; anything else becomes the default, zero. */
  function ParseOrDefault(s: string): nat {
    var digits := if s != [] && s[0] == '+' then s[1..] else s;
    if digits != [] && AllDigits(digits) && DigitsValue(digits) < U64 then DigitsValue(digits) else 0
  }

  ghost predicate Reads(s: string, n: nat) {
    exists digits :: digits != [] && AllDigits(digits) && DigitsValue(digits) == n && (s == digits || s == "+" + digits)
  }

  /** Digits that denote a 64-bit number are read as that number, and nothing else is read. */
  lemma ParseReads(s: string)
    ensures forall n: nat :: n < U64 && Reads(s, n) ==> ParseOrDefault(s) == n
    ensures (forall n: nat :: n < U64 ==> !Reads(s, n)) ==> ParseOrDefault(s) == 0
  {
    forall n: nat | n < U64 && Reads(s, n) ensures ParseOrDefault(s) == n {
      var digits :| digits != [] && AllDigits(digits) && DigitsValue(digits) == n && (s == digits || s == "+" + digits);
      if s == digits {
        assert IsDigit(s[0]);
      } else {
        assert s[1..] == digits;
      }
    }
    var digits := if s != [] && s[0] == '+' then s[1..] else s;
    if digits != [] && AllDigits(digits) && DigitsValue(digits) < U64 {
      assert s == digits || s == "+" + digits;
      assert Reads(s, DigitsValue(digits));
    }
  }

  function UiRealNumberString(u: UiTokenAmount): string {
    RealNumberString(ParseOrDefault(u.amount), u.decimals)
  }

  function UiRealNumberStringTrimmed(u: UiTokenAmount): string {
    if u.uiAmountString != [] then u.uiAmountString
    else RealNumberStringTrimmed(ParseOrDefault(u.amount), u.decimals)
  }

  /** A stored string is given back as it is; without one the amount is printed. */
  lemma StoredStringComesFirst(u: UiTokenAmount)
    ensures UiRealNumberStringTrimmed(u) ==
            if |u.uiAmountString| > 0 then u.uiAmountString
            else UiRealNumberStringTrimmed(ToUiAmount(ParseOrDefault(u.amount), u.decimals))
  {
    TrimmedSpells(ParseOrDefault(u.amount), u.decimals);
  }

  /** The record gives back both strings of every 64-bit amount. */
  lemma UiAmountRoundTrip(amount: nat, decimals: nat)
    requires amount < U64
    ensures Canonical(ToUiAmount(amount, decimals).amount) && DigitsValue(ToUiAmount(amount, decimals).amount) == amount
    ensures UiRealNumberString(ToUiAmount(amount, decimals)) == RealNumberString(amount, decimals)
    ensures UiRealNumberStringTrimmed(ToUiAmount(amount, decimals)) == RealNumberStringTrimmed(amount, decimals)
    ensures UiRealNumberStringTrimmed(ToUiAmount(amount, decimals).(uiAmountString := [])) == RealNumberStringTrimmed(amount, decimals)
  {
    ToDigitsValue(amount);
    assert IsDigit(ToDigits(amount)[0]);
  }
}
