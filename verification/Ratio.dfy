/**
 The compression ratio: exact long division on 64-bit counters, and its printed form.
 */
module Ratio {
  import opened Arith

  const WORD: nat := 0x1_0000_0000_0000_0000
  const MAX: nat := WORD - 1

  /** Addition and subtraction of uint64_t wrap. */
  function Add64(x: nat, y: nat): (r: nat)
    ensures r < WORD
  {
    (x + y) % WORD
  }

  function Mul64(x: nat, y: nat): (r: nat)
    ensures r < WORD
  {
    x * y % WORD
  }

  function Sub64(x: nat, y: nat): (r: nat)
    requires x < WORD && y < WORD
    ensures r < WORD
  {
    if x >= y then x - y else x + WORD - y
  }

  /** One more digit of a quotient: from q = floor(n/d), r = n mod d to those of 10 n. */
  lemma NextDigit(n: nat, d: nat, q: nat, r: nat, digit: nat, r': nat)
    requires d > 0 && n == q * d + r && r < d
    requires 10 * r == digit * d + r' && r' < d
    ensures 10 * n == (10 * q + digit) * d + r' && digit < 10
  {
    MulTimes(10, q, d);
    MulSum(10 * q, digit, d);
    MulSum(10 - digit, digit, d);
    MulBound(10 - digit, d);
  }

  /** One addition modulo `d`, on wrapping 64-bit arithmetic. */
  method AddModulo(acc: nat, r: nat, d: nat) returns (acc': nat, carried: bool)
    requires r < d < WORD && acc < d
    ensures acc' < d && acc + r == acc' + if carried then d else 0
  {
    acc' := Add64(acc, r);
    assert acc' == if acc + r < WORD then acc + r else acc + r - WORD;
    carried := acc' >= d || acc' < r;
    if carried {
      acc' := Sub64(acc', d);
    }
  }

  /**
   The digit of 10 r / d when the product would not fit: nine additions, each taking `d` off when
   the sum reached it or wrapped.
   */
  method PeelDigit(r: nat, d: nat) returns (digit: nat, acc: nat)
    requires r < d < WORD
    ensures 10 * r == digit * d + acc && acc < d && digit <= 9
  {
    acc, digit := r, 0;
    for k := 0 to 9
      invariant (k + 1) * r == digit * d + acc && acc < d && digit <= k
    {
      MulSucc(k + 1, r);
      MulSucc(digit, d);
      var carried;
      acc, carried := AddModulo(acc, r, d);
      if carried {
        digit := digit + 1;
      }
    }
  }

  /** The next decimal digit of r / d, by the product where it fits and by peeling where not. */
  method ScaleDigit(r: nat, d: nat) returns (digit: nat, r': nat)
    requires r < d < WORD
    ensures 10 * r == digit * d + r' && r' < d
  {
    if r <= MAX / 10 {
      var product := Mul64(r, 10);
      assert product == 10 * r;
      DivMod(product, d);
      digit, r' := product / d, product % d;
      return;
    }
    digit, r' := PeelDigit(r, d);
  }

  lemma AppendFits(frac: nat, digit: nat)
    requires frac < 1000 && digit < 10
    ensures Add64(Mul64(frac, 10), digit) == 10 * frac + digit
  {}

  /** Appends the next digit to `frac`; `n` and `q` follow the exact quotient. */
  method AppendDigit(remainder: nat, frac: nat, d: nat, ghost n: nat, ghost q: nat)
    returns (remainder': nat, frac': nat, ghost digit: nat)
    requires d < WORD && frac < 1000 && Divides(n, d, q, remainder)
    ensures remainder' < d && digit < 10 && frac' == 10 * frac + digit
    ensures Divides(10 * n, d, 10 * q + digit, remainder')
  {
    var next;
    next, remainder' := ScaleDigit(remainder, d);
    NextDigit(n, d, q, remainder, next, remainder');
    AppendFits(frac, next);
    digit := next;
    frac' := Add64(Mul64(frac, 10), next);
  }

  /** Splits in/out into an integer part and three decimal digits, exactly, without overflow. */
  method RatioParts(bytesIn: nat, bytesOut: nat) returns (whole: nat, frac: nat)
    requires bytesIn <= MAX && 0 < bytesOut <= MAX
    ensures whole == bytesIn / bytesOut
    ensures frac == (1000 * bytesIn / bytesOut) % 1000
  {
    hide Divides;
    DividesExactly(bytesIn, bytesOut);
    whole := bytesIn / bytesOut;
    var remainder: nat := bytesIn % bytesOut;
    frac := 0;
    ghost var n, q := bytesIn, whole;
    for i := 0 to 3
      invariant Divides(n, bytesOut, q, remainder) && remainder < bytesOut && frac < 1000
      invariant i == 0 ==> n == bytesIn && q == whole && frac == 0
      invariant i == 1 ==> n == 10 * bytesIn && q == 10 * whole + frac && frac < 10
      invariant i == 2 ==> n == 100 * bytesIn && q == 100 * whole + frac && frac < 100
      invariant i == 3 ==> n == 1000 * bytesIn && q == 1000 * whole + frac && frac < 1000
    {
      ghost var digit;
      remainder, frac, digit := AppendDigit(remainder, frac, bytesOut, n, q);
      n, q := 10 * n, 10 * q + digit;
    }
    DividesIs(n, bytesOut, q, remainder);
  }

  /** `q` and `r` are quotient and remainder. */
  predicate Divides(n: nat, d: nat, q: nat, r: nat) {
    n == q * d + r && r < d
  }

  lemma DividesExactly(n: nat, d: nat)
    requires d > 0
    ensures Divides(n, d, n / d, n % d)
  {
    DivMod(n, d);
  }

  lemma DividesIs(n: nat, d: nat, q: nat, r: nat)
    requires Divides(n, d, q, r)
    ensures n / d == q
  {
    DivUnique(n, d, q, r);
  }

  // ----- the printed value -----

  /** Half-up rounding of in/out to hundredths. */
  function Hundredths(bytesIn: nat, bytesOut: nat): nat
    requires bytesOut > 0
  {
    (200 * bytesIn + bytesOut) / (2 * bytesOut)
  }

  /** The rounding argument, with the products named. */
  lemma RoundingBounds(n: nat, d: nat, td: int, hd: int, xd: int, r: nat)
    requires 1000 * n == td + r && r < d && td == 10 * hd + xd && -5 * d <= xd <= 4 * d
    ensures 0 <= 200 * n + d - 2 * hd < 2 * d
  {}

  lemma ScaledBounds(x: int, d: nat)
    requires -5 <= x <= 4
    ensures -5 * d <= x * d <= 4 * d
  {
    assert (x + 5) * d >= 0 && (4 - x) * d >= 0;
  }

  /** Rounding on the exact third digit is half-up rounding of the quotient itself. */
  lemma ThirdDigitDecides(n: nat, d: nat)
    requires d > 0
    ensures var t := 1000 * n / d; Hundredths(n, d) == t / 10 + if t % 10 > 4 then 1 else 0
  {
    var t, r := 1000 * n / d, 1000 * n % d;
    var h := t / 10 + if t % 10 > 4 then 1 else 0;
    var x := t - 10 * h;
    DivMod(1000 * n, d);
    ScaledBounds(x, d);
    MulSum(10 * h, x, d);
    MulTimes(10, h, d);
    RoundingBounds(n, d, t * d, h * d, x * d, r);
    MulTwice(h, d);
    DivUnique(200 * n + d, 2 * d, h, 200 * n + d - 2 * (h * d));
  }

  /** Splitting a thousandfold quotient into its whole part and three digits. */
  lemma ThousandSplit(n: nat, d: nat)
    requires d > 0
    ensures 1000 * n / d == 1000 * (n / d) + (1000 * n / d) % 1000
  {
    var q, r := n / d, n % d;
    DivMod(n, d);
    var k := 1000 * r / d;
    DivMod(1000 * r, d);
    MulSum(1000 - k, k, d);
    MulBound(1000 - k, d);
    MulTimes(1000, q, d);
    MulSum(1000 * q, k, d);
    DivUnique(1000 * n, d, 1000 * q + k, 1000 * r % d);
  }

  lemma MulTwice(a: int, d: int)
    ensures a * (2 * d) == 2 * (a * d)
  {}

  /** Two decimals out of three, half-up; the carry may reach the integer part. */
  method RoundThird(whole: nat, frac: nat) returns (whole': nat, frac': nat)
    requires whole <= MAX && frac < 1000 && (whole < MAX || frac == 0)
    ensures whole' <= MAX && frac' < 100
    ensures 100 * whole' + frac' == 100 * whole + frac / 10 + if frac % 10 > 4 then 1 else 0
  {
    whole', frac' := whole, frac;
    if frac % 10 > 4 {
      frac' := frac / 10 + 1;
      if frac' > 99 {
        whole' := Add64(whole, 1);
        frac' := 0;
      }
    } else {
      frac' := frac / 10;
    }
  }

  /** Cutting off the third digit of whole and fraction together. */
  lemma SplitTenth(t: nat, whole: nat, frac: nat)
    requires t == 1000 * whole + frac && frac < 1000
    ensures t / 10 == 100 * whole + frac / 10 && t % 10 == frac % 10
  {}

  /** The rounded integer and two-digit parts that the variable prints. */
  method RatioVariable(bytesIn: nat, bytesOut: nat) returns (whole: nat, frac: nat)
    requires bytesIn <= MAX && 0 < bytesOut <= MAX
    ensures whole <= MAX && frac < 100 && 100 * whole + frac == Hundredths(bytesIn, bytesOut)
  {
    ThirdDigitDecides(bytesIn, bytesOut);
    ThousandSplit(bytesIn, bytesOut);
    CarryFits(bytesIn, bytesOut);
    ghost var t, h := 1000 * bytesIn / bytesOut, Hundredths(bytesIn, bytesOut);
    whole, frac := RatioParts(bytesIn, bytesOut);
    SplitTenth(t, whole, frac);
    hide Hundredths;
    whole, frac := RoundThird(whole, frac);
  }

  /** The carry into the integer part cannot wrap: a quotient that large has no fraction. */
  lemma CarryFits(n: nat, d: nat)
    requires n <= MAX && d > 0
    ensures n / d <= MAX
    ensures n / d < MAX || (1000 * n / d) % 1000 == 0
  {
    if d > 1 {
      DivMod(n, d);
      TwiceAtMost(n / d, d);
    }
  }

  lemma TwiceAtMost(q: nat, d: nat)
    requires d >= 2
    ensures 2 * q <= q * d
  {
    assert q * (d - 2) >= 0;
  }

  // ----- the printed text -----

  function Decimal(n: nat): (s: string)
    ensures |s| >= 1
  {
    var last := [('0' as int + n % 10) as char];
    if n < 10 then last else Decimal(n / 10) + last
  }

  function TenTo(k: nat): nat {
    if k == 0 then 1 else 10 * TenTo(k - 1)
  }

  lemma {:induction false} DecimalLength(n: nat, k: nat)
    requires k >= 1 && n < TenTo(k)
    ensures |Decimal(n)| <= k
  {
    if n >= 10 {
      DecimalLength(n / 10, k - 1);
    }
  }

  function TwoDigits(f: nat): string
    requires f < 100
  {
    [('0' as int + f / 10) as char, ('0' as int + f % 10) as char]
  }

  /** What $brotli_ratio prints. */
  function Printed(whole: nat, frac: nat): string
    requires frac < 100
  {
    Decimal(whole) + "." + TwoDigits(frac)
  }

  const INT64_LEN: nat := 20

  /** The text always fits the buffer set aside for it. */
  lemma PrintedFits(whole: nat, frac: nat)
    requires whole <= MAX && frac < 100
    ensures |Printed(whole, frac)| <= INT64_LEN + 3
  {
    assert TenTo(5) == 100000;
    assert TenTo(10) == 10000000000;
    assert TenTo(15) == 1000000000000000;
    assert TenTo(20) == 100000000000000000000;
    DecimalLength(whole, 20);
  }

  // ----- what the text says -----

  predicate AreDigits(s: string) {
    forall k | 0 <= k < |s| :: '0' <= s[k] <= '9'
  }

  /** A numeral read from the left, `v` being what was read so far. */
  function ReadOn(s: string, v: nat): nat
    requires AreDigits(s)
  {
    if s == "" then v else ReadOn(s[1..], 10 * v + (s[0] as int - '0' as int))
  }

  lemma {:induction false} ReadOnJoin(a: string, b: string, v: nat)
    requires AreDigits(a) && AreDigits(b)
    ensures AreDigits(a + b) && ReadOn(a + b, v) == ReadOn(b, ReadOn(a, v))
    decreases |a|
  {
    var ab := a + b;
    forall k | 0 <= k < |ab| ensures '0' <= ab[k] <= '9' {
      assert ab[k] == if k < |a| then a[k] else b[k - |a|];
    }
    if a == "" {
      assert ab == b;
    } else {
      assert ab[0] == a[0] && ab[1..] == a[1..] + b;
      ReadOnJoin(a[1..], b, 10 * v + (a[0] as int - '0' as int));
    }
  }

  lemma ReadOne(d: nat, v: nat)
    requires d < 10
    ensures var s := [('0' as int + d) as char]; AreDigits(s) && ReadOn(s, v) == 10 * v + d
  {
    var s := [('0' as int + d) as char];
    assert s[1..] == "";
    assert ReadOn(s[1..], 10 * v + d) == 10 * v + d;
  }

  /** A printed number is its digits, read back as itself, with no leading zero but in "0". */
  lemma {:induction false} DecimalReads(n: nat)
    ensures AreDigits(Decimal(n)) && ReadOn(Decimal(n), 0) == n
    ensures Decimal(n)[0] == '0' ==> Decimal(n) == "0"
  {
    if n < 10 {
      ReadOne(n, 0);
    } else {
      DecimalReads(n / 10);
      ReadOne(n % 10, n / 10);
      ReadOnJoin(Decimal(n / 10), [('0' as int + n % 10) as char], 0);
      assert Decimal(n)[0] == Decimal(n / 10)[0];
    }
  }

  lemma TwoDigitsRead(f: nat)
    requires f < 100
    ensures |TwoDigits(f)| == 2 && AreDigits(TwoDigits(f)) && ReadOn(TwoDigits(f), 0) == f
  {
    ReadOne(f / 10, 0);
    ReadOne(f % 10, f / 10);
    ReadOnJoin([('0' as int + f / 10) as char], [('0' as int + f % 10) as char], 0);
    assert TwoDigits(f) == [('0' as int + f / 10) as char] + [('0' as int + f % 10) as char];
  }

  /** The printed text, read back: a numeral, a point, two decimals. */
  lemma PrintedReads(whole: nat, frac: nat)
    requires frac < 100
    ensures var t := Printed(whole, frac);
            |t| >= 4 &&
            var p := |t| - 3;
            && t[p] == '.' && AreDigits(t[..p]) && AreDigits(t[p + 1..]) && (t[0] == '0' ==> p == 1)
            && ReadOn(t[..p], 0) == whole && ReadOn(t[p + 1..], 0) == frac
  {
    DecimalReads(whole);
    TwoDigitsRead(frac);
    var t, a := Printed(whole, frac), Decimal(whole);
    assert t == a + ("." + TwoDigits(frac));
    assert t[..|t| - 3] == a && t[|t| - 2..] == TwoDigits(frac);
  }
}
