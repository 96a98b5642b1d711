/** Subject names: a family prefix and a zero-padded decimal, as fmt.Sprintf("%04d") and ("%06d") print them. */
module Subjects {
  import opened Bytes

  /** What a subscription is for. Each feed has its own message callback and its own subject. */
  datatype Feed = Market(sym: nat) | Orders(uid: nat) | Trades(uid: nat) {
    function Index(): nat {
      match this case Market(s) => s case Orders(u) => u case Trades(u) => u
    }
  }

  const MARKET_PREFIX: GoString := [109, 97, 114, 107, 101, 116, 46, 115, 121, 109]  // "market.sym"
  const ORDERS_PREFIX: GoString := [111, 114, 100, 101, 114, 115, 46]                // "orders."
  const TRADES_PREFIX: GoString := [116, 114, 97, 100, 101, 115, 46]                 // "trades."
  const ZERO: byte := 48

  /** The largest value of Go's int on a 64-bit machine, plus one. */
  const INT_LIMIT: nat := 0x8000_0000_0000_0000

  function Decimal(n: nat): (s: GoString)
    ensures s != []
  {
    if n < 10 then [ZERO + n] else Decimal(n / 10) + [ZERO + n % 10]
  }

  function Zeros(k: nat): (s: GoString)
    ensures |s| == k
  {
    if k == 0 then [] else Zeros(k - 1) + [ZERO]
  }

  /** Pads on the left to at least `width` digits; a wider number keeps all of its digits. */
  function Padded(n: nat, width: nat): (s: GoString)
    ensures width <= |s|
  {
    var d := Decimal(n);
    if |d| < width then Zeros(width - |d|) + d else d
  }

  function Subject(feed: Feed): GoString {
    match feed
    case Market(sym) => MARKET_PREFIX + Padded(sym, 4)
    case Orders(uid) => ORDERS_PREFIX + Padded(uid, 6)
    case Trades(uid) => TRADES_PREFIX + Padded(uid, 6)
  }

  // ---- Reading a decimal back shows that printing it is injective ----

  function Value(s: GoString): int {
    if s == [] then 0 else 10 * Value(s[..|s| - 1]) + (s[|s| - 1] - ZERO)
  }

  lemma {:induction false} ValueOfPadded(zeros: nat, n: nat)
    ensures Value(Zeros(zeros) + Decimal(n)) == n
    decreases n
  {
    var s := Zeros(zeros) + Decimal(n);
    if n < 10 {
      assert s[..|s| - 1] == Zeros(zeros);
      ValueOfZeros(zeros);
    } else {
      assert s[..|s| - 1] == Zeros(zeros) + Decimal(n / 10);
      ValueOfPadded(zeros, n / 10);
    }
  }

  lemma {:induction false} ValueOfZeros(k: nat)
    ensures Value(Zeros(k)) == 0
  {
    if k == 0 {
    } else {
      ValueOfZeros(k - 1);
      assert Zeros(k)[..k - 1] == Zeros(k - 1);
    }
  }

  lemma PaddedInjective(m: nat, n: nat, width: nat)
    requires Padded(m, width) == Padded(n, width)
    ensures m == n
  {
    ValueOfShown(m, width);
    ValueOfShown(n, width);
  }

  lemma ValueOfShown(n: nat, width: nat)
    ensures Value(Padded(n, width)) == n
  {
    var d := Decimal(n);
    var k := if |d| < width then width - |d| else 0;
    ValueOfPadded(k, n);
    assert Zeros(0) + d == d;
  }

  /** Distinct feeds never share a subject: not within a family, and not across families. */
  lemma SubjectInjective(a: Feed, b: Feed)
    requires Subject(a) == Subject(b)
    ensures a == b
  {
    FirstLetter(a);
    FirstLetter(b);
    match (a, b) {
      case (Market(m), Market(n)) =>
        assert Subject(a)[|MARKET_PREFIX|..] == Padded(m, 4);
        assert Subject(b)[|MARKET_PREFIX|..] == Padded(n, 4);
        PaddedInjective(m, n, 4);
      case (Orders(m), Orders(n)) =>
        assert Subject(a)[|ORDERS_PREFIX|..] == Padded(m, 6);
        assert Subject(b)[|ORDERS_PREFIX|..] == Padded(n, 6);
        PaddedInjective(m, n, 6);
      case (Trades(m), Trades(n)) =>
        assert Subject(a)[|TRADES_PREFIX|..] == Padded(m, 6);
        assert Subject(b)[|TRADES_PREFIX|..] == Padded(n, 6);
        PaddedInjective(m, n, 6);
      case _ =>
    }
  }

  lemma FirstLetter(a: Feed)
    ensures Subject(a) != []
    ensures Subject(a)[0] == match a case Market(_) => 109 case Orders(_) => 111 case Trades(_) => 116
  {
  }

  // ---- A padded decimal is the only numeral of its number with the fewest digits the width allows ----

  ghost predicate Digits(s: GoString) {
    forall d <- s :: ZERO <= d < ZERO + 10
  }

  lemma {:induction false} DecimalShape(n: nat)
    ensures Digits(Decimal(n)) && (Decimal(n)[0] == ZERO <==> n == 0)
  {
    if n >= 10 {
      DecimalShape(n / 10);
    }
  }

  lemma {:induction false} ZerosAreDigits(k: nat)
    ensures Digits(Zeros(k))
  {
    if k > 0 {
      ZerosAreDigits(k - 1);
    }
  }

  /** A numeral is below the power of ten of its length; one that does not begin with 0 reaches the power before. */
  lemma {:induction false} ValueRange(s: GoString)
    requires Digits(s)
    ensures 0 <= Value(s) < Pow10(|s|)
    ensures s != [] && s[0] != ZERO ==> Pow10(|s| - 1) <= Value(s)
  {
    if s != [] {
      var k := |s| - 1;
      assert s[k] in s && forall d <- s[..k] :: d in s;
      ValueRange(s[..k]);
    }
  }

  lemma {:induction false} SameLengthSameValue(s: GoString, t: GoString)
    requires Digits(s) && Digits(t) && |s| == |t| && Value(s) == Value(t)
    ensures s == t
  {
    if s != [] {
      var k := |s| - 1;
      assert s[k] in s && t[k] in t && (forall d <- s[..k] :: d in s) && (forall d <- t[..k] :: d in t);
      assert Value(s[..k]) == Value(t[..k]);
      SameLengthSameValue(s[..k], t[..k]);
      assert s == s[..k] + [s[k]] && t == t[..k] + [t[k]];
    }
  }

  lemma {:induction false} Pow10Grows(j: nat, k: nat)
    requires j <= k
    ensures Pow10(j) <= Pow10(k)
    decreases k
  {
    if j < k {
      Pow10Grows(j, k - 1);
    }
  }

  ghost predicate Numeral(s: GoString, n: nat, width: nat) {
    && Digits(s) && Value(s) == n
    && width <= |s| && (width < |s| ==> s[0] != ZERO)
  }

  lemma OneNumeral(s: GoString, t: GoString, n: nat, width: nat)
    requires Numeral(s, n, width) && Numeral(t, n, width) && |t| <= |s|
    ensures s == t
  {
    if |t| < |s| {
      ValueRange(s);
      ValueRange(t);
      Pow10Grows(|t|, |s| - 1);
    } else {
      SameLengthSameValue(s, t);
    }
  }

  /**
    What Sprintf prints: the decimal digits of the number, at least as many as the width asks for, and no leading
    zero beyond that.
   */
  lemma PaddedIff(s: GoString, n: nat, width: nat)
    requires 0 < width
    ensures s == Padded(n, width) <==> Numeral(s, n, width)
  {
    var t := Padded(n, width);
    PaddedIsNumeral(n, width);
    if Numeral(s, n, width) {
      if |t| <= |s| {
        OneNumeral(s, t, n, width);
      } else {
        OneNumeral(t, s, n, width);
      }
    }
  }

  lemma PaddedIsNumeral(n: nat, width: nat)
    requires 0 < width
    ensures Numeral(Padded(n, width), n, width)
  {
    ValueOfShown(n, width);
    DecimalShape(n);
    var d := Decimal(n);
    if |d| < width {
      ZerosAreDigits(width - |d|);
    } else if n == 0 {
      assert |d| == 1;
    }
  }

  /** The three families of subjects by their names. */
  lemma Prefixes()
    ensures MARKET_PREFIX == Text("market.sym") && ORDERS_PREFIX == Text("orders.") && TRADES_PREFIX == Text("trades.")
  {
  }

  /** A number that is padded, and one that is wider than the pad. */
  lemma PaddedByExample()
    ensures Padded(42, 4) == Text("0042") && Padded(12345, 4) == Text("12345")
  {
    assert Decimal(42) == [52, 50] && Zeros(2) == [ZERO, ZERO];
    assert Decimal(123) == [49, 50, 51];
    assert Decimal(1234) == Decimal(123) + [52] && Decimal(12345) == Decimal(1234) + [53];
  }

  /** The bytes of an ASCII text. */
  function Text(s: string): (t: GoString)
    requires forall i :: 0 <= i < |s| ==> s[i] as int < 128
    ensures |t| == |s|
  {
    seq(|s|, i requires 0 <= i < |s| => var b: byte := s[i] as int; b)
  }

  // ---- Subjects of 64-bit indices fit the header's 16-bit length field ----

  function Pow10(k: nat): (r: nat)
    ensures 1 <= r
  {
    if k == 0 then 1 else 10 * Pow10(k - 1)
  }

  lemma {:induction false} DecimalLength(n: nat, k: nat)
    requires 1 <= k && n < Pow10(k)
    ensures |Decimal(n)| <= k
  {
    if n < 10 {
    } else {
      assert k != 1 by { assert Pow10(1) == 10 * Pow10(0); }
      DecimalLength(n / 10, k - 1);
    }
  }

  lemma SubjectFits(feed: Feed)
    requires feed.Index() < INT_LIMIT
    ensures |Subject(feed)| <= 29
  {
    assert Pow10(4) == 10 * (10 * Pow10(2)) == 10_000;
    assert Pow10(8) == 10 * (10 * (10 * (10 * Pow10(4)))) == 1_0000_0000;
    assert Pow10(12) == 10 * (10 * (10 * (10 * Pow10(8)))) == 1_0000_0000_0000;
    assert Pow10(16) == 10 * (10 * (10 * (10 * Pow10(12)))) == 1_0000_0000_0000_0000;
    assert Pow10(19) == 10 * (10 * (10 * Pow10(16)));
    DecimalLength(feed.Index(), 19);
  }
}
