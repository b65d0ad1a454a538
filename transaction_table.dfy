/**
 * The transaction table: the empty-list message, one row per transaction and
 * `formatCurrency`, which prints `RM ` and the amount with two decimals and a
 * comma between thousands groups. Amounts are whole cents.
 */
module TransactionTable {

  /** One record of the transaction history; `amountCents` is the amount in cents. */
  datatype Transaction = Transaction(
    date: string,
    referenceId: string,
    to: string,
    description: string,
    transactionType: string,
    amountCents: int)

  /** The cells of one table row, in column order; `to` and `description` share a cell. */
  datatype Row = Row(
    date: string,
    referenceId: string,
    to: string,
    description: string,
    transactionType: string,
    amount: string)

  /** What the component renders: a message when the list is empty, otherwise the rows. */
  datatype TableView = Message(text: string) | Table(rows: seq<Row>)

  const NoTransactionsMessage := "No transactions found for this period."

  // ---------------------------------------------------------------------------
  // Digits and `toFixed(2)`

  predicate IsDigit(c: char)
  {
    '0' <= c <= '9'
  }

  predicate AllDigits(s: string)
  {
    forall i :: 0 <= i < |s| ==> IsDigit(s[i])
  }

  function DigitChar(d: nat): (c: char)
    requires d < 10
    ensures IsDigit(c)
  {
    ('0' as int + d) as char
  }

  function DigitValue(c: char): (d: nat)
    requires IsDigit(c)
    ensures d < 10 && DigitChar(d) == c
  {
    c as int - '0' as int
  }

  /** The decimal numeral of `n`, without leading zeros. */
  function Numeral(n: nat): (s: string)
    ensures |s| >= 1 && AllDigits(s)
    ensures s[0] == '0' ==> |s| == 1
  {
    if n < 10 then [DigitChar(n)] else Numeral(n / 10) + [DigitChar(n % 10)]
  }

  /** The number a string of decimal digits denotes. */
  function NumeralValue(s: string): nat
    requires AllDigits(s)
  {
    if s == [] then 0 else 10 * NumeralValue(s[..|s| - 1]) + DigitValue(s[|s| - 1])
  }

  /** Reading the numeral back gives the number. */
  lemma {:induction false} NumeralRoundTrip(n: nat)
    ensures NumeralValue(Numeral(n)) == n
  {
    if n >= 10 {
      NumeralRoundTrip(n / 10);
      var s := Numeral(n);
      assert s[..|s| - 1] == Numeral(n / 10);
    }
  }

  lemma NumeralValueOfTwo(f: string)
    requires |f| == 2 && AllDigits(f)
    ensures NumeralValue(f) == 10 * DigitValue(f[0]) + DigitValue(f[1])
  {
    var h := f[..1];
    assert f[..|f| - 1] == h;
    assert h[..|h| - 1] == [];
    assert NumeralValue(h) == DigitValue(f[0]);
  }

  /** The two fractional digits of a number of cents below 100. */
  function TwoDigits(n: nat): (s: string)
    requires n < 100
    ensures |s| == 2 && AllDigits(s)
    ensures 10 * DigitValue(s[0]) + DigitValue(s[1]) == n
  {
    [DigitChar(n / 10), DigitChar(n % 10)]
  }

  function Magnitude(cents: int): nat
  {
    if cents < 0 then -cents else cents
  }

  function SignPrefix(cents: int): (s: string)
    ensures s == "" || s == "-"
  {
    if cents < 0 then "-" else ""
  }

  /** `amount.toFixed(2)` for an amount of `cents` hundredths. */
  function ToFixed2(cents: int): (s: string)
  {
    SignPrefix(cents) + Numeral(Magnitude(cents) / 100) + "." + TwoDigits(Magnitude(cents) % 100)
  }

  /**
   * The text `toFixed(2)` prints is an optional minus sign, the integer part
   * and exactly two fractional digits, and it reads back as the amount.
   */
  lemma ToFixed2Denotes(cents: int)
    ensures var s := ToFixed2(cents);
      var k := |SignPrefix(cents)|;
      && |s| >= k + 4
      && s[|s| - 3] == '.'
      && (s[0] == '-' <==> cents < 0)
      && AllDigits(s[k..|s| - 3]) && AllDigits(s[|s| - 2..])
      && (if cents < 0 then -1 else 1)
         * (100 * NumeralValue(s[k..|s| - 3]) + NumeralValue(s[|s| - 2..])) == cents
  {
    var s := ToFixed2(cents);
    var k := |SignPrefix(cents)|;
    var m := Magnitude(cents);
    var d := Numeral(m / 100);
    var f := TwoDigits(m % 100);
    assert s == SignPrefix(cents) + d + "." + f;
    assert s[k..|s| - 3] == d;
    assert s[|s| - 2..] == f;
    NumeralRoundTrip(m / 100);
    NumeralValueOfTwo(f);
    if cents >= 0 {
      assert s[0] == d[0];
    }
  }

  // ---------------------------------------------------------------------------
  // The regular expression `/\B(?=(\d{3})+(?!\d))/g`

  /** A character `\w` matches. */
  predicate IsWordChar(c: char)
  {
    'a' <= c <= 'z' || 'A' <= c <= 'Z' || IsDigit(c) || c == '_'
  }

  /** `\b` at position `p` (between `s[p - 1]` and `s[p]`); `\B` is its negation. */
  predicate IsWordBoundary(s: string, p: nat)
    requires p <= |s|
  {
    (p > 0 && IsWordChar(s[p - 1])) != (p < |s| && IsWordChar(s[p]))
  }

  /** The number of consecutive digits starting at position `p`. */
  function DigitRun(s: string, p: nat): nat
    requires p <= |s|
    decreases |s| - p
  {
    if p < |s| && IsDigit(s[p]) then 1 + DigitRun(s, p + 1) else 0
  }

  /** The run is the longest stretch of digits from `p`: all digits, and no digit right after it. */
  lemma {:induction false} DigitRunIsMaximal(s: string, p: nat)
    requires p <= |s|
    ensures p + DigitRun(s, p) <= |s|
    ensures forall j :: p <= j < p + DigitRun(s, p) ==> IsDigit(s[j])
    ensures p + DigitRun(s, p) < |s| ==> !IsDigit(s[p + DigitRun(s, p)])
    decreases |s| - p
  {
    if p < |s| && IsDigit(s[p]) {
      DigitRunIsMaximal(s, p + 1);
    }
  }

  /** The lookahead `(?=(\d{3})+(?!\d))` at `p`: the digits from `p` on come in whole groups of three. */
  predicate GroupsOfThreeAhead(s: string, p: nat)
    requires p <= |s|
  {
    var n := DigitRun(s, p);
    n > 0 && n % 3 == 0
  }

  predicate DigitsBetween(s: string, lo: nat, hi: nat)
    requires lo <= hi <= |s|
  {
    forall j :: lo <= j < hi ==> IsDigit(s[j])
  }

  /**
   * The lookahead read literally: some positive number of three-digit groups
   * starts at `p`, ending at `e`, and no digit follows `e`.
   */
  ghost predicate GroupsOfThreeAheadLiterally(s: string, p: nat)
    requires p <= |s|
  {
    exists e :: p < e <= |s| && (e - p) % 3 == 0 && DigitsBetween(s, p, e) && (e == |s| || !IsDigit(s[e]))
  }

  /** The digit-run reading of the lookahead agrees with the literal one, in both directions. */
  lemma GroupsOfThreeAheadIsLiteral(s: string, p: nat)
    requires p <= |s|
    ensures GroupsOfThreeAhead(s, p) <==> GroupsOfThreeAheadLiterally(s, p)
  {
    var n := DigitRun(s, p);
    DigitRunIsMaximal(s, p);
    if GroupsOfThreeAhead(s, p) {
      assert DigitsBetween(s, p, p + n);
    }
    if GroupsOfThreeAheadLiterally(s, p) {
      var e :| p < e <= |s| && (e - p) % 3 == 0 && DigitsBetween(s, p, e) && (e == |s| || !IsDigit(s[e]));
      assert e == p + n;
    }
  }

  /** The regular expression matches (the empty string) at position `p`. */
  predicate SeparatorAt(s: string, p: nat)
    requires p <= |s|
  {
    !IsWordBoundary(s, p) && GroupsOfThreeAhead(s, p)
  }

  /** `s[p..]` with a comma put at every position from `p` on where the expression matches. */
  function SeparateFrom(s: string, p: nat): string
    requires p <= |s|
    decreases |s| - p
  {
    var sep := if SeparatorAt(s, p) then "," else "";
    if p == |s| then sep else sep + [s[p]] + SeparateFrom(s, p + 1)
  }

  /**
   * `s.replace(/\B(?=(\d{3})+(?!\d))/g, ',')`: the expression only matches the
   * empty string, so a global replace tries every position and inserts a comma
   * at each match.
   */
  function SeparateThousands(s: string): string
  {
    SeparateFrom(s, 0)
  }

  /** `formatCurrency(amount)`. */
  function FormatCurrency(cents: int): string
  {
    "RM " + SeparateThousands(ToFixed2(cents))
  }

  // ---------------------------------------------------------------------------
  // Thousands grouping, stated structurally

  /** The last three digits, after a comma and the grouping of the digits before them. */
  function GroupDigits(d: string): string
    decreases |d|
  {
    if |d| <= 3 then d else GroupDigits(d[..|d| - 3]) + "," + d[|d| - 3..]
  }

  /** `s` with every comma deleted. */
  function DeleteCommas(s: string): string
  {
    if s == [] then [] else (if s[0] == ',' then [] else [s[0]]) + DeleteCommas(s[1..])
  }

  /** Deleting commas leaves no comma and never lengthens the text. */
  lemma {:induction false} DeleteCommasLeavesNone(s: string)
    ensures |DeleteCommas(s)| <= |s|
    ensures forall i :: 0 <= i < |DeleteCommas(s)| ==> DeleteCommas(s)[i] != ','
  {
    if s != [] {
      DeleteCommasLeavesNone(s[1..]);
    }
  }

  lemma {:induction false} DeleteCommasAppend(a: string, b: string)
    ensures DeleteCommas(a + b) == DeleteCommas(a) + DeleteCommas(b)
    decreases |a|
  {
    if a == [] {
      assert a + b == b;
    } else {
      assert (a + b)[0] == a[0];
      assert (a + b)[1..] == a[1..] + b;
      DeleteCommasAppend(a[1..], b);
    }
  }

  lemma {:induction false} DeleteCommasOfDigits(d: string)
    requires AllDigits(d)
    ensures DeleteCommas(d) == d
    decreases |d|
  {
    if d != [] {
      DeleteCommasOfDigits(d[1..]);
    }
  }

  lemma {:induction false} GroupDigitsLength(d: string)
    requires |d| > 0
    ensures |GroupDigits(d)| == |d| + (|d| - 1) / 3
    ensures GroupDigits(d)[0] == d[0]
    decreases |d|
  {
    if |d| > 3 {
      GroupDigitsLength(d[..|d| - 3]);
    }
  }

  /**
   * The grouping of a digit string has a comma exactly at the positions that
   * are a multiple of four from its end (so after every three digits counted
   * from the decimal point, and never first) and a digit everywhere else.
   */
  lemma {:induction false} GroupDigitsCommas(d: string)
    requires |d| > 0 && AllDigits(d)
    ensures var g := GroupDigits(d);
      && g[0] == d[0]
      && (forall i :: 0 <= i < |g| ==> (g[i] == ',' <==> (|g| - i) % 4 == 0))
      && (forall i :: 0 <= i < |g| && g[i] != ',' ==> IsDigit(g[i]))
    decreases |d|
  {
    GroupDigitsLength(d);
    if |d| > 3 {
      var h := d[..|d| - 3];
      var t := d[|d| - 3..];
      GroupDigitsCommas(h);
      var gh := GroupDigits(h);
      var g := gh + "," + t;
      assert GroupDigits(d) == g;
      assert |g| == |gh| + 4;
      forall i | 0 <= i < |g|
        ensures g[i] == ',' <==> (|g| - i) % 4 == 0
        ensures g[i] != ',' ==> IsDigit(g[i])
      {
        if i < |gh| {
          assert g[i] == gh[i];
          assert |g| - i == (|gh| - i) + 4;
        } else if i == |gh| {
          assert g[i] == ',' && |g| - i == 4;
        } else {
          assert g[i] == t[i - |gh| - 1] && 0 < |g| - i < 4;
        }
      }
    }
  }

  /** Deleting the commas from the grouping gives the digits back. */
  lemma {:induction false} GroupDigitsDeleteCommas(d: string)
    requires AllDigits(d)
    ensures DeleteCommas(GroupDigits(d)) == d
    decreases |d|
  {
    if |d| <= 3 {
      DeleteCommasOfDigits(d);
    } else {
      var h := d[..|d| - 3];
      var t := d[|d| - 3..];
      var gh := GroupDigits(h);
      assert DeleteCommas(gh + "," + t) == DeleteCommas(gh) + DeleteCommas(t) by {
        DeleteCommasAppend(gh + ",", t);
        DeleteCommasAppend(gh, ",");
        assert DeleteCommas(",") == [];
      }
      GroupDigitsDeleteCommas(h);
      DeleteCommasOfDigits(t);
      assert h + t == d;
    }
  }

  /** The digits after the leading one: a comma before each digit that starts a group of three counted from the right. */
  function SeparateInterior(e: string): string
    decreases |e|
  {
    if e == [] then [] else (if |e| % 3 == 0 then "," else "") + [e[0]] + SeparateInterior(e[1..])
  }

  lemma {:induction false} SeparateInteriorShort(e: string)
    requires |e| < 3
    ensures SeparateInterior(e) == e
    decreases |e|
  {
    if e != [] {
      SeparateInteriorShort(e[1..]);
    }
  }

  lemma {:induction false} SeparateInteriorAppend(a: string, b: string)
    requires |b| % 3 == 0
    ensures SeparateInterior(a + b) == SeparateInterior(a) + SeparateInterior(b)
    decreases |a|
  {
    if a == [] {
      assert a + b == b;
    } else {
      var sep := if |a| % 3 == 0 then "," else "";
      assert SeparateInterior(a + b) == sep + [a[0]] + SeparateInterior(a[1..] + b) by {
        assert (a + b)[0] == a[0];
        assert (a + b)[1..] == a[1..] + b;
        assert (|a| + |b|) % 3 == |a| % 3;
      }
      SeparateInteriorAppend(a[1..], b);
    }
  }

  lemma {:induction false} SeparateInteriorGroups(d: string)
    requires |d| > 0
    ensures [d[0]] + SeparateInterior(d[1..]) == GroupDigits(d)
    decreases |d|
  {
    if |d| <= 3 {
      SeparateInteriorShort(d[1..]);
    } else {
      var h := d[..|d| - 3];
      var t := d[|d| - 3..];
      calc {
        [d[0]] + SeparateInterior(d[1..]);
        { assert d[1..] == h[1..] + t;
          SeparateInteriorAppend(h[1..], t); }
        [d[0]] + (SeparateInterior(h[1..]) + SeparateInterior(t));
        { SeparateInteriorShort(t[1..]); }
        [d[0]] + (SeparateInterior(h[1..]) + ("," + t));
        { assert h[0] == d[0]; }
        ([h[0]] + SeparateInterior(h[1..])) + "," + t;
        { SeparateInteriorGroups(h); }
        GroupDigits(h) + "," + t;
      }
    }
  }

  // ---------------------------------------------------------------------------
  // What the regular expression does to the text of `toFixed(2)`

  /** `sign + d + "." + f`: the shape of a `toFixed(2)` result. */
  predicate FixedShape(sign: string, d: string, f: string)
  {
    (sign == "" || sign == "-") && |d| > 0 && AllDigits(d) && |f| == 2 && AllDigits(f)
  }

  /**
   * The same shape read off the text itself: a sign of `k` characters, digits
   * up to the point three characters from the end, then two digits.
   */
  predicate FixedText(s: string, k: nat)
  {
    && k <= 1 && k + 4 <= |s|
    && (k == 1 ==> s[0] == '-')
    && (forall j :: k <= j < |s| - 3 ==> IsDigit(s[j]))
    && s[|s| - 3] == '.' && IsDigit(s[|s| - 2]) && IsDigit(s[|s| - 1])
  }

  lemma {:induction false} DigitRunBeforePoint(s: string, k: nat, p: nat)
    requires FixedText(s, k) && k <= p <= |s| - 3
    ensures DigitRun(s, p) == |s| - 3 - p
    decreases |s| - p
  {
    if p < |s| - 3 {
      DigitRunBeforePoint(s, k, p + 1);
    }
  }

  /** Where the expression never matches from `p` on, the text is copied unchanged. */
  lemma {:induction false} SeparateFromNoMatch(s: string, p: nat)
    requires p <= |s|
    requires forall q :: p <= q <= |s| ==> !SeparatorAt(s, q)
    ensures SeparateFrom(s, p) == s[p..]
    decreases |s| - p
  {
    if p < |s| {
      SeparateFromNoMatch(s, p + 1);
      assert s[p..] == [s[p]] + s[p + 1..];
    }
  }

  /** From the decimal point on nothing changes: fewer than three digits follow any position there. */
  lemma SeparateFraction(s: string, k: nat)
    requires FixedText(s, k)
    ensures SeparateFrom(s, |s| - 3) == s[|s| - 3..]
  {
    forall q | |s| - 3 <= q <= |s|
      ensures !SeparatorAt(s, q)
    {
      if q == |s| - 3 {
        assert DigitRun(s, q) == 0;
      } else {
        DigitRunIsMaximal(s, q);
      }
    }
    SeparateFromNoMatch(s, |s| - 3);
  }

  /** Between two digits there is no word boundary, so a comma goes in exactly when the digits ahead form whole groups of three. */
  lemma SeparateFromBetweenDigits(s: string, p: nat)
    requires 0 < p < |s| && IsDigit(s[p - 1]) && IsDigit(s[p])
    ensures SeparateFrom(s, p) == (if DigitRun(s, p) % 3 == 0 then "," else "") + [s[p]] + SeparateFrom(s, p + 1)
  {
    assert !IsWordBoundary(s, p);
    assert DigitRun(s, p) > 0;
  }

  /** Inside the integer part, a comma goes where the digits left before the point are a multiple of three. */
  lemma {:induction false} SeparateIntegerPart(s: string, k: nat, p: nat)
    requires FixedText(s, k) && k < p <= |s| - 3
    ensures SeparateFrom(s, p) == SeparateInterior(s[p..|s| - 3]) + s[|s| - 3..]
    decreases |s| - p
  {
    if p == |s| - 3 {
      calc {
        SeparateFrom(s, p);
        { SeparateFraction(s, k); }
        s[|s| - 3..];
        { assert s[p..|s| - 3] == []; }
        SeparateInterior(s[p..|s| - 3]) + s[|s| - 3..];
      }
    } else {
      SeparateIntegerPart(s, k, p + 1);
      SeparateIntegerDigit(s, k, p);
    }
  }

  /** The step of `SeparateIntegerPart`: one more digit of the integer part, with its comma if one goes before it. */
  lemma SeparateIntegerDigit(s: string, k: nat, p: nat)
    requires FixedText(s, k) && k < p < |s| - 3
    requires SeparateFrom(s, p + 1) == SeparateInterior(s[p + 1..|s| - 3]) + s[|s| - 3..]
    ensures SeparateFrom(s, p) == SeparateInterior(s[p..|s| - 3]) + s[|s| - 3..]
  {
    var sep := if (|s| - 3 - p) % 3 == 0 then "," else "";
    var rest := SeparateInterior(s[p + 1..|s| - 3]);
    var tail := s[|s| - 3..];
    calc {
      SeparateFrom(s, p);
      { SeparateFromBetweenDigits(s, p);
        DigitRunBeforePoint(s, k, p); }
      sep + [s[p]] + SeparateFrom(s, p + 1);
      sep + [s[p]] + (rest + tail);
      (sep + [s[p]] + rest) + tail;
      { assert s[p..|s| - 3][1..] == s[p + 1..|s| - 3]; }
      SeparateInterior(s[p..|s| - 3]) + tail;
    }
  }

  /** From the first digit on, the integer part comes out grouped in thousands and the fraction unchanged. */
  lemma SeparateAfterSign(s: string, k: nat)
    requires FixedText(s, k)
    ensures SeparateFrom(s, k) == GroupDigits(s[k..|s| - 3]) + s[|s| - 3..]
  {
    var d := s[k..|s| - 3];
    var tail := s[|s| - 3..];
    calc {
      SeparateFrom(s, k);
      { assert IsDigit(s[k]) && IsWordBoundary(s, k); }
      [s[k]] + SeparateFrom(s, k + 1);
      { SeparateIntegerPart(s, k, k + 1); }
      [s[k]] + (SeparateInterior(s[k + 1..|s| - 3]) + tail);
      { assert d[0] == s[k] && d[1..] == s[k + 1..|s| - 3]; }
      ([d[0]] + SeparateInterior(d[1..])) + tail;
      { SeparateInteriorGroups(d); }
      GroupDigits(d) + tail;
    }
  }

  /** The replace leaves the sign and the fraction alone and groups the integer part in thousands. */
  lemma SeparateFixedText(s: string, k: nat)
    requires FixedText(s, k)
    ensures SeparateThousands(s) == s[..k] + GroupDigits(s[k..|s| - 3]) + s[|s| - 3..]
  {
    SeparateAfterSign(s, k);
    if k == 1 {
      calc {
        SeparateFrom(s, 0);
        { assert DigitRun(s, 0) == 0; }
        [s[0]] + SeparateFrom(s, 1);
        { assert s[..k] == [s[0]]; }
        s[..k] + (GroupDigits(s[k..|s| - 3]) + s[|s| - 3..]);
      }
    } else {
      assert s[..k] == [];
    }
  }

  /** The replace turns the text of `toFixed(2)` into the sign, the grouped integer part and the fraction. */
  lemma SeparateFixed(sign: string, d: string, f: string)
    requires FixedShape(sign, d, f)
    ensures SeparateThousands(sign + d + "." + f) == sign + GroupDigits(d) + "." + f
  {
    var s := sign + d + "." + f;
    var k := |sign|;
    assert FixedText(s, k) by {
      forall j | k <= j < |s| - 3
        ensures IsDigit(s[j])
      {
        assert s[j] == d[j - k];
      }
      assert s[|s| - 3] == '.' && s[|s| - 2] == f[0] && s[|s| - 1] == f[1];
    }
    assert s[..k] == sign && s[k..|s| - 3] == d && s[|s| - 3..] == "." + f;
    SeparateFixedText(s, k);
  }

  /** `formatCurrency` is `RM `, the sign, the integer part grouped in thousands, the point and two digits. */
  lemma FormatCurrencyGroupsThousands(cents: int)
    ensures FormatCurrency(cents)
      == "RM " + SignPrefix(cents) + GroupDigits(Numeral(Magnitude(cents) / 100)) + "." + TwoDigits(Magnitude(cents) % 100)
  {
    var sign := SignPrefix(cents);
    var d := Numeral(Magnitude(cents) / 100);
    var f := TwoDigits(Magnitude(cents) % 100);
    assert SeparateThousands(ToFixed2(cents)) == sign + GroupDigits(d) + "." + f by {
      SeparateFixed(sign, d, f);
    }
  }

  /** Deleting the commas from the grouped text of `toFixed(2)` gives that text back. */
  lemma DeleteCommasOfGroupedFixed(sign: string, d: string, f: string)
    requires FixedShape(sign, d, f)
    ensures DeleteCommas(sign + GroupDigits(d) + "." + f) == sign + d + "." + f
  {
    var g := GroupDigits(d);
    DeleteCommasAppend(sign + g + ".", f);
    DeleteCommasAppend(sign + g, ".");
    DeleteCommasAppend(sign, g);
    GroupDigitsDeleteCommas(d);
    DeleteCommasOfDigits(f);
    assert DeleteCommas(".") == ".";
    assert DeleteCommas(sign) == sign;
  }

  /** Deleting the commas from what follows `RM ` gives back the text of `toFixed(2)`. */
  lemma FormatCurrencyDeleteCommas(cents: int)
    ensures |FormatCurrency(cents)| >= 3 && FormatCurrency(cents)[..3] == "RM "
    ensures DeleteCommas(FormatCurrency(cents)[3..]) == ToFixed2(cents)
  {
    var body := SeparateThousands(ToFixed2(cents));
    assert FormatCurrency(cents)[..3] == "RM " && FormatCurrency(cents)[3..] == body;
    var sign := SignPrefix(cents);
    var d := Numeral(Magnitude(cents) / 100);
    var f := TwoDigits(Magnitude(cents) % 100);
    assert body == sign + GroupDigits(d) + "." + f by {
      SeparateFixed(sign, d, f);
    }
    DeleteCommasOfGroupedFixed(sign, d, f);
  }

  /** A non-negative amount whose integer part and cents print as `d` and `f` is formatted as `RM `, `d` grouped, the point and `f`. */
  lemma FormatCurrencyOfParts(cents: int, d: string, f: string)
    requires cents >= 0 && Numeral(cents / 100) == d && TwoDigits(cents % 100) == f
    ensures FormatCurrency(cents) == "RM " + GroupDigits(d) + "." + f
  {
    FormatCurrencyGroupsThousands(cents);
    assert SignPrefix(cents) == "" && Magnitude(cents) == cents;
  }

  /** The amounts of the stub transaction history. */
  lemma FormatCurrencyThousand(cents: int)
    requires cents == 120000
    ensures FormatCurrency(cents) == "RM 1,200.00"
  {
    calc {
      FormatCurrency(cents);
    == { assert Numeral(1200) == "1200" by {
           assert Numeral(1) == "1";
           assert Numeral(12) == "12";
           assert Numeral(120) == "120";
         }
         FormatCurrencyOfParts(cents, "1200", "00"); }
      "RM " + GroupDigits("1200") + "." + "00";
    == { assert "1200"[..1] == "1";
         assert "1200"[1..] == "200"; }
      "RM " + "1,200" + "." + "00";
    ==
      "RM 1,200.00";
    }
  }

  lemma FormatCurrencyTensOfThousands(cents: int)
    requires cents == 5481016
    ensures FormatCurrency(cents) == "RM 54,810.16"
  {
    calc {
      FormatCurrency(cents);
    == { assert Numeral(54810) == "54810" by {
           assert Numeral(5) == "5";
           assert Numeral(54) == "54";
           assert Numeral(548) == "548";
           assert Numeral(5481) == "5481";
         }
         FormatCurrencyOfParts(cents, "54810", "16"); }
      "RM " + GroupDigits("54810") + "." + "16";
    == { assert "54810"[..2] == "54";
         assert "54810"[2..] == "810"; }
      "RM " + "54,810" + "." + "16";
    ==
      "RM 54,810.16";
    }
  }

  lemma FormatCurrencyHundred(cents: int)
    requires cents == 10000
    ensures FormatCurrency(cents) == "RM 100.00"
  {
    calc {
      FormatCurrency(cents);
    == { assert Numeral(100) == "100" by {
           assert Numeral(1) == "1";
           assert Numeral(10) == "10";
         }
         FormatCurrencyOfParts(cents, "100", "00"); }
      "RM " + GroupDigits("100") + "." + "00";
    ==
      "RM " + "100" + "." + "00";
    ==
      "RM 100.00";
    }
  }

  // ---------------------------------------------------------------------------
  // Rendering

  /** One row: the record's fields, with the amount formatted. */
  function RowOf(tx: Transaction): (row: Row)
    ensures row.amount == FormatCurrency(tx.amountCents)
  {
    Row(tx.date, tx.referenceId, tx.to, tx.description, tx.transactionType, FormatCurrency(tx.amountCents))
  }

  /** `transactions.map(...)`: one row per transaction, in order. */
  function RenderRows(transactions: seq<Transaction>): (rows: seq<Row>)
    ensures |rows| == |transactions|
    ensures forall i :: 0 <= i < |transactions| ==> rows[i] == RowOf(transactions[i])
  {
    if transactions == [] then [] else [RowOf(transactions[0])] + RenderRows(transactions[1..])
  }

  /** The component: the message for an empty list, otherwise one row per transaction. */
  function RenderTable(transactions: seq<Transaction>): (view: TableView)
    ensures view.Message? <==> transactions == []
    ensures view.Message? ==> view.text == NoTransactionsMessage
    ensures view.Table? ==> |view.rows| == |transactions|
    ensures view.Table? ==> forall i :: 0 <= i < |transactions| ==>
      view.rows[i].amount == FormatCurrency(transactions[i].amountCents)
  {
    if |transactions| == 0 then Message(NoTransactionsMessage) else Table(RenderRows(transactions))
  }
}
