/** The JSON shape encoders of the Bukkit example plugin (JsonUtil): durations,
    colours, UUIDs, entity ids and icons, as they are put into the JSON form of
    the client's protobuf messages. JSON itself is a small datatype. */
module Json {
  import opened Wrappers

  /** The JSON values these encoders produce (Gson's `JsonObject`, `JsonPrimitive`, `JsonNull`). */
  datatype JValue =
    | JNull
    | JString(str: string)
    | JNumber(num: int)
    | JObject(fields: map<string, JValue>)

  // ---------------------------------------------------------------------------
  // Decimal digits

  function Pow10(k: nat): (r: nat)
    ensures r >= 1
  {
    if k == 0 then 1 else 10 * Pow10(k - 1)
  }

  predicate IsDigit(ch: char) {
    '0' <= ch <= '9'
  }

  predicate AllDigits(s: string) {
    forall i :: 0 <= i < |s| ==> IsDigit(s[i])
  }

  /** The value of a decimal digit character; other characters count as 0. */
  function DigitValue(ch: char): (d: nat)
    ensures d < 10
  {
    if IsDigit(ch) then ch as int - '0' as int else 0
  }

  function DigitChar(d: nat): (ch: char)
    requires d < 10
    ensures IsDigit(ch) && DigitValue(ch) == d
  {
    ('0' as int + d) as char
  }

  /** The shortest decimal rendering of `n` (Java's `Long.toString` of a
      non-negative number): digits only, and no leading zero except for 0 itself. */
  function NatToDecimal(n: nat): (s: string)
    ensures |s| >= 1 && AllDigits(s)
  {
    if n < 10 then [DigitChar(n)] else NatToDecimal(n / 10) + [DigitChar(n % 10)]
  }

  /** The rendering has no leading zero, except for 0 itself, which is "0". */
  lemma {:induction false} DecimalNoLeadingZero(n: nat)
    ensures NatToDecimal(n)[0] == '0' <==> n == 0
    ensures n == 0 ==> NatToDecimal(n) == "0"
  {
    if n >= 10 {
      DecimalNoLeadingZero(n / 10);
    }
  }

  /** The last digit of the rendering is the last decimal digit of `n`. */
  lemma DecimalLastDigit(n: nat)
    ensures NatToDecimal(n)[|NatToDecimal(n)| - 1] == DigitChar(n % 10)
  {
  }

  /** The number a string of decimal digits denotes (`Long.parseUnsignedLong`
      without the range check). */
  function DecimalValue(s: string): nat
  {
    if s == [] then 0 else DecimalValue(s[..|s| - 1]) * 10 + DigitValue(s[|s| - 1])
  }

  lemma {:induction false} DecimalRoundTrip(n: nat)
    ensures DecimalValue(NatToDecimal(n)) == n
  {
    var s := NatToDecimal(n);
    if n < 10 {
      assert s[..|s| - 1] == [];
    } else {
      assert s[..|s| - 1] == NatToDecimal(n / 10);
      DecimalRoundTrip(n / 10);
    }
  }

  lemma {:induction false} DecimalLength(n: nat, k: nat)
    requires 1 <= k && n < Pow10(k)
    ensures |NatToDecimal(n)| <= k
  {
    assert Pow10(1) == 10;
    if n >= 10 {
      assert Pow10(k) == 10 * Pow10(k - 1);
      assert n / 10 < Pow10(k - 1);
      DecimalLength(n / 10, k - 1);
    }
  }

  /** The arithmetic step of `DecimalValueConcat`, kept apart so that the
      nonlinear rewriting does not meet the sequence reasoning. */
  lemma ShiftDigit(x: int, p: int, y: int, d: int)
    ensures (x * p + y) * 10 + d == x * (10 * p) + (y * 10 + d)
  {
  }

  lemma {:induction false} DecimalValueConcat(a: string, b: string)
    ensures DecimalValue(a + b) == DecimalValue(a) * Pow10(|b|) + DecimalValue(b)
  {
    if b == [] {
      assert a + b == a;
    } else {
      var b' := b[..|b| - 1];
      var last := b[|b| - 1];
      assert (a + b)[..|a + b| - 1] == a + b';
      assert (a + b)[|a + b| - 1] == last;
      DecimalValueConcat(a, b');
      assert b[..|b| - 1] == b';
      ShiftDigit(DecimalValue(a), Pow10(|b'|), DecimalValue(b'), DigitValue(last));
    }
  }

  function Zeros(k: nat): (s: string)
    ensures |s| == k && AllDigits(s)
  {
    seq(k, _ => '0')
  }

  lemma {:induction false} ZerosValue(k: nat)
    ensures DecimalValue(Zeros(k)) == 0
  {
    if k > 0 {
      assert Zeros(k)[..k - 1] == Zeros(k - 1);
      ZerosValue(k - 1);
    }
  }

  /** `%09d`: the decimal digits of `n`, left-padded with zeros to nine characters. */
  function Pad9(n: nat): (s: string)
    requires n < NanosPerSecond
    ensures |s| == 9 && AllDigits(s)
  {
    var digits := NatToDecimal(n);
    assert Pow10(9) == NanosPerSecond;
    DecimalLength(n, 9);
    Zeros(9 - |digits|) + digits
  }

  /** The nine padded digits still stand for `n`. */
  lemma Pad9Value(n: nat)
    requires n < NanosPerSecond
    ensures DecimalValue(Pad9(n)) == n
  {
    var digits := NatToDecimal(n);
    assert Pow10(9) == NanosPerSecond;
    DecimalLength(n, 9);
    DecimalRoundTrip(n);
    LeadingZeros(9 - |digits|, digits);
  }

  /** Zeros in front do not change the value. */
  lemma LeadingZeros(k: nat, b: string)
    ensures DecimalValue(Zeros(k) + b) == DecimalValue(b)
  {
    ZerosValue(k);
    DecimalValueConcat(Zeros(k), b);
    ZeroTimes(DecimalValue(Zeros(k)), Pow10(|b|));
  }

  /** Zero times anything, stated on its own so that `LeadingZeros` needs no
      nonlinear arithmetic in the presence of `DecimalValue`. */
  lemma ZeroTimes(x: int, y: int)
    requires x == 0
    ensures x * y == 0
  {
  }

  /** The last of the nine digits is the last decimal digit of `n`. */
  lemma Pad9LastDigit(n: nat)
    requires n < NanosPerSecond
    ensures Pad9(n)[8] == DigitChar(n % 10)
  {
    assert Pow10(9) == NanosPerSecond;
    DecimalLength(n, 9);
    DecimalLastDigit(n);
  }

  /** Java's `%d` / string concatenation of a `long`: a '-' for negative numbers, then the digits. */
  function IntToDecimal(x: int): (s: string)
    ensures |s| >= 1 && (s[0] == '-' <==> x < 0)
  {
    if x < 0 then "-" + NatToDecimal(-x) else NatToDecimal(x)
  }

  // ---------------------------------------------------------------------------
  // Durations

  const NanosPerSecond: nat := 1_000_000_000

  /** `seconds` whole seconds and `nanos` nanoseconds, in nanoseconds. */
  function SecondsToNanos(seconds: nat, nanos: nat): nat {
    if seconds == 0 then nanos else NanosPerSecond + SecondsToNanos(seconds - 1, nanos)
  }

  lemma {:induction false} SecondsToNanosValue(seconds: nat, nanos: nat)
    ensures SecondsToNanos(seconds, nanos) == seconds * NanosPerSecond + nanos
  {
    if seconds > 0 {
      SecondsToNanosValue(seconds - 1, nanos);
    }
  }

  /** A `java.time.Duration`: `getSeconds()` may be negative, `getNano()` is in [0, 10^9). */
  datatype Duration = Duration(seconds: int, nanos: nat)

  predicate ValidDuration(d: Duration) {
    d.nanos < NanosPerSecond
  }

  /** The length of time a duration stands for: seconds plus nanoseconds, both with their sign. */
  function TotalNanos(d: Duration): int {
    d.seconds * NanosPerSecond + d.nanos
  }

  /** `String.format("%d.%09ds", seconds, nanos)`. */
  function FormatDuration(d: Duration): string
    requires ValidDuration(d)
  {
    IntToDecimal(d.seconds) + "." + Pad9(d.nanos) + "s"
  }

  /** The formatted string ends in a '.', nine digits that stand for the nanos
      and an 's'; it starts with '-' exactly when the seconds are negative. */
  lemma FormatDurationShape(d: Duration)
    requires ValidDuration(d)
    ensures var r := FormatDuration(d);
      |r| >= 12 && r[|r| - 1] == 's' && r[|r| - 11] == '.'
      && AllDigits(r[|r| - 10..|r| - 1]) && DecimalValue(r[|r| - 10..|r| - 1]) == d.nanos
      && (r[0] == '-' <==> d.seconds < 0)
  {
    var r := FormatDuration(d);
    assert r[|r| - 10..|r| - 1] == Pad9(d.nanos);
    Pad9Value(d.nanos);
  }

  /** Where the run of '0' characters that ends at position `k` of `s` begins. */
  function ZeroRunStart(s: string, k: nat): (r: nat)
    requires k <= |s|
    ensures r <= k
    ensures r == 0 || s[r - 1] != '0'
    decreases k
  {
    if k > 0 && s[k - 1] == '0' then ZeroRunStart(s, k - 1) else k
  }

  /** `replaceAll("0+$", "")` on a string that does not end in a line terminator
      (where Java's `$` would also match before it): removes the run of '0'
      characters at the very end. */
  function StripTrailingZeros(s: string): (r: string)
    ensures r <= s
    ensures r == [] || r[|r| - 1] != '0'
  {
    s[..ZeroRunStart(s, |s|)]
  }

  lemma {:induction false} ZeroRunIsZeros(s: string, k: nat)
    requires k <= |s|
    ensures s[..k] == s[..ZeroRunStart(s, k)] + Zeros(k - ZeroRunStart(s, k))
    decreases k
  {
    if k > 0 && s[k - 1] == '0' {
      ZeroRunIsZeros(s, k - 1);
      var r := ZeroRunStart(s, k - 1);
      assert s[..k] == s[..k - 1] + ['0'];
      assert Zeros(k - r) == Zeros(k - 1 - r) + ['0'];
    } else {
      assert Zeros(0) == [];
    }
  }

  /** What StripTrailingZeros removes is a run of zeros. */
  lemma StripTrailingZerosPad(s: string)
    ensures s == StripTrailingZeros(s) + Zeros(|s| - |StripTrailingZeros(s)|)
  {
    ZeroRunIsZeros(s, |s|);
    assert s[..|s|] == s;
  }


  /** `replaceAll("\\.$", "")` on a string that does not end in a line
      terminator: removes one '.' at the very end. */
  function StripTrailingDot(s: string): (r: string)
    ensures s != [] && s[|s| - 1] == '.' ==> s == r + "."
    ensures s == [] || s[|s| - 1] != '.' ==> r == s
  {
    if s != [] && s[|s| - 1] == '.' then s[..|s| - 1] else s
  }

  /** createDurationObject as written: the two `replaceAll` calls run on a string
      that already ends in 's', so their end-anchored patterns never match. */
  function DurationString(d: Duration): (r: string)
    requires ValidDuration(d)
    ensures |r| >= 2 && r[|r| - 1] == 's'
  {
    if d.nanos == 0 then IntToDecimal(d.seconds) + "s"
    else StripTrailingDot(StripTrailingZeros(FormatDuration(d)))
  }

  /** Position of the first `c` in `s` at or after `from`, or `|s|` when there is none. */
  function IndexFrom(s: string, c: char, from: nat): (r: nat)
    requires from <= |s|
    ensures from <= r <= |s|
    ensures r < |s| ==> s[r] == c
    decreases |s| - from
  {
    if from == |s| then from else if s[from] == c then from else IndexFrom(s, c, from + 1)
  }

  /** Position of the first `c` in `s`, or `|s|` when there is none. */
  function IndexOf(s: string, c: char): (r: nat)
    ensures r <= |s|
    ensures r < |s| ==> s[r] == c
  {
    IndexFrom(s, c, 0)
  }

  lemma {:induction false} IndexFromFirst(s: string, c: char, from: nat, i: nat)
    requires from <= i < |s| && s[i] == c
    ensures IndexFrom(s, c, from) <= i
    decreases |s| - from
  {
    if s[from] != c {
      IndexFromFirst(s, c, from + 1, i);
    }
  }

  lemma {:induction false} IndexFromPast(s: string, c: char, from: nat, k: nat)
    requires from <= k <= |s|
    requires forall i :: from <= i < k ==> s[i] != c
    ensures IndexFrom(s, c, from) >= k
    decreases |s| - from
  {
    if from < k {
      IndexFromPast(s, c, from + 1, k);
    }
  }


  /** The nanoseconds that `whole` seconds and one to nine `fraction` digits
      stand for: the fraction padded with zeros to nine digits, after the whole
      seconds, read as one decimal number ("1" and "5" give 1500000000). */
  function NanosOf(whole: string, fraction: string): nat
    requires |fraction| <= 9
  {
    DecimalValue(whole + (fraction + Zeros(9 - |fraction|)))
  }

  /** An unsigned duration body split at its first '.': decimal seconds,
      then, when there is a '.', one to nine fraction digits; the result is in
      nanoseconds. */
  function MagnitudeOf(whole: string, fraction: string, hasDot: bool): Optional<nat> {
    if whole == [] || !AllDigits(whole) || !AllDigits(fraction) || |fraction| > 9 || (hasDot && fraction == [])
    then None
    else Some(NanosOf(whole, fraction))
  }

  /** An unsigned duration body, split at its first '.'. */
  function ParseMagnitude(m: string): Optional<nat> {
    var dot := IndexOf(m, '.');
    MagnitudeOf(m[..dot], if dot < |m| then m[dot + 1..] else "", dot < |m|)
  }

  /** How a reader of the protobuf JSON duration format takes a string: an
      optional '-', the unsigned body, then 's'; the sign applies to the whole
      number. The result is in nanoseconds. */
  function ParseDurationNanos(s: string): Optional<int> {
    if |s| < 2 || s[|s| - 1] != 's' then None
    else if s[0] == '-' then
      match ParseMagnitude(s[1..|s| - 1])
      case Some(n) => Some(-(n as int))
      case None => None
    else
      match ParseMagnitude(s[..|s| - 1])
      case Some(n) => Some(n as int)
      case None => None
  }

  /** The optional '.' and fraction digits of a rendering. */
  function Tail(fraction: string): string {
    if fraction == [] then "" else "." + fraction
  }

  function Sign(negative: bool): string {
    if negative then "-" else ""
  }

  /** A duration string: an optional '-', the whole seconds, an optional
      fraction, then 's'. */
  function Render(negative: bool, whole: string, fraction: string): string {
    Sign(negative) + (whole + Tail(fraction)) + "s"
  }

  /** A magnitude with its sign. */
  function Signed(negative: bool, n: nat): int {
    if negative then -(n as int) else n
  }

  /** The size of a signed number. */
  function Magnitude(x: int): nat {
    if x < 0 then -x else x
  }

  lemma SignedMagnitude(x: int)
    ensures Signed(x < 0, Magnitude(x)) == x
  {
  }

  /** The fraction `%09d` gives for the nanoseconds; none for a whole number of seconds. */
  function NineDigits(nanos: nat): (r: string)
    requires nanos < NanosPerSecond
    ensures |r| <= 9 && AllDigits(r)
  {
    if nanos == 0 then "" else Pad9(nanos)
  }

  /** NanosOf as seconds times 10^9 plus the padded fraction. */
  lemma NanosSplit(whole: string, fraction: string)
    requires AllDigits(whole) && AllDigits(fraction) && |fraction| <= 9
    ensures NanosOf(whole, fraction) == DecimalValue(whole) * NanosPerSecond + DecimalValue(fraction + Zeros(9 - |fraction|))
  {
    var padded := fraction + Zeros(9 - |fraction|);
    assert AllDigits(padded);
    DecimalValueConcat(whole, padded);
    assert Pow10(9) == NanosPerSecond;
  }

  /** The nanoseconds of `seconds` followed by the nine-digit fraction of `nanos`. */
  lemma NanosOfParts(seconds: nat, nanos: nat)
    requires nanos < NanosPerSecond
    ensures NanosOf(NatToDecimal(seconds), NineDigits(nanos)) == SecondsToNanos(seconds, nanos)
  {
    SecondsToNanosValue(seconds, nanos);
    var fraction := NineDigits(nanos);
    NanosSplit(NatToDecimal(seconds), fraction);
    DecimalRoundTrip(seconds);
    if nanos == 0 {
      assert fraction + Zeros(9 - |fraction|) == Zeros(9);
      ZerosValue(9);
    } else {
      assert fraction + Zeros(9 - |fraction|) == Pad9(nanos);
      Pad9Value(nanos);
    }
  }


  /** The first '.' of a string that starts with digits comes after them. */
  lemma DotAfterDigits(whole: string, rest: string)
    requires AllDigits(whole)
    ensures IndexOf(whole + rest, '.') >= |whole|
  {
    var m := whole + rest;
    forall i | 0 <= i < |whole| ensures m[i] != '.' {
      assert m[i] == whole[i] && IsDigit(whole[i]);
    }
    IndexFromPast(m, '.', 0, |whole|);
  }

  lemma MagnitudeShape(whole: string, fraction: string)
    requires |whole| >= 1 && AllDigits(whole) && AllDigits(fraction) && |fraction| <= 9
    ensures ParseMagnitude(whole + Tail(fraction)) == Some(NanosOf(whole, fraction))
  {
    var m := whole + Tail(fraction);
    DotAfterDigits(whole, Tail(fraction));
    if fraction != [] {
      assert m[|whole|] == '.';
      IndexFromFirst(m, '.', 0, |whole|);
      assert m[..|whole|] == whole && m[|whole| + 1..] == fraction;
    } else {
      assert m == whole;
    }
  }
  /** ParseDurationNanos once the sign and the body of `s` are known. */
  lemma ParseSigned(s: string, negative: bool, m: string, n: nat)
    requires |s| >= 2 && s[|s| - 1] == 's'
    requires negative ==> s[0] == '-' && s[1..|s| - 1] == m
    requires !negative ==> s[0] != '-' && s[..|s| - 1] == m
    requires ParseMagnitude(m) == Some(n)
    ensures ParseDurationNanos(s) == Some(Signed(negative, n))
  {
  }
  lemma SignShape(negative: bool, m: string, n: nat)
    requires m != [] && m[0] != '-'
    requires ParseMagnitude(m) == Some(n)
    ensures ParseDurationNanos(Sign(negative) + m + "s") == Some(Signed(negative, n))
  {
    var s := Sign(negative) + m + "s";
    assert |s| >= 2 && s[|s| - 1] == 's';
    if negative {
      assert s[0] == '-' && s[1..|s| - 1] == m;
    } else {
      assert s[0] != '-' && s[..|s| - 1] == m;
    }
    ParseSigned(s, negative, m, n);
  }
  /** Reading back a rendering: its sign applied to the nanoseconds its digits stand for. */
  lemma ParseShape(negative: bool, whole: string, fraction: string)
    requires |whole| >= 1 && AllDigits(whole) && AllDigits(fraction) && |fraction| <= 9
    ensures ParseDurationNanos(Render(negative, whole, fraction)) == Some(Signed(negative, NanosOf(whole, fraction)))
  {
    var m := whole + Tail(fraction);
    var n := NanosOf(whole, fraction);
    assert ParseDurationNanos(Sign(negative) + m + "s") == Some(Signed(negative, n)) by {
      assert ParseMagnitude(m) == Some(n) by {
        MagnitudeShape(whole, fraction);
      }
      assert m != [] && m[0] != '-' by {
        assert m[0] == whole[0] && IsDigit(whole[0]);
      }
      SignShape(negative, m, n);
    }
  }

  /** A string ending in 's' has no trailing '0' and no trailing '.' to remove. */
  lemma StripsKeepSuffix(s: string)
    requires s != [] && s[|s| - 1] == 's'
    ensures StripTrailingDot(StripTrailingZeros(s)) == s
  {
  }
  /** IntToDecimal is the sign followed by the decimal digits of the size. */
  lemma IntToDecimalSign(x: int)
    ensures IntToDecimal(x) == Sign(x < 0) + NatToDecimal(Magnitude(x))
  {
  }

  /** `%d.%09ds` is a rendering with the sign of the seconds and a nine-digit fraction. */
  lemma FormatIsRender(d: Duration)
    requires ValidDuration(d) && d.nanos != 0
    ensures FormatDuration(d) == Render(d.seconds < 0, NatToDecimal(Magnitude(d.seconds)), NineDigits(d.nanos))
  {
    IntToDecimalSign(d.seconds);
  }

  /** `%ds` for whole seconds is a rendering without a fraction. */
  lemma WholeIsRender(d: Duration)
    requires ValidDuration(d) && d.nanos == 0
    ensures DurationString(d) == Render(d.seconds < 0, NatToDecimal(Magnitude(d.seconds)), NineDigits(d.nanos))
  {
    IntToDecimalSign(d.seconds);
    assert NineDigits(d.nanos) == [];
  }

  /** DurationString is a rendering: the sign of the seconds, their size in
      decimal, and the nine-digit fraction unless the nanoseconds are zero. */
  lemma DurationStringShape(d: Duration)
    requires ValidDuration(d)
    ensures DurationString(d) == Render(d.seconds < 0, NatToDecimal(Magnitude(d.seconds)), NineDigits(d.nanos))
  {
    if d.nanos == 0 {
      WholeIsRender(d);
    } else {
      DurationStringKeepsZeros(d);
      FormatIsRender(d);
    }
  }

  /** DurationString reads back as its rendering does. A separate step, so that
      the proof about the parser never sees the string operations of
      `DurationString` and the proof about those never sees the parser. */
  lemma ReadsAsRender(d: Duration, v: Optional<int>)
    requires ValidDuration(d)
    requires ParseDurationNanos(Render(d.seconds < 0, NatToDecimal(Magnitude(d.seconds)), NineDigits(d.nanos))) == v
    ensures ParseDurationNanos(DurationString(d)) == v
  {
    DurationStringShape(d);
  }

  /** The string as written reads back as the number its digits stand for,
      with the sign of the seconds. */
  lemma DurationStringReadsDigits(d: Duration)
    requires ValidDuration(d)
    ensures ParseDurationNanos(DurationString(d))
      == Some(Signed(d.seconds < 0, NanosOf(NatToDecimal(Magnitude(d.seconds)), NineDigits(d.nanos))))
  {
    var whole := NatToDecimal(Magnitude(d.seconds));
    var fraction := NineDigits(d.nanos);
    NanosOfParts(Magnitude(d.seconds), d.nanos);
    ParseShape(d.seconds < 0, whole, fraction);
    ReadsAsRender(d, Some(Signed(d.seconds < 0, NanosOf(whole, fraction))));
  }

  /** How the string as written reads back: the sign of the seconds applied
      to their size plus the nanoseconds. */
  lemma DurationStringReads(d: Duration)
    requires ValidDuration(d)
    ensures ParseDurationNanos(DurationString(d)) == Some(Signed(d.seconds < 0, SecondsToNanos(Magnitude(d.seconds), d.nanos)))
  {
    DurationStringReadsDigits(d);
    NanosOfParts(Magnitude(d.seconds), d.nanos);
  }

  /** The string as written reads back as `n`, once `n` is the signed size worked
      out above. Callers that know `n` by arithmetic use this step so that the
      arithmetic and the parser are never in one proof. */
  lemma ReadsAs(d: Duration, n: int)
    requires ValidDuration(d)
    requires Signed(d.seconds < 0, SecondsToNanos(Magnitude(d.seconds), d.nanos)) == n
    ensures ParseDurationNanos(DurationString(d)) == Some(n)
  {
    DurationStringReads(d);
  }

  lemma SignOfSecondsIsSign(d: Duration)
    requires d.seconds >= 0 || d.nanos == 0
    ensures Signed(d.seconds < 0, SecondsToNanos(Magnitude(d.seconds), d.nanos)) == TotalNanos(d)
  {
    SecondsToNanosValue(Magnitude(d.seconds), d.nanos);
  }

  /** For a duration of at least zero seconds, or a whole number of seconds,
      the string as written reads back as the same length of time. */
  lemma DurationStringRoundTrip(d: Duration)
    requires ValidDuration(d) && (d.seconds >= 0 || d.nanos == 0)
    ensures ParseDurationNanos(DurationString(d)) == Some(TotalNanos(d))
  {
    SignOfSecondsIsSign(d);
    DurationStringReads(d);
  }

  /** Finding: the trailing-zero trimming never happens; the fraction always has nine digits. */
  lemma DurationStringKeepsZeros(d: Duration)
    requires ValidDuration(d) && d.nanos != 0
    ensures DurationString(d) == FormatDuration(d)
    ensures DurationString(d) == IntToDecimal(d.seconds) + "." + Pad9(d.nanos) + "s"
  {
    StripsKeepSuffix(FormatDuration(d));
  }
  /** Finding: a fraction that ends in zero keeps that zero right before the 's'. */
  lemma DurationStringTrailingZero(d: Duration)
    requires ValidDuration(d) && d.nanos != 0 && d.nanos % 10 == 0
    ensures var r := DurationString(d);
      '.' in r && r[|r| - 2] == '0'
  {
    var r := DurationString(d);
    DurationStringKeepsZeros(d);
    Pad9LastDigit(d.nanos);
    assert r[|IntToDecimal(d.seconds)|] == '.';
    assert r[|r| - 2] == Pad9(d.nanos)[8];
  }

  /** A digit followed by `k` zeros renders as that digit and `k` zeros. */
  lemma {:induction false} DigitThenZeros(d: nat, k: nat)
    requires 1 <= d < 10
    ensures NatToDecimal(d * Pow10(k)) == [DigitChar(d)] + Zeros(k)
  {
    if k > 0 {
      var n := d * Pow10(k);
      assert n == 10 * (d * Pow10(k - 1));
      assert n / 10 == d * Pow10(k - 1) && n % 10 == 0;
      DigitThenZeros(d, k - 1);
      assert Zeros(k - 1) + ['0'] == Zeros(k);
    }
  }

  /** The nine fraction digits of half a second. */
  lemma HalfSecondDigits()
    ensures Pad9(500_000_000) == "5" + Zeros(8)
  {
    assert Pow10(8) == 100_000_000;
    DigitThenZeros(5, 8);
    assert Zeros(0) + NatToDecimal(500_000_000) == NatToDecimal(500_000_000);
  }

  /** Finding, the concrete case: one and a half seconds is written with
      nine fraction digits, "1.500000000s", and not as "1.5s". */
  lemma OneAndAHalfSecondsAsWritten(d: Duration)
    requires d.seconds == 1 && d.nanos == 500_000_000
    ensures DurationString(d) == "1" + "." + ("5" + Zeros(8)) + "s"
  {
    HalfSecondDigits();
    DurationStringKeepsZeros(d);
    assert IntToDecimal(d.seconds) == "1";
  }

  lemma SignOfSecondsMisplaced(d: Duration)
    requires d.seconds < 0 && d.nanos != 0
    ensures Signed(d.seconds < 0, SecondsToNanos(Magnitude(d.seconds), d.nanos)) == -(-d.seconds * NanosPerSecond + d.nanos)
    ensures -(-d.seconds * NanosPerSecond + d.nanos) != TotalNanos(d)
  {
    SecondsToNanosValue(Magnitude(d.seconds), d.nanos);
  }

  /** Finding: a negative duration with a fraction (Java stores -1.5 s as
      seconds -2, nanos 500000000) is written with the sign of its seconds
      only, so it reads back as a different length of time. */
  lemma DurationStringMisreadsNegative(d: Duration)
    requires ValidDuration(d) && d.seconds < 0 && d.nanos != 0
    ensures ParseDurationNanos(DurationString(d)) == Some(-(-d.seconds * NanosPerSecond + d.nanos))
    ensures ParseDurationNanos(DurationString(d)) != Some(TotalNanos(d))
  {
    SignOfSecondsMisplaced(d);
    ReadsAs(d, -(-d.seconds * NanosPerSecond + d.nanos));
  }

  /** The fraction digits of a nanosecond count below one second, trailing
      zeros removed; none at all for zero. */
  function TrimmedDigits(nanos: nat): string
    requires nanos < NanosPerSecond
  {
    if nanos == 0 then "" else StripTrailingZeros(Pad9(nanos))
  }

  /** Sign, whole seconds, then the trimmed fraction of `magnitude` nanoseconds. */
  function RenderTrimmed(negative: bool, magnitude: nat): string {
    Render(negative, NatToDecimal(magnitude / NanosPerSecond), TrimmedDigits(magnitude % NanosPerSecond))
  }

  /** The rendering the trimming code evidently aims at, with the sign taken
      from the whole duration as the protobuf JSON format has it: "15s" for
      fifteen seconds, "1.5s" for one and a half, "-1.5s" for minus one and a half. */
  function DurationStringIntended(d: Duration): string
    requires ValidDuration(d)
  {
    RenderTrimmed(TotalNanos(d) < 0, Magnitude(TotalNanos(d)))
  }

  /** The fraction digits of a non-zero nanosecond count, trailing zeros
      removed: padding them back with zeros gives the nine digits again. */
  lemma TrimmedFraction(nanos: nat)
    requires 0 < nanos < NanosPerSecond
    ensures var t := StripTrailingZeros(Pad9(nanos));
      1 <= |t| <= 9 && AllDigits(t) && t[|t| - 1] != '0' && t + Zeros(9 - |t|) == Pad9(nanos)
  {
    var p := Pad9(nanos);
    var t := StripTrailingZeros(p);
    StripTrailingZerosPad(p);
    if t == [] {
      assert p == Zeros(9);
      ZerosValue(9);
      Pad9Value(nanos);
      assert false;
    }
  }
  /** The trimmed fraction still stands for the same nanoseconds. */
  lemma TrimmedNanos(magnitude: nat)
    ensures var fraction := TrimmedDigits(magnitude % NanosPerSecond);
      AllDigits(fraction) && |fraction| <= 9
      && NanosOf(NatToDecimal(magnitude / NanosPerSecond), fraction) == magnitude
  {
    var seconds := magnitude / NanosPerSecond;
    var nanos := magnitude % NanosPerSecond;
    var digits := NatToDecimal(seconds);
    var fraction := TrimmedDigits(nanos);
    var full := NineDigits(nanos);
    NanosOfParts(seconds, nanos);
    SecondsToNanosValue(seconds, nanos);
    if nanos != 0 {
      TrimmedFraction(nanos);
    }
    assert fraction + Zeros(9 - |fraction|) == full + Zeros(9 - |full|);
    NanosSplit(digits, fraction);
    NanosSplit(digits, full);
  }

  /** A trimmed rendering reads back as the signed magnitude. */
  lemma RenderTrimmedRoundTrip(negative: bool, magnitude: nat)
    ensures ParseDurationNanos(RenderTrimmed(negative, magnitude)) == Some(Signed(negative, magnitude))
  {
    TrimmedNanos(magnitude);
    ParseShape(negative, NatToDecimal(magnitude / NanosPerSecond), TrimmedDigits(magnitude % NanosPerSecond));
  }

  /** The intended rendering reads back as the same length of time, for every duration. */
  lemma DurationStringIntendedRoundTrip(d: Duration)
    requires ValidDuration(d)
    ensures ParseDurationNanos(DurationStringIntended(d)) == Some(TotalNanos(d))
  {
    SignedMagnitude(TotalNanos(d));
    RenderTrimmedRoundTrip(TotalNanos(d) < 0, Magnitude(TotalNanos(d)));
  }

  /** A rendering whose fraction is empty or ends in a non-zero digit has no
      trailing zero after a '.', and never a '.' right before the 's'. */
  lemma TrimmedShape(negative: bool, digits: string, fraction: string)
    requires |digits| >= 1 && AllDigits(digits) && AllDigits(fraction)
    requires fraction == [] || fraction[|fraction| - 1] != '0'
    ensures var r := Render(negative, digits, fraction);
      ('.' in r ==> r[|r| - 2] != '0') && r[|r| - 2] != '.'
  {
    var r := Render(negative, digits, fraction);
    if fraction == [] {
      assert r == Sign(negative) + digits + "s";
      assert r[|r| - 2] == digits[|digits| - 1];
      assert IsDigit(digits[|digits| - 1]);
      assert '.' !in r by {
        forall i | 0 <= i < |r| ensures r[i] != '.' {
          if |Sign(negative)| <= i < |r| - 1 {
            assert r[i] == digits[i - |Sign(negative)|];
            assert IsDigit(digits[i - |Sign(negative)|]);
          }
        }
      }
    } else {
      assert r[|r| - 2] == fraction[|fraction| - 1];
      assert IsDigit(fraction[|fraction| - 1]);
    }
  }

  /** The trimmed fraction is digits only and does not end in '0'. */
  lemma TrimmedDigitsShape(nanos: nat)
    requires nanos < NanosPerSecond
    ensures AllDigits(TrimmedDigits(nanos))
    ensures TrimmedDigits(nanos) == [] || TrimmedDigits(nanos)[|TrimmedDigits(nanos)| - 1] != '0'
  {
    if nanos != 0 {
      TrimmedFraction(nanos);
    }
  }

  /** A trimmed rendering carries no trailing zero in its fraction, and no bare '.'. */
  lemma RenderTrimmedIsTrimmed(negative: bool, magnitude: nat)
    ensures var r := RenderTrimmed(negative, magnitude);
      ('.' in r ==> r[|r| - 2] != '0') && r[|r| - 2] != '.'
  {
    TrimmedDigitsShape(magnitude % NanosPerSecond);
    TrimmedShape(negative, NatToDecimal(magnitude / NanosPerSecond), TrimmedDigits(magnitude % NanosPerSecond));
  }

  /** The intended rendering carries no trailing zero in its fraction, and no bare '.'. */
  lemma DurationStringIntendedIsTrimmed(d: Duration)
    requires ValidDuration(d)
    ensures var r := DurationStringIntended(d);
      ('.' in r ==> r[|r| - 2] != '0') && r[|r| - 2] != '.'
  {
    RenderTrimmedIsTrimmed(TotalNanos(d) < 0, Magnitude(TotalNanos(d)));
  }

  /** A run of zeros between `j` and `k` is skipped whole. */
  lemma {:induction false} ZeroRunSkips(s: string, j: nat, k: nat)
    requires j <= k <= |s|
    requires forall i :: j <= i < k ==> s[i] == '0'
    ensures ZeroRunStart(s, k) == ZeroRunStart(s, j)
    decreases k
  {
    if j < k {
      ZeroRunSkips(s, j, k - 1);
    }
  }

  /** Half a second trims to the single digit 5. */
  lemma HalfSecondTrimmed()
    ensures TrimmedDigits(500_000_000) == "5"
  {
    var p := Pad9(500_000_000);
    HalfSecondDigits();
    ZeroRunSkips(p, 1, 9);
    assert ZeroRunStart(p, 1) == 1;
    assert p[..1] == "5";
  }

  /** One and a half seconds splits into one whole second and half a second. */
  lemma OneAndAHalfSecondsParts(d: Duration)
    requires d.seconds == 1 && d.nanos == 500_000_000
    ensures DurationStringIntended(d) == Render(false, NatToDecimal(1), TrimmedDigits(500_000_000))
  {
    var total := TotalNanos(d);
    assert total == 1_500_000_000;
    assert total / NanosPerSecond == 1 && total % NanosPerSecond == 500_000_000;
  }

  lemma RenderOneAndAHalf()
    ensures Render(false, "1", "5") == "1.5s"
  {
  }

  /** Finding, corrected: one and a half seconds is written "1.5s". */
  lemma OneAndAHalfSecondsIntended(d: Duration)
    requires d.seconds == 1 && d.nanos == 500_000_000
    ensures DurationStringIntended(d) == "1.5s"
  {
    OneAndAHalfSecondsParts(d);
    HalfSecondTrimmed();
    assert NatToDecimal(1) == "1";
    RenderOneAndAHalf();
  }

  // ---------------------------------------------------------------------------
  // UUIDs

  const TwoTo63: int := 0x8000_0000_0000_0000
  const TwoTo64: int := 0x1_0000_0000_0000_0000

  /** Fits a Java `long`. */
  predicate IsLong(x: int) {
    -TwoTo63 <= x < TwoTo63
  }

  /** A `java.util.UUID` as its two signed 64-bit halves. */
  datatype Uuid = Uuid(mostSignificantBits: int, leastSignificantBits: int)

  predicate ValidUuid(u: Uuid) {
    IsLong(u.mostSignificantBits) && IsLong(u.leastSignificantBits)
  }

  /** `Long.toUnsignedString`: the 64 bits of `x` read as an unsigned number, in decimal. */
  function UnsignedString(x: int): (s: string)
    requires IsLong(x)
    ensures AllDigits(s) && |s| >= 1
    ensures DecimalValue(s) < TwoTo64
    ensures x >= 0 ==> DecimalValue(s) == x
    ensures x < 0 ==> DecimalValue(s) == x + TwoTo64
  {
    var u := if x < 0 then x + TwoTo64 else x;
    DecimalRoundTrip(u);
    NatToDecimal(u)
  }

  /** The signed `long` with the same 64 bits as the unsigned number `u`. */
  function ToSigned(u: nat): int
    requires u < TwoTo64
  {
    if u >= TwoTo63 then u - TwoTo64 else u
  }

  lemma UnsignedStringRoundTrip(x: int)
    requires IsLong(x)
    ensures ToSigned(DecimalValue(UnsignedString(x))) == x
    ensures DecimalValue(UnsignedString(x)) == x % TwoTo64
  {
  }

  /** createUuidObject. */
  function UuidObject(u: Uuid): (r: JValue)
    requires ValidUuid(u)
    ensures r.JObject? && r.fields.Keys == {"high64", "low64"}
    ensures r.fields["high64"].JString? && AllDigits(r.fields["high64"].str)
    ensures r.fields["low64"].JString? && AllDigits(r.fields["low64"].str)
  {
    JObject(map["high64" := JString(UnsignedString(u.mostSignificantBits)),
                "low64" := JString(UnsignedString(u.leastSignificantBits))])
  }

  /** Reads one half of a UUID object back to its signed 64 bits. */
  function ParseHalf(j: JValue): Optional<int> {
    if j.JString? && |j.str| >= 1 && AllDigits(j.str) && DecimalValue(j.str) < TwoTo64
    then Some(ToSigned(DecimalValue(j.str)))
    else None
  }

  /** Reads a `{high64, low64}` object back to a UUID. */
  function ParseUuidObject(j: JValue): Optional<Uuid> {
    if j.JObject? && "high64" in j.fields && "low64" in j.fields
       && ParseHalf(j.fields["high64"]).Some? && ParseHalf(j.fields["low64"]).Some?
    then Some(Uuid(ParseHalf(j.fields["high64"]).value, ParseHalf(j.fields["low64"]).value))
    else None
  }

  lemma UuidRoundTrip(u: Uuid)
    requires ValidUuid(u)
    ensures ParseUuidObject(UuidObject(u)) == Some(u)
  {
    UnsignedStringRoundTrip(u.mostSignificantBits);
    UnsignedStringRoundTrip(u.leastSignificantBits);
  }

  // ---------------------------------------------------------------------------
  // Other shapes

  /** createColorObject, given the colour's packed `getRGB()` value. */
  function ColorObject(rgb: int): (r: JValue)
    ensures r.JObject? && r.fields.Keys == {"color"} && r.fields["color"] == JNumber(rgb)
  {
    JObject(map["color" := JNumber(rgb)])
  }

  /** createEntityIdObject, given the entity's id and UUID. */
  function EntityIdObject(entityId: int, uuid: Uuid): (r: JValue)
    requires ValidUuid(uuid)
    ensures r.JObject? && r.fields.Keys == {"entity_id", "entity_uuid"}
    ensures r.fields["entity_id"] == JNumber(entityId)
    ensures r.fields["entity_uuid"] == UuidObject(uuid)
    ensures ParseUuidObject(r.fields["entity_uuid"]) == Some(uuid)
  {
    UuidRoundTrip(uuid);
    JObject(map["entity_id" := JNumber(entityId), "entity_uuid" := UuidObject(uuid)])
  }

  /** createItemStackIconObject: the item is named when a name is given and
      identified by number otherwise, never both. */
  function ItemStackIconObject(itemName: Optional<string>, itemId: int, customModelData: int): (r: JValue)
    ensures r.JObject? && r.fields.Keys == {"item_stack"} && r.fields["item_stack"].JObject?
    ensures var item := r.fields["item_stack"].fields;
      && ("item_name" in item <==> itemName.Some?)
      && ("item_id" in item <==> itemName.None?)
      && (itemName.Some? ==> item["item_name"] == JString(itemName.value))
      && (itemName.None? ==> item["item_id"] == JNumber(itemId))
      && "custom_model_data" in item && item["custom_model_data"] == JNumber(customModelData)
      && |item| == 2
  {
    var item :=
      if itemName.Some? then map["item_name" := JString(itemName.value)]
      else map["item_id" := JNumber(itemId)];
    JObject(map["item_stack" := JObject(item["custom_model_data" := JNumber(customModelData)])])
  }

  /** Gson's `addProperty(String, String)`: a null string becomes JSON null. */
  function StringOrNull(s: Optional<string>): JValue {
    if s.Some? then JString(s.value) else JNull
  }

  /** createSimpleResourceLocationIconObject. */
  function SimpleResourceLocationIconObject(resourceLocation: Optional<string>, size: int): (r: JValue)
    ensures r.JObject? && r.fields.Keys == {"simple_resource_location"}
    ensures r.fields["simple_resource_location"].JObject?
    ensures var icon := r.fields["simple_resource_location"].fields;
      && icon.Keys == {"resource_location", "size"}
      && icon["resource_location"] == StringOrNull(resourceLocation)
      && icon["size"] == JNumber(size)
  {
    JObject(map["simple_resource_location" :=
      JObject(map["resource_location" := StringOrNull(resourceLocation), "size" := JNumber(size)])])
  }

  const ConfigurableSettingsType := "type.googleapis.com/lunarclient.apollo.configurable.v1.ConfigurableSettings"

  /** createEnableModuleObjectWithType, given the fields of the object that
      `JsonPacketUtil.createEnableModuleObject` built: "@type" is set (over any
      earlier "@type") and every other field is kept. */
  function EnableModuleObjectWithType(base: map<string, JValue>): (r: JValue)
    ensures r.JObject? && r.fields.Keys == base.Keys + {"@type"}
    ensures r.fields["@type"] == JString(ConfigurableSettingsType)
    ensures forall k :: k in base && k != "@type" ==> r.fields[k] == base[k]
  {
    JObject(base["@type" := JString(ConfigurableSettingsType)])
  }
}
