/** Shared vocabulary of the library backend: optional values, results, the
    JavaScript truthiness rules the controllers rely on, string trimming,
    millisecond time and decimal rendering of numbers. */
module Common {

  datatype Option<+T> = None | Some(value: T)

  datatype Result<+T, +E> = Ok(value: T) | Err(error: E)

  /** Milliseconds since the epoch, as `Date.now()` returns them. */
  type Time = int

  /** One day in milliseconds: 24 * 60 * 60 * 1000. */
  const DayMs: int := 86400000

  /** Ten minutes in milliseconds, the lifetime of a one-time code. */
  const OtpLifetimeMs: int := 600000

  /** A request-body string is truthy when it is present and not empty. */
  predicate Present(o: Option<string>) {
    o.Some? && o.value != ""
  }

  /** A parsed number is truthy when it parsed (is not NaN) and is not 0. */
  predicate NumberPresent(o: Option<int>) {
    o.Some? && o.value != 0
  }

  /** `x || d` on a parsed number: NaN and 0 both fall back to `d`. */
  function NumberOr(o: Option<int>, d: int): (r: int)
    ensures NumberPresent(o) ==> r == o.value
    ensures !NumberPresent(o) ==> r == d
  {
    if NumberPresent(o) then o.value else d
  }

  /** `s || d` on a request-body string: absent and "" both fall back to `d`. */
  function StringOr(o: Option<string>, d: string): (r: string)
    ensures Present(o) ==> r == o.value
    ensures !Present(o) ==> r == d
  {
    if Present(o) then o.value else d
  }

  /** The characters JavaScript's `\s` and `String.prototype.trim` treat as
      white space or line terminators. */
  predicate IsSpace(c: char) {
    var n := c as int;
    n == 0x09 || n == 0x0A || n == 0x0B || n == 0x0C || n == 0x0D || n == 0x20
    || n == 0xA0 || n == 0x1680 || (0x2000 <= n <= 0x200A) || n == 0x2028
    || n == 0x2029 || n == 0x202F || n == 0x205F || n == 0x3000 || n == 0xFEFF
  }

  predicate NoSpace(s: string) {
    forall i :: 0 <= i < |s| ==> !IsSpace(s[i])
  }

  /** Drops leading white space: the result is a suffix of `s`, everything
      dropped was white space, and the result does not start with any. */
  function TrimStart(s: string): (r: string)
    ensures |r| <= |s| && r == s[|s| - |r|..]
    ensures forall i :: 0 <= i < |s| - |r| ==> IsSpace(s[i])
    ensures r != [] ==> !IsSpace(r[0])
    decreases |s|
  {
    if s != [] && IsSpace(s[0]) then TrimStart(s[1..]) else s
  }

  /** Drops trailing white space: the result is a prefix of `s`, everything
      dropped was white space, and the result does not end with any. */
  function TrimEnd(s: string): (r: string)
    ensures |r| <= |s| && r == s[..|r|]
    ensures forall i :: |r| <= i < |s| ==> IsSpace(s[i])
    ensures r != [] ==> !IsSpace(r[|r| - 1])
    decreases |s|
  {
    if s != [] && IsSpace(s[|s| - 1]) then TrimEnd(s[..|s| - 1]) else s
  }

  /** `String.prototype.trim`. */
  function Trim(s: string): string {
    TrimEnd(TrimStart(s))
  }

  /** The trimmed string neither starts nor ends with white space. */
  lemma TrimShape(s: string)
    ensures var r := Trim(s); r != [] ==> !IsSpace(r[0]) && !IsSpace(r[|r| - 1])
  {
    var t := TrimStart(s);
    var r := TrimEnd(t);
    if r != [] {
      assert r[0] == t[0];
    }
  }

  /** Trimming twice is trimming once. */
  lemma TrimIdempotent(s: string)
    ensures Trim(Trim(s)) == Trim(s)
  {
    var r := Trim(s);
    TrimStartNoLeading(r);
    TrimEndNoTrailing(r);
  }

  lemma TrimStartNoLeading(s: string)
    requires s == [] || !IsSpace(s[0])
    ensures TrimStart(s) == s
  {
  }

  lemma TrimEndNoTrailing(s: string)
    requires s == [] || !IsSpace(s[|s| - 1])
    ensures TrimEnd(s) == s
  {
  }

  /** A string without white space is its own trim. */
  lemma TrimNoSpace(s: string)
    requires NoSpace(s)
    ensures Trim(s) == s
  {
    TrimStartNoLeading(s);
    TrimEndNoTrailing(s);
  }

  /** `s.trim() === ''` exactly when `s` consists of white space only. */
  lemma TrimEmptyIff(s: string)
    ensures Trim(s) == "" <==> forall i :: 0 <= i < |s| ==> IsSpace(s[i])
  {
    var t := TrimStart(s);
    if Trim(s) == "" {
      assert t == [];
    } else {
      var r := Trim(s);
      var k := |s| - |t|;
      assert !IsSpace(t[0]);
      assert t[0] == s[k];
    }
  }

  /** `Math.ceil(a / d)` for a positive divisor, in integers: the least `k`
      with `k * d >= a`. Dafny's `/` is Euclidean, so this is exact for
      negative `a` as well. */
  function CeilDiv(a: int, d: int): (k: int)
    requires d > 0
    ensures k * d >= a && (k - 1) * d < a
  {
    var q := (-a) / d;
    assert q * d <= -a < q * d + d;
    -q
  }

  /** The least-multiple characterisation determines `CeilDiv`. */
  lemma CeilDivUnique(a: int, d: int, k: int)
    requires d > 0 && k * d >= a && (k - 1) * d < a
    ensures CeilDiv(a, d) == k
  {
    var c := CeilDiv(a, d);
    if c < k {
      assert c * d <= (k - 1) * d by { MulMonotone(c, k - 1, d); }
    } else if c > k {
      assert k * d <= (c - 1) * d by { MulMonotone(k, c - 1, d); }
    }
  }

  lemma MulMonotone(x: int, y: int, d: int)
    requires x <= y && d > 0
    ensures x * d <= y * d
  {
    assert y * d - x * d == (y - x) * d;
  }

  /** Rounding up is positive exactly when the numerator is positive. */
  lemma CeilDivPositiveIff(a: int, d: int)
    requires d > 0
    ensures CeilDiv(a, d) > 0 <==> a > 0
  {
    var k := CeilDiv(a, d);
    if k > 0 {
      assert (k - 1) * d >= 0 by { MulMonotone(0, k - 1, d); }
    } else {
      assert k * d <= 0 by { MulMonotone(k, 0, d); }
    }
  }

  function DigitChar(d: int): (c: char)
    requires 0 <= d < 10
    ensures '0' <= c <= '9' && c as int - '0' as int == d
  {
    (d + '0' as int) as char
  }

  predicate AllDigits(s: string) {
    forall i :: 0 <= i < |s| ==> '0' <= s[i] <= '9'
  }

  /** `String(n)` for a non-negative integer: decimal digits, no leading zero. */
  function NatToDecimal(n: nat): (s: string)
    ensures |s| >= 1 && AllDigits(s)
    ensures |s| > 1 ==> s[0] != '0'
    decreases n
  {
    if n < 10 then [DigitChar(n)] else NatToDecimal(n / 10) + [DigitChar(n % 10)]
  }

  /** `String(i)` for any integer. */
  function IntToDecimal(i: int): string {
    if i < 0 then "-" + NatToDecimal(-i) else NatToDecimal(i)
  }

  /** The number a string of decimal digits denotes. */
  function DecimalValue(s: string): nat
    requires AllDigits(s)
  {
    if s == [] then 0 else 10 * DecimalValue(s[..|s| - 1]) + (s[|s| - 1] as int - '0' as int)
  }

  /** Reading back a rendered number gives the number. */
  lemma {:induction false} DecimalRoundTrip(n: nat)
    ensures DecimalValue(NatToDecimal(n)) == n
    decreases n
  {
    if n >= 10 {
      DecimalRoundTrip(n / 10);
      var s := NatToDecimal(n);
      assert s[..|s| - 1] == NatToDecimal(n / 10);
    }
  }

  /** A number in [10^(w-1), 10^w) renders with exactly `w` digits. */
  lemma {:induction false} DecimalWidth(n: nat, w: nat)
    requires 1 <= w && Pow10(w - 1) <= n < Pow10(w)
    ensures |NatToDecimal(n)| == w
    decreases w
  {
    if w > 1 {
      assert n >= 10 by { Pow10AtLeast(w - 1); }
      assert Pow10(w - 2) <= n / 10 < Pow10(w - 1);
      DecimalWidth(n / 10, w - 1);
    } else {
      assert n < 10;
    }
  }

  function Pow10(k: nat): nat {
    if k == 0 then 1 else 10 * Pow10(k - 1)
  }

  lemma Pow10AtLeast(k: nat)
    requires k >= 1
    ensures Pow10(k) >= 10
  {
  }
}
