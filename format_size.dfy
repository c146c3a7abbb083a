/**
 * `format_size` (server.py:17-24): a byte count as a value and a binary unit.
 * The "%.1f" rendering of the value is left abstract; the value itself is the
 * exact quotient n / 1024^k.
 */
module SizeFormat {

  datatype SizeLabel =
    | ZeroBytes                          // the literal "0 B"
    | Scaled(value: real, unit: string)  // "%.1f" of value, a space, the unit

  const Units: seq<string> := ["B", "KB", "MB", "GB", "TB"]

  function Pow1024(k: nat): (r: nat)
    ensures r >= 1
  {
    if k == 0 then 1 else 1024 * Pow1024(k - 1)
  }

  /** Sizes from this bound on are too large for unit k. */
  function Ceiling(k: nat): (r: nat)
    ensures r == 1024 * Pow1024(k)
  {
    Pow1024(k + 1)
  }

  /** The index of the first unit from `k` on under which `n` is below 1024; 5 stands for PB. */
  function UnitIndexFrom(n: nat, k: nat): nat
    requires k <= 5
    decreases 5 - k
  {
    if k == 5 || n < Ceiling(k) then k else UnitIndexFrom(n, k + 1)
  }

  function UnitName(k: nat): string
    requires k <= 5
  {
    if k < 5 then Units[k] else "PB"
  }

  /** What `format_size(n)` shows. */
  function SizeLabelOf(n: nat): SizeLabel
  {
    if n == 0 then ZeroBytes
    else
      var k := UnitIndexFrom(n, 0);
      Scaled((n as real) / (Pow1024(k) as real), UnitName(k))
  }

  /** `format_size`: divide by 1024 until the value drops below 1024 or the units run out. */
  method FormatSize(bytes: nat) returns (r: SizeLabel)
    ensures r == SizeLabelOf(bytes)
  {
    if bytes == 0 {
      return ZeroBytes;
    }
    var value: real := bytes as real;
    var k := 0;
    while k < |Units|
      invariant 0 <= k <= 5
      invariant value == (bytes as real) / (Pow1024(k) as real)
      invariant UnitIndexFrom(bytes, k) == UnitIndexFrom(bytes, 0)
    {
      ScaledBelow(bytes, k);
      if value < 1024.0 {
        return Scaled(value, Units[k]);
      }
      ScaledStep(bytes, k);
      value := value / 1024.0;
      k := k + 1;
    }
    return Scaled(value, "PB");
  }

  /** Comparing the scaled value with 1024 is comparing `n` with the next power. */
  lemma ScaledBelow(n: nat, k: nat)
    ensures (n as real) / (Pow1024(k) as real) < 1024.0 <==> n < Ceiling(k)
  {
    var p := Pow1024(k) as real;
    assert (Ceiling(k) as real) == 1024.0 * p;
    QuotientBelow(n as real, p, 1024.0);
  }

  lemma QuotientBelow(x: real, p: real, c: real)
    requires p > 0.0
    ensures x / p < c <==> x < c * p
  {
    var q := x / p;
    assert x == q * p;
    if q < c {
      assert (c - q) * p > 0.0;
    } else {
      assert (q - c) * p >= 0.0;
    }
  }

  /** Dividing the scaled value by 1024 scales by the next power. */
  lemma ScaledStep(n: nat, k: nat)
    ensures (n as real) / (Pow1024(k) as real) / 1024.0 == (n as real) / (Ceiling(k) as real)
  {
    var p := Pow1024(k) as real;
    assert (Ceiling(k) as real) == 1024.0 * p;
    QuotientTwice(n as real, p, 1024.0);
  }

  lemma QuotientTwice(x: real, p: real, c: real)
    requires p > 0.0 && c > 0.0
    ensures x / p / c == x / (c * p)
  {
    var q := x / p / c;
    assert x / p == q * c;
    assert x == q * c * p;
    assert q * (c * p) == x;
  }

  /** The search settles on the first index from `k` on whose next power exceeds `n` (5 if none does). */
  lemma {:induction false} UnitIndexLeast(n: nat, k: nat)
    requires k <= 5
    ensures var r := UnitIndexFrom(n, k);
            k <= r <= 5 && (r == 5 || n < Ceiling(r)) &&
            forall i :: k <= i < r ==> Ceiling(i) <= n
    decreases 5 - k
  {
    if k < 5 && n >= Ceiling(k) {
      UnitIndexLeast(n, k + 1);
    }
  }

  /** Conversely, any index that is the first to fit is where the search settles. */
  lemma {:induction false} UnitIndexIsLeast(n: nat, k: nat, j: nat)
    requires k <= j <= 5
    requires j == 5 || n < Ceiling(j)
    requires forall i :: k <= i < j ==> Ceiling(i) <= n
    ensures UnitIndexFrom(n, k) == j
    decreases j - k
  {
    if k < j {
      assert Ceiling(k) <= n;
      UnitIndexIsLeast(n, k + 1, j);
    }
  }

  lemma UnitNameInjective(a: nat, b: nat)
    requires a <= 5 && b <= 5 && UnitName(a) == UnitName(b)
    ensures a == b
  {
    assert UnitName(0) == "B" && UnitName(1) == "KB" && UnitName(2) == "MB";
    assert UnitName(3) == "GB" && UnitName(4) == "TB" && UnitName(5) == "PB";
  }

  /**
   * A positive size is shown in the unit k exactly when k is the first unit under
   * which the size is below 1024 of it (with PB taking everything from 1024 TB on).
   */
  lemma FormatSizeUnit(n: nat, k: nat)
    requires n > 0 && k <= 5
    ensures SizeLabelOf(n).unit == UnitName(k) <==>
            (k == 5 || n < Ceiling(k)) && forall i :: 0 <= i < k ==> Ceiling(i) <= n
  {
    var r := UnitIndexFrom(n, 0);
    UnitIndexLeast(n, 0);
    if SizeLabelOf(n).unit == UnitName(k) {
      UnitNameInjective(r, k);
    }
    if (k == 5 || n < Ceiling(k)) && forall i :: 0 <= i < k ==> Ceiling(i) <= n {
      UnitIndexIsLeast(n, 0, k);
    }
  }

  /**
   * The value shown is the exact size in the chosen unit, and it lies in [1, 1024)
   * for every unit below PB.
   */
  lemma FormatSizeValue(n: nat)
    requires n > 0
    ensures var k := UnitIndexFrom(n, 0);
            var v := SizeLabelOf(n).value;
            v * (Pow1024(k) as real) == n as real &&
            1.0 <= v && (k < 5 ==> v < 1024.0)
  {
    var k := UnitIndexFrom(n, 0);
    UnitIndexLeast(n, 0);
    if k > 0 {
      assert Ceiling(k - 1) <= n;
    }
    QuotientOfMultiple(n, Pow1024(k));
    if k < 5 {
      ScaledBelow(n, k);
    }
  }

  /** Dividing by a positive divisor no larger than `n` gives at least 1, and multiplying back restores `n`. */
  lemma QuotientOfMultiple(n: nat, p: nat)
    requires 1 <= p <= n
    ensures (n as real) / (p as real) * (p as real) == n as real
    ensures (n as real) / (p as real) >= 1.0
  {
    var x, q := n as real, p as real;
    QuotientBelow(x, q, 1.0);
  }

  /** Sizes at the unit boundaries. */
  lemma FormatSizeExamples(n: nat)
    ensures SizeLabelOf(0) == ZeroBytes
    ensures SizeLabelOf(1023) == Scaled(1023.0, "B")
    ensures SizeLabelOf(1024) == Scaled(1.0, "KB")
    ensures SizeLabelOf(1536) == Scaled(1.5, "KB")
    ensures n >= Pow1024(5) ==> SizeLabelOf(n).unit == "PB"
  {
    assert UnitIndexFrom(1023, 0) == 0;
    assert Pow1024(2) == 1048576;
    assert UnitIndexFrom(1024, 0) == 1;
    assert UnitIndexFrom(1536, 0) == 1;
    if n >= Pow1024(5) {
      FormatSizeUnit(n, 5);
      assert forall i :: 0 <= i < 5 ==> Ceiling(i) <= Pow1024(5) by {
        assert Ceiling(0) <= Ceiling(1) <= Ceiling(2) <= Ceiling(3) <= Ceiling(4);
      }
    }
  }
}
