/**
 formatFileSize: "0 Bytes" for an empty file, otherwise the size divided by
 1024^i followed by the i-th unit of Bytes, KB, MB, GB, where i is the floor of
 the base-1024 logarithm of the size. The unit choice is modelled with integer
 powers of 1024; the two-decimal rendering of the quotient is the host's.
 */
module FileSize {

  const K: nat := 1024
  const Sizes: seq<string> := ["Bytes", "KB", "MB", "GB"]

  /** 1024 to the power n. */
  function Pow(n: nat): (p: nat)
    ensures p >= 1
  {
    if n == 0 then 1 else K * Pow(n - 1)
  }

  /** Sizes the unit table can express: below 1024^4 (the code does not clamp the unit index). */
  predicate InUnitRange(bytes: nat)
  {
    bytes < Pow(|Sizes|)
  }

  /** floor(log_1024(bytes)): the largest i with 1024^i <= bytes. */
  function UnitIndex(bytes: nat): (i: nat)
    requires bytes >= 1
    ensures Pow(i) <= bytes < Pow(i + 1)
    decreases bytes
  {
    if bytes < K then 0 else 1 + UnitIndex(bytes / K)
  }

  lemma {:induction false} PowMonotone(m: nat, n: nat)
    requires m <= n
    ensures Pow(m) <= Pow(n)
  {
    if m < n {
      PowMonotone(m, n - 1);
    }
  }

  /** The unit index is the only i with 1024^i <= bytes < 1024^(i+1). */
  lemma UnitIndexUnique(bytes: nat, i: nat)
    requires Pow(i) <= bytes < Pow(i + 1)
    ensures UnitIndex(bytes) == i
  {
    var u := UnitIndex(bytes);
    if u < i {
      PowMonotone(u + 1, i);
    } else if i < u {
      PowMonotone(i + 1, u);
    }
  }

  /** Larger sizes never get a smaller unit. */
  lemma UnitIndexMonotone(a: nat, b: nat)
    requires 1 <= a <= b
    ensures UnitIndex(a) <= UnitIndex(b)
  {
  }

  /** Sizes below 1024^4 pick one of the four defined units. */
  lemma UnitIndexInTable(bytes: nat)
    requires 1 <= bytes && InUnitRange(bytes)
    ensures UnitIndex(bytes) < |Sizes|
  {
  }

  /** The size text. `twoDecimals(n, d)` stands for the host's
      parseFloat((n / d).toFixed(2)) rendering of the quotient n / d. */
  function FormatFileSize(bytes: nat, twoDecimals: (nat, nat) -> string): (text: string)
    requires InUnitRange(bytes)
    ensures bytes == 0 ==> text == "0 Bytes"
    ensures bytes > 0 ==>
      (exists i :: 0 <= i < |Sizes| && Pow(i) <= bytes < Pow(i + 1) && text == twoDecimals(bytes, Pow(i)) + " " + Sizes[i])
  {
    if bytes == 0 then "0 Bytes"
    else
      UnitIndexInTable(bytes);
      var i := UnitIndex(bytes);
      twoDecimals(bytes, Pow(i)) + " " + Sizes[i]
  }

  /** An empty file is "0 Bytes", whatever the host renders numbers as. */
  lemma FormatZero(twoDecimals: (nat, nat) -> string)
    ensures FormatFileSize(0, twoDecimals) == "0 Bytes"
  {
  }

  /** Within the band 1024^i <= bytes < 1024^(i+1) the unit is the i-th one and the
      unrounded quotient bytes / 1024^i lies in [1, 1024). */
  lemma FormatInBand(bytes: nat, i: nat, twoDecimals: (nat, nat) -> string)
    requires i < |Sizes| && Pow(i) <= bytes < Pow(i + 1)
    ensures InUnitRange(bytes)
    ensures FormatFileSize(bytes, twoDecimals) == twoDecimals(bytes, Pow(i)) + " " + Sizes[i]
    ensures 1.0 <= bytes as real / Pow(i) as real < K as real
  {
    PowMonotone(i + 1, |Sizes|);
    UnitIndexUnique(bytes, i);
    var p := Pow(i) as real;
    assert Pow(i + 1) as real == K as real * p;
    QuotientBounds(bytes as real, p);
  }

  lemma QuotientBounds(b: real, p: real)
    requires 0.0 < p <= b < 1024.0 * p
    ensures 1.0 <= b / p < 1024.0
  {
    var q := b / p;
    assert q * p == b;
    assert (q - 1.0) * p == b - p >= 0.0;
    assert (1024.0 - q) * p == 1024.0 * p - b > 0.0;
    PositiveFactor(1024.0 - q, p);
  }

  lemma PositiveFactor(x: real, p: real)
    requires p > 0.0 && x * p > 0.0
    ensures x > 0.0
  {
  }

  /** 1536 bytes are counted in KB, with the quotient 1.5. */
  lemma FormatKilobytes(twoDecimals: (nat, nat) -> string)
    ensures FormatFileSize(1536, twoDecimals) == twoDecimals(1536, 1024) + " KB"
    ensures 1536 as real / Pow(UnitIndex(1536)) as real == 1.5
  {
    FormatInBand(1536, 1, twoDecimals);
    UnitIndexUnique(1536, 1);
  }

  /** 1048576 bytes are exactly one MB. */
  lemma FormatMegabyte(twoDecimals: (nat, nat) -> string)
    ensures InUnitRange(1048576) && FormatFileSize(1048576, twoDecimals) == twoDecimals(1048576, 1048576) + " MB"
    ensures 1048576 as real / Pow(UnitIndex(1048576)) as real == 1.0
  {
    FormatInBand(1048576, 2, twoDecimals);
    UnitIndexUnique(1048576, 2);
  }

  /** 1073741824 bytes are exactly one GB. */
  lemma FormatGigabyte(twoDecimals: (nat, nat) -> string)
    ensures InUnitRange(1073741824) && FormatFileSize(1073741824, twoDecimals) == twoDecimals(1073741824, 1073741824) + " GB"
    ensures 1073741824 as real / Pow(UnitIndex(1073741824)) as real == 1.0
  {
    FormatInBand(1073741824, 3, twoDecimals);
    UnitIndexUnique(1073741824, 3);
  }
}
