/**
 Human-readable rendering of a byte count in binary units (`convert_size`).

 The source divides a number by 1024.0 while it is at least 1024 and the unit
 index is below the length of the unit table, then looks the unit up in the
 table. Dividing by 1024 is an exact scaling by a power of two, so the value
 after k steps is modelled as the real number size / 1024^k. The rounding to
 `precision` decimal places and the string formatting are not modelled: a
 rendering is the pair (amount, suffix).

 Two versions are modelled: the loop as written, whose guard lets the index
 run one past the table, and the corrected loop that stops at the last unit.
 */
module SizeFormat {

  /** The unit table, smallest first: entry k names 1024^k bytes. */
  const Suffixes: seq<string> := ["B", "KiB", "MiB", "GiB", "TiB", "PiB"]

  /** A rendered size: the scaled amount and its unit. */
  datatype HumanSize = HumanSize(amount: real, suffix: string)

  /** What the source's lookup `suffixes[index]` produces: a rendering, or the
      IndexError Python raises when the index is past the end of the table. */
  datatype Conversion = Converted(shown: HumanSize) | IndexError(index: nat)

  function Min(a: nat, b: nat): nat { if a <= b then a else b }

  /** 1024^k. */
  function Pow1024(k: nat): (p: nat)
    ensures p >= 1
  {
    if k == 0 then 1 else 1024 * Pow1024(k - 1)
  }

  /** The order of magnitude of n in base 1024: the largest k with 1024^k <= n,
      and 0 for n = 0. This is the unit an unbounded table would choose. */
  function Log1024(n: nat): nat
  {
    if n < 1024 then 0 else 1 + Log1024(n / 1024)
  }

  /** The number of bytes scaled down by k units. */
  function Scaled(size: nat, k: nat): real
  {
    size as real / Pow1024(k) as real
  }

  /** The number of loop steps of the source as written: one per factor of
      1024, but the guard `index < len(suffixes)` allows up to |Suffixes|. */
  function StepsAsWritten(size: nat): nat
  {
    Min(Log1024(size), |Suffixes|)
  }

  /** The number of loop steps of the corrected loop, which stops at the last unit. */
  function StepsCorrected(size: nat): nat
  {
    Min(Log1024(size), |Suffixes| - 1)
  }

  /** The result of `convert_size` as written. */
  function ConvertAsWritten(size: nat): Conversion
  {
    var k := StepsAsWritten(size);
    if k < |Suffixes| then Converted(HumanSize(Scaled(size, k), Suffixes[k])) else IndexError(k)
  }

  /** The result of the corrected `convert_size`. */
  function Convert(size: nat): HumanSize
  {
    var k := StepsCorrected(size);
    HumanSize(Scaled(size, k), Suffixes[k])
  }

  /** The position of the first occurrence of x in table (|table| when absent). */
  function IndexOf(table: seq<string>, x: string): nat
  {
    if table == [] then 0
    else if table[0] == x then 0
    else 1 + IndexOf(table[1..], x)
  }

  /** The position of a suffix in the unit table (|Suffixes| when absent). */
  function UnitIndex(suffix: string): nat
  {
    IndexOf(Suffixes, suffix)
  }

  /** Each entry of the unit table is found at its own position. */
  lemma UnitIndexOfSuffix(k: nat)
    requires k < |Suffixes|
    ensures UnitIndex(Suffixes[k]) == k
  {
    var t := Suffixes;
    assert t[1..] == ["KiB", "MiB", "GiB", "TiB", "PiB"];
    assert t[1..][1..] == ["MiB", "GiB", "TiB", "PiB"];
    assert t[1..][1..][1..] == ["GiB", "TiB", "PiB"];
    assert t[1..][1..][1..][1..] == ["TiB", "PiB"];
    assert t[1..][1..][1..][1..][1..] == ["PiB"];
  }

  /** The number of bytes a rendering stands for. */
  function ToBytes(h: HumanSize): real
  {
    h.amount * Pow1024(UnitIndex(h.suffix)) as real
  }

  // ---------------------------------------------------------------------
  // Facts about the order of magnitude
  // ---------------------------------------------------------------------

  /** Log1024(n) is bracketed by consecutive powers of 1024. */
  lemma {:induction false} Log1024Brackets(n: nat)
    ensures n < Pow1024(Log1024(n) + 1)
    ensures n >= 1 ==> Pow1024(Log1024(n)) <= n
  {
    if n >= 1024 {
      Log1024Brackets(n / 1024);
    }
  }

  /** The brackets determine the order of magnitude uniquely. */
  lemma {:induction false} Log1024Unique(n: nat, k: nat)
    requires k == 0 || Pow1024(k) <= n
    requires n < Pow1024(k + 1)
    ensures Log1024(n) == k
  {
    if k > 0 {
      assert n >= 1024 by { assert Pow1024(k) >= 1024; }
      Log1024Unique(n / 1024, k - 1);
    }
  }

  /** Reaching 1024^k bytes means a magnitude of at least k. */
  lemma {:induction false} Log1024AtLeast(n: nat, k: nat)
    requires Pow1024(k) <= n
    ensures k <= Log1024(n)
  {
    if k > 0 {
      assert n >= 1024 by { assert Pow1024(k) >= 1024; }
      Log1024AtLeast(n / 1024, k - 1);
    }
  }

  /** Staying below 1024^k bytes (k >= 1) means a magnitude below k. */
  lemma {:induction false} Log1024Below(n: nat, k: nat)
    requires 1 <= k
    requires n < Pow1024(k)
    ensures Log1024(n) < k
  {
    if n >= 1024 {
      assert k >= 2;
      Log1024Below(n / 1024, k - 1);
    }
  }

  // ---------------------------------------------------------------------
  // Facts about the scaled value
  // ---------------------------------------------------------------------

  /** One more loop step divides the value by 1024 once more. */
  lemma ScaledStep(size: nat, k: nat)
    ensures Scaled(size, k + 1) == Scaled(size, k) / 1024.0
  {
    var p := Pow1024(k) as real;
    assert Pow1024(k + 1) as real == 1024.0 * p;
    var q := Scaled(size, k);
    assert q * p == size as real;
    assert (q / 1024.0) * (1024.0 * p) == size as real;
  }

  /** Dividing by a positive number keeps a lower bound exactly when
      multiplying the bound does. */
  lemma DivAtLeast(s: real, p: real, c: real)
    requires p > 0.0
    ensures s / p >= c <==> s >= c * p
  {
    var q := s / p;
    assert q * p == s;
    if q >= c {
      assert (q - c) * p >= 0.0;
    } else {
      assert (c - q) * p > 0.0;
    }
  }

  /** The loop guard `size >= 1024` on the scaled value is a test on the bytes. */
  lemma ScaledAtLeastBase(size: nat, k: nat)
    ensures Scaled(size, k) >= 1024.0 <==> size >= Pow1024(k + 1)
  {
    assert Pow1024(k + 1) as real == 1024.0 * Pow1024(k) as real;
    DivAtLeast(size as real, Pow1024(k) as real, 1024.0);
  }

  /** Below the next power of 1024, the scaled value is below 1024; at or
      above the current power it is at least 1. */
  lemma ScaledRange(size: nat, k: nat)
    ensures size < Pow1024(k + 1) ==> Scaled(size, k) < 1024.0
    ensures Pow1024(k) <= size ==> 1.0 <= Scaled(size, k)
  {
    ScaledAtLeastBase(size, k);
    DivAtLeast(size as real, Pow1024(k) as real, 1.0);
  }

  // ---------------------------------------------------------------------
  // The loop as written (rm_older.py:45-52)
  // ---------------------------------------------------------------------

  /** `convert_size` as written: the guard `index < len(suffixes)` lets the
      index reach |Suffixes|, and the lookup then fails. */
  method ConvertSizeAsWritten(size: nat) returns (r: Conversion)
    ensures r == ConvertAsWritten(size)
    ensures size < 1024 ==> r == Converted(HumanSize(size as real, "B"))
  {
    var value := size as real;
    var index := 0;
    while value >= 1024.0 && index < |Suffixes|
      invariant 0 <= index <= |Suffixes|
      invariant value == Scaled(size, index)
      invariant index == 0 || Pow1024(index) <= size
    {
      ScaledAtLeastBase(size, index);
      ScaledStep(size, index);
      index := index + 1;
      value := value / 1024.0;
    }
    ScaledAtLeastBase(size, index);
    if index < |Suffixes| {
      Log1024Unique(size, index);
    } else {
      Log1024AtLeast(size, index);
    }
    if index < |Suffixes| {
      r := Converted(HumanSize(value, Suffixes[index]));
    } else {
      r := IndexError(index);
    }
  }

  /** After the loop as written: the index counts the steps, the value is the
      size scaled by that many units, and, unless the index ran off the table,
      the value is below 1024 (the negation of the guard). */
  lemma AsWrittenLoopExit(size: nat)
    ensures StepsAsWritten(size) <= |Suffixes|
    ensures StepsAsWritten(size) < |Suffixes| ==> Scaled(size, StepsAsWritten(size)) < 1024.0
    ensures StepsAsWritten(size) == |Suffixes| ==> Scaled(size, |Suffixes|) >= 1.0
  {
    var k := StepsAsWritten(size);
    Log1024Brackets(size);
    if k < |Suffixes| {
      ScaledRange(size, k);
    } else {
      Log1024Brackets(size);
      assert Pow1024(|Suffixes|) <= size by {
        PowMonotone(|Suffixes|, Log1024(size));
      }
      ScaledRange(size, k);
    }
  }

  /** Larger exponents give larger powers. */
  lemma {:induction false} PowMonotone(j: nat, k: nat)
    requires j <= k
    ensures Pow1024(j) <= Pow1024(k)
  {
    if j < k {
      PowMonotone(j, k - 1);
    }
  }

  /** The unit chosen for a size between 1024^k and 1024^(k+1) is the k-th,
      and the amount is the size scaled by k units. */
  lemma UnitForMagnitude(size: nat, k: nat)
    requires k < |Suffixes|
    requires k == 0 || Pow1024(k) <= size
    requires size < Pow1024(k + 1)
    ensures ConvertAsWritten(size) == Converted(HumanSize(Scaled(size, k), Suffixes[k]))
    ensures Convert(size) == HumanSize(Scaled(size, k), Suffixes[k])
  {
    Log1024Unique(size, k);
  }

  /** The lookup `suffixes[index]` fails exactly when the size is at least
      1024^6 bytes, and then the index is 6. */
  lemma AsWrittenFailsIffHuge(size: nat)
    ensures ConvertAsWritten(size).IndexError? <==> size >= Pow1024(|Suffixes|)
    ensures ConvertAsWritten(size).IndexError? ==> ConvertAsWritten(size).index == |Suffixes|
  {
    if size >= Pow1024(|Suffixes|) {
      Log1024AtLeast(size, |Suffixes|);
    } else {
      Log1024Below(size, |Suffixes|);
    }
  }

  /** A concrete input the guard lets through: one exbibyte (1024^6 bytes). */
  lemma AsWrittenFailsAtOneExbibyte()
    ensures Pow1024(6) == 1152921504606846976
    ensures ConvertAsWritten(1152921504606846976) == IndexError(6)
  {
    AsWrittenFailsIffHuge(Pow1024(6));
  }

  // ---------------------------------------------------------------------
  // The corrected loop
  // ---------------------------------------------------------------------

  /** `convert_size` with the guard stopping at the last unit: sizes of
      1024^5 bytes and more are rendered in PiB with an unbounded amount. */
  method ConvertSize(size: nat) returns (h: HumanSize)
    ensures h == Convert(size)
    ensures size < 1024 ==> h == HumanSize(size as real, "B")
  {
    var value := size as real;
    var index := 0;
    while value >= 1024.0 && index < |Suffixes| - 1
      invariant 0 <= index <= |Suffixes| - 1
      invariant value == Scaled(size, index)
      invariant index == 0 || Pow1024(index) <= size
    {
      ScaledAtLeastBase(size, index);
      ScaledStep(size, index);
      index := index + 1;
      value := value / 1024.0;
    }
    ScaledAtLeastBase(size, index);
    if index < |Suffixes| - 1 {
      Log1024Unique(size, index);
    } else {
      Log1024AtLeast(size, index);
    }
    h := HumanSize(value, Suffixes[index]);
  }

  /** Wherever the source as written returns, the corrected version returns
      the same rendering. */
  lemma CorrectedAgreesWithAsWritten(size: nat)
    ensures ConvertAsWritten(size).Converted? ==> ConvertAsWritten(size).shown == Convert(size)
    ensures ConvertAsWritten(size).Converted? <==> size < Pow1024(|Suffixes|)
  {
    AsWrittenFailsIffHuge(size);
    if size < Pow1024(|Suffixes|) {
      Log1024Below(size, |Suffixes|);
    }
  }

  /** The corrected rendering always uses a unit from the table; below 1024^5
      bytes its amount lies in [1, 1024) (or is 0 for 0 bytes), from 1024^5
      bytes on it is in PiB and at least 1. */
  lemma ConvertInRange(size: nat)
    ensures Convert(size).suffix in Suffixes
    ensures size < Pow1024(|Suffixes| - 1) ==> Convert(size).amount < 1024.0
    ensures size >= 1 ==> Convert(size).amount >= 1.0
    ensures size == 0 ==> Convert(size) == HumanSize(0.0, "B")
    ensures size >= Pow1024(|Suffixes| - 1) ==> Convert(size).suffix == "PiB"
  {
    var k := StepsCorrected(size);
    Log1024Brackets(size);
    if size < Pow1024(|Suffixes| - 1) {
      Log1024Below(size, |Suffixes| - 1);
      ScaledRange(size, k);
    } else {
      Log1024AtLeast(size, |Suffixes| - 1);
    }
    if size >= 1 {
      PowMonotone(k, Log1024(size));
      ScaledRange(size, k);
    }
  }

  /** Reading a rendering back gives the original number of bytes. */
  lemma ConvertRoundTrip(size: nat)
    ensures ToBytes(Convert(size)) == size as real
  {
    var k := StepsCorrected(size);
    UnitIndexOfSuffix(k);
    var p := Pow1024(k) as real;
    assert Scaled(size, k) * p == size as real;
  }

  /** Four sample sizes: 0, 1023, 1024 and 1048576 bytes. */
  lemma SampleSizes()
    ensures Convert(0) == HumanSize(0.0, "B")
    ensures Convert(1023) == HumanSize(1023.0, "B")
    ensures Convert(1024) == HumanSize(1.0, "KiB")
    ensures Convert(1048576) == HumanSize(1.0, "MiB")
  {
    UnitForMagnitude(0, 0);
    UnitForMagnitude(1023, 0);
    UnitForMagnitude(1024, 1);
    UnitForMagnitude(1048576, 2);
  }
}
