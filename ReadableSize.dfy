/** Human-readable byte sizes: the unit-selection loop of `afficher_taille_lisible`.
    A size in bytes is divided by 1024 until it drops below 1024 or the last
    suffix ("To") is reached. Dividing by 1024 scales exactly by a power of two,
    so the value is modelled with `real` and the choice of unit with integers. */
module ReadableSize {

  /** The suffixes, from bytes to tebibytes, in the order the loop walks them. */
  const Suffixes: seq<string> := ["o", "Ko", "Mo", "Go", "To"]

  /** Index of the last suffix; the loop never goes past it. */
  const Last: nat := |Suffixes| - 1

  const Base: nat := 1024

  /** Base^k, the number of bytes in one unit of suffix k. */
  function Pow(k: nat): (p: nat)
    ensures p >= 1
  {
    if k == 0 then 1 else Base * Pow(k - 1)
  }

  /** The unit index chosen for `n` when the search starts at index `k`:
      the first index from `k` on whose next unit is larger than `n`, or Last. */
  function UnitIndexFrom(n: int, k: nat): (i: nat)
    requires k <= Last
    ensures k <= i <= Last
    ensures i == Last || n < Pow(i + 1)
    decreases Last - k
  {
    if k == Last || n < Pow(k + 1) then k else UnitIndexFrom(n, k + 1)
  }

  /** The unit index chosen for a size of `n` bytes: a valid index into
      Suffixes at which the loop may stop. */
  function UnitIndex(n: int): (i: nat)
    ensures i < |Suffixes|
    ensures i == Last || n < Pow(i + 1)
  {
    UnitIndexFrom(n, 0)
  }

  /** `i` is the smallest index at most Last such that n < Base^(i+1), or Last
      when there is none. */
  ghost predicate IsUnitIndex(n: int, i: nat)
  {
    && i <= Last
    && (i == Last || n < Pow(i + 1))
    && forall j: nat :: 0 < j <= i ==> Pow(j) <= n
  }

  lemma {:induction false} UnitIndexFromIsLeast(n: int, k: nat)
    requires k <= Last
    requires forall j: nat :: 0 < j <= k ==> Pow(j) <= n
    ensures IsUnitIndex(n, UnitIndexFrom(n, k))
    decreases Last - k
  {
    if k < Last && n >= Pow(k + 1) {
      UnitIndexFromIsLeast(n, k + 1);
    }
  }

  /** The index chosen is the least one whose next unit exceeds the size, or Last. */
  lemma UnitIndexIsLeast(n: int)
    ensures IsUnitIndex(n, UnitIndex(n))
  {
    UnitIndexFromIsLeast(n, 0);
  }

  /** The characterisation determines the index: there is exactly one. */
  lemma UnitIndexUnique(n: int, i: nat)
    requires IsUnitIndex(n, i)
    ensures i == UnitIndex(n)
  {
    UnitIndexIsLeast(n);
    var u := UnitIndex(n);
    var i1: nat, u1: nat := i + 1, u + 1;
    assert i < u ==> Pow(i1) <= n;
    assert u < i ==> Pow(u1) <= n;
  }

  /** Sizes below 1024 bytes stay in bytes ("o"). */
  lemma SmallSizeInBytes(n: int)
    requires n < Base
    ensures UnitIndex(n) == 0
  {
    UnitIndexIsLeast(n);
    var one: nat := 1;
    assert UnitIndex(n) > 0 ==> Pow(one) <= n;
  }

  /** A size of at least 1024 bytes is shown in some larger unit. */
  lemma LargeSizeScaled(n: int)
    requires n >= Base
    ensures UnitIndex(n) >= 1
  {
    assert Pow(1) == Base;
  }

  /** A larger size never gets a smaller unit. */
  lemma UnitIndexMonotone(n: int, m: int)
    requires n <= m
    ensures UnitIndex(n) <= UnitIndex(m)
  {
    UnitIndexIsLeast(n);
    UnitIndexIsLeast(m);
    var a, b := UnitIndex(n), UnitIndex(m);
    var b1: nat := b + 1;
    assert b < a ==> Pow(b1) <= n;
  }

  /** `t` is the size `n` expressed in units of Base^k: t * Base^k == n. */
  predicate InUnits(t: real, k: nat, n: int)
  {
    t * (Pow(k) as real) == n as real
  }

  /** With t * p == n and p positive, t reaches the threshold exactly when n
      reaches Base * p. */
  lemma ScaledReachesBase(t: real, p: nat, n: int)
    requires p >= 1
    requires t * (p as real) == n as real
    ensures t >= Base as real <==> n >= Base * p
  {
    var pr := p as real;
    if t >= Base as real {
      assert t * pr >= (Base as real) * pr;
    } else {
      assert t * pr < (Base as real) * pr;
    }
  }

  /** One turn of the loop: dividing the value by 1024 while moving to the
      next unit keeps value * Base^index equal to the size. */
  lemma LoopStep(t: real, k: nat, n: int)
    requires k < Last && t >= Base as real
    requires UnitIndexFrom(n, k) == UnitIndex(n)
    requires InUnits(t, k, n)
    ensures UnitIndexFrom(n, k + 1) == UnitIndex(n)
    ensures InUnits(t / 1024.0, k + 1, n)
    ensures t / 1024.0 >= 1.0
  {
    ScaledReachesBase(t, Pow(k), n);
    var p := Pow(k) as real;
    assert Pow(k + 1) as real == 1024.0 * p;
    calc {
      (t / 1024.0) * (1024.0 * p);
      ((t / 1024.0) * 1024.0) * p;
      t * p;
    }
  }

  /** When the loop stops, its index is the unit index of the size. */
  lemma LoopExit(t: real, k: nat, n: int)
    requires k <= Last && (k == Last || t < Base as real)
    requires UnitIndexFrom(n, k) == UnitIndex(n)
    requires InUnits(t, k, n)
    ensures k == UnitIndex(n)
  {
    ScaledReachesBase(t, Pow(k), n);
  }

  /** The loop of `afficher_taille_lisible`: returns the scaled value and its
      suffix (the two-decimal formatting of the value is not modelled). */
  method HumanReadable(sizeInBytes: int) returns (value: real, suffix: string)
    ensures suffix == Suffixes[UnitIndex(sizeInBytes)]
    ensures InUnits(value, UnitIndex(sizeInBytes), sizeInBytes)
    ensures UnitIndex(sizeInBytes) == Last || value < Base as real
    ensures UnitIndex(sizeInBytes) > 0 ==> value >= 1.0
    ensures sizeInBytes < Base ==> suffix == "o" && value == sizeInBytes as real
    ensures sizeInBytes >= Base ==> suffix != "o"
  {
    var index: nat := 0;
    value := sizeInBytes as real;
    while value >= 1024.0 && index < |Suffixes| - 1
      invariant index <= Last
      invariant UnitIndexFrom(sizeInBytes, index) == UnitIndex(sizeInBytes)
      invariant InUnits(value, index, sizeInBytes)
      invariant index > 0 ==> value >= 1.0
      decreases Last - index
    {
      LoopStep(value, index, sizeInBytes);
      value := value / 1024.0;
      index := index + 1;
    }
    LoopExit(value, index, sizeInBytes);
    if sizeInBytes < Base {
      SmallSizeInBytes(sizeInBytes);
    } else {
      LargeSizeScaled(sizeInBytes);
    }
    suffix := Suffixes[index];
  }
}
