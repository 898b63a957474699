/**
 * Bucket addressing: a bucket is named by its level in the tree (0 is the
 * root, LOWEST_LEVEL holds the data buckets) and its 1-based number within
 * that level. A bucket's parent is one level up, at number
 * ceil(number / MAX_GROUPING_AT_EACH_LEVEL).
 */
module BucketKeys {

  /** Number of children grouped under one parent (the default configuration). */
  const MAX_GROUPING_AT_EACH_LEVEL: nat := 10

  /** The level of the data buckets; the tree has levels 0 .. LOWEST_LEVEL. */
  const LOWEST_LEVEL: nat := 5

  datatype BucketKey = BucketKey(level: nat, number: nat)

  const ROOT_KEY: BucketKey := BucketKey(0, 1)

  function Pow(b: nat, e: nat): nat {
    if e == 0 then 1 else b * Pow(b, e - 1)
  }

  /** A key the configured tree shape can hold: level in range, number within the level's capacity. */
  predicate ValidKey(k: BucketKey) {
    k.level <= LOWEST_LEVEL && 1 <= k.number <= Pow(MAX_GROUPING_AT_EACH_LEVEL, k.level)
  }

  /**
   * Integer ceiling of `n / MAX_GROUPING_AT_EACH_LEVEL`, stated by repeated
   * subtraction; CeilingDivision ties it to the division-plus-carry form.
   */
  function ParentNumber(n: nat): nat
    decreases n
  {
    if n == 0 then 0
    else if n <= MAX_GROUPING_AT_EACH_LEVEL then 1
    else 1 + ParentNumber(n - MAX_GROUPING_AT_EACH_LEVEL)
  }

  /** ParentNumber is the quotient rounded up. */
  lemma {:induction false} CeilingDivision(n: nat)
    ensures ParentNumber(n) == n / MAX_GROUPING_AT_EACH_LEVEL + (if n % MAX_GROUPING_AT_EACH_LEVEL != 0 then 1 else 0)
    decreases n
  {
    if n > MAX_GROUPING_AT_EACH_LEVEL {
      CeilingDivision(n - MAX_GROUPING_AT_EACH_LEVEL);
    }
  }

  lemma {:induction false} ParentNumberBounds(n: nat, cap: nat)
    requires 1 <= n <= MAX_GROUPING_AT_EACH_LEVEL * cap
    ensures 1 <= ParentNumber(n) <= cap
    decreases n
  {
    if n > MAX_GROUPING_AT_EACH_LEVEL {
      ParentNumberBounds(n - MAX_GROUPING_AT_EACH_LEVEL, cap - 1);
    }
  }

  function ParentKey(k: BucketKey): (p: BucketKey)
    requires k.level > 0
    ensures p.level == k.level - 1
  {
    BucketKey(k.level - 1, ParentNumber(k.number))
  }

  /** The parent of a valid non-root key is a valid key. */
  lemma ParentKeyValid(k: BucketKey)
    requires ValidKey(k) && k.level > 0
    ensures ValidKey(ParentKey(k))
  {
    assert Pow(MAX_GROUPING_AT_EACH_LEVEL, k.level) == MAX_GROUPING_AT_EACH_LEVEL * Pow(MAX_GROUPING_AT_EACH_LEVEL, k.level - 1);
    ParentNumberBounds(k.number, Pow(MAX_GROUPING_AT_EACH_LEVEL, k.level - 1));
  }

  /** Every valid key at level 0 is the root. */
  lemma OnlyRootAtLevelZero(k: BucketKey)
    requires ValidKey(k) && k.level == 0
    ensures k == ROOT_KEY
  {
  }
}
