/**
 * The two percentage formulas of the copy dialog's progress bar: the file-count band of
 * `UpdateProgress` and the byte band of `UpdateByteProgress`. Both divide non-negative
 * operands, so C#'s truncating division agrees with Dafny's here.
 */
module Progress {

  /** `Math.Max(1, n)`. */
  function AtLeastOne(n: nat): (m: nat)
    ensures m >= 1 && m >= n
    ensures n >= 1 ==> m == n
  {
    if n < 1 then 1 else n
  }

  /** The bar value for the `current`-th file of `count` in a folder:
      `Math.Min(80, 15 + (current * 65) / Math.Max(1, count))`. */
  function FileBand(current: nat, count: nat): (v: int)
    ensures 15 <= v <= 80
  {
    var q := current * 65 / AtLeastOne(count);
    if 15 + q < 80 then 15 + q else 80
  }

  /** The file band is 15 plus the whole number of 65ths of the folder done, capped at 80,
      which it reaches exactly at the last file. */
  lemma FileBandFloor(current: nat, count: nat)
    ensures var v, m := FileBand(current, count), AtLeastOne(count);
      && (v == 80 <==> current >= m)
      && (v < 80 ==> (v - 15) * m <= current * 65 < (v - 14) * m)
  {
    var m := AtLeastOne(count);
    var q := current * 65 / m;
    DivBounds(current * 65, m, q);
    ScaledQuotient(current, m, 65, q);
  }

  /** The bar value once `copied` of `total` bytes are on the device:
      `Math.Min(99, (copied * 100) / total)`, only computed when `total > 0`. */
  function ByteBand(copied: nat, total: nat): (v: int)
    requires total > 0
    ensures 0 <= v <= 99
  {
    var q := copied * 100 / total;
    if q < 99 then q else 99
  }

  /** The byte band is the whole percentage copied, capped at 99, which it reaches exactly
      once 99 per cent of the bytes are on the device. */
  lemma ByteBandFloor(copied: nat, total: nat)
    requires total > 0
    ensures var v := ByteBand(copied, total);
      && (v == 99 <==> copied * 100 >= 99 * total)
      && (v < 99 ==> v * total <= copied * 100 < (v + 1) * total)
  {
    var q := copied * 100 / total;
    DivBounds(copied * 100, total, q);
    MulMono(99, q, total);
    MulMono(q + 1, 99, total);
  }

  /** The quotient of a truncating division of non-negative numbers brackets the dividend. */
  lemma DivBounds(x: nat, m: nat, q: int)
    requires m > 0 && q == x / m
    ensures 0 <= q && q * m <= x < (q + 1) * m
  {
    assert x == m * q + x % m;
  }

  /** Multiplying by a non-negative factor keeps the order. */
  lemma MulMono(a: int, b: int, m: int)
    requires m >= 0
    ensures a <= b ==> a * m <= b * m
  {
    assert b * m - a * m == (b - a) * m;
  }

  /** `c * k / m` reaches `k` exactly when `c` reaches `m`. */
  lemma ScaledQuotient(c: nat, m: nat, k: nat, q: int)
    requires m > 0 && k > 0 && q * m <= c * k < (q + 1) * m
    ensures q >= k <==> c >= m
  {
    MulMono(m, c, k);
    MulMono(q + 1, k, m);
    MulMono(k, q, m);
    MulMono(c + 1, m, k);
    assert (c + 1) * k == c * k + k;
  }

  /** Later files of the same folder never lower the file band. */
  lemma FileBandMonotone(c1: nat, c2: nat, count: nat)
    requires c1 <= c2
    ensures FileBand(c1, count) <= FileBand(c2, count)
  {
    var m := AtLeastOne(count);
    FileBandFloor(c1, count);
    FileBandFloor(c2, count);
    MulMono(FileBand(c2, count) - 14, FileBand(c1, count) - 15, m);
    MulMono(c1, c2, 65);
  }

  /** More bytes on the device never lower the byte band. */
  lemma ByteBandMonotone(b1: nat, b2: nat, total: nat)
    requires total > 0 && b1 <= b2
    ensures ByteBand(b1, total) <= ByteBand(b2, total)
  {
    ByteBandFloor(b1, total);
    ByteBandFloor(b2, total);
    MulMono(ByteBand(b2, total) + 1, ByteBand(b1, total), total);
  }

  /** The last file of a non-empty folder brings the file band to its cap of 80. */
  lemma FileBandLastFile(count: nat)
    requires count >= 1
    ensures FileBand(count, count) == 80
  {
    FileBandFloor(count, count);
  }

  /** With every byte copied the byte band stops at 99: 100 is left for overall success. */
  lemma ByteBandAllCopied(total: nat)
    requires total > 0
    ensures ByteBand(total, total) == 99
  {
    ByteBandFloor(total, total);
  }
}
