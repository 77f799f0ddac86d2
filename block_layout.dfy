/** Where an entry's payload lives (Program.cs lines 137-161): offsets count
    2048-byte blocks over the concatenation of all parts, and each part holds
    `alignment / 2048` blocks. */
module BlockLayout {
  import opened Types
  import Decimal
  import DotNetPath

  const BlockSize: nat := 2048

  datatype Address = Address(part: nat, byteOffset: nat)

  /** `maxBlocksPerFile`: blocks per part, in `uint` arithmetic. */
  function BlocksPerPart(alignment: uint32): nat {
    alignment / BlockSize
  }

  /** `entry.Offset / maxBlocksPerFile` and `(entry.Offset % maxBlocksPerFile) * 2048`;
      `None` when there are no blocks per part and the division throws. */
  function Translate(offset: uint32, alignment: uint32): (r: Option<Address>)
    ensures r.None? <==> alignment < BlockSize
  {
    var m := BlocksPerPart(alignment);
    if m == 0 then None else Some(Address(offset / m, (offset % m) * BlockSize))
  }

  /** The byte offset is block-aligned and inside the part, the part stays
      within the `uint` offset, and the part and the block within it give
      back the offset. */
  lemma TranslateRecovers(offset: uint32, alignment: uint32)
    requires alignment >= BlockSize
    ensures
      var r := Translate(offset, alignment).value;
      var m := BlocksPerPart(alignment);
      && r.part * m + r.byteOffset / BlockSize == offset
      && r.byteOffset % BlockSize == 0
      && r.byteOffset < m * BlockSize <= alignment
      && r.part <= offset
  {
    var m := BlocksPerPart(alignment);
    var a := Translate(offset, alignment).value;
    assert a.part * m + offset % m == offset;
    assert offset % m + 1 <= m;
    MultiplyMonotone(offset % m + 1, m, BlockSize);
    MultiplyMonotone(1, m, offset / m);
  }

  lemma MultiplyMonotone(a: nat, b: nat, c: nat)
    ensures a <= b ==> a * c <= b * c
  {
  }

  /** Sorting by offset therefore sorts by part. */
  lemma {:induction false} PartMonotone(a: uint32, b: uint32, alignment: uint32)
    requires a <= b && alignment >= BlockSize
    ensures Translate(a, alignment).value.part <= Translate(b, alignment).value.part
  {
    DivMonotone(a as nat, b as nat, BlocksPerPart(alignment));
  }

  lemma DivMonotone(a: nat, b: nat, m: nat)
    requires a <= b && m > 0
    ensures a / m <= b / m
  {
    var pa, pb := a / m, b / m;
    assert pa * m <= a;
    assert b < (pb + 1) * m;
    MultiplyMonotone(pb + 1, pa, m);
  }

  /** Any split of an offset into a part and an aligned in-part byte offset
      is the one `Translate` computes. */
  lemma TranslateUnique(offset: uint32, alignment: uint32, part: nat, byteOffset: nat)
    requires alignment >= BlockSize
    requires part * BlocksPerPart(alignment) + byteOffset / BlockSize == offset
    requires byteOffset % BlockSize == 0 && byteOffset < BlocksPerPart(alignment) * BlockSize
    ensures Translate(offset, alignment) == Some(Address(part, byteOffset))
  {
    var m := BlocksPerPart(alignment);
    var q := byteOffset / BlockSize;
    assert byteOffset == q * BlockSize;
    MultiplyMonotone(m, q, BlockSize);
    DivModUnique(offset, m, part, q);
  }

  lemma DivModUnique(n: nat, m: nat, q: nat, r: nat)
    requires m > 0 && r < m && q * m + r == n
    ensures n / m == q && n % m == r
  {
    var q', r' := n / m, n % m;
    assert (q' + 1) * m == q' * m + m && (q + 1) * m == q * m + m;
    MultiplyMonotone(q' + 1, q, m);
    MultiplyMonotone(q + 1, q', m);
  }

  /** `Path.ChangeExtension(inputPath, "." + part.ToString().PadLeft(3, '0'))`. */
  function PartPath(inputPath: string, part: nat): string {
    DotNetPath.ChangeExtension(inputPath, Some("." + Decimal.PartNumber(part)))
  }

  /** For an accepted index path, part `n` is the index path with ".000"
      replaced by the part number; part 0 is the index file itself, and
      different parts are different files. */
  lemma PartPathShape(inputPath: string, part: nat)
    requires DotNetPath.GetExtension(inputPath) == ".000"
    ensures |inputPath| >= 4
    ensures PartPath(inputPath, part) == inputPath[..|inputPath| - 4] + "." + Decimal.PartNumber(part)
    ensures part == 0 ==> PartPath(inputPath, part) == inputPath
  {
    var x := "." + Decimal.PartNumber(part);
    DotNetPath.IndexPathExtension(inputPath, x);
    var stem := inputPath[..|inputPath| - 4];
    assert stem + x == stem + "." + Decimal.PartNumber(part);
    if part == 0 {
      Decimal.PartNumberZero();
      assert x == ".000";
      assert inputPath == stem + inputPath[|inputPath| - 4..];
    }
  }

  lemma PartPathInjective(inputPath: string, m: nat, n: nat)
    requires DotNetPath.GetExtension(inputPath) == ".000"
    requires PartPath(inputPath, m) == PartPath(inputPath, n)
    ensures m == n
  {
    PartPathShape(inputPath, m);
    PartPathShape(inputPath, n);
    var k := |inputPath| - 4 + 1;
    assert Decimal.PartNumber(m) == PartPath(inputPath, m)[k..];
    assert Decimal.PartNumber(n) == PartPath(inputPath, n)[k..];
    Decimal.PartNumberInjective(m, n);
  }
}
