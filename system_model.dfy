/** The lattice model of one process: its couplings and reference
    configuration, filled in from a positional configuration file, and the
    diagonal Hamiltonian matrix element of a bit-configuration. */
module Lattice {
  import opened BinaryString
  import opened RingEnergy
  import opened ReferenceBits

  // 0-based indices of the configuration-file lines the loader uses: the
  // name, then one value every fifth line, then the ket and bra reference
  // lines with one line between them.
  const NameLine: nat := 2
  const XSiteLine: nat := 7
  const JxLine: nat := 12
  const JyLine: nat := 17
  const JzLine: nat := 22
  const GammaLine: nat := 27
  const HLine: nat := 32
  const ThetaLine: nat := 37
  const KetLine: nat := 42
  const BraLine: nat := 44
  /** Number of lines the loader reads. */
  const LineCount: nat := 45

  /** count successive reads of one line each, starting at line from; the
      last line read is returned. A read past the last line fails, as a
      stream with its fail bit raising exceptions does. */
  method GetLines(lines: seq<string>, from: nat, count: nat) returns (line: string, next: nat, ok: bool)
    requires from <= |lines| && count > 0
    ensures ok <==> from + count <= |lines|
    ensures ok ==> next == from + count && line == lines[next - 1]
  {
    line, next, ok := "", from, true;
    var i := 0;
    while i < count
      invariant 0 <= i <= count && next == from + i <= |lines|
      invariant i > 0 ==> line == lines[next - 1]
    {
      if next == |lines| {
        ok := false;
        return;
      }
      line := lines[next];
      next, i := next + 1, i + 1;
    }
  }

  /** How many times a loop `for (j = 0; j < x; ++j)` runs. */
  function Iterations(x: int): nat {
    if x < 0 then 0 else x
  }

  class SystemModel {
    var name: string
    var xSite: int
    var jx: real
    var jy: real
    var jz: real
    var gamma: real
    var h: real
    var theta: real
    var hop: real
    var doubleHop: real
    /** The reference configuration: a fixed buffer of Bl bits. */
    const reference: array<bool>

    /** Both halves of a configuration fit in Bl bits. */
    ghost predicate Valid()
      reads this
    {
      0 <= xSite && 2 * xSite <= reference.Length
    }

    constructor (bl: nat)
      ensures Valid() && fresh(reference) && reference.Length == bl
      ensures xSite == 0 && name == ""
    {
      reference := new bool[bl](_ => false);
      name, xSite := "", 0;
      jx, jy, jz, gamma, h, theta := 0.0, 0.0, 0.0, 0.0, 0.0, 0.0;
      hop, doubleHop := 0.0, 0.0;
    }

    /** The scalar part of the loader: the name from line 2, then xSite,
        J_x, J_y, J_z, gamma, h and theta from every fifth line after it.
        Reading stops at the first line the file does not have; the fields
        read before it keep their new values. */
    method ReadScalars(lines: seq<string>, atoi: string -> int, atof: string -> real) returns (cursor: nat, ok: bool)
      requires |lines| > NameLine ==> |lines[NameLine]| > 0
      modifies this`name, this`xSite, this`jx, this`jy, this`jz, this`gamma, this`h, this`theta
      ensures |lines| <= XSiteLine ==> (Valid() <==> old(Valid()))
      ensures ok <==> |lines| > ThetaLine
      ensures ok ==> cursor == ThetaLine + 1
      ensures name == if |lines| > NameLine then lines[NameLine][..|lines[NameLine]| - 1] else old(name)
      ensures xSite == if |lines| > XSiteLine then atoi(lines[XSiteLine]) else old(xSite)
      ensures jx == if |lines| > JxLine then atof(lines[JxLine]) else old(jx)
      ensures jy == if |lines| > JyLine then atof(lines[JyLine]) else old(jy)
      ensures jz == if |lines| > JzLine then atof(lines[JzLine]) else old(jz)
      ensures gamma == if |lines| > GammaLine then atof(lines[GammaLine]) else old(gamma)
      ensures h == if |lines| > HLine then atof(lines[HLine]) else old(h)
      ensures theta == if |lines| > ThetaLine then atof(lines[ThetaLine]) else old(theta)
    {
      cursor, ok := ReadHeader(lines, atoi);
      if !ok { return; }
      cursor, ok := ReadCouplings(lines, atof);
      if !ok { return; }
      cursor, ok := ReadFields(lines, atof);
    }

    /** The name (its last character, a line terminator, dropped) and the
        number of sites. */
    method ReadHeader(lines: seq<string>, atoi: string -> int) returns (cursor: nat, ok: bool)
      requires |lines| > NameLine ==> |lines[NameLine]| > 0
      modifies this`name, this`xSite
      ensures |lines| <= XSiteLine ==> (Valid() <==> old(Valid()))
      ensures ok <==> |lines| > XSiteLine
      ensures ok ==> cursor == XSiteLine + 1
      ensures name == if |lines| > NameLine then lines[NameLine][..|lines[NameLine]| - 1] else old(name)
      ensures xSite == if |lines| > XSiteLine then atoi(lines[XSiteLine]) else old(xSite)
    {
      var line: string;
      line, cursor, ok := GetLines(lines, 0, 3);
      if !ok { return; }
      name := line[..|line| - 1];
      line, cursor, ok := GetLines(lines, cursor, 5);
      if !ok { return; }
      xSite := atoi(line);
    }

    /** The three exchange couplings J_x, J_y and J_z. */
    method ReadCouplings(lines: seq<string>, atof: string -> real) returns (cursor: nat, ok: bool)
      requires |lines| > XSiteLine
      modifies this`jx, this`jy, this`jz
      ensures ok <==> |lines| > JzLine
      ensures ok ==> cursor == JzLine + 1
      ensures jx == if |lines| > JxLine then atof(lines[JxLine]) else old(jx)
      ensures jy == if |lines| > JyLine then atof(lines[JyLine]) else old(jy)
      ensures jz == if |lines| > JzLine then atof(lines[JzLine]) else old(jz)
    {
      var line: string;
      line, cursor, ok := GetLines(lines, XSiteLine + 1, 5);
      if !ok { return; }
      jx := atof(line);
      line, cursor, ok := GetLines(lines, cursor, 5);
      if !ok { return; }
      jy := atof(line);
      line, cursor, ok := GetLines(lines, cursor, 5);
      if !ok { return; }
      jz := atof(line);
    }

    /** The anisotropy gamma, the field h and the angle theta. */
    method ReadFields(lines: seq<string>, atof: string -> real) returns (cursor: nat, ok: bool)
      requires |lines| > JzLine
      modifies this`gamma, this`h, this`theta
      ensures ok <==> |lines| > ThetaLine
      ensures ok ==> cursor == ThetaLine + 1
      ensures gamma == if |lines| > GammaLine then atof(lines[GammaLine]) else old(gamma)
      ensures h == if |lines| > HLine then atof(lines[HLine]) else old(h)
      ensures theta == if |lines| > ThetaLine then atof(lines[ThetaLine]) else old(theta)
    {
      var line: string;
      line, cursor, ok := GetLines(lines, JzLine + 1, 5);
      if !ok { return; }
      gamma := atof(line);
      line, cursor, ok := GetLines(lines, cursor, 5);
      if !ok { return; }
      h := atof(line);
      line, cursor, ok := GetLines(lines, cursor, 5);
      if !ok { return; }
      theta := atof(line);
    }

    /** Loads the model from the lines of the configuration file; atoi and
        atof stand for the numeric conversions. When the file runs out of
        lines the reading stops there: ok is false and the fields read so far
        keep their new values, whatever xSite was read. The number of sites
        has to fit the reference only from the stage that indexes it on: the
        ket loop writes bits [0, xSite) (and runs no time for a negative
        xSite), the bra loop bits [xSite, 2 xSite), and the clearing loop
        starts at bit 2 xSite. */
    method Init(lines: seq<string>, atoi: string -> int, atof: string -> real) returns (ok: bool)
      requires |lines| > NameLine ==> |lines[NameLine]| > 0
      requires |lines| > KetLine ==> atoi(lines[XSiteLine]) <= reference.Length
      requires |lines| > KetLine ==> BinaryPrefix(lines[KetLine], Iterations(atoi(lines[XSiteLine])))
      requires |lines| > BraLine ==>
        0 <= atoi(lines[XSiteLine]) && 2 * atoi(lines[XSiteLine]) <= reference.Length
      requires |lines| > BraLine ==> BinaryPrefix(lines[BraLine], atoi(lines[XSiteLine]))
      modifies this, reference
      ensures |lines| <= XSiteLine ==> (Valid() <==> old(Valid()))
      ensures |lines| >= LineCount ==> Valid()
      ensures ok <==> |lines| >= LineCount
      ensures name == if |lines| > NameLine then lines[NameLine][..|lines[NameLine]| - 1] else old(name)
      ensures xSite == if |lines| > XSiteLine then atoi(lines[XSiteLine]) else old(xSite)
      ensures jx == if |lines| > JxLine then atof(lines[JxLine]) else old(jx)
      ensures jy == if |lines| > JyLine then atof(lines[JyLine]) else old(jy)
      ensures jz == if |lines| > JzLine then atof(lines[JzLine]) else old(jz)
      ensures gamma == if |lines| > GammaLine then atof(lines[GammaLine]) else old(gamma)
      ensures h == if |lines| > HLine then atof(lines[HLine]) else old(h)
      ensures theta == if |lines| > ThetaLine then atof(lines[ThetaLine]) else old(theta)
      ensures |lines| <= KetLine ==> reference[..] == old(reference[..])
      ensures KetLine < |lines| < LineCount ==>
        reference[..] == LoadKet(old(reference[..]), lines[KetLine], Iterations(xSite))
      ensures ok ==> reference[..] == LoadReference(lines[KetLine], lines[BraLine], xSite, reference.Length)
      ensures hop == if ok then (jx + jy) / 4.0 else old(hop)
      ensures doubleHop == if ok then (jx - jy) / 4.0 else old(doubleHop)
    {
      ok := false;
      var cursor, got := ReadScalars(lines, atoi, atof);
      if !got { return; }
      var line: string;
      line, cursor, got := GetLines(lines, cursor, 5);
      if !got { return; }
      assert line == lines[KetLine] && xSite == atoi(lines[XSiteLine]);

      var n := Iterations(xSite);
      ghost var ket := line;
      LoadKetLine(line, n);
      line, cursor, got := GetLines(lines, cursor, 2);
      if !got { return; }
      assert line == lines[BraLine] && n == xSite;
      LoadBraLine(line, n);
      ClearAbove(2 * n);
      LoadStages(old(reference[..]), ket, line, n);

      hop := (jx + jy) / 4.0;
      doubleHop := (jx - jy) / 4.0;
      ok := true;
    }

    /** Bits [0, n) from the ket line, most significant bit first. */
    method LoadKetLine(line: string, n: nat)
      requires BinaryPrefix(line, n) && n <= reference.Length
      modifies reference
      ensures reference[..] == LoadKet(old(reference[..]), line, n)
    {
      var j := 0;
      while j < n
        invariant 0 <= j <= n
        invariant forall i :: 0 <= i < reference.Length ==>
          reference[i] == if n - j <= i < n then BitOf(line[n - 1 - i]) else old(reference[i])
      {
        reference[n - 1 - j] := BitOf(line[j]);
        j := j + 1;
      }
    }

    /** Bits [n, 2n) from the bra line, most significant bit first. */
    method LoadBraLine(line: string, n: nat)
      requires BinaryPrefix(line, n) && 2 * n <= reference.Length
      modifies reference
      ensures reference[..] == LoadBra(old(reference[..]), line, n)
    {
      var j := 0;
      while j < n
        invariant 0 <= j <= n
        invariant forall i :: 0 <= i < reference.Length ==>
          reference[i] == if 2 * n - j <= i < 2 * n then BitOf(line[2 * n - 1 - i]) else old(reference[i])
      {
        reference[2 * n - 1 - j] := BitOf(line[j]);
        j := j + 1;
      }
    }

    /** Every bit from m up to Bl cleared. */
    method ClearAbove(m: nat)
      requires m <= reference.Length
      modifies reference
      ensures reference[..] == ClearFrom(old(reference[..]), m)
    {
      var k := m;
      while k < reference.Length
        invariant m <= k <= reference.Length
        invariant forall i :: 0 <= i < reference.Length ==>
          reference[i] == if m <= i < k then false else old(reference[i])
      {
        reference[k] := false;
        k := k + 1;
      }
    }

    /** The diagonal matrix element of det: the ket half when j != 0, the
        bra half when j == 0, evaluated as a ring of xSite sites. */
    method DiagonalElement(det: seq<bool>, j: int) returns (element: real)
      requires Valid() && |det| == reference.Length
      ensures element == DiagonalEnergy(jz, SelectedHalf(det, xSite, j != 0))
    {
      var n: nat := xSite;
      var determinant := CopyHalf(det, n, j);
      ghost var s := SelectedHalf(det, n, j != 0);

      var counter, nbonds := 0, 0;
      var pos := 0;
      while pos < n
        invariant 0 <= pos <= n && nbonds == pos
        invariant counter == Count(Bonds(s)[..pos])
      {
        nbonds := nbonds + 1;
        var colRight := Neighbour(pos, n);
        counter := counter + (if determinant[colRight] != determinant[pos] then 1 else 0);
        CountBondsStep(s, pos);
        pos := pos + 1;
      }
      CountBondsAll(s);
      element := ElementOf(jz, nbonds, counter);
    }

    /** The local configuration the element is evaluated on: det itself when
        j != 0; otherwise an all-zero configuration with the bra half of det
        copied into bits [0, n). */
    static method CopyHalf(det: seq<bool>, n: nat, j: int) returns (determinant: seq<bool>)
      requires 2 * n <= |det|
      ensures |determinant| == |det|
      ensures determinant[..n] == SelectedHalf(det, n, j != 0)
      ensures j != 0 ==> determinant == det
      ensures j == 0 ==> forall k :: n <= k < |det| ==> !determinant[k]
    {
      if j != 0 {
        return det;
      }
      determinant := seq(|det|, _ => false);
      var i := 0;
      while i < n
        invariant 0 <= i <= n && |determinant| == |det|
        invariant forall k :: 0 <= k < i ==> determinant[k] == det[k + n]
        invariant forall k :: n <= k < |det| ==> !determinant[k]
      {
        determinant := determinant[i := det[i + n]];
        i := i + 1;
      }
    }
  }

  /** A file of ten lines whose line 7 reads as -1: the number of sites is
      stored, the read of line 12 fails, and the load stops there with the
      reference configuration untouched. */
  method TruncatedFileScenario() returns (ok: bool, sites: int, intact: bool)
    ensures !ok && sites == -1 && intact
  {
    var m := new SystemModel(8);
    var before := m.reference[..];
    ok := m.Init(seq(10, _ => "x"), _ => -1, _ => 0.0);
    sites := m.xSite;
    intact := m.reference[..] == before;
  }

  /** Ket line "1010" on a ring of four sites with J_z = 1: bits 0 to 3 are
      0, 1, 0, 1, all four bonds are anti-aligned and the element is -1. */
  lemma AlternatingKetScenario(bra: string, bl: nat)
    requires 8 <= bl && BinaryPrefix(bra, 4)
    ensures LoadReference("1010", bra, 4, bl)[..4] == [false, true, false, true]
    ensures DiagonalEnergy(1.0, SelectedHalf(LoadReference("1010", bra, 4, bl), 4, true)) == -1.0
  {
    var s := SelectedHalf(LoadReference("1010", bra, 4, bl), 4, true);
    assert s == [false, true, false, true];
    AlternatingHalfEnergy(1.0, s);
  }

  /** Ket line "111" on a ring of three sites with J_z = 2: every bond is
      aligned and the element is 3 * 2/4 = 1.5. */
  lemma UniformKetScenario(bra: string, bl: nat)
    requires 6 <= bl && BinaryPrefix(bra, 3)
    ensures LoadReference("111", bra, 3, bl)[..3] == [true, true, true]
    ensures DiagonalEnergy(2.0, SelectedHalf(LoadReference("111", bra, 3, bl), 3, true)) == 1.5
  {
    var s := SelectedHalf(LoadReference("111", bra, 3, bl), 3, true);
    assert s == [true, true, true];
    UniformHalfEnergy(2.0, s);
  }
}
