/** The reference bit-configuration and its text form. A configuration of
    width Bl holds two stacked xSite-wide halves: the ket half in bits
    [0, xSite) and the bra half in bits [xSite, 2 xSite); bits from 2 xSite up
    are 0. Each half is written as a line of xSite binary digits, most
    significant (highest) bit first. */
module ReferenceBits {
  import opened BinaryString

  /** The configuration after only the ket line has been read: character k
      of ket is bit n-1-k, every other bit keeps its value in r. */
  function LoadKet(r: seq<bool>, ket: string, n: nat): seq<bool>
    requires n <= |r| && n <= |ket|
  {
    seq(|r|, i requires 0 <= i < |r| => if i < n then BitOf(ket[n - 1 - i]) else r[i])
  }

  /** The configuration after the bra line has also been read: character k
      of bra is bit 2n-1-k, every other bit keeps its value in r. */
  function LoadBra(r: seq<bool>, bra: string, n: nat): seq<bool>
    requires 2 * n <= |r| && n <= |bra|
  {
    seq(|r|, i requires 0 <= i < |r| => if n <= i < 2 * n then BitOf(bra[2 * n - 1 - i]) else r[i])
  }

  /** r with every bit from m up cleared. */
  function ClearFrom(r: seq<bool>, m: nat): seq<bool> {
    seq(|r|, i requires 0 <= i < |r| => if i < m then r[i] else false)
  }

  /** Whatever the configuration held before, the three stages of loading
      leave exactly LoadReference: no bit of [0, 2n) is left unset. */
  lemma LoadStages(r: seq<bool>, ket: string, bra: string, n: nat)
    requires 2 * n <= |r| && n <= |ket| && n <= |bra|
    ensures ClearFrom(LoadBra(LoadKet(r, ket, n), bra, n), 2 * n) == LoadReference(ket, bra, n, |r|)
  {
  }

  /** The configuration after both lines have been read and the bits above
      them cleared: character k of ket is bit n-1-k, character k of bra is
      bit 2n-1-k, every bit from 2n up to bl is 0. */
  function LoadReference(ket: string, bra: string, n: nat, bl: nat): seq<bool>
    requires 2 * n <= bl && n <= |ket| && n <= |bra|
  {
    seq(bl, i requires 0 <= i < bl =>
      if i < n then BitOf(ket[n - 1 - i])
      else if i < 2 * n then BitOf(bra[2 * n - 1 - i])
      else false)
  }

  /** One reference line of the report: the n bits below position top,
      highest first. */
  function RenderRow(reference: seq<bool>, top: nat, n: nat): (row: string)
    requires n <= top <= |reference|
    ensures |row| == n && AllBinary(row)
    ensures forall j :: 0 <= j < n ==> BitOf(row[j]) == reference[top - 1 - j]
  {
    seq(n, j requires 0 <= j < n => CharOf(reference[top - 1 - j]))
  }

  /** Where each character lands, and that no bit of [0, 2n) is left unset. */
  lemma LoadPlacesCharacters(ket: string, bra: string, n: nat, bl: nat)
    requires 2 * n <= bl && BinaryPrefix(ket, n) && BinaryPrefix(bra, n)
    ensures |LoadReference(ket, bra, n, bl)| == bl
    ensures forall k :: 0 <= k < n ==>
      LoadReference(ket, bra, n, bl)[n - 1 - k] == (ket[k] == '1') &&
      LoadReference(ket, bra, n, bl)[2 * n - 1 - k] == (bra[k] == '1')
    ensures forall i :: 2 * n <= i < bl ==> !LoadReference(ket, bra, n, bl)[i]
  {
    var r := LoadReference(ket, bra, n, bl);
    forall k | 0 <= k < n ensures r[n - 1 - k] == (ket[k] == '1') && r[2 * n - 1 - k] == (bra[k] == '1') {
      var i, i' := n - 1 - k, 2 * n - 1 - k;
      assert r[i] == BitOf(ket[n - 1 - i]);
      assert n - 1 - i == k;
      assert r[i'] == BitOf(bra[2 * n - 1 - i']);
    }
  }

  /** Rendering a loaded reference gives back the two lines that were read. */
  lemma RenderAfterLoad(ket: string, bra: string, n: nat, bl: nat)
    requires 2 * n <= bl && BinaryPrefix(ket, n) && BinaryPrefix(bra, n)
    ensures RenderRow(LoadReference(ket, bra, n, bl), n, n) == ket[..n]
    ensures RenderRow(LoadReference(ket, bra, n, bl), 2 * n, n) == bra[..n]
  {
    var r := LoadReference(ket, bra, n, bl);
    forall j | 0 <= j < n ensures RenderRow(r, n, n)[j] == ket[j] {
      var i := n - 1 - j;
      assert RenderRow(r, n, n)[j] == CharOf(r[i]);
      assert r[i] == BitOf(ket[n - 1 - i]);
      assert IsBinary(ket[j]);
    }
    forall j | 0 <= j < n ensures RenderRow(r, 2 * n, n)[j] == bra[j] {
      var i := 2 * n - 1 - j;
      assert RenderRow(r, 2 * n, n)[j] == CharOf(r[i]);
      assert r[i] == BitOf(bra[2 * n - 1 - i]);
      assert IsBinary(bra[j]);
    }
  }

  /** Loading the two rendered lines of a configuration whose bits from 2n up
      are 0 gives back that configuration. */
  lemma LoadAfterRender(reference: seq<bool>, n: nat)
    requires 2 * n <= |reference|
    requires forall i :: 2 * n <= i < |reference| ==> !reference[i]
    ensures BinaryPrefix(RenderRow(reference, n, n), n)
    ensures BinaryPrefix(RenderRow(reference, 2 * n, n), n)
    ensures LoadReference(RenderRow(reference, n, n), RenderRow(reference, 2 * n, n), n, |reference|) == reference
  {
    var ket := RenderRow(reference, n, n);
    var bra := RenderRow(reference, 2 * n, n);
    forall j | 0 <= j < n ensures IsBinary(ket[j]) && IsBinary(bra[j]) {
      assert ket[j] == CharOf(reference[n - 1 - j]);
      assert bra[j] == CharOf(reference[2 * n - 1 - j]);
    }
    var r := LoadReference(ket, bra, n, |reference|);
    forall i | 0 <= i < |reference| ensures r[i] == reference[i] {
      if i < n {
        var j := n - 1 - i;
        assert ket[j] == CharOf(reference[n - 1 - j]);
        assert r[i] == BitOf(ket[j]);
      } else if i < 2 * n {
        var j := 2 * n - 1 - i;
        assert bra[j] == CharOf(reference[2 * n - 1 - j]);
        assert r[i] == BitOf(bra[j]);
      } else {
        assert r[i] == false;
      }
    }
  }
}
