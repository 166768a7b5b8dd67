/** The gray-to-glyph ramps of the renderer (Ascii.returnStr, Ascii.returnStrNeg
    and Ascii.getAsciiFromGreyScale).  A gray value is an exact real; the
    eleven bands are found by scanning a fixed threshold table top-down. */
module Ramp {

  /** Glyphs of the normal ramp (`returnStr`), brightest band first. */
  const NormalRamp: seq<string> := [" ", ".", ",", ":", ";", "o", "&", "8", "%", "#", "@"]

  /** Glyphs of the inverted ramp (`returnStrNeg`), brightest band first, as
      written: the entries of bands 2 and 7 are two characters long. */
  const InvertedRamp: seq<string> := ["@", "#", " %", "8", "&", "o", ";", " :", ",", ".", " "]

  /** Lower bounds of bands 0..8, each met with `>=`. */
  const Thresholds: seq<real> := [230.0, 200.0, 180.0, 160.0, 130.0, 100.0, 70.0, 50.0, 20.0]

  /** Lower bound of band 9, the only one met strictly (`g > 5.0`). */
  const DarkBound: real := 5.0

  /** Number of bands; the last one (index 10) takes everything below band 9. */
  const Bands: nat := 11

  /** Does gray value `g` reach the lower bound of band `k`? */
  predicate Meets(g: real, k: nat)
    requires k < Bands - 1
  {
    if k < |Thresholds| then g >= Thresholds[k] else g > DarkBound
  }

  /** The scan of the threshold table from band `k` on: the first band whose
      bound `g` meets, or the last band when it meets none. */
  function ScanFrom(g: real, k: nat): (i: nat)
    requires k <= Bands - 1
    ensures k <= i < Bands
    ensures i < Bands - 1 ==> Meets(g, i)
    ensures forall j :: k <= j < i ==> !Meets(g, j)
    decreases Bands - k
  {
    if k == Bands - 1 then k
    else if Meets(g, k) then k
    else ScanFrom(g, k + 1)
  }

  /** The band of gray value `g`: index 0 is the brightest, 10 the darkest. */
  function BandIndex(g: real): (i: nat)
    ensures i < Bands
    ensures i < Bands - 1 ==> Meets(g, i)
    ensures forall j :: 0 <= j < i ==> !Meets(g, j)
  {
    ScanFrom(g, 0)
  }

  /** `returnStr`: bright values get light glyphs, dark values dark ones. */
  function ReturnStr(g: real): (s: string)
    ensures s == NormalRamp[BandIndex(g)]
  {
    if g >= 230.0 then " "
    else if g >= 200.0 then "."
    else if g >= 180.0 then ","
    else if g >= 160.0 then ":"
    else if g >= 130.0 then ";"
    else if g >= 100.0 then "o"
    else if g >= 70.0 then "&"
    else if g >= 50.0 then "8"
    else if g >= 20.0 then "%"
    else if g > 5.0 then "#"
    else "@"
  }

  /** `returnStrNeg`: the same bands with the glyph order reversed. */
  function ReturnStrNeg(g: real): (s: string)
    ensures s == InvertedRamp[BandIndex(g)]
  {
    if g >= 230.0 then "@"
    else if g >= 200.0 then "#"
    else if g >= 180.0 then " %"
    else if g >= 160.0 then "8"
    else if g >= 130.0 then "&"
    else if g >= 100.0 then "o"
    else if g >= 70.0 then ";"
    else if g >= 50.0 then " :"
    else if g >= 20.0 then ","
    else if g > 5.0 then "."
    else " "
  }

  /** `getAsciiFromGreyScale`: `blackWhite` selects the normal ramp. */
  function GetAsciiFromGreyScale(g: real, blackWhite: bool): (s: string)
    ensures s == (if blackWhite then NormalRamp else InvertedRamp)[BandIndex(g)]
  {
    if blackWhite then ReturnStr(g) else ReturnStrNeg(g)
  }

  /** The if-chains are table lookups: each ramp returns the entry of its
      table at the band of `g`, one or two characters long. */
  lemma RampsAreTables(g: real, blackWhite: bool)
    ensures ReturnStr(g) == NormalRamp[BandIndex(g)]
    ensures ReturnStrNeg(g) == InvertedRamp[BandIndex(g)]
    ensures GetAsciiFromGreyScale(g, blackWhite) ==
      (if blackWhite then NormalRamp else InvertedRamp)[BandIndex(g)]
    ensures 1 <= |GetAsciiFromGreyScale(g, blackWhite)| <= 2
  {
  }

  /** Raising a bound never helps: a value that meets band `k` meets every
      darker band too, because the thresholds decrease. */
  lemma MeetsDarker(g: real, k: nat, j: nat)
    requires k <= j < Bands - 1
    requires Meets(g, k)
    ensures Meets(g, j)
  {
  }

  /** A band is characterised by its two bounds: `g` lies in band `k` exactly
      when it meets band `k`'s lower bound and not the bound of band `k - 1`. */
  lemma BandIndexIff(g: real, k: nat)
    requires k < Bands
    ensures BandIndex(g) == k <==>
      (k < Bands - 1 ==> Meets(g, k)) && (0 < k ==> !Meets(g, k - 1))
  {
    var i := BandIndex(g);
    if (k < Bands - 1 ==> Meets(g, k)) && (0 < k ==> !Meets(g, k - 1)) {
      if i < k {
        MeetsDarker(g, i, k - 1);
      }
    }
  }

  /** The ramps are monotone: a brighter value never gets a darker band. */
  lemma BandIndexMonotone(g1: real, g2: real)
    requires g1 <= g2
    ensures BandIndex(g2) <= BandIndex(g1)
  {
    var i1 := BandIndex(g1);
    if i1 < Bands - 1 {
      assert Meets(g2, i1);
    }
  }

  /** The eleven entries of each table are pairwise different. */
  lemma RampEntriesDistinct(i: nat, k: nat)
    requires i < Bands && k < Bands && i != k
    ensures NormalRamp[i] != NormalRamp[k]
    ensures InvertedRamp[i] != InvertedRamp[k]
  {
    assert NormalRamp[i][0] != NormalRamp[k][0];
    assert InvertedRamp[i][|InvertedRamp[i]| - 1] != InvertedRamp[k][|InvertedRamp[k]| - 1];
  }

  /** Every gray value gets exactly one entry of each fixed table, so the
      glyph identifies the band. */
  lemma RampEntryIdentifiesBand(g: real, k: nat)
    requires k < Bands
    ensures ReturnStr(g) == NormalRamp[k] <==> BandIndex(g) == k
    ensures ReturnStrNeg(g) == InvertedRamp[k] <==> BandIndex(g) == k
  {
    if BandIndex(g) != k {
      RampEntriesDistinct(BandIndex(g), k);
    }
  }

  /** The inverted ramp is the normal ramp read backwards, except that bands
      2 and 7 carry an extra leading space (`" %"` and `" :"`). */
  lemma InvertedMirrorsNormal(g: real)
    ensures ReturnStrNeg(g) ==
      (if BandIndex(g) == 2 || BandIndex(g) == 7 then " " else "") + NormalRamp[Bands - 1 - BandIndex(g)]
  {
  }

  /** The two ends of the ramps; the darkest bound is strict, so 5.0 itself
      is in the darkest band while 20.0 is already in band 8. */
  lemma RampEnds(g: real)
    ensures g >= 230.0 ==> ReturnStr(g) == " " && ReturnStrNeg(g) == "@"
    ensures g <= 5.0 ==> ReturnStr(g) == "@" && ReturnStrNeg(g) == " "
    ensures ReturnStr(20.0) == "%" && ReturnStrNeg(20.0) == ","
  {
  }

  /** Both ramps meet in the middle: they agree exactly on band 5, the
      values from 100 up to but excluding 130, where both give "o". */
  lemma RampsAgreeOnlyInMiddle(g: real)
    ensures ReturnStr(g) == ReturnStrNeg(g) <==> 100.0 <= g < 130.0
    ensures 100.0 <= g < 130.0 ==> ReturnStr(g) == "o" && ReturnStrNeg(g) == "o"
  {
    BandIndexIff(g, 5);
  }
}
