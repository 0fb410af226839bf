/**
 * The Radionuclide view: one canonical radionuclide name bound to one row of
 * a decay dataset, with read-only accessors for its half-life, its direct
 * progeny, their branching fractions and decay modes, and its string form.
 * The view is never changed after it is built, so it is a datatype value.
 */
module Radionuclides {
  import opened Wrappers
  import opened OrderedDict
  import opened DecayDataset
  import opened Utils

  datatype Radionuclide = Radionuclide(
    radionuclide: string,        // canonical name, e.g. "H-3"
    decayConstant: real,         // decay constant (1/s)
    progBfMode: ProgenyMap,      // direct progeny -> (branching fraction, decay mode)
    data: DecayData)             // the dataset the view reads from

  /** The view reads row `i` of a valid dataset: name, decay constant and progeny all from that row. */
  ghost predicate BoundToRow(nuc: Radionuclide, i: nat) {
    && Valid(nuc.data)
    && i < |nuc.data.radionuclides|
    && nuc.data.radionuclides[i] == nuc.radionuclide
    && nuc.decayConstant == nuc.data.decayConsts[i]
    && nuc.progBfMode == nuc.data.progBfsModes[i]
  }

  /**
   * `Radionuclide(radionuclide, data)`: canonicalise the name against the
   * dataset, then read the decay constant and the progeny map of its row.
   * Fails exactly when the parser does, with the parser's error.
   */
  function New(radionuclide: string, data: DecayData, parse: RadionuclideParser): (r: Result<Radionuclide, Error>)
    requires Valid(data)
    requires ParserSound(parse)
    ensures r.Ok? <==> parse(radionuclide, data.radionuclides, data.dataset).Ok?
    ensures r.Err? ==> r.error == parse(radionuclide, data.radionuclides, data.dataset).error
    ensures r.Ok? ==>
              && r.value.radionuclide == parse(radionuclide, data.radionuclides, data.dataset).value
              && r.value.data == data
              && r.value.radionuclide in data.radionuclideDict
              && BoundToRow(r.value, data.radionuclideDict[r.value.radionuclide])
  {
    var name :- parse(radionuclide, data.radionuclides, data.dataset);
    var i := IndexOf(data, name);
    Ok(Radionuclide(name, data.decayConsts[i], data.progBfsModes[i], data))
  }

  /** The row a view is bound to is the only row it can be bound to. */
  lemma RowIsUnique(nuc: Radionuclide, i: nat, j: nat)
    requires BoundToRow(nuc, i) && BoundToRow(nuc, j)
    ensures i == j
  {
  }

  /**
   * `half_life(units)`: ln 2 over the decay constant, scaled by the factor
   * that converts one second into `units`. For "s" the factor is 1 and the
   * converter is not consulted; otherwise its failure is the result.
   */
  function HalfLife(nuc: Radionuclide, timeUnitConv: TimeUnitConverter, units: string := "s"): (r: Result<real, Error>)
    requires nuc.decayConstant != 0.0
    ensures units == "s" ==> r.Ok? && r.value * nuc.decayConstant == nuc.data.ln2
    ensures units != "s" ==> r.Ok? == timeUnitConv(1.0, "s", units, nuc.data.yearConv).Ok?
    ensures units != "s" && r.Err? ==> r.error == timeUnitConv(1.0, "s", units, nuc.data.yearConv).error
  {
    var conv :- if units == "s" then Ok(1.0) else timeUnitConv(1.0, "s", units, nuc.data.yearConv);
    Ok(conv * nuc.data.ln2 / nuc.decayConstant)
  }

  /** The half-life in seconds does not depend on the unit converter at all. */
  lemma HalfLifeSecondsIgnoresConverter(nuc: Radionuclide, c1: TimeUnitConverter, c2: TimeUnitConverter)
    requires nuc.decayConstant != 0.0
    ensures HalfLife(nuc, c1) == HalfLife(nuc, c2) == Ok(nuc.data.ln2 / nuc.decayConstant)
  {
  }

  /** In any other unit the half-life is the one in seconds times the converter's factor for one second. */
  lemma HalfLifeInUnits(nuc: Radionuclide, timeUnitConv: TimeUnitConverter, units: string)
    requires nuc.decayConstant != 0.0
    requires units != "s"
    requires timeUnitConv(1.0, "s", units, nuc.data.yearConv).Ok?
    ensures HalfLife(nuc, timeUnitConv, units).Ok?
    ensures HalfLife(nuc, timeUnitConv, units).value
            == timeUnitConv(1.0, "s", units, nuc.data.yearConv).value * HalfLife(nuc, timeUnitConv).value
  {
  }

  /** A nuclide of a valid dataset that decays at all has a positive half-life in seconds. */
  lemma HalfLifePositive(nuc: Radionuclide, i: nat, timeUnitConv: TimeUnitConverter)
    requires BoundToRow(nuc, i)
    requires nuc.decayConstant != 0.0
    ensures HalfLife(nuc, timeUnitConv).Ok? && HalfLife(nuc, timeUnitConv).value > 0.0
  {
  }

  /** `progeny()`: the keys of the progeny map, in the map's stored order. */
  function Progeny(nuc: Radionuclide): (r: seq<string>)
    ensures |r| == |nuc.progBfMode|
    ensures forall i :: 0 <= i < |r| ==> r[i] == nuc.progBfMode[i].0
  {
    Keys(nuc.progBfMode)
  }

  /** `branching_fractions()`: the first component of each value of the progeny map. */
  function BranchingFractions(nuc: Radionuclide): (r: seq<real>)
    ensures |r| == |Progeny(nuc)|
    ensures forall i :: 0 <= i < |r| ==> r[i] == nuc.progBfMode[i].1.0
  {
    var bfModes := Values(nuc.progBfMode);
    seq(|bfModes|, i requires 0 <= i < |bfModes| => bfModes[i].0)
  }

  /** `decay_modes()`: the second component of each value of the progeny map. */
  function DecayModes(nuc: Radionuclide): (r: seq<string>)
    ensures |r| == |Progeny(nuc)|
    ensures forall i :: 0 <= i < |r| ==> r[i] == nuc.progBfMode[i].1.1
  {
    var bfModes := Values(nuc.progBfMode);
    seq(|bfModes|, i requires 0 <= i < |bfModes| => bfModes[i].1)
  }

  /**
   * The three accessors are aligned: looking up the i-th progeny in the
   * progeny map yields the i-th branching fraction and the i-th decay mode.
   */
  lemma AccessorsAligned(nuc: Radionuclide, i: nat)
    requires BoundToRow(nuc, i)
    ensures forall k :: 0 <= k < |Progeny(nuc)| ==>
              Get(nuc.progBfMode, Progeny(nuc)[k]) == Some((BranchingFractions(nuc)[k], DecayModes(nuc)[k]))
  {
  }

  /** A name is listed by `progeny()` exactly when the progeny map holds an entry for it. */
  lemma IsProgenyIffInMap(nuc: Radionuclide, name: string)
    ensures name in Progeny(nuc) <==> Get(nuc.progBfMode, name).Some?
  {
  }

  /** Pairing the three accessors index by index rebuilds the progeny map: nothing is lost or reordered. */
  lemma AccessorsReassemble(nuc: Radionuclide)
    ensures var p, b, d := Progeny(nuc), BranchingFractions(nuc), DecayModes(nuc);
            seq(|p|, k requires 0 <= k < |p| => (p[k], (b[k], d[k]))) == nuc.progBfMode
  {
  }

  /** A stable nuclide (empty progeny map) has no progeny, fractions or modes, and only it. */
  lemma StableHasNoProgeny(nuc: Radionuclide)
    ensures Progeny(nuc) == [] <==> nuc.progBfMode == []
    ensures nuc.progBfMode == [] ==> BranchingFractions(nuc) == [] && DecayModes(nuc) == []
  {
  }

  /** No progeny is listed twice. */
  lemma ProgenyDistinct(nuc: Radionuclide, i: nat)
    requires BoundToRow(nuc, i)
    ensures forall a, b :: 0 <= a < b < |Progeny(nuc)| ==> Progeny(nuc)[a] != Progeny(nuc)[b]
  {
  }

  /** When the dataset stores progeny by decreasing branching fraction, `branching_fractions()` is non-increasing. */
  lemma BranchingFractionsNonIncreasing(nuc: Radionuclide, i: nat)
    requires BoundToRow(nuc, i)
    requires ProgenySortedByFraction(nuc.data)
    ensures forall a, b :: 0 <= a < b < |BranchingFractions(nuc)| ==>
              BranchingFractions(nuc)[a] >= BranchingFractions(nuc)[b]
  {
  }

  const ReprPrefix := "Radionuclide: "
  const ReprSeparator := ", Decay dataset: "

  /** `__repr__()`: "Radionuclide: <name>, Decay dataset: <dataset>". */
  function Repr(nuc: Radionuclide): (s: string)
    ensures |s| == |ReprPrefix| + |nuc.radionuclide| + |ReprSeparator| + |nuc.data.dataset|
    ensures s[..|ReprPrefix|] == ReprPrefix
    ensures s[|ReprPrefix|..|ReprPrefix| + |nuc.radionuclide|] == nuc.radionuclide
    ensures s[|ReprPrefix| + |nuc.radionuclide|..|s| - |nuc.data.dataset|] == ReprSeparator
    ensures s[|s| - |nuc.data.dataset|..] == nuc.data.dataset
  {
    "Radionuclide: " + nuc.radionuclide + ", Decay dataset: " + nuc.data.dataset
  }

  /** The longest prefix of `s` free of `c`. */
  function TakeUntil(s: string, c: char): (r: string)
    ensures r <= s
    ensures c !in r
    ensures |r| < |s| ==> s[|r|] == c
  {
    if s == [] || s[0] == c then [] else [s[0]] + TakeUntil(s[1..], c)
  }

  lemma {:induction false} TakeUntilStopsAt(a: string, c: char, b: string)
    requires c !in a
    ensures TakeUntil(a + [c] + b, c) == a
  {
    if a != [] {
      assert (a + [c] + b)[1..] == a[1..] + [c] + b;
      TakeUntilStopsAt(a[1..], c, b);
    }
  }

  /**
   * The string form can be read back: after the prefix, the name runs up to
   * the first comma and the dataset identifier follows the separator. This
   * holds for any name without a comma, which every canonical name is.
   */
  lemma ReprReadsBack(nuc: Radionuclide)
    requires ',' !in nuc.radionuclide
    ensures Repr(nuc)[..|ReprPrefix|] == ReprPrefix
    ensures TakeUntil(Repr(nuc)[|ReprPrefix|..], ',') == nuc.radionuclide
    ensures Repr(nuc)[|ReprPrefix| + |nuc.radionuclide| + |ReprSeparator|..] == nuc.data.dataset
  {
    var rest := Repr(nuc)[|ReprPrefix|..];
    assert rest == nuc.radionuclide + [','] + (ReprSeparator[1..] + nuc.data.dataset);
    TakeUntilStopsAt(nuc.radionuclide, ',', ReprSeparator[1..] + nuc.data.dataset);
  }

  /** Two views with the same string form show the same radionuclide from the same dataset. */
  lemma ReprInjective(a: Radionuclide, b: Radionuclide)
    requires ',' !in a.radionuclide && ',' !in b.radionuclide
    requires Repr(a) == Repr(b)
    ensures a.radionuclide == b.radionuclide
    ensures a.data.dataset == b.data.dataset
  {
    ReprReadsBack(a);
    ReprReadsBack(b);
  }

  /** The documented example: tritium from the ICRP-107 dataset. */
  lemma ReprOfTritium(nuc: Radionuclide)
    requires nuc.radionuclide == "H-3" && nuc.data.dataset == "icrp107"
    ensures Repr(nuc) == "Radionuclide: H-3, Decay dataset: icrp107"
  {
  }

  /** The documented example: K-40 decays to Ca-40 (beta minus) and Ar-40 (beta plus and electron capture). */
  lemma PotassiumProgeny(nuc: Radionuclide)
    requires nuc.progBfMode == [("Ca-40", (0.8914, "\U{03B2}-")), ("Ar-40", (0.1086, "\U{03B2}+ & EC"))]
    ensures Progeny(nuc) == ["Ca-40", "Ar-40"]
    ensures BranchingFractions(nuc) == [0.8914, 0.1086]
    ensures DecayModes(nuc) == ["\U{03B2}-", "\U{03B2}+ & EC"]
  {
  }
}
