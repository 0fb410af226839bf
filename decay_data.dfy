/**
 * The decay dataset a Radionuclide reads from: an immutable table with one
 * row per radionuclide. Loading it from disk is not part of this model; a
 * fully built dataset is taken as given.
 */
module DecayDataset {
  import opened OrderedDict

  /** Direct progeny of one radionuclide: progeny name -> (branching fraction, decay mode). */
  type ProgenyMap = Dict<string, (real, string)>

  datatype DecayData = DecayData(
    radionuclides: seq<string>,            // canonical names, one per row
    radionuclideDict: map<string, nat>,    // canonical name -> row index
    decayConsts: seq<real>,                // decay constant of each row (1/s)
    progBfsModes: seq<ProgenyMap>,         // progeny map of each row
    dataset: string,                       // dataset identifier, e.g. "icrp107"
    ln2: real,                             // the natural logarithm of 2
    yearConv: real)                        // days per year used by unit conversion

  /**
   * A well-built dataset: the per-row sequences have one entry per name,
   * the dictionary maps exactly the listed names to their own row, each
   * progeny map is a dictionary (no progeny listed twice), decay constants
   * are non-negative (zero for a stable nuclide) and ln 2 is positive.
   */
  ghost predicate Valid(data: DecayData) {
    && |data.decayConsts| == |data.radionuclides|
    && |data.progBfsModes| == |data.radionuclides|
    && data.radionuclideDict.Keys == (set n | n in data.radionuclides)
    && (forall i :: 0 <= i < |data.radionuclides| ==>
          data.radionuclides[i] in data.radionuclideDict && data.radionuclideDict[data.radionuclides[i]] == i)
    && (forall i :: 0 <= i < |data.progBfsModes| ==> DistinctKeys(data.progBfsModes[i]))
    && (forall i :: 0 <= i < |data.decayConsts| ==> data.decayConsts[i] >= 0.0)
    && data.ln2 > 0.0
  }

  /** The row of a listed name: the row that carries that very name. */
  function IndexOf(data: DecayData, name: string): (i: nat)
    requires Valid(data)
    requires name in data.radionuclides
    ensures i < |data.radionuclides| && data.radionuclides[i] == name
    ensures i < |data.decayConsts| && i < |data.progBfsModes|
  {
    var j :| 0 <= j < |data.radionuclides| && data.radionuclides[j] == name;
    assert data.radionuclideDict[data.radionuclides[j]] == j;
    data.radionuclideDict[name]
  }

  /** The dictionary is a bijection: no canonical name is listed on two rows. */
  lemma NamesDistinct(data: DecayData, i: nat, j: nat)
    requires Valid(data)
    requires i < j < |data.radionuclides|
    ensures data.radionuclides[i] != data.radionuclides[j]
  {
  }

  /** A progeny map listed by decreasing branching fraction. */
  predicate ByDecreasingFraction(m: ProgenyMap) {
    forall i, j :: 0 <= i < j < |m| ==> m[i].1.0 >= m[j].1.0
  }

  /** Every row of the dataset stores its progeny by decreasing branching fraction. */
  ghost predicate ProgenySortedByFraction(data: DecayData) {
    forall k :: 0 <= k < |data.progBfsModes| ==> ByDecreasingFraction(data.progBfsModes[k])
  }
}
