# Radionuclide view of radioactivedecay, in Dafny

This project models the `Radionuclide` class of the `radioactivedecay`
Python package. A `Radionuclide` binds one canonical radionuclide name
(for example `H-3`) to one row of a decay dataset (`DecayData`). It reads
the nuclide's decay constant and its progeny map from that row. It then
offers read-only accessors:

- the half-life, in seconds or in another time unit;
- the direct progeny, in the order the dataset stores them;
- the branching fraction and the decay mode of each progeny;
- a fixed-format string form, `Radionuclide: H-3, Decay dataset: icrp107`.

The class never changes its fields after construction, so the model is a
datatype value with functions and lemmas.

Files:

- `wrappers.dfy`: `Option` and `Result`. A Python exception becomes `Err`.
- `ordered_dict.dfy`: an insertion-ordered dictionary, the Python `dict`
  semantics the progeny map relies on. It is a sequence of (key, value)
  pairs; the separate `DistinctKeys` predicate says no key occurs twice,
  and a valid dataset requires it of every progeny map.
- `decay_data.dfy`: the dataset record and its well-formedness predicate.
  The predicate says the name-to-index dictionary maps each listed name to
  its own row.
- `utils.dfy`: the radionuclide parser and the time-unit converter. Their
  code is not part of this model, so they are function-typed parameters.
  The parser has one stated property: a name it returns is one of the
  dataset's names.
- `radionuclide.dfy`: the view, its accessors and the lemmas about them.

Two modelling choices follow the code of `radioactivedecay/radionuclide.py`.
The class has no `change` method and no `nuclide_name` attribute; the calls
to them at tests/test_decayfunctions.py:399 and 406-409 belong to an older
version of the class, so neither is modelled. For a stable nuclide the
half-life at radioactivedecay/radionuclide.py:91 divides by a zero decay
constant, which NumPy turns into infinity; the model excludes that case with
a precondition.

## Model

| member | source | states |
|---|---|---|
| `Radionuclides.New` | radioactivedecay/radionuclide.py:48-58 | succeeds exactly when the parser does and otherwise returns the parser's error; on success the name is the parsed canonical name, the dataset is the one given, and the decay constant and progeny map both come from the single row `radionuclide_dict[name]`, the row that carries that name |
| `Radionuclides.RowIsUnique` | radioactivedecay/radionuclide.py:52-57 | a view can be bound to only one row of a valid dataset |
| `DecayDataset.IndexOf` | radioactivedecay/radionuclide.py:52-57 | for a listed name of a valid dataset, the dictionary's index is in range of every per-row sequence and points back to that name |
| `DecayDataset.NamesDistinct` | radioactivedecay/radionuclide.py:53 | in a valid dataset no canonical name sits on two rows, so the name-to-index lookup is a bijection |
| `Radionuclides.HalfLife` | radioactivedecay/radionuclide.py:84-91 | in seconds the half-life times the decay constant is ln 2; in another unit it succeeds exactly when the unit converter does, and otherwise returns the converter's own error |
| `Radionuclides.HalfLifeSecondsIgnoresConverter` | radioactivedecay/radionuclide.py:84-86 | in seconds the factor is exactly 1: the result is ln 2 over the decay constant, whatever the converter |
| `Radionuclides.HalfLifeInUnits` | radioactivedecay/radionuclide.py:84-91 | in any unit other than "s", the half-life is the converter's factor for one second times the half-life in seconds |
| `Radionuclides.HalfLifePositive` | radioactivedecay/radionuclide.py:91 | for a view bound to a row of a valid dataset (non-negative decay constants, positive ln 2), a non-zero decay constant gives a positive half-life in seconds |
| `OrderedDict.Keys` | radioactivedecay/radionuclide.py:111 | the listed keys are the dictionary's keys, one per entry, in insertion order |
| `OrderedDict.Values` | radioactivedecay/radionuclide.py:130 | the listed values are the dictionary's values, one per entry, in insertion order |
| `OrderedDict.Get` | radioactivedecay/radionuclide.py:35-37 | a lookup finds an entry holding the key, or reports that no entry holds it |
| `OrderedDict.GetAt` | radioactivedecay/radionuclide.py:35-37 | in a dictionary with distinct keys, the i-th key retrieves the i-th value |
| `OrderedDict.GetSomeIffKey` | radioactivedecay/radionuclide.py:111 | a key is found by lookup exactly when it is among the listed keys |
| `OrderedDict.ZipKeysValues` | radioactivedecay/radionuclide.py:111-130 | pairing the listed keys and values index by index gives back the dictionary |
| `Radionuclides.Progeny` | radioactivedecay/radionuclide.py:111 | one name per progeny-map entry, the i-th being the i-th key in the stored order |
| `Radionuclides.BranchingFractions` | radioactivedecay/radionuclide.py:130 | as long as `progeny()`; element i is the first component of the i-th value of the progeny map |
| `Radionuclides.DecayModes` | radioactivedecay/radionuclide.py:151 | as long as `progeny()`; element i is the second component of the i-th value of the progeny map |
| `Radionuclides.AccessorsAligned` | radioactivedecay/radionuclide.py:111-151 | for a view bound to a row, looking up the i-th progeny in the progeny map yields the i-th branching fraction and the i-th decay mode |
| `Radionuclides.IsProgenyIffInMap` | radioactivedecay/radionuclide.py:111 | a name is listed as progeny exactly when the progeny map holds an entry for it |
| `Radionuclides.AccessorsReassemble` | radioactivedecay/radionuclide.py:111-151 | zipping progeny, branching fractions and decay modes rebuilds the progeny map exactly, order included |
| `Radionuclides.StableHasNoProgeny` | radioactivedecay/radionuclide.py:111-151 | progeny is empty exactly when the progeny map is, and then fractions and modes are empty too |
| `Radionuclides.ProgenyDistinct` | radioactivedecay/radionuclide.py:111 | for a view bound to a row, no progeny is listed twice |
| `Radionuclides.BranchingFractionsNonIncreasing` | radioactivedecay/radionuclide.py:124-130 | if the dataset stores every progeny map by decreasing branching fraction, `branching_fractions()` is non-increasing |
| `Radionuclides.PotassiumProgeny` | radioactivedecay/radionuclide.py:100-147 | the documented K-40 example: progeny Ca-40 then Ar-40, fractions 0.8914 then 0.1086, modes beta minus then beta plus and electron capture |
| `Radionuclides.Repr` | radioactivedecay/radionuclide.py:153-159 | the string is exactly "Radionuclide: ", then the name, then ", Decay dataset: ", then the dataset identifier |
| `Radionuclides.ReprReadsBack` | radioactivedecay/radionuclide.py:153-159 | for a name without a comma, the name and the dataset identifier can be read back from the string form |
| `Radionuclides.ReprInjective` | radioactivedecay/radionuclide.py:153-159 | two views of comma-free names with equal string forms show the same name from the same dataset identifier |
| `Radionuclides.ReprOfTritium` | tests/test_decayfunctions.py:424-425 | the H-3 view of dataset icrp107 reads "Radionuclide: H-3, Decay dataset: icrp107" |

## Left out

- `parse_radionuclide` and `time_unit_conv` come from `radioactivedecay/utils.py`, which is not part of this model. They are parameters. The parser's only stated property is that a name it returns is in the name list it was given.
- The default dataset `DEFAULTDATA` and loading `DecayData` from files are not part of this model; every view takes a built dataset explicitly.
- The half-life of a stable nuclide (decay constant 0) is NumPy infinity in the source; `Radionuclides.HalfLife` requires a non-zero decay constant instead.
- Half-lives are real numbers, not IEEE doubles, so float rounding (for example H-3's half-life printing as exactly 12.32 years) is not modelled.
- Python attributes could be reassigned by a caller; the class never does so, and the model's view is an immutable value.
- The test file's `nuclide_name` attribute and `change` method belong to an older version of the class and are not modelled.
- Inventory set algebra, the decay-chain solver, nuclide-string parsing and unit conversion are not part of this model; their code is not among the modelled files.
