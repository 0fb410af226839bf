/**
 * The two helpers the Radionuclide view calls but whose code is not part of
 * this model: the radionuclide-string parser and the time-unit converter.
 * Each is taken as a function-typed parameter; the parser carries the one
 * property the view relies on.
 */
module Utils {
  import opened Wrappers

  /** The exception either helper raises on bad input. */
  datatype Error = ValueError(message: string)

  /** `parse_radionuclide(string, dataset_list, dataset_name)`. */
  type RadionuclideParser = (string, seq<string>, string) -> Result<string, Error>

  /** `time_unit_conv(time_period, units_from, units_to, year_conv)`. */
  type TimeUnitConverter = (real, string, string, real) -> Result<real, Error>

  /** A parser that succeeds only with a name taken from the list it was given. */
  ghost predicate ParserSound(parse: RadionuclideParser) {
    forall s, names, dataset :: parse(s, names, dataset).Ok? ==> parse(s, names, dataset).value in names
  }
}
