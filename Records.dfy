/** The dictionaries that flow from the analyzer to the CSV writer. */
module Records {

  /** A dictionary value: the analyzer stores strings and integers. */
  datatype Value = Str(s: string) | Num(n: int)

  /** A result dictionary, from column name to value. */
  type Record = map<string, Value>
}
