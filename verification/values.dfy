/** Values that flow through the owner-name helpers. */
module Values {

  /** One spreadsheet cell as the helpers see it: either a string, or anything
      else (a missing value, NaN, a number) that the helpers treat as "not a string". */
  datatype Cell = Str(s: string) | Missing

  /** An optional result: the index of the first alias found in a sheet's
      headers, or the three groups of a matched `Initial First Last` name. */
  datatype Option<+T> = None | Some(value: T)
}
