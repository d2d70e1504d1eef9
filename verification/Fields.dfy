/** Raw values of exchange records and database rows, with the language's own truth and float rules. */
module Fields {
  import opened Common

  // The upper-cased position type of a trade.
  datatype Kind = Long | Short | OtherKind

  // None, the empty string, a numeric value, a numeric text, or something that float() rejects.
  datatype Field = Missing | Blank | Number(v: real) | Text(v: real) | Malformed

  const ZERO := Number(0.0)

  predicate Truthy(f: Field) {
    (f.Number? && f.v != 0.0) || f.Text? || f.Malformed?
  }

  /** The source's `a or b`. */
  function Or(a: Field, b: Field): Field {
    if Truthy(a) then a else b
  }

  /** float(f), None where it raises. */
  function ToFloat(f: Field): Option<real> {
    if f.Number? || f.Text? then Some(f.v) else None
  }

  /** The source's `a or b` on texts. */
  function OrText(a: string, b: string): string {
    if a != "" then a else b
  }
}
