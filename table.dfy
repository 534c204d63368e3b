/** The values the two scripts hand to their table writers, one per cell. */
module Table {
  import opened Wrappers

  datatype Cell =
    | Text(text: string)      // a Python str
    | Number(value: real)     // a Python float
    | Money(amount: real)     // the str f"${amount:.2f}"
    | Percent(share: real)    // the str f"{share:.1f}%"
    | NoneValue               // Python None

  type Row = seq<Cell>

  function TextOrNone(s: Option<string>): Cell {
    if s.Some? then Text(s.value) else NoneValue
  }
}
