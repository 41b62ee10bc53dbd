/** The records of the program: catalogue items and the report entries made from them. */
module Model {

  datatype Option<T> = None | Some(value: T)

  /** The side of a bilateral finding; `NoSide` stands for Python's `None`. */
  datatype Side = Links | Rechts | NoSide

  /** One catalogue finding: its code, its order number (also the number the
      user types to mark it affected), its default text, whether it has a left
      and a right expression, and whether it is active. */
  datatype Item = Item(kuerzel: string, nummer: int, text: string, bilateral: bool, active: bool)

  /** One unit of the report: a side and the phrase to print for it. */
  datatype Entry = Entry(side: Side, text: string)
}
