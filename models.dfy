/** The record shape of models/employees.go. */
module Models {

  /** One employee record. `ID` is assigned by the store; `Salary` is carried
      but never computed on, so it is an exact number here. */
  datatype Employee = Employee(ID: int, Name: string, Position: string, Salary: real)

  /** Go's zero value of the record: what a lookup of an absent id returns. */
  const Zero: Employee := Employee(0, "", "", 0.0)
}
