/** The student record. The Java entity class is not part of this model; its
    fields are the ones the controller reads and writes. A `java.util.Date`
    is represented by the number it is compared by (milliseconds since the
    epoch), so date comparison is integer comparison. */
module Domain {

  datatype Student = Student(
    id: int,
    firstName: string,
    lastName: string,
    birthday: int,
    phone: string,
    email: string)
}
