/** The person records shown in the table and the columns they can be sorted by. */
module People {

  datatype Option<T> = None | Some(value: T)

  /** One record of the data set: the `User` interface. Years are whole numbers. */
  datatype User = User(
    name: string,
    sex: string,
    born: int,
    died: int,
    fatherName: Option<string>,
    motherName: Option<string>,
    slug: string)

  /** The column selector, `keyof User`, as a closed set of attribute names. */
  datatype Field = Name | Sex | Born | Died | FatherName | MotherName | Slug

  /** What `user[field]` holds at run time, classified by its `typeof`. */
  datatype Value = Str(s: string) | Num(n: int) | Null

  /** True for the columns whose value is never `null`. */
  predicate IsNonNullable(f: Field) {
    f != FatherName && f != MotherName
  }

  /** True for the columns that always hold a number. */
  predicate IsNumeric(f: Field) {
    f == Born || f == Died
  }

  function ParentValue(p: Option<string>): Value {
    match p
    case Some(s) => Str(s)
    case None => Null
  }

  /** The dynamic field access `user[field]`. */
  function FieldValue(u: User, f: Field): (v: Value)
    ensures v.Num? <==> IsNumeric(f)
    ensures v.Null? ==> !IsNonNullable(f)
    ensures f == FatherName ==> (v.Null? <==> u.fatherName.None?)
    ensures f == MotherName ==> (v.Null? <==> u.motherName.None?)
  {
    match f
    case Name => Str(u.name)
    case Sex => Str(u.sex)
    case Born => Num(u.born)
    case Died => Num(u.died)
    case FatherName => ParentValue(u.fatherName)
    case MotherName => ParentValue(u.motherName)
    case Slug => Str(u.slug)
  }
}
