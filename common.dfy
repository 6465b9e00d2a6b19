/** Values shared by the storage and execution layers: field types and
    values, tuples and the record identifiers the heap file gives them. */
module Common {

  /** The conventional Some/None datatype, standing in for a nullable reference. */
  datatype Option<T> = None | Some(value: T)

  /** The column types of the engine (`Type.INT_TYPE`, `Type.STRING_TYPE`). */
  datatype Type = IntType | StringType

  /** A field value (`IntField`, `StringField`). */
  datatype Field = IntField(i: int) | StringField(s: string)

  /** A schema is the ordered list of its column types. */
  type TupleDesc = seq<Type>

  /** Where a stored tuple lives: page number and slot within the page. */
  datatype RecordId = RecordId(pageNo: nat, slot: nat)

  /** A row: its field values (a field not yet set is `None`), and its
      location once the heap file has stored it. */
  datatype Tuple = Tuple(fields: seq<Option<Field>>, rid: Option<RecordId>)

  /** The Java exceptions the modelled operations can raise. */
  datatype Failure =
    | NullPointer       // NullPointerException
    | ClassCast         // ClassCastException
    | Arithmetic        // ArithmeticException: integer division by zero
    | NoSuchElement     // NoSuchElementException
    | Db                // DbException

  /** The outcome of an operation that either yields a value or raises. */
  datatype Result<T> = Ok(value: T) | Fail(failure: Failure)

  /** Java's `Integer.MAX_VALUE` and `Integer.MIN_VALUE`. */
  const INT_MAX: int := 0x7fff_ffff
  const INT_MIN: int := -0x8000_0000

  /** Multiplying by a non-negative number keeps order. */
  lemma MulMono(a: int, b: int, c: int)
    requires a <= b && c >= 0
    ensures a * c <= b * c
  {
    assert (b - a) * c >= 0;
  }

  /** A multiple of a positive `b` by a non-zero factor is at least `b` away from 0. */
  lemma MulSign(x: int, b: int)
    requires b > 0
    ensures x >= 1 ==> x * b >= b
    ensures x <= -1 ==> x * b <= -b
  {
    if x >= 1 {
      MulMono(1, x, b);
    }
    if x <= -1 {
      MulMono(x, -1, b);
    }
  }

  /** A smaller multiple of a positive number has the smaller factor. */
  lemma MulCancel(a: int, b: int, c: int)
    requires c > 0
    ensures a * c < b * c ==> a < b
  {
    if a >= b {
      MulMono(b, a, c);
    }
  }

  /** The quotient of a non-negative number is the largest multiple not
      above it. */
  lemma DivBounds(a: int, b: int)
    requires a >= 0 && b > 0
    ensures a / b >= 0 && (a / b) * b <= a < (a / b + 1) * b
  {
    var q := a / b;
    assert a == q * b + a % b;
    assert (q + 1) * b == q * b + b;
    MulSign(q, b);
  }

  /** Division finds the unique quotient. */
  lemma DivUnique(a: int, b: int, q: int)
    requires b > 0 && q * b <= a < q * b + b
    ensures a / b == q
  {
    var d := a / b;
    assert a == d * b + a % b;
    assert (d - q) * b == d * b - q * b;
    MulSign(d - q, b);
  }
}
