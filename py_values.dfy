/** The dynamically typed values the registry's node records carry, as far as
    the script distinguishes them: `isinstance(v, int)` and `str(v)`. */
module PyValues {
  import opened Wrappers
  import opened Text

  /** A Python value. `Bool` is kept apart from `Int` because its `str()` differs,
      although Python treats it as an `int`. `Other` is any other object, carried
      with the text its `str()` gives. */
  datatype Value =
    | Int(i: int)
    | Bool(b: bool)
    | Str(s: string)
    | NoneValue
    | Other(text: string)

  /** The integer a value stands for when `isinstance(v, int)` holds
      (`True` is 1 and `False` is 0), and `None` otherwise. */
  function AsInt(v: Value): (r: Option<int>)
    ensures r.Some? <==> v.Int? || v.Bool?
    ensures v.Int? ==> r == Some(v.i)
    ensures v.Bool? ==> r == Some(if v.b then 1 else 0)
  {
    match v
    case Int(n) => Some(n)
    case Bool(b) => Some(if b then 1 else 0)
    case _ => None
  }

  /** Python's `str(v)`, which is also what an f-string interpolates. */
  function ToStr(v: Value): (r: string)
    ensures v.Int? ==> r != [] && (r[0] == '-' <==> v.i < 0)
    ensures v.Str? ==> r == v.s
  {
    match v
    case Int(n) => if n < 0 then "-" + Decimal(-n) else Decimal(n)
    case Bool(b) => if b then "True" else "False"
    case Str(s) => s
    case NoneValue => "None"
    case Other(text) => text
  }

  /** The text of an int reads back as that int: its digits, after a '-' when it is negative. */
  lemma StrOfIntReadsBack(n: int)
    ensures n >= 0 ==> IsDigits(ToStr(Int(n))) && DigitsValue(ToStr(Int(n))) == n
    ensures n < 0 ==> IsDigits(ToStr(Int(n))[1..]) && DigitsValue(ToStr(Int(n))[1..]) == -n
  {
    if n < 0 {
      DecimalRoundTrip(-n);
      assert ToStr(Int(n))[1..] == Decimal(-n);
    } else {
      DecimalRoundTrip(n);
    }
  }
}
