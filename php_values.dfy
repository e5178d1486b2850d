/**
 * PHP values as the datasource sees them: scalars and arrays. An array is an
 * insertion-ordered map from string keys to values (see OrderedMap).
 */
module PhpValues {
  import opened Wrappers
  import OrderedMap
  import PhpStrings

  datatype Value =
    | Null
    | Bool(b: bool)
    | Int(i: int)
    | Str(s: string)
    | Arr(entries: seq<(string, Value)>)

  /** The empty array `array()`. */
  const EmptyArray: Value := Arr([])

  /** The six values PHP's `empty()` accepts. */
  const EmptyValues: set<Value> := {Null, Bool(false), Int(0), Str(""), Str("0"), Arr([])}

  /** PHP's `empty()`: null, false, 0, "", "0" and the empty array. */
  predicate IsEmpty(v: Value)
  {
    match v
    case Null => true
    case Bool(b) => !b
    case Int(i) => i == 0
    case Str(s) => s == "" || s == "0"
    case Arr(es) => es == []
  }

  /** `$m[k]` on an array: a present key reads as its stored value, a missing key as null. */
  function Lookup(m: seq<(string, Value)>, k: string): (v: Value)
    ensures OrderedMap.Get(m, k).Some? ==> v == OrderedMap.Get(m, k).value
    ensures v != Null ==> OrderedMap.Get(m, k) == Some(v)
    ensures k !in OrderedMap.Keys(m) ==> v == Null
  {
    match OrderedMap.Get(m, k)
    case Some(v) => v
    case None => Null
  }

  /**
   * `$v[k]` as the model uses it: an array has entries, and any other value
   * reads as null. PHP reads a character offset of a string (or fails)
   * instead, but `Index` is only applied to a non-array inside `empty()`,
   * where both readings are empty.
   */
  function Index(v: Value, k: string): Value
  {
    if v.Arr? then Lookup(v.entries, k) else Null
  }

  /**
   * Conversion to string, as `.` and `sprintf('%s')` do it: null and false
   * give "", true gives "1", an integer its decimal text, an array "Array".
   */
  function ToStr(v: Value): string
  {
    match v
    case Null => ""
    case Bool(b) => if b then "1" else ""
    case Int(i) => PhpStrings.IntToDecimal(i)
    case Str(s) => s
    case Arr(_) => "Array"
  }

  /** `empty()` holds of exactly the six values in EmptyValues. */
  lemma IsEmptyExactly(v: Value)
    ensures IsEmpty(v) <==> v in EmptyValues
  {
  }

  /**
   * What string conversion writes: "" for null and false, "1" for true, the
   * string itself, "Array" for an array, and for an integer a decimal text
   * (after a `-` when negative) that reads back as the integer.
   */
  lemma ToStrMeaning(v: Value)
    ensures v == Null || v == Bool(false) ==> ToStr(v) == ""
    ensures v == Bool(true) ==> ToStr(v) == "1"
    ensures v.Str? ==> ToStr(v) == v.s
    ensures v.Arr? ==> ToStr(v) == "Array"
    ensures v.Int? && v.i >= 0 ==> PhpStrings.AllDigits(ToStr(v)) && PhpStrings.ParseDecimal(ToStr(v)) == v.i
    ensures v.Int? && v.i < 0 ==>
      var r := ToStr(v);
      |r| > 1 && r[0] == '-' && PhpStrings.AllDigits(r[1..]) && PhpStrings.ParseDecimal(r[1..]) == -v.i
  {
    if v.Int? {
      PhpStrings.IntDecimalRoundTrip(v.i);
    }
  }
}
