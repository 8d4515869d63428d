/** Argument values as the tool host hands them to the service, and the two
    conversions the service applies to them: Python's `str()` (used by every
    f-string reply) and binding a value as an SQLite statement parameter. */
module Values {

  datatype Option<T> = None | Some(value: T)

  /** A decoded JSON argument: null, a string or an integer. */
  datatype Value = Null | Str(s: string) | Int(i: int)

  /** The `arguments` mapping of a tool call. */
  type Args = map<string, Value>

  /** `arguments.get(key)`: a missing key reads as None. */
  function Get(args: Args, key: string): Value
  {
    if key in args then args[key] else Null
  }

  /** Python truthiness (`if title:`): None, "" and 0 are false. */
  predicate Truthy(v: Value)
  {
    match v
    case Null => false
    case Str(s) => s != []
    case Int(i) => i != 0
  }

  /** Python's `str(v)`, which is what an f-string inserts. */
  function Text(v: Value): string
  {
    match v
    case Null => "None"
    case Str(s) => s
    case Int(i) => DecimalText(i)
  }

  // ---------------------------------------------------------------------------
  // Decimal rendering of integers and its inverse

  predicate IsDigit(c: char)
  {
    '0' <= c <= '9'
  }

  predicate IsNumeral(s: string)
  {
    |s| > 0 && forall i :: 0 <= i < |s| ==> IsDigit(s[i])
  }

  function DigitChar(d: int): (c: char)
    requires 0 <= d < 10
    ensures IsDigit(c)
  {
    ('0' as int + d) as char
  }

  function DigitValue(c: char): (d: int)
    requires IsDigit(c)
    ensures 0 <= d < 10
  {
    c as int - '0' as int
  }

  /** The decimal digits of `n`, most significant first, without leading zeros. */
  function Digits(n: nat): (s: string)
    ensures IsNumeral(s)
    ensures n >= 10 ==> s[0] != '0'
    decreases n
  {
    if n < 10 then [DigitChar(n)] else Digits(n / 10) + [DigitChar(n % 10)]
  }

  /** `str(n)` for a Python int. */
  function DecimalText(n: int): string
  {
    if n < 0 then "-" + Digits(-n) else Digits(n)
  }

  /** The value of a string of decimal digits. */
  function NumeralValue(s: string): nat
    requires forall i :: 0 <= i < |s| ==> IsDigit(s[i])
  {
    if s == [] then 0 else NumeralValue(s[..|s| - 1]) * 10 + DigitValue(s[|s| - 1])
  }

  /** Reads back an optionally signed decimal numeral. */
  function ParseDecimal(s: string): Option<int>
  {
    if |s| > 0 && s[0] == '-' then
      if IsNumeral(s[1..]) then Some(-(NumeralValue(s[1..]) as int)) else None
    else if IsNumeral(s) then Some(NumeralValue(s) as int)
    else None
  }

  lemma {:induction false} DigitsRoundTrip(n: nat)
    ensures NumeralValue(Digits(n)) == n
    decreases n
  {
    if n >= 10 {
      var s := Digits(n);
      DigitsRoundTrip(n / 10);
      assert s[..|s| - 1] == Digits(n / 10);
    }
  }

  /** The id printed in a reply determines the id: rendering and reading back
      a decimal is the identity, for negative integers too. */
  lemma DecimalRoundTrip(n: int)
    ensures ParseDecimal(DecimalText(n)) == Some(n)
  {
    if n < 0 {
      DigitsRoundTrip(-n);
      assert DecimalText(n)[1..] == Digits(-n);
    } else {
      DigitsRoundTrip(n);
      assert IsDigit(Digits(n)[0]);
    }
  }

  // ---------------------------------------------------------------------------
  // Binding a value as an SQLite parameter

  const MinInt64: int := -0x8000_0000_0000_0000
  const MaxInt64: int := 0x7fff_ffff_ffff_ffff

  /** The message of the OverflowError Python's sqlite3 module raises when an
      int parameter does not fit SQLite's 64-bit INTEGER. */
  const IntTooLarge: string := "Python int too large to convert to SQLite INTEGER"

  /** Whether a value can be bound as a statement parameter. */
  predicate Binds(v: Value)
  {
    v.Int? ==> MinInt64 <= v.i <= MaxInt64
  }

  /** The text an SQLite column of TEXT affinity holds after a non-null value
      was stored in it: a string verbatim, an integer as its decimal text. */
  function StoredText(v: Value): (s: string)
    requires !v.Null?
    ensures v.Str? ==> s == v.s
    ensures v.Int? ==> ParseDecimal(s) == Some(v.i)
  {
    DecimalRoundTrip(if v.Int? then v.i else 0);
    Text(v)
  }

  /** `z` zero digits. */
  function Zeros(z: nat): (s: string)
    ensures |s| == z && forall i :: 0 <= i < z ==> s[i] == '0'
  {
    if z == 0 then [] else Zeros(z - 1) + "0"
  }

  /** Leading zeros do not change the value of a numeral. */
  lemma {:induction false} PaddedValue(z: nat, s: string)
    requires forall i :: 0 <= i < |s| ==> IsDigit(s[i])
    ensures forall i :: 0 <= i < |Zeros(z) + s| ==> IsDigit((Zeros(z) + s)[i])
    ensures NumeralValue(Zeros(z) + s) == NumeralValue(s)
    decreases z + |s|
  {
    var u := Zeros(z) + s;
    if s != [] {
      assert u[..|u| - 1] == Zeros(z) + s[..|s| - 1];
      PaddedValue(z, s[..|s| - 1]);
    } else if z > 0 {
      assert u == Zeros(z - 1) + "0";
      assert u[..|u| - 1] == Zeros(z - 1) + [];
      PaddedValue(z - 1, []);
    }
  }

  /** Appending to text built by appending. */
  lemma AppendAssoc(a: string, b: string, c: string)
    ensures (a + b) + c == a + (b + c)
  {
  }

  // ---------------------------------------------------------------------------
  // Sets of ids

  /** A set of ids is empty or has a member one can pick. */
  lemma EmptyOrMember(s: set<int>)
    ensures s == {} || exists id :: id in s
  {
    if forall id :: id !in s {
      assert s == {};
    }
  }
}
