/** Python values as the enum machinery sees them: what `isinstance(v, int)`
    says, what `==` says, what `repr()` prints, and the exceptions raised. */
module PyValues {

  datatype Option<+T> = None | Some(value: T)

  /** A Python object used as a member value. `ObjectV` stands for any other
      object that keeps the default identity-based `==`. */
  datatype Value =
    | IntV(i: int)
    | BoolV(b: bool)
    | StrV(s: string)
    | NoneV
    | ObjectV(id: nat)

  /** The exceptions the core raises or lets through. */
  datatype Error =
    | NoMemberWithValue(value: Value)            // ValueError from lookup by value
    | MissingName(name: string)                  // KeyError from lookup by name
    | NoAttribute(name: string)                  // AttributeError from `getattr`
    | ReusedValue(enumName: string, value: Value) // ValueError from `unique`
    | NotCallable                                // TypeError: hook object cannot be called
    | BadPairLength(length: nat)                 // ValueError from `dict()` on a non-pair
    | NotASequence                               // TypeError from `dict()` on a non-iterable
    | NonStringName                              // AttributeError: name has no `startswith`
    | Raised(exception: nat)                     // whatever a generation hook raised

  datatype Result<+T> = Ok(value: T) | Err(error: Error)

  /** `isinstance(v, int)`: `bool` is a subclass of `int`. */
  predicate IsInt(v: Value) {
    v.IntV? || v.BoolV?
  }

  /** The integer an `int` (or `bool`) stands for. */
  function IntOf(v: Value): int
    requires IsInt(v)
  {
    if v.IntV? then v.i else if v.b then 1 else 0
  }

  /** Python `a == b`: numbers compare by numeric value across `int` and
      `bool`; everything else compares structurally within its own kind. */
  predicate Eq(a: Value, b: Value) {
    if IsInt(a) && IsInt(b) then IntOf(a) == IntOf(b) else a == b
  }

  lemma EqIsEquivalence()
    ensures forall a :: Eq(a, a)
    ensures forall a, b :: Eq(a, b) ==> Eq(b, a)
    ensures forall a, b, c :: Eq(a, b) && Eq(b, c) ==> Eq(a, c)
  {
  }

  lemma OneEqualsTrue()
    ensures Eq(IntV(1), BoolV(true)) && Eq(IntV(0), BoolV(false))
    ensures !Eq(IntV(5), StrV("5"))
  {
  }

  // ---------------------------------------------------------------------
  // repr()

  function DigitChar(d: nat): (c: char)
    requires d < 10
    ensures '0' <= c <= '9'
  {
    ('0' as int + d) as char
  }

  predicate AllDigits(s: string) {
    forall k :: 0 <= k < |s| ==> '0' <= s[k] <= '9'
  }

  /** Decimal digits of `n`, most significant first, no leading zeros. */
  function Digits(n: nat): (r: string)
    ensures |r| >= 1 && AllDigits(r)
    ensures n >= 10 ==> r[0] != '0'
  {
    if n < 10 then [DigitChar(n)] else Digits(n / 10) + [DigitChar(n % 10)]
  }

  /** `repr(i)` for an int. */
  function IntRepr(i: int): string {
    if i < 0 then "-" + Digits(-i) else Digits(i)
  }

  /** Reads back a string of decimal digits. */
  function DigitsValue(s: string): nat
    requires AllDigits(s)
  {
    if s == [] then 0
    else DigitsValue(s[..|s| - 1]) * 10 + ((s[|s| - 1] as int) - ('0' as int))
  }

  /** Reads back an optional minus sign followed by digits. */
  function ParseInt(s: string): Option<int> {
    if |s| > 0 && s[0] == '-' then
      if |s| > 1 && AllDigits(s[1..])
      then (var d: int := DigitsValue(s[1..]); Some(-d)) else None
    else if |s| > 0 && AllDigits(s)
    then Some(DigitsValue(s)) else None
  }

  lemma {:induction false} DigitsRoundTrip(n: nat)
    ensures DigitsValue(Digits(n)) == n
  {
    if n >= 10 {
      DigitsRoundTrip(n / 10);
      var s := Digits(n);
      assert s[..|s| - 1] == Digits(n / 10);
      assert (s[|s| - 1] as int) - ('0' as int) == n % 10;
    }
  }

  /** `repr` of a negative int reads back. */
  lemma ParseNegative(n: nat)
    requires n > 0
    ensures ParseInt("-" + Digits(n)) == Some(-(n as int))
  {
    var d := Digits(n);
    DigitsRoundTrip(n);
    var s := "-" + d;
    assert s[1..] == d;
  }

  /** `repr` of a non-negative int reads back. */
  lemma ParseNonNegative(n: nat)
    ensures ParseInt(Digits(n)) == Some(n)
  {
    DigitsRoundTrip(n);
    assert Digits(n)[0] != '-';
  }

  /** `repr` of an int can be read back: two distinct ints never print alike. */
  lemma IntReprRoundTrip(i: int)
    ensures ParseInt(IntRepr(i)) == Some(i)
  {
    if i < 0 {
      ParseNegative(-i);
    } else {
      ParseNonNegative(i);
    }
  }

  function HexDigit(d: nat): char
    requires d < 16
  {
    "0123456789abcdef"[d]
  }

  /** How `repr` writes one character of a string quoted with `q`. */
  function EscapeChar(c: char, q: char): string {
    if c == '\\' then "\\\\"
    else if c == q then ['\\', q]
    else if c == '\n' then "\\n"
    else if c == '\r' then "\\r"
    else if c == '\t' then "\\t"
    else if (c as int) < 32 || (c as int) == 127 then
      ['\\', 'x', HexDigit((c as int) / 16), HexDigit((c as int) % 16)]
    else [c]
  }

  function Escape(s: string, q: char): string {
    if s == [] then [] else EscapeChar(s[0], q) + Escape(s[1..], q)
  }

  /** `repr(s)` for a str: single quotes unless the text has a single quote
      and no double quote. */
  function StrRepr(s: string): string {
    var q := if '\'' in s && '"' !in s then '"' else '\'';
    [q] + Escape(s, q) + [q]
  }

  /** `repr(v)`. */
  function Repr(v: Value): string {
    match v
    case IntV(i) => IntRepr(i)
    case BoolV(b) => if b then "True" else "False"
    case StrV(s) => StrRepr(s)
    case NoneV => "None"
    case ObjectV(_) => "<object object>"
  }

  lemma {:induction false} EscapePlain(s: string, q: char)
    requires forall k :: 0 <= k < |s| ==> 32 <= (s[k] as int) < 127 && s[k] != '\\' && s[k] != q
    ensures Escape(s, q) == s
  {
    if s != [] {
      EscapePlain(s[1..], q);
    }
  }

  /** A plain string prints between single quotes, as in `'HI'`. */
  lemma PlainStrRepr(s: string)
    requires forall k :: 0 <= k < |s| ==> 32 <= (s[k] as int) < 127 && s[k] != '\\' && s[k] != '\''
    ensures Repr(StrV(s)) == "'" + s + "'"
  {
    EscapePlain(s, '\'');
  }
}
