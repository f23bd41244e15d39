/** Shared vocabulary of the chat backend model: optional values, the
    service-level errors the NestJS services raise, and the decimal
    rendering of numeric ids that the services put into strings
    (`${roomId}`). */
module Common {

  datatype Option<T> = None | Some(value: T)

  /** The exceptions the services throw, by HTTP status, plus the
      TypeError raised when the code dereferences a missing row. */
  datatype Error =
    | NotFound             // 404 (HttpException NOT_FOUND, NotFoundException)
    | Unauthorized         // 401 (UnauthorizedException)
    | Conflict             // 409 (ConflictException, unique-key violation)
    | Gone                 // 410 (GoneException)
    | NotImplemented       // 501
    | InternalServerError  // 500
    | NullDereference      // property read on null/undefined

  datatype Result<T> = Ok(value: T) | Err(error: Error)

  /** An optional argument as JavaScript passes it: left out (`undefined`,
      which a Sequelize `update` skips), an explicit `null` (which it
      writes), or a value. */
  datatype Arg<T> = Omitted | Null | Value(value: T)

  predicate IsDigit(c: char) { '0' <= c <= '9' }

  function DigitChar(d: nat): (c: char)
    requires d < 10
    ensures IsDigit(c) && (c as int) - ('0' as int) == d
  {
    (('0' as int) + d) as char
  }

  /** The decimal text of a non-negative id, as JavaScript's template
      literal renders an integer: no sign, no leading zeros. */
  function DecimalString(n: nat): (s: string)
    ensures |s| >= 1
    ensures forall i :: 0 <= i < |s| ==> IsDigit(s[i])
    ensures |s| > 1 ==> s[0] != '0'
    decreases n
  {
    if n < 10 then [DigitChar(n)] else DecimalString(n / 10) + [DigitChar(n % 10)]
  }

  /** Value of a string made only of decimal digits. */
  function DigitsValue(s: string): nat
    requires forall i :: 0 <= i < |s| ==> IsDigit(s[i])
  {
    if s == [] then 0
    else
      assert IsDigit(s[|s| - 1]);
      DigitsValue(s[..|s| - 1]) * 10 + ((s[|s| - 1] as int) - ('0' as int))
  }

  /** Reads a decimal id back; None for the empty string or any non-digit. */
  function ParseDecimal(s: string): (r: Option<nat>)
    ensures r.Some? <==> |s| > 0 && forall i :: 0 <= i < |s| ==> IsDigit(s[i])
  {
    if |s| > 0 && forall i :: 0 <= i < |s| ==> IsDigit(s[i]) then Some(DigitsValue(s)) else None
  }

  /** The decimal text of an id reads back as the same id. */
  lemma {:induction false} DecimalRoundTrip(n: nat)
    ensures ParseDecimal(DecimalString(n)) == Some(n)
    decreases n
  {
    var s := DecimalString(n);
    if n >= 10 {
      DecimalRoundTrip(n / 10);
      var p := DecimalString(n / 10);
      assert s == p + [DigitChar(n % 10)];
      assert s[..|s| - 1] == p;
      assert DigitsValue(s) == DigitsValue(p) * 10 + n % 10;
    }
  }

  /** Two different ids never render to the same text. */
  lemma {:induction false} DecimalStringInjective(a: nat, b: nat)
    ensures DecimalString(a) == DecimalString(b) ==> a == b
  {
    DecimalRoundTrip(a);
    DecimalRoundTrip(b);
  }
}
