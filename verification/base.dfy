/** Shared value types of the blog application model: optional values,
    JSON request fields with JavaScript truthiness, and HTTP replies. */
module Base {

  /** Identifiers of stored documents (users and blogs), kept opaque. */
  type Id = string

  predicate IsHexDigit(c: char) {
    '0' <= c <= '9' || 'a' <= c <= 'f' || 'A' <= c <= 'F'
  }

  /** Whether an id casts to a MongoDB ObjectId: 24 hexadecimal digits, the
      form the server writes ids in. A lookup by any other string throws a
      cast error rather than finding nothing. */
  predicate IsObjectId(s: Id) {
    |s| == 24 && forall k :: 0 <= k < |s| ==> IsHexDigit(s[k])
  }

  datatype Option<+T> = None | Some(value: T)

  /** A field of a JSON request body. `Absent` is `undefined` (the key is
      missing) and `Null` is an explicit JSON `null`; the two differ for the
      handlers that test `!== undefined`. */
  datatype Field<+T> = Absent | Null | Value(v: T) {

    /** The field is not `undefined`. */
    predicate Defined() {
      !Absent?
    }
  }

  /** JavaScript truthiness of a string field: `undefined`, `null` and the
      empty string are falsy. */
  predicate TruthyText(f: Field<string>) {
    f.Value? && f.v != ""
  }

  /** JavaScript truthiness of a boolean field. */
  predicate TruthyFlag(f: Field<bool>) {
    f.Value? && f.v
  }

  /** The value of `f || fallback` for a string field. */
  function TextOr(f: Field<string>, fallback: string): string
  {
    if TruthyText(f) then f.v else fallback
  }

  /** The value of `f || fallback` for an array field: every array, even an
      empty one, is truthy in JavaScript. */
  function ListOr<T>(f: Field<seq<T>>, fallback: seq<T>): seq<T>
  {
    if f.Value? then f.v else fallback
  }

  /** `Math.ceil(a / b)` for a non-negative count `a` and a non-zero
      divisor: the least integer at or above the real quotient. */
  function CeilDiv(a: nat, b: int): (r: int)
    requires b != 0
    ensures b > 0 ==> (r - 1) * b < a <= r * b
    ensures b < 0 ==> r * b <= a < (r - 1) * b
  {
    if b > 0 then (a + b - 1) / b else -(a / -b)
  }

  /** The outcome of a route handler: a success status with a JSON body, or
      an error status with the message the handler sends. */
  datatype Reply<+T> = Ok(status: int, body: T) | Fail(status: int, message: string) {

    predicate Succeeded() {
      Ok?
    }
  }

  const Created: int := 201
  const Success: int := 200
  const BadRequest: int := 400
  const Unauthorized: int := 401
  const Forbidden: int := 403
  const NotFound: int := 404
  const ServerError: int := 500
}
