/** Values shared by every part of the model. */
module Base {

  /** A value that may be absent: JavaScript's `null`/`undefined` or SQL's `NULL`. */
  datatype Option<+T> = None | Some(value: T)

  /** A message or notification id as it travels in JSON: a number for rows of the
      messages table, a string such as `due_soon_12` for reminders made up on the fly. */
  datatype Id = Num(n: int) | Text(s: string)

  /** JavaScript truthiness of an optional string: present and not empty. */
  predicate Truthy(s: Option<string>) {
    s.Some? && s.value != ""
  }

  /** JavaScript's `a || b` on optional strings. */
  function Or(a: Option<string>, b: Option<string>): (r: Option<string>)
    ensures Truthy(r) <==> Truthy(a) || Truthy(b)
    ensures Truthy(a) ==> r == a
  {
    if Truthy(a) then a else b
  }

  /** `xs.map(f)`: one result per element, in order. */
  function MapSeq<A, B>(xs: seq<A>, f: A -> B): (r: seq<B>)
    ensures |r| == |xs|
    ensures forall i :: 0 <= i < |xs| ==> r[i] == f(xs[i])
  {
    seq(|xs|, i requires 0 <= i < |xs| => f(xs[i]))
  }

  /** Milliseconds in one day, as the source writes `24 * 60 * 60 * 1000`. */
  const MsPerDay: int := 24 * 60 * 60 * 1000
  const MsPerHour: int := 60 * 60 * 1000
  const MsPerMinute: int := 60 * 1000

  function Abs(x: int): (r: nat)
    ensures r == x || r == -x
  {
    if x < 0 then -x else x
  }
}
