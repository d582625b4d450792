/** Small value wrappers shared by every module of the model. */
module Common {

  /** A value that may be missing: JavaScript's `null` / `undefined`. */
  datatype Option<+T> = None | Some(value: T) {
    function GetOr(default: T): T {
      match this
      case Some(v) => v
      case None => default
    }
  }

  /** The outcome of an operation that can throw. */
  datatype Result<+T, +E> = Ok(value: T) | Err(error: E)

  /** One octet: an element of a `Uint8Array`. */
  type Byte = x: int | 0 <= x < 256

  /** A sequence without repeated elements. */
  ghost predicate NoDup<T>(s: seq<T>) {
    forall i, j | 0 <= i < j < |s| :: s[i] != s[j]
  }

  /** `s` begins with `prefix`. */
  predicate StartsWith(s: string, prefix: string) {
    |prefix| <= |s| && s[..|prefix|] == prefix
  }

  /** `s` ends with `suffix`. */
  predicate EndsWith(s: string, suffix: string) {
    |suffix| <= |s| && s[|s| - |suffix|..] == suffix
  }

  /** JavaScript's `String(n)` for an integer: its decimal notation. */
  function IntToString(n: int): (s: string)
    ensures |s| > 0
  {
    if n < 0 then "-" + NatToString(-n) else NatToString(n)
  }

  function NatToString(n: nat): (s: string)
    ensures |s| > 0
  {
    var d := [(48 + n % 10) as char];
    if n < 10 then d else NatToString(n / 10) + d
  }

  /** `String(0)` is "0". */
  lemma ZeroString()
    ensures IntToString(0) == "0"
  {
  }

  /** JavaScript's `b.toString()` for a boolean. */
  function BoolToString(b: bool): string {
    if b then "true" else "false"
  }

  /** Removes `x` from `s`, keeping the order of the rest. */
  function Without(s: seq<string>, x: string): (r: seq<string>)
    ensures x !in r
    ensures forall y :: y in r <==> y in s && y != x
    ensures |r| <= |s|
  {
    if s == [] then []
    else if s[0] == x then Without(s[1..], x)
    else [s[0]] + Without(s[1..], x)
  }

  /** `Math.floor(r * n)`: an index drawn with `Math.random()` = r. */
  function Pick(rnd: real, n: nat): (i: nat)
    requires 0.0 <= rnd < 1.0 && n > 0
    ensures i < n
  {
    var x := rnd * n as real;
    assert x < n as real by {
      assert n as real - x == (1.0 - rnd) * n as real;
    }
    x.Floor
  }
}
