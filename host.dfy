/**
 * The program's fixed settings and the parts of the JavaScript runtime that
 * the model keeps abstract: Math.sqrt, Math.pow and Number.parseFloat.
 */
module Host {
  import opened Wrappers

  /** The `settings` object; nothing in the program assigns to it. */
  const MaxResults: nat := 10
  const MinOverlap: nat := 2
  const CoverageExponent: real := 0.5

  /**
   * The runtime's numeric library, as functions the model does not interpret.
   * `parseFloat` returns None where the program sees NaN or a non-finite value
   * (Number.parseFloat followed by the Number.isFinite test).
   */
  datatype Platform = Platform(
    sqrt: real -> real,
    pow: (real, real) -> real,
    parseFloat: string -> Option<real>)

  /** The only facts the model uses about the runtime's numerics. */
  ghost predicate Sound(p: Platform)
  {
    && (forall x: real :: x > 0.0 ==> p.sqrt(x) > 0.0)
    && (forall x: real, e: real :: x >= 0.0 ==> p.pow(x, e) >= 0.0)
    && p.parseFloat("") == None
  }

  type Runtime = p: Platform | Sound(p)
    witness Platform(x => x, (x, e) => x, s => None)
}
