/** Machine integers and the two build profiles.

    The repository declares no profile of its own, so Cargo's defaults apply: arithmetic
    that leaves its type panics in a Debug build and wraps in a Release build.  Every
    operation that can leave its type takes the profile as a parameter. */
module Machine {

  const USIZE_LIMIT: int := 0x1_0000_0000_0000_0000
  const I64_MIN: int := -0x8000_0000_0000_0000
  const I64_MAX: int := 0x7fff_ffff_ffff_ffff

  type Usize = n: nat | n < 0x1_0000_0000_0000_0000
  type I64 = i: int | -0x8000_0000_0000_0000 <= i <= 0x7fff_ffff_ffff_ffff

  /** A length of something held in memory: Rust bounds every allocation by isize::MAX. */
  type Length = n: nat | n <= 0x7fff_ffff_ffff_ffff

  datatype Profile = Debug | Release

  datatype Option<+T> = None | Some(value: T)

  /** What a call does: it returns, or it unwinds. */
  datatype Outcome<+T> = Done(value: T) | Panic

  /** `n as usize` after wrap-around. */
  function WrapUsize(n: int): Usize {
    n % 0x1_0000_0000_0000_0000
  }

  function WrapI64(n: int): I64 {
    var m := n % 0x1_0000_0000_0000_0000;
    if m > I64_MAX then m - 0x1_0000_0000_0000_0000 else m
  }

  /** Arithmetic on usize whose exact result is `n`. */
  function UsizeResult(p: Profile, n: int): Outcome<Usize> {
    if 0 <= n < USIZE_LIMIT then Done(n)
    else if p.Debug? then Panic
    else Done(WrapUsize(n))
  }

  /** Arithmetic on i64 whose exact result is `n`. */
  function I64Result(p: Profile, n: int): Outcome<I64> {
    if I64_MIN <= n <= I64_MAX then Done(n)
    else if p.Debug? then Panic
    else Done(WrapI64(n))
  }

  function SaturatingSub(a: nat, b: nat): nat {
    if a >= b then a - b else 0
  }

  /** Wrapping leaves the remainder modulo 2^64 as it was, and numbers in range altogether. */
  lemma WrapMeaning(n: int)
    ensures (n - WrapUsize(n)) % 0x1_0000_0000_0000_0000 == 0 == (n - WrapI64(n)) % 0x1_0000_0000_0000_0000
    ensures 0 <= n < USIZE_LIMIT ==> WrapUsize(n) == n
    ensures I64_MIN <= n <= I64_MAX ==> WrapI64(n) == n
  {
  }
}
