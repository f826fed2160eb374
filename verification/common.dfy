/** Types shared by every module of the model. */
module Common {

  datatype Option<+T> = None | Some(value: T)

  datatype Result<+T, +E> = Success(value: T) | Failure(error: E)

  /** A UUID, read as the 128-bit number its bytes spell: PostgreSQL compares UUIDs byte by byte. */
  type Uuid = nat

  type byte = n: nat | n < 256

  function Min(a: int, b: int): int {
    if a <= b then a else b
  }

  function Max(a: int, b: int): int {
    if a >= b then a else b
  }

  /** GetFeedUseCase brings every page size it is given into 1..50. The message query takes it as it comes. */
  function ClampPageSize(size: int): (n: nat)
    ensures 1 <= n <= 50
    ensures if size < 1 then n == 1 else if size > 50 then n == 50 else n == size
  {
    Min(Max(size, 1), 50)
  }

  function SetOf<T>(s: seq<T>): set<T> {
    set x | x in s
  }

  /** What a use case reports: nothing, or the exception it raised. */
  function ErrorOf<T, E>(r: Result<T, E>): Option<E> {
    match r
    case Success(_) => None
    case Failure(e) => Some(e)
  }

  lemma SubsetSize<T>(s: set<T>, t: set<T>)
    requires s <= t
    ensures |s| <= |t| && (|s| == |t| <==> s == t)
  {
    assert t == s + (t - s);
  }
}
