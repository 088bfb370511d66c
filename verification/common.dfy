/** Machine-width integer types and the failure-carrying wrappers shared by the
    whole model. */
module Common {

  /** A C `uint8_t`. */
  type byte = x: int | 0 <= x < 0x100

  /** A C `uint32_t`. */
  type uint32 = x: int | 0 <= x < 0x1_0000_0000

  /** A C `int` on the 32-bit target. */
  type int32 = x: int | -0x8000_0000 <= x < 0x8000_0000

  datatype Option<+T> = None | Some(value: T)

  datatype Result<+R, +E> = Success(value: R) | Failure(error: E)

  /** The last element of a non-empty sequence. */
  function Last<T>(s: seq<T>): T
    requires |s| > 0
  {
    s[|s| - 1]
  }

  /** No element occurs twice. */
  predicate NoDuplicates<T(==)>(s: seq<T>) {
    forall i, j | 0 <= i < j < |s| :: s[i] != s[j]
  }

  /** The elements of a sequence, as a set. */
  function Elements<T>(s: seq<T>): set<T> {
    set x | x in s
  }

  /** A duplicate-free sequence has as many elements as the set of its elements. */
  lemma {:induction false} NoDuplicatesCardinality<T>(s: seq<T>)
    requires NoDuplicates(s)
    ensures |Elements(s)| == |s|
  {
    if s != [] {
      var tail := s[1..];
      assert NoDuplicates(tail) by {
        forall i, j | 0 <= i < j < |tail| ensures tail[i] != tail[j] {
          assert tail[i] == s[i + 1] && tail[j] == s[j + 1];
        }
      }
      NoDuplicatesCardinality(tail);
      assert s[0] !in tail by {
        forall i | 0 <= i < |tail| ensures tail[i] != s[0] {
          assert tail[i] == s[i + 1];
        }
      }
      assert Elements(s) == {s[0]} + Elements(tail) by {
        assert s == [s[0]] + tail;
      }
    }
  }

  /** The elements among the first `n` of `s` that `keep` accepts, in order. */
  function FilterUpTo<T>(s: seq<T>, n: nat, keep: T -> bool): (r: seq<T>)
    requires n <= |s|
    ensures |r| <= n
  {
    if n == 0 then []
    else FilterUpTo(s, n - 1, keep) + (if keep(s[n - 1]) then [s[n - 1]] else [])
  }

  /** Only accepted elements of `s` are kept. */
  lemma {:induction false} FilterUpToSound<T>(s: seq<T>, n: nat, keep: T -> bool)
    requires n <= |s|
    ensures forall x | x in FilterUpTo(s, n, keep) :: x in s && keep(x)
  {
    if n > 0 {
      FilterUpToSound(s, n - 1, keep);
    }
  }

  /** Every accepted element among the first `n` is kept. */
  lemma {:induction false} FilterUpToComplete<T>(s: seq<T>, n: nat, keep: T -> bool)
    requires n <= |s|
    ensures forall j | 0 <= j < n && keep(s[j]) :: s[j] in FilterUpTo(s, n, keep)
  {
    if n > 0 {
      FilterUpToComplete(s, n - 1, keep);
    }
  }
}
