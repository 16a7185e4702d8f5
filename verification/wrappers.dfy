/** Small shared vocabulary: optional values, the failures the original
    program can raise, and duplicate-free sequences. */
module Wrappers {

  datatype Option<+T> = None | Some(value: T)

  /** The run-fatal conditions of the original program: a list or weight
      lookup past the end (Python's IndexError), a dictionary lookup of an
      absent key (Python's KeyError) and a division by zero (Python's
      ZeroDivisionError). */
  datatype Failure = IndexOutOfRange | MissingKey | DivisionByZero

  datatype Result<+T> = Ok(value: T) | Err(failure: Failure)

  /** No element occurs twice. */
  ghost predicate NoDup<T>(s: seq<T>) {
    forall i, j :: 0 <= i < j < |s| ==> s[i] != s[j]
  }

  /** The elements of a sequence, as a set. */
  function Elems<T>(s: seq<T>): set<T> {
    set x | x in s
  }

  /** A duplicate-free sequence has as many elements as its set. */
  lemma {:induction false} NoDupCard<T>(s: seq<T>)
    requires NoDup(s)
    ensures |Elems(s)| == |s|
  {
    if |s| > 0 {
      var t := s[..|s| - 1];
      assert NoDup(t);
      NoDupCard(t);
      assert s == t + [s[|s| - 1]];
      assert s[|s| - 1] !in t;
      assert Elems(s) == Elems(t) + {s[|s| - 1]};
    }
  }
}
