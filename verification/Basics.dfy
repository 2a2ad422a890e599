/** What several modules share. */
module Basics {

  datatype Option<T> = None | Some(value: T)

  datatype Result<T> = Ok(value: T) | Err(error: string)

  ghost predicate NoRepeats<T>(s: seq<T>) {
    forall i, j | 0 <= i < j < |s| :: s[i] != s[j]
  }

  /** Different numbers below n are at most n. */
  lemma {:induction false} DistinctBelow(s: seq<nat>, n: nat)
    requires NoRepeats(s) && forall i | 0 <= i < |s| :: s[i] < n
    ensures |s| <= n
  {
    if s == [] {
    } else if exists i :: 0 <= i < |s| && s[i] == n - 1 {
      var i :| 0 <= i < |s| && s[i] == n - 1;
      var rest := s[..i] + s[i + 1..];
      forall x, y | 0 <= x < y < |rest| ensures rest[x] != rest[y] {
        assert rest[x] == s[if x < i then x else x + 1] && rest[y] == s[if y < i then y else y + 1];
      }
      DistinctBelow(rest, n - 1);
    } else {
      assert s[0] < n;
      DistinctBelow(s, n - 1);
    }
  }
}
