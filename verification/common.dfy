/** Small value types shared by every module: the optional value a lookup
    returns (Kotlin's nullable result) and the outcome of an operation that
    may throw (the exception becomes an error message). */
module Common {

  datatype Option<+T> = None | Some(value: T)

  datatype Result<+T> = Ok(value: T) | Err(error: string)

  /** No element occurs twice. */
  predicate Distinct<T(==)>(s: seq<T>)
  {
    forall i, j :: 0 <= i < j < |s| ==> s[i] != s[j]
  }

  /** `part` occurs somewhere inside `whole`. */
  ghost predicate IsInfix<T>(part: seq<T>, whole: seq<T>)
  {
    exists k :: InfixAt(part, whole, k)
  }

  /** `part` occurs inside `whole` at index `k`. */
  predicate InfixAt<T(==)>(part: seq<T>, whole: seq<T>, k: int)
  {
    0 <= k <= |whole| - |part| && whole[k..k + |part|] == part
  }

  lemma InfixOfConcat<T>(pre: seq<T>, part: seq<T>, post: seq<T>)
    ensures IsInfix(part, pre + part + post)
  {
    var whole := pre + part + post;
    assert whole[|pre|..|pre| + |part|] == part;
    assert InfixAt(part, whole, |pre|);
  }

  lemma InfixGrows<T>(part: seq<T>, mid: seq<T>, pre: seq<T>, post: seq<T>)
    requires IsInfix(part, mid)
    ensures IsInfix(part, pre + mid + post)
  {
    var k :| InfixAt(part, mid, k);
    var whole := pre + mid + post;
    assert whole[|pre| + k..|pre| + k + |part|] == mid[k..k + |part|];
    assert InfixAt(part, whole, |pre| + k);
  }

  /** A slice of `s` occurs in anything built around a larger slice of `s`. */
  lemma InfixOfSlice<T>(s: seq<T>, start: nat, p: nat, q: nat, e: nat, pre: seq<T>, post: seq<T>)
    requires start <= p <= q <= e <= |s|
    ensures IsInfix(s[p..q], pre + s[start..e] + post)
  {
    assert s[start..e] == s[start..p] + s[p..q] + s[q..e];
    InfixOfConcat(s[start..p], s[p..q], s[q..e]);
    InfixGrows(s[p..q], s[start..e], pre, post);
  }

  /** A duplicate-free sequence drawn from a finite set is no longer than the set. */
  lemma {:induction false} DistinctBound<T>(s: seq<T>, universe: set<T>)
    requires Distinct(s)
    requires forall x :: x in s ==> x in universe
    ensures |s| <= |universe|
    decreases |s|
  {
    if s != [] {
      var last := s[|s| - 1];
      var rest := s[..|s| - 1];
      assert Distinct(rest);
      assert forall x :: x in rest ==> x in universe - {last} by {
        forall x | x in rest ensures x in universe - {last} {
          var i :| 0 <= i < |rest| && rest[i] == x;
          assert s[i] == x && i < |s| - 1;
        }
      }
      DistinctBound(rest, universe - {last});
    }
  }

  lemma AppendAssoc<T>(a: seq<T>, b: seq<T>, c: seq<T>)
    ensures a + (b + c) == a + b + c
  {
  }

  /** The parts separated by `sep`, as `joinToString(sep)` lays them out. */
  function JoinWith(sep: string, parts: seq<string>): string
    decreases |parts|
  {
    if parts == [] then "" else if |parts| == 1 then parts[0] else parts[0] + sep + JoinWith(sep, parts[1..])
  }

  /** Joining one more part adds the separator and the part at the end. */
  lemma {:induction false} JoinWithSnoc(sep: string, parts: seq<string>, last: string)
    requires parts != []
    ensures JoinWith(sep, parts + [last]) == JoinWith(sep, parts) + sep + last
    decreases |parts|
  {
    if |parts| > 1 {
      JoinWithSnoc(sep, parts[1..], last);
      assert (parts + [last])[1..] == parts[1..] + [last];
    }
  }

  /** The first line of both engines' cycle reports. */
  const CycleHeader := "can not create custom Gradle distribution - detected a cyclic text expansion sequence:\n"

  /** What links two entries of a cycle report. */
  const ChainLink := "\n  |\n"

  /** Three parts joined. */
  lemma JoinWithThree(sep: string, parts: seq<string>)
    requires |parts| == 3
    ensures JoinWith(sep, parts) == parts[0] + sep + parts[1] + sep + parts[2]
  {
    var tail := parts[1..];
    assert tail[1..] == [parts[2]];
    assert JoinWith(sep, tail[1..]) == parts[2];
    assert JoinWith(sep, tail) == parts[1] + sep + parts[2];
    assert JoinWith(sep, parts) == parts[0] + sep + (parts[1] + sep + parts[2]);
  }

  /** The first `i + 1` parts joined: the first `i` joined, then the separator
      and the next part. */
  lemma JoinWithPrefix(sep: string, parts: seq<string>, i: nat)
    requires i < |parts|
    ensures JoinWith(sep, parts[..i + 1]) == if i == 0 then parts[0] else JoinWith(sep, parts[..i]) + sep + parts[i]
  {
    assert parts[..i + 1] == parts[..i] + [parts[i]];
    if i > 0 {
      JoinWithSnoc(sep, parts[..i], parts[i]);
    }
  }
}
