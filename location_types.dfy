/** Values shared by the location coordinator: position samples, optional values,
    results, and the first-match search that Swift's `indexOf` performs. */
module LocationTypes {

  datatype Option<+T> = None | Some(value: T) {
    function GetOr(default: T): T {
      match this
      case Some(v) => v
      case None => default
    }
  }

  datatype Result<+T, +E> = Success(value: T) | Failure(error: E)

  /** One reading of the position provider (a `CLLocation`). Accuracies are
      radii in metres (smaller is better); `timestamp` is in seconds. */
  datatype Location = Location(
    latitude: real,
    longitude: real,
    horizontalAccuracy: real,
    verticalAccuracy: real,
    timestamp: real)

  /** The index of the first element of `s` equal to `x`, or None when there is none. */
  function IndexOf<T(==)>(s: seq<T>, x: T): (r: Option<nat>)
    ensures r.Some? ==> r.value < |s| && s[r.value] == x && x !in s[..r.value]
    ensures r.None? <==> x !in s
  {
    if s == [] then None
    else if s[0] == x then Some(0)
    else
      match IndexOf(s[1..], x)
      case None => None
      case Some(k) =>
        assert s[1..][..k] == s[1..k + 1];
        Some(k + 1)
  }

  /** Reference definition of "remove the first occurrence of `x`", as an
      independent recursion over the sequence. */
  function RemoveFirst<T(==)>(s: seq<T>, x: T): seq<T>
  {
    if s == [] then []
    else if s[0] == x then s[1..]
    else [s[0]] + RemoveFirst(s[1..], x)
  }

  /** Cutting out the first occurrence of `x`, found at `k`, is removing it. */
  lemma {:induction false} RemoveAtFirst<T>(s: seq<T>, x: T, k: nat)
    requires k < |s| && s[k] == x && x !in s[..k]
    ensures s[..k] + s[k + 1..] == RemoveFirst(s, x)
  {
    if k == 0 {
      assert s[..0] + s[1..] == s[1..];
    } else {
      assert s[0] == s[..k][0];
      var t := s[1..];
      assert t[..k - 1] == s[1..k];
      RemoveAtFirst(t, x, k - 1);
      assert s[..k] == [s[0]] + t[..k - 1];
      assert s[k + 1..] == t[k..];
      assert s[..k] + s[k + 1..] == [s[0]] + (t[..k - 1] + t[k..]);
    }
  }

  /** Removing at the index `IndexOf` finds is removing the first occurrence. */
  lemma RemoveAtIndexOf<T>(s: seq<T>, x: T)
    requires IndexOf(s, x).Some?
    ensures var k := IndexOf(s, x).value; s[..k] + s[k + 1..] == RemoveFirst(s, x)
  {
    RemoveAtFirst(s, x, IndexOf(s, x).value);
  }

  /** Removing an absent element changes nothing. */
  lemma {:induction false} RemoveFirstAbsent<T>(s: seq<T>, x: T)
    requires x !in s
    ensures RemoveFirst(s, x) == s
  {
    if s != [] {
      RemoveFirstAbsent(s[1..], x);
    }
  }

  /** Removing a present element takes exactly one copy of it out. */
  lemma {:induction false} RemoveFirstPresent<T>(s: seq<T>, x: T)
    requires x in s
    ensures multiset(RemoveFirst(s, x)) == multiset(s) - multiset{x}
    ensures |RemoveFirst(s, x)| == |s| - 1
  {
    assert s == [s[0]] + s[1..];
    if s[0] != x {
      RemoveFirstPresent(s[1..], x);
    }
  }

  /** Everything before the first occurrence of `x` keeps its place. */
  lemma {:induction false} RemoveFirstKeepsPrefix<T>(s: seq<T>, x: T, i: nat)
    requires i < |s| && x !in s[..i + 1]
    ensures i < |RemoveFirst(s, x)| && RemoveFirst(s, x)[i] == s[i]
  {
    assert s[0] == s[..i + 1][0];
    if i > 0 {
      assert s[1..][..i] == s[1..i + 1];
      RemoveFirstKeepsPrefix(s[1..], x, i - 1);
    }
  }
}
