/**
 * The JavaScript array operations that the containment value managers apply to
 * their `children` array: `splice` (insert one, remove one) and `findIndex` by
 * identity.
 */
module Splices {

  /** `s.splice(i, 0, x)`: `x` inserted before position `i`. */
  function InsertAt<T>(s: seq<T>, i: nat, x: T): seq<T>
    requires i <= |s|
  {
    s[..i] + [x] + s[i..]
  }

  /** `s.splice(i, 1)`: the element at position `i` taken out. */
  function RemoveAt<T>(s: seq<T>, i: nat): seq<T>
    requires i < |s|
  {
    s[..i] + s[i + 1..]
  }

  /**
   * The two splices of `moveDirectly`: take out the element at `o`, then put it
   * back before position `n` of what is left.
   */
  function Moved<T>(s: seq<T>, o: nat, n: nat): seq<T>
    requires o < |s| && n < |s|
  {
    InsertAt(RemoveAt(s, o), n, s[o])
  }

  /** No element occurs at two positions. */
  predicate NoDuplicates<T(==)>(s: seq<T>) {
    forall i, j | 0 <= i < j < |s| :: s[i] != s[j]
  }

  /** `s.findIndex(e => e === x)`: the first position of `x`, or -1. */
  function FindIndex<T(==)>(s: seq<T>, x: T): (r: int)
    ensures -1 <= r < |s|
    ensures r == -1 <==> x !in s
    ensures 0 <= r ==> s[r] == x && x !in s[..r]
  {
    if |s| == 0 then -1
    else if s[0] == x then 0
    else
      var r := FindIndex(s[1..], x);
      assert s == [s[0]] + s[1..];
      if r == -1 then -1
      else
        assert s[..r + 1] == [s[0]] + s[1..][..r];
        r + 1
  }

  /** In a list without duplicates the first occurrence is the only one. */
  lemma FindIndexUnique<T>(s: seq<T>, i: nat)
    requires NoDuplicates(s) && i < |s|
    ensures FindIndex(s, s[i]) == i
  {
  }

  /**
   * What `splice(i, 0, x)` does to the contents: everything before `i` stays,
   * `x` is at `i`, everything from `i` on moves one place to the right.
   */
  lemma InsertAtContents<T>(s: seq<T>, i: nat, x: T)
    requires i <= |s|
    ensures var r := InsertAt(s, i, x);
      && |r| == |s| + 1
      && r[i] == x
      && (forall j | 0 <= j < i :: r[j] == s[j])
      && (forall j | i < j < |r| :: r[j] == s[j - 1])
      && multiset(r) == multiset(s) + multiset{x}
  {
    calc {
      multiset(InsertAt(s, i, x));
      multiset(s[..i]) + multiset{x} + multiset(s[i..]);
      { assert s == s[..i] + s[i..]; }
      multiset(s) + multiset{x};
    }
  }

  /**
   * What `splice(i, 1)` does to the contents: everything before `i` stays,
   * everything after `i` moves one place to the left.
   */
  lemma RemoveAtContents<T>(s: seq<T>, i: nat)
    requires i < |s|
    ensures var r := RemoveAt(s, i);
      && |r| == |s| - 1
      && (forall j | 0 <= j < i :: r[j] == s[j])
      && (forall j | i <= j < |r| :: r[j] == s[j + 1])
      && multiset(r) == multiset(s) - multiset{s[i]}
  {
    assert s == s[..i] + [s[i]] + s[i + 1..];
  }

  lemma InsertAtNoDuplicates<T>(s: seq<T>, i: nat, x: T)
    requires i <= |s| && NoDuplicates(s) && x !in s
    ensures NoDuplicates(InsertAt(s, i, x))
    ensures forall y :: y in InsertAt(s, i, x) <==> y in s || y == x
  {
    InsertAtContents(s, i, x);
    var r := InsertAt(s, i, x);
    forall a, b | 0 <= a < b < |r| ensures r[a] != r[b] {
      if a < i && b > i {
        assert r[b] == s[b - 1];
      } else if a == i {
        assert r[b] == s[b - 1];
      } else if b == i {
        assert r[a] == s[a];
      }
    }
    forall y ensures y in r <==> y in s || y == x {
      assert y in multiset(r) <==> y in multiset(s) || y == x;
    }
  }

  lemma RemoveAtNoDuplicates<T>(s: seq<T>, i: nat)
    requires i < |s| && NoDuplicates(s)
    ensures NoDuplicates(RemoveAt(s, i))
    ensures forall y :: y in RemoveAt(s, i) <==> y in s && y != s[i]
  {
    RemoveAtContents(s, i);
    var r := RemoveAt(s, i);
    forall a, b | 0 <= a < b < |r| ensures r[a] != r[b] {
      var a' := if a < i then a else a + 1;
      var b' := if b < i then b else b + 1;
      assert r[a] == s[a'] && r[b] == s[b'];
    }
    forall y ensures y in r <==> y in s && y != s[i] {
      if y in s && y != s[i] {
        var j :| 0 <= j < |s| && s[j] == y;
        assert j != i;
        assert r[if j < i then j else j - 1] == y;
      }
      if y in r {
        var j :| 0 <= j < |r| && r[j] == y;
        var j' := if j < i then j else j + 1;
        assert s[j'] == y && j' != i;
      }
    }
  }

  /**
   * `moveDirectly(o, n)` keeps the length and the multiset of the list, puts the
   * element formerly at `o` at `n`, and shifts the elements between by one.
   */
  lemma {:induction false} MovedContents<T>(s: seq<T>, o: nat, n: nat)
    requires o < |s| && n < |s|
    ensures var r := Moved(s, o, n);
      && |r| == |s|
      && r[n] == s[o]
      && multiset(r) == multiset(s)
      && (forall j | 0 <= j < |s| && j < o && j < n :: r[j] == s[j])
      && (forall j | 0 <= j < |s| && j > o && j > n :: r[j] == s[j])
      && (forall j | o <= j < n :: r[j] == s[j + 1])
      && (forall j | n < j <= o :: r[j] == s[j - 1])
  {
    RemoveAtContents(s, o);
    InsertAtContents(RemoveAt(s, o), n, s[o]);
    assert s[o] in multiset(s);
  }

  lemma MovedNoDuplicates<T>(s: seq<T>, o: nat, n: nat)
    requires o < |s| && n < |s| && NoDuplicates(s)
    ensures NoDuplicates(Moved(s, o, n))
    ensures forall y :: y in Moved(s, o, n) <==> y in s
  {
    RemoveAtNoDuplicates(s, o);
    InsertAtNoDuplicates(RemoveAt(s, o), n, s[o]);
  }
}
