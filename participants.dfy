/**
 * The participant list of one activity: an ordered sequence of e-mail
 * addresses, and the two list primitives the roster operations use on it,
 * appending at the end and removing the first occurrence of a value
 * (Python's `list.append` and `list.remove`).
 */
module Participants {

  /** A participant list with no address listed twice. */
  ghost predicate NoDuplicates(s: seq<string>)
  {
    forall i, j :: 0 <= i < j < |s| ==> s[i] != s[j]
  }

  /** The position of the first occurrence of `x` in `s`. */
  function FirstIndex(s: seq<string>, x: string): (k: nat)
    requires x in s
    ensures k < |s| && s[k] == x
    ensures x !in s[..k]
  {
    if s[0] == x then 0 else 1 + FirstIndex(s[1..], x)
  }

  /**
   * `list.remove(x)`: the list without its first element equal to `x`.
   * Python raises ValueError when `x` is absent; the one caller checks
   * membership first, so that case is excluded here.
   */
  function RemoveFirst(s: seq<string>, x: string): (r: seq<string>)
    requires x in s
    ensures |r| == |s| - 1
  {
    if s[0] == x then s[1..] else [s[0]] + RemoveFirst(s[1..], x)
  }

  /** `RemoveFirst` takes away one copy of `x` and no other element. */
  lemma {:induction false} RemoveFirstMultiset(s: seq<string>, x: string)
    requires x in s
    ensures multiset(RemoveFirst(s, x)) == multiset(s) - multiset{x}
  {
    assert s == [s[0]] + s[1..];
    if s[0] != x {
      RemoveFirstMultiset(s[1..], x);
    }
  }

  /**
   * `RemoveFirst` deletes exactly the element at `FirstIndex` and keeps
   * everything before and after it in order.
   */
  lemma {:induction false} RemoveFirstAt(s: seq<string>, x: string)
    requires x in s
    ensures FirstIndex(s, x) < |s|
    ensures RemoveFirst(s, x) == s[..FirstIndex(s, x)] + s[FirstIndex(s, x) + 1..]
  {
    if s[0] != x {
      var t := s[1..];
      RemoveFirstAt(t, x);
      var k := FirstIndex(t, x);
      assert FirstIndex(s, x) == k + 1;
      assert [s[0]] + t[..k] == s[..k + 1];
      assert t[k + 1..] == s[k + 2..];
      calc {
        RemoveFirst(s, x);
        [s[0]] + RemoveFirst(t, x);
        [s[0]] + (t[..k] + t[k + 1..]);
        ([s[0]] + t[..k]) + t[k + 1..];
        s[..k + 1] + s[k + 2..];
      }
    }
  }

  /** Removing an address that was just appended gives back the old list. */
  lemma {:induction false} RemoveFirstOfAppended(s: seq<string>, x: string)
    requires x !in s
    ensures x in s + [x]
    ensures RemoveFirst(s + [x], x) == s
  {
    if s != [] {
      assert (s + [x])[1..] == s[1..] + [x];
      RemoveFirstOfAppended(s[1..], x);
      assert [s[0]] + s[1..] == s;
    }
  }

  /** Appending an address not yet listed keeps the list duplicate-free. */
  lemma {:induction false} AppendKeepsNoDuplicates(s: seq<string>, x: string)
    requires NoDuplicates(s) && x !in s
    ensures NoDuplicates(s + [x])
  {
    forall i, j | 0 <= i < j < |s + [x]|
      ensures (s + [x])[i] != (s + [x])[j]
    {
      if j == |s| {
        assert s[i] in s;
      }
    }
  }

  /** A list is duplicate-free exactly when its head is not in its tail and its tail is duplicate-free. */
  lemma NoDuplicatesCons(a: string, t: seq<string>)
    ensures NoDuplicates([a] + t) <==> a !in t && NoDuplicates(t)
  {
    var s := [a] + t;
    if NoDuplicates(s) {
      forall i, j | 0 <= i < j < |t| ensures t[i] != t[j] {
        assert t[i] == s[i + 1] && t[j] == s[j + 1];
      }
      forall j | 0 <= j < |t| ensures t[j] != a {
        assert t[j] == s[j + 1] && a == s[0];
        assert 0 < j + 1 < |s|;
      }
    }
    if a !in t && NoDuplicates(t) {
      forall i, j | 0 <= i < j < |s| ensures s[i] != s[j] {
        if i == 0 {
          assert s[j] == t[j - 1];
        } else {
          assert s[i] == t[i - 1] && s[j] == t[j - 1];
        }
      }
    }
  }

  /**
   * On a duplicate-free list, removing `x` removes its only occurrence:
   * `x` is no longer listed and the rest stays duplicate-free.
   */
  lemma {:induction false} RemoveFirstKeepsNoDuplicates(s: seq<string>, x: string)
    requires NoDuplicates(s) && x in s
    ensures x !in RemoveFirst(s, x)
    ensures NoDuplicates(RemoveFirst(s, x))
  {
    var t := s[1..];
    assert s == [s[0]] + t;
    NoDuplicatesCons(s[0], t);
    if s[0] != x {
      var r := RemoveFirst(t, x);
      RemoveFirstKeepsNoDuplicates(t, x);
      RemoveFirstMultiset(t, x);
      assert s[0] !in multiset(t);
      assert s[0] !in multiset(r);
      NoDuplicatesCons(s[0], r);
    }
  }
}
