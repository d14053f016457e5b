/** Array operations of JavaScript used by the handlers and the client:
    `indexOf`, `splice(index, 1)` and `push`, plus duplicate-freedom. */
module Lists {

  predicate NoDuplicates<T(==)>(s: seq<T>) {
    forall i, j :: 0 <= i < j < |s| ==> s[i] != s[j]
  }

  /** `indexOf`: the position of the first occurrence of `x`, or -1. */
  function IndexOf<T(==)>(s: seq<T>, x: T): (i: int)
    ensures -1 <= i < |s|
    ensures i == -1 <==> x !in s
    ensures i >= 0 ==> s[i] == x && x !in s[..i]
  {
    if |s| == 0 then -1
    else if s[0] == x then 0
    else
      var j := IndexOf(s[1..], x);
      if j == -1 then -1 else j + 1
  }

  /** The position `splice` starts at for a start argument `index`: counted
      from the end when negative, clamped to `[0, |s|]`. */
  function SpliceStart<T>(s: seq<T>, index: int): (k: nat)
    ensures k <= |s|
    ensures 0 <= index <= |s| ==> k == index
  {
    if index < 0 then (if |s| + index < 0 then 0 else |s| + index)
    else if index > |s| then |s|
    else index
  }

  /** `s.splice(index, 1)`: removes the one element at the start position, if
      there is one, and keeps the others in order. */
  function SpliceOne<T>(s: seq<T>, index: int): (r: seq<T>)
    ensures var k := SpliceStart(s, index);
      && (k == |s| ==> r == s)
      && (k < |s| ==> |r| == |s| - 1
                      && (forall j :: 0 <= j < k ==> r[j] == s[j])
                      && (forall j :: k <= j < |r| ==> r[j] == s[j + 1]))
  {
    var k := SpliceStart(s, index);
    if k < |s| then s[..k] + s[k + 1..] else s
  }

  /** Removing one element takes exactly that element out of the bag. */
  lemma SpliceOneMultiset<T>(s: seq<T>, k: nat)
    requires k < |s|
    ensures multiset(SpliceOne(s, k)) + multiset{s[k]} == multiset(s)
  {
    assert s == s[..k] + [s[k]] + s[k + 1..];
  }

  lemma {:induction false} SpliceOnePreservesNoDuplicates<T>(s: seq<T>, k: nat)
    requires k < |s|
    requires NoDuplicates(s)
    ensures NoDuplicates(SpliceOne(s, k))
  {
    var r := SpliceOne(s, k);
    forall i, j | 0 <= i < j < |r|
      ensures r[i] != r[j]
    {
      var i' := if i < k then i else i + 1;
      var j' := if j < k then j else j + 1;
      assert r[i] == s[i'] && r[j] == s[j'];
    }
  }

  /** In a duplicate-free list, removing the first occurrence of `x` removes
      every occurrence. */
  lemma RemoveFirstOccurrence<T>(s: seq<T>, x: T)
    requires NoDuplicates(s) && x in s
    ensures x !in SpliceOne(s, IndexOf(s, x))
    ensures NoDuplicates(SpliceOne(s, IndexOf(s, x)))
    ensures |SpliceOne(s, IndexOf(s, x))| == |s| - 1
    ensures multiset(SpliceOne(s, IndexOf(s, x))) == multiset(s) - multiset{x}
  {
    var k := IndexOf(s, x);
    SpliceOnePreservesNoDuplicates(s, k);
    SpliceOneMultiset(s, k);
    var r := SpliceOne(s, k);
    forall j | 0 <= j < |r|
      ensures r[j] != x
    {
      if j < k {
        assert s[..k][j] == r[j];
      } else {
        assert r[j] == s[j + 1] && s[k] == x;
      }
    }
  }

  lemma PushPreservesNoDuplicates<T>(s: seq<T>, x: T)
    requires NoDuplicates(s) && x !in s
    ensures NoDuplicates(s + [x])
  {
  }
}
