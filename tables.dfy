/** A collection of documents as an in-memory table in natural (insertion) order, and the
    queries the handlers issue against it: `findOne`, `countDocuments` and `deleteMany`. */
module Tables {

  /** The position of the document `findOne(filter)` returns: the first one in natural order
      that matches, or |s| when none does. */
  function FirstIndex<T>(s: seq<T>, p: T -> bool): (i: nat)
    ensures i <= |s|
    ensures i < |s| ==> p(s[i])
    ensures forall j :: 0 <= j < i ==> !p(s[j])
  {
    if |s| == 0 then 0
    else if p(s[0]) then 0
    else 1 + FirstIndex(s[1..], p)
  }

  /** Whether some document matches. */
  predicate Any<T>(s: seq<T>, p: T -> bool) {
    exists j :: 0 <= j < |s| && p(s[j])
  }

  /** `countDocuments(filter)`. */
  function Count<T>(s: seq<T>, p: T -> bool): (n: nat)
    ensures n <= |s|
    ensures n == 0 <==> !Any(s, p)
  {
    if |s| == 0 then 0
    else (if p(s[0]) then 1 else 0) + Count(s[1..], p)
  }

  /** `deleteMany(filter)`: the documents that do not match, in their order. */
  function DeleteMany<T(!new)>(s: seq<T>, p: T -> bool): (r: seq<T>)
    ensures forall x :: x in r <==> x in s && !p(x)
    ensures |r| + Count(s, p) == |s|
  {
    if |s| == 0 then []
    else if p(s[0]) then DeleteMany(s[1..], p)
    else [s[0]] + DeleteMany(s[1..], p)
  }

  /** deleteMany removes every copy of a matching document and keeps every copy of the
      others, so it is exact also on a table holding equal documents. */
  lemma {:induction false} DeleteManyMultiset<T(!new)>(s: seq<T>, p: T -> bool)
    ensures forall x :: multiset(DeleteMany(s, p))[x] == if p(x) then 0 else multiset(s)[x]
  {
    if |s| > 0 {
      DeleteManyMultiset(s[1..], p);
      assert s == [s[0]] + s[1..];
    }
  }

  /** The table after the document at position i is removed (`findOneAndDelete`). */
  function RemoveAt<T>(s: seq<T>, i: nat): (r: seq<T>)
    requires i < |s|
    ensures |r| == |s| - 1
    ensures forall j :: 0 <= j < i ==> r[j] == s[j]
    ensures forall j :: i <= j < |r| ==> r[j] == s[j + 1]
  {
    s[..i] + s[i + 1..]
  }

  /** findOne finds something exactly when something matches. */
  lemma FirstIndexFinds<T>(s: seq<T>, p: T -> bool)
    ensures FirstIndex(s, p) < |s| <==> Any(s, p)
  {
  }

  /** Appending one document adds one to the count of its filter class when it matches. */
  lemma {:induction false} CountAppend<T>(s: seq<T>, x: T, p: T -> bool)
    ensures Count(s + [x], p) == Count(s, p) + (if p(x) then 1 else 0)
  {
    if |s| == 0 {
      assert s + [x] == [x];
    } else {
      assert (s + [x])[1..] == s[1..] + [x];
      CountAppend(s[1..], x, p);
    }
  }

  /** Overwriting a document with one that agrees on the filter keeps the count. */
  lemma {:induction false} CountUpdate<T>(s: seq<T>, i: nat, x: T, p: T -> bool)
    requires i < |s|
    requires p(x) == p(s[i])
    ensures Count(s[i := x], p) == Count(s, p)
  {
    if i > 0 {
      assert s[i := x][1..] == s[1..][i - 1 := x];
      CountUpdate(s[1..], i - 1, x, p);
    } else {
      assert s[i := x][1..] == s[1..];
    }
  }

  /** findOne is unaffected by overwriting a document with one that agrees on the filter. */
  lemma FirstIndexAfterUpdate<T>(s: seq<T>, i: nat, x: T, p: T -> bool)
    requires i < |s|
    requires p(x) == p(s[i])
    ensures FirstIndex(s[i := x], p) == FirstIndex(s, p)
  {
    assert forall j :: 0 <= j < |s| ==> p(s[i := x][j]) == p(s[j]);
  }

  /** findOne after an insert: the old answer if there was one, else the new document when
      it matches. */
  lemma FirstIndexAfterAppend<T>(s: seq<T>, x: T, p: T -> bool)
    ensures FirstIndex(s + [x], p)
         == if FirstIndex(s, p) < |s| then FirstIndex(s, p) else if p(x) then |s| else |s| + 1
  {
    assert forall j :: 0 <= j < |s| ==> (s + [x])[j] == s[j];
    assert (s + [x])[|s|] == x;
  }

  /** Two filters that agree on every document find the same one. */
  lemma FirstIndexSameFilter<T>(s: seq<T>, p: T -> bool, q: T -> bool)
    requires forall j :: 0 <= j < |s| ==> p(s[j]) == q(s[j])
    ensures FirstIndex(s, p) == FirstIndex(s, q)
  {
  }

  // ---------------------------------------------------------------- unique indexes

  /** A unique index: no two documents share a key. */
  predicate UniqueKeys<T, K(==)>(s: seq<T>, key: T -> K) {
    forall i, j :: 0 <= i < j < |s| ==> key(s[i]) != key(s[j])
  }

  /** Inserting a document whose key is new keeps the index unique. */
  lemma UniqueKeysAppend<T, K>(s: seq<T>, x: T, key: T -> K)
    requires UniqueKeys(s, key)
    requires forall i :: 0 <= i < |s| ==> key(s[i]) != key(x)
    ensures UniqueKeys(s + [x], key)
  {
    assert forall i :: 0 <= i < |s| ==> (s + [x])[i] == s[i];
  }

  /** Overwriting a document without changing its key keeps the index unique. */
  lemma UniqueKeysUpdate<T, K>(s: seq<T>, i: nat, x: T, key: T -> K)
    requires UniqueKeys(s, key)
    requires i < |s| && key(x) == key(s[i])
    ensures UniqueKeys(s[i := x], key)
  {
    var r := s[i := x];
    assert forall j :: 0 <= j < |s| ==> key(r[j]) == key(s[j]);
  }

  /** Removing a document keeps the index unique. */
  lemma UniqueKeysRemoveAt<T, K>(s: seq<T>, i: nat, key: T -> K)
    requires UniqueKeys(s, key)
    requires i < |s|
    ensures UniqueKeys(RemoveAt(s, i), key)
  {
    var r := RemoveAt(s, i);
    forall a, b | 0 <= a < b < |r|
      ensures key(r[a]) != key(r[b])
    {
      var a', b' := if a < i then a else a + 1, if b < i then b else b + 1;
      assert r[a] == s[a'] && r[b] == s[b'];
    }
  }

  /** Deleting every document that matches a filter keeps the index unique. */
  lemma {:induction false} UniqueKeysDeleteMany<T(!new), K>(s: seq<T>, p: T -> bool, key: T -> K)
    requires UniqueKeys(s, key)
    ensures UniqueKeys(DeleteMany(s, p), key)
  {
    if |s| > 0 {
      assert UniqueKeys(s[1..], key);
      UniqueKeysDeleteMany(s[1..], p, key);
      if !p(s[0]) {
        var rest := DeleteMany(s[1..], p);
        forall y | y in rest
          ensures key(y) != key(s[0])
        {
          var k :| 0 <= k < |s[1..]| && s[1..][k] == y;
          assert s[k + 1] == y;
        }
        assert forall j :: 0 < j < |[s[0]] + rest| ==> ([s[0]] + rest)[j] == rest[j - 1];
      }
    }
  }

  /** A property every document has survives `deleteMany`. */
  lemma DeleteManyKeepsAll<T(!new)>(s: seq<T>, p: T -> bool, q: T -> bool)
    requires forall i :: 0 <= i < |s| ==> q(s[i])
    ensures forall i :: 0 <= i < |DeleteMany(s, p)| ==> q(DeleteMany(s, p)[i])
  {
    var r := DeleteMany(s, p);
    forall i | 0 <= i < |r|
      ensures q(r[i])
    {
      assert r[i] in s;
    }
  }
}
