/**
 * The Mongoose queries the routes issue, over a collection kept as a
 * sequence in natural (insertion) order: `findOne` and the `findById...`
 * calls act on the first matching document, `find` returns all matches in order.
 */
module Query {
  import opened Wrappers

  /** Position of the first document whose key is `k`. */
  function IndexOf<T, K(==)>(s: seq<T>, key: T -> K, k: K): (r: Option<nat>)
    ensures r.Some? ==> r.value < |s| && key(s[r.value]) == k
    ensures r.Some? ==> forall j :: 0 <= j < r.value ==> key(s[j]) != k
    ensures r.None? <==> forall j :: 0 <= j < |s| ==> key(s[j]) != k
    decreases |s|
  {
    if |s| == 0 then None
    else if key(s[0]) == k then Some(0)
    else match IndexOf(s[1..], key, k)
      case None => None
      case Some(i) => Some(i + 1)
  }

  /** `findOne({ key: k })`: the first document with key `k`, or null. */
  function FindOne<T, K(==)>(s: seq<T>, key: T -> K, k: K): (r: Option<T>)
    ensures r.Some? ==> r.value in s && key(r.value) == k
    ensures r.None? <==> forall x :: x in s ==> key(x) != k
  {
    match IndexOf(s, key, k)
    case None => None
    case Some(i) => Some(s[i])
  }

  /** `find(filter)`: every document the filter accepts, each as often as it occurs. */
  function Filter<T(!new)>(s: seq<T>, p: T -> bool): (r: seq<T>)
    ensures forall x :: multiset(r)[x] == if p(x) then multiset(s)[x] else 0
    ensures forall i :: 0 <= i < |r| ==> p(r[i])
    decreases |s|
  {
    if |s| == 0 then []
    else
      assert s == [s[0]] + s[1..];
      (if p(s[0]) then [s[0]] else []) + Filter(s[1..], p)
  }

  /** `findByIdAndDelete(k)`: drops the first document with key `k` and keeps the rest in order. */
  function DeleteFirst<T(!new), K(==)>(s: seq<T>, key: T -> K, k: K): (r: seq<T>)
    ensures IndexOf(s, key, k).None? ==> r == s
    ensures IndexOf(s, key, k).Some? ==>
      |r| == |s| - 1 && multiset(r) + multiset{s[IndexOf(s, key, k).value]} == multiset(s)
    ensures IndexOf(s, key, k).Some? ==>
      var i := IndexOf(s, key, k).value;
      (forall j :: 0 <= j < i ==> r[j] == s[j]) && (forall j :: i <= j < |r| ==> r[j] == s[j + 1])
    ensures forall x :: key(x) != k ==> multiset(r)[x] == multiset(s)[x]
    ensures forall x :: x in r ==> x in s
  {
    match IndexOf(s, key, k)
    case None => s
    case Some(i) =>
      assert s == s[..i] + [s[i]] + s[i + 1..];
      s[..i] + s[i + 1..]
  }

  /** A number larger than every key in the collection: where a fresh id counter may start. */
  function IdBound<T>(s: seq<T>, key: T -> nat): (b: nat)
    ensures forall i :: 0 <= i < |s| ==> key(s[i]) < b
    decreases |s|
  {
    if |s| == 0 then 0
    else
      var rest := IdBound(s[1..], key);
      assert forall i :: 1 <= i < |s| ==> s[i] == s[1..][i - 1];
      if key(s[0]) < rest then rest else key(s[0]) + 1
  }
}
