/** Putting items into sequences and taking them out; sequences without repetition. */
module SeqSets {

  ghost predicate NoDup<T>(s: seq<T>) {
    forall i, j :: 0 <= i < j < |s| ==> s[i] != s[j]
  }

  /** Where `x` stands. */
  function Index<T(==)>(s: seq<T>, x: T): (k: nat)
    requires x in s
    ensures k < |s| && s[k] == x
  {
    if s[0] == x then 0 else 1 + Index(s[1..], x)
  }

  function DropAt<T>(s: seq<T>, k: nat): (t: seq<T>)
    requires k < |s|
    ensures |t| == |s| - 1 && forall i {:trigger t[i]} :: 0 <= i < |t| ==> t[i] == s[if i < k then i else i + 1]
  {
    s[..k] + s[k + 1..]
  }

  function PutAt<T>(s: seq<T>, p: nat, x: T): (t: seq<T>)
    requires p <= |s|
    ensures |t| == |s| + 1
    ensures forall i {:trigger t[i]} :: 0 <= i < |t| ==>
      t[i] == if i < p then s[i] else if i == p then x else s[i - 1]
  {
    s[..p] + [x] + s[p..]
  }

  lemma PutThenDrop<T>(s: seq<T>, p: nat, x: T)
    requires p <= |s|
    ensures DropAt(PutAt(s, p, x), p) == s
  {
  }

  lemma PutSet<T>(s: seq<T>, p: nat, x: T)
    requires p <= |s| && NoDup(s) && x !in s
    ensures NoDup(PutAt(s, p, x))
    ensures forall y :: y in PutAt(s, p, x) <==> y in s || y == x
  {
    var t := PutAt(s, p, x);
    forall i, j | 0 <= i < j < |t| ensures t[i] != t[j] {
      assert i != p ==> t[i] == s[if i < p then i else i - 1];
      assert j != p ==> t[j] == s[if j < p then j else j - 1];
    }
    assert t[p] == x;
    assert s == s[..p] + s[p..];
  }

  lemma DropSet<T>(s: seq<T>, k: nat)
    requires k < |s| && NoDup(s)
    ensures NoDup(DropAt(s, k))
    ensures forall y :: y in DropAt(s, k) <==> y in s && y != s[k]
  {
    var t := DropAt(s, k);
    forall i, j | 0 <= i < j < |t| ensures t[i] != t[j] {
      assert t[i] == s[if i < k then i else i + 1] && t[j] == s[if j < k then j else j + 1];
    }
    forall y ensures y in t <==> y in s && y != s[k] {
      if y in s && y != s[k] {
        var i := Index(s, y);
        assert t[if i < k then i else i - 1] == y;
      }
      if y in t {
        var i := Index(t, y);
        assert t[i] == s[if i < k then i else i + 1];
      }
    }
  }
}
