/** The key-to-iterator table that the six-slot array and the hash map both stand for. */
module IteratorTables {
  import opened TrackedPositions

  datatype Entry<I> = Entry(key: Key, it: I)

  function Table<I>(s: seq<Entry<I>>): map<Key, I> {
    if s == [] then map[]
    else
      var last := s[|s| - 1];
      Table(s[..|s| - 1])[last.key := last.it]
  }

  ghost predicate DistinctKeys<I>(s: seq<Entry<I>>) {
    forall i, j :: 0 <= i < j < |s| ==> s[i].key != s[j].key
  }

  lemma {:induction false} TableKeys<I>(s: seq<Entry<I>>, k: Key)
    ensures k in Table(s) <==> exists i :: 0 <= i < |s| && s[i].key == k
  {
    if s != [] {
      var t := s[..|s| - 1];
      TableKeys(t, k);
      if i :| 0 <= i < |s| && s[i].key == k {
        assert i < |t| ==> t[i].key == k;
      }
    }
  }

  lemma {:induction false} TableAt<I>(s: seq<Entry<I>>, i: nat)
    requires DistinctKeys(s) && i < |s|
    ensures s[i].key in Table(s) && Table(s)[s[i].key] == s[i].it
  {
    if i < |s| - 1 {
      TableAt(s[..|s| - 1], i);
    }
  }

  lemma TableAppend<I>(s: seq<Entry<I>>, k: Key, it: I)
    requires DistinctKeys(s) && k !in Table(s)
    ensures DistinctKeys(s + [Entry(k, it)])
    ensures Table(s + [Entry(k, it)]) == Table(s)[k := it]
  {
    var t := s + [Entry(k, it)];
    assert t[..|t| - 1] == s;
    TableKeys(s, k);
  }

  /** Closing the gap after a removal loses the removed key and nothing else. */
  lemma {:induction false} TableWithout<I>(s: seq<Entry<I>>, i: nat)
    requires DistinctKeys(s) && i < |s|
    ensures DistinctKeys(s[..i] + s[i + 1..])
    ensures Table(s[..i] + s[i + 1..]) == Table(s) - {s[i].key}
  {
    var t := s[..|s| - 1];
    if i == |s| - 1 {
      assert s[..i] + s[i + 1..] == t;
      TableKeys(t, s[i].key);
    } else {
      TableWithout(t, i);
      var r, last := s[..i] + s[i + 1..], s[|s| - 1];
      assert r[..|r| - 1] == t[..i] + t[i + 1..];
    }
  }
}
