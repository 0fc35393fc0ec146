/** The insertion-ordered dictionary the store is kept in, seen as a map from
    string keys plus the sequence of those keys in insertion order: listing its values, removing
    a key, and slicing the listing for pagination. */
module InsertionOrder {

  ghost predicate NoDuplicates<K>(keys: seq<K>) {
    forall i, j :: 0 <= i < j < |keys| ==> keys[i] != keys[j]
  }

  function Min(a: int, b: int): (r: int) {
    if a <= b then a else b
  }

  /** The dictionary's values in key order, as `list(d.values())` gives them. */
  function Values<V>(m: map<string, V>, keys: seq<string>): (vs: seq<V>)
    requires forall j :: 0 <= j < |keys| ==> keys[j] in m
    ensures |vs| == |keys|
  {
    if |keys| == 0 then [] else [m[keys[0]]] + Values(m, keys[1..])
  }

  /** Entry i of the listing is the value under key i. */
  lemma {:induction false} ValuesAt<V>(m: map<string, V>, keys: seq<string>)
    requires forall j :: 0 <= j < |keys| ==> keys[j] in m
    ensures forall i :: 0 <= i < |keys| ==> Values(m, keys)[i] == m[keys[i]]
  {
    if |keys| > 0 {
      ValuesAt(m, keys[1..]);
    }
  }

  /** The key order after `del d[key]`: every other key, in the same relative order. */
  function Without(keys: seq<string>, key: string): (r: seq<string>)
    ensures forall k :: k in r <==> k in keys && k != key
    ensures |r| <= |keys|
    ensures NoDuplicates(keys) ==> NoDuplicates(r)
  {
    if |keys| == 0 then []
    else if keys[0] == key then Without(keys[1..], key)
    else
      var rest := Without(keys[1..], key);
      assert NoDuplicates(keys) ==> keys[0] !in keys[1..] && NoDuplicates(keys[1..]);
      [keys[0]] + rest
  }

  /** Position of a present key in the order. */
  function IndexOf(keys: seq<string>, key: string): (i: nat)
    requires key in keys
    ensures i < |keys| && keys[i] == key
    ensures forall j :: 0 <= j < i ==> keys[j] != key
  {
    if keys[0] == key then 0 else 1 + IndexOf(keys[1..], key)
  }

  /** Removing a key that is absent leaves the order as it was. */
  lemma {:induction false} WithoutAbsent(keys: seq<string>, key: string)
    requires key !in keys
    ensures Without(keys, key) == keys
  {
    if |keys| > 0 {
      assert keys[0] != key;
      WithoutAbsent(keys[1..], key);
      assert keys == [keys[0]] + keys[1..];
    }
  }

  /** Removing the key at position i of a duplicate-free order closes the gap
      at i: the keys before and after it stay where they were relative to each other. */
  lemma {:induction false} WithoutAt(keys: seq<string>, i: nat)
    requires NoDuplicates(keys) && i < |keys|
    ensures Without(keys, keys[i]) == keys[..i] + keys[i + 1..]
  {
    if i == 0 {
      assert keys[0] !in keys[1..];
      WithoutAbsent(keys[1..], keys[0]);
    } else {
      var rest := keys[1..];
      assert rest[i - 1] == keys[i];
      assert NoDuplicates(rest);
      WithoutAt(rest, i - 1);
      assert keys[0] != keys[i];
      assert keys[..i] == [keys[0]] + rest[..i - 1];
      assert keys[i + 1..] == rest[i..];
    }
  }

  /** Listing a concatenated key order lists each part in turn. */
  lemma {:induction false} ValuesConcat<V>(m: map<string, V>, a: seq<string>, b: seq<string>)
    requires forall j :: 0 <= j < |a| ==> a[j] in m
    requires forall j :: 0 <= j < |b| ==> b[j] in m
    ensures Values(m, a + b) == Values(m, a) + Values(m, b)
  {
    if |a| > 0 {
      assert (a + b)[1..] == a[1..] + b;
      ValuesConcat(m, a[1..], b);
    } else {
      assert a + b == b;
    }
  }

  /** Listing depends only on the entries of the listed keys. */
  lemma {:induction false} ValuesAgree<V>(m: map<string, V>, m': map<string, V>, keys: seq<string>)
    requires forall j :: 0 <= j < |keys| ==> keys[j] in m && keys[j] in m' && m[keys[j]] == m'[keys[j]]
    ensures Values(m, keys) == Values(m', keys)
  {
    if |keys| > 0 {
      ValuesAgree(m, m', keys[1..]);
    }
  }

  /** Listing splits around any position. */
  lemma ValuesAround<V>(m: map<string, V>, keys: seq<string>, i: nat)
    requires i < |keys|
    requires forall j :: 0 <= j < |keys| ==> keys[j] in m
    ensures Values(m, keys) == Values(m, keys[..i]) + [m[keys[i]]] + Values(m, keys[i + 1..])
  {
    var left, right := keys[..i], keys[i + 1..];
    var upTo := keys[..i + 1];
    assert keys == upTo + right;
    assert upTo == left + [keys[i]];
    ValuesConcat(m, upTo, right);
    ValuesConcat(m, left, [keys[i]]);
  }

  /** Dropping a key that is listed nowhere leaves the listing unchanged. */
  lemma ValuesDropUnlisted<V>(m: map<string, V>, left: seq<string>, right: seq<string>, key: string)
    requires key !in left && key !in right
    requires forall j :: 0 <= j < |left| ==> left[j] in m
    requires forall j :: 0 <= j < |right| ==> right[j] in m
    ensures Values(m - {key}, left + right) == Values(m, left) + Values(m, right)
  {
    ValuesConcat(m - {key}, left, right);
    ValuesAgree(m, m - {key}, left);
    ValuesAgree(m, m - {key}, right);
  }

  /** A duplicate-free order holds its key at position i nowhere else. */
  lemma OnlyAt(keys: seq<string>, i: nat)
    requires NoDuplicates(keys) && i < |keys|
    ensures keys[i] !in keys[..i] && keys[i] !in keys[i + 1..]
  {
  }

  /** Listing after `del d[keys[i]]` is the old listing with entry i taken out. */
  lemma ValuesWithout<V>(m: map<string, V>, keys: seq<string>, i: nat)
    requires NoDuplicates(keys) && i < |keys|
    requires forall j :: 0 <= j < |keys| ==> keys[j] in m
    ensures forall k :: k in Without(keys, keys[i]) ==> k in m - {keys[i]}
    ensures Values(m - {keys[i]}, Without(keys, keys[i])) == Values(m, keys)[..i] + Values(m, keys)[i + 1..]
  {
    OnlyAt(keys, i);
    WithoutAt(keys, i);
    ValuesAround(m, keys, i);
    ValuesDropUnlisted(m, keys[..i], keys[i + 1..], keys[i]);
  }

  /** The Python slice `s[skip:skip + limit]` for non-negative bounds. */
  function Page<T>(s: seq<T>, skip: nat, limit: nat): (r: seq<T>)
    ensures |r| == if skip >= |s| then 0 else Min(limit, |s| - skip)
    ensures forall i :: 0 <= i < |r| ==> r[i] == s[skip + i]
  {
    var lo := if skip < |s| then skip else |s|;
    var hi := if skip + limit < |s| then skip + limit else |s|;
    s[lo..hi]
  }

  /** A page is empty exactly when the offset is at or past the end or the
      limit is zero; otherwise it starts with the element at the offset. */
  lemma PageEmpty<T>(s: seq<T>, skip: nat, limit: nat)
    ensures Page(s, skip, limit) == [] <==> skip >= |s| || limit == 0
    ensures skip < |s| && limit > 0 ==> Page(s, skip, limit)[0] == s[skip]
  {
  }

  /** Pages tile the listing: the page at `skip` of size `a + b` is the page
      of size `a` followed by the page of size `b` that starts where it ends. */
  lemma PageSplit<T>(s: seq<T>, skip: nat, a: nat, b: nat)
    ensures Page(s, skip, a + b) == Page(s, skip, a) + Page(s, skip + a, b)
  {
  }

  /** Pages of a five-element listing: from offset 2 the last three, a limit
      of 2 the first two, and offset 1 with limit 2 the elements at 1 and 2. */
  lemma PageOfFive<T>(s: seq<T>)
    requires |s| == 5
    ensures Page(s, 2, 100) == s[2..]
    ensures Page(s, 0, 2) == [s[0], s[1]]
    ensures Page(s, 1, 2) == [s[1], s[2]]
    ensures Page(s, 5, 100) == [] && Page(s, 0, 0) == []
  {
  }
}
