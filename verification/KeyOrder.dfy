/** The order in which `LockAll` sorts its keys: Go compares strings byte by byte, which for
    UTF-8 text is the lexicographic order of the characters. */
module KeyOrder {

  type Key = string

  predicate Less(a: Key, b: Key) {
    b != [] && (a == [] || a[0] < b[0] || (a[0] == b[0] && Less(a[1..], b[1..])))
  }

  lemma {:induction false} LessTransitive(a: Key, b: Key, c: Key)
    requires Less(a, b) && Less(b, c)
    ensures Less(a, c)
  {
    if a != [] && a[0] == b[0] && b[0] == c[0] {
      LessTransitive(a[1..], b[1..], c[1..]);
    }
  }

  lemma {:induction false} LessTrichotomy(a: Key, b: Key)
    ensures Less(a, b) || Less(b, a) || a == b
    ensures !(Less(a, b) && Less(b, a))
    ensures !Less(a, a)
  {
    if a != [] && b != [] {
      LessTrichotomy(a[1..], b[1..]);
      assert a == [a[0]] + a[1..] && b == [b[0]] + b[1..];
    }
    if a != [] {
      LessTrichotomy(a[1..], a[1..]);
    }
  }

  /** Strictly ascending: sorted and without duplicates. */
  ghost predicate Ascending(s: seq<Key>) {
    forall i, j :: 0 <= i < j < |s| ==> Less(s[i], s[j])
  }

  ghost function Elements(s: seq<Key>): set<Key> {
    set k | k in s
  }

  /** Puts `k` in its place in an ascending sequence; a key already present is not repeated. */
  function Insert(k: Key, s: seq<Key>): seq<Key> {
    if s == [] then [k]
    else if k == s[0] then s
    else if Less(k, s[0]) then [k] + s
    else [s[0]] + Insert(k, s[1..])
  }

  lemma {:induction false} InsertElements(k: Key, s: seq<Key>)
    ensures Elements(Insert(k, s)) == Elements(s) + {k}
  {
    if s != [] {
      InsertElements(k, s[1..]);
      assert s == [s[0]] + s[1..];
      assert Elements(s) == {s[0]} + Elements(s[1..]);
      assert Elements([s[0]] + Insert(k, s[1..])) == {s[0]} + Elements(Insert(k, s[1..]));
    }
  }

  lemma Prepended(x: Key, s: seq<Key>)
    requires Ascending(s) && forall y :: y in Elements(s) ==> Less(x, y)
    ensures Ascending([x] + s)
  {
    var r := [x] + s;
    forall i, j | 0 <= i < j < |r| ensures Less(r[i], r[j]) {
      assert r[j] == s[j - 1] && s[j - 1] in Elements(s);
      if i > 0 { assert r[i] == s[i - 1]; }
    }
  }

  lemma {:induction false} InsertAscending(k: Key, s: seq<Key>)
    requires Ascending(s)
    ensures Ascending(Insert(k, s))
  {
    if s != [] && k != s[0] {
      forall y | y in Elements(s[1..]) ensures Less(s[0], y) {
        var i :| 0 <= i < |s[1..]| && s[1..][i] == y;
        assert s[i + 1] == y;
      }
      LessTrichotomy(k, s[0]);
      if Less(k, s[0]) {
        forall y | y in Elements(s) ensures Less(k, y) {
          if y != s[0] {
            assert s == [s[0]] + s[1..] && y in Elements(s[1..]);
            LessTransitive(k, s[0], y);
          }
        }
        Prepended(k, s);
      } else {
        InsertAscending(k, s[1..]);
        InsertElements(k, s[1..]);
        Prepended(s[0], Insert(k, s[1..]));
      }
    }
  }

  /** What `slices.Sort` followed by `slices.Compact` leaves of the requested keys. */
  function SortedDistinct(keys: seq<Key>): (r: seq<Key>)
    ensures Ascending(r)
    ensures Elements(r) == Elements(keys)
  {
    if keys == [] then []
    else
      var rest := SortedDistinct(keys[1..]);
      InsertAscending(keys[0], rest);
      InsertElements(keys[0], rest);
      assert keys == [keys[0]] + keys[1..];
      Insert(keys[0], rest)
  }

  /** An ascending sequence is determined by its keys, so the result of sorting and compacting
      does not depend on the algorithm: it is the only ascending arrangement of the requested set. */
  lemma {:induction false} AscendingUnique(a: seq<Key>, b: seq<Key>)
    requires Ascending(a) && Ascending(b)
    requires Elements(a) == Elements(b)
    ensures a == b
  {
    assert forall x :: x in a <==> x in Elements(a);
    assert forall x :: x in b <==> x in Elements(b);
    assert |a| > 0 ==> a[0] in b;
    assert |b| > 0 ==> b[0] in a;
    if a == [] || b == [] {
    } else {
      LessTrichotomy(a[0], b[0]);
      assert a[0] in b && b[0] in a;
      assert a[0] == b[0];
      LessTrichotomy(a[0], a[0]);
      assert Elements(a[1..]) == Elements(a) - {a[0]} by {
        forall x | x in Elements(a) - {a[0]} ensures x in Elements(a[1..]) {
          var i :| 0 <= i < |a| && a[i] == x;
          assert a[1..][i - 1] == x;
        }
      }
      assert Elements(b[1..]) == Elements(b) - {b[0]} by {
        forall x | x in Elements(b) - {b[0]} ensures x in Elements(b[1..]) {
          var i :| 0 <= i < |b| && b[i] == x;
          assert b[1..][i - 1] == x;
        }
      }
      AscendingUnique(a[1..], b[1..]);
      assert a == [a[0]] + a[1..] && b == [b[0]] + b[1..];
    }
  }
}
