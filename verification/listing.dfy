/** The list and map updates every page performs on its in-memory state:
    `list.map(x => x.id === k ? … : x)`, `list.filter(x => x.id !== k)`,
    `list.find(x => x.id === k)` and the per-id details toggle. Each list
    operation takes the record's id accessor as `key`. */
module Listing {
  import opened Values

  /** The ids of a list, in list order. */
  function Keys<T>(s: seq<T>, key: T -> int): seq<int>
  {
    seq(|s|, i requires 0 <= i < |s| => key(s[i]))
  }

  /** No two entries share an id. */
  predicate UniqueKeys<T>(s: seq<T>, key: T -> int)
  {
    forall i, j :: 0 <= i < j < |s| ==> key(s[i]) != key(s[j])
  }

  predicate HasKey<T>(s: seq<T>, key: T -> int, k: int)
  {
    exists i :: 0 <= i < |s| && key(s[i]) == k
  }

  /** `i` is the position of the first entry whose id is `k`. */
  predicate FirstWithKey<T>(s: seq<T>, key: T -> int, k: int, i: int)
  {
    0 <= i < |s| && key(s[i]) == k && forall j :: 0 <= j < i ==> key(s[j]) != k
  }

  /** Position of the first entry with id `k`, or `|s|` when there is none. */
  function FirstIndex<T>(s: seq<T>, key: T -> int, k: int): (i: nat)
    ensures i <= |s|
    ensures forall j :: 0 <= j < i ==> key(s[j]) != k
    ensures i < |s| ==> key(s[i]) == k
    decreases |s|
  {
    if |s| == 0 then 0
    else if key(s[0]) == k then 0
    else 1 + FirstIndex(s[1..], key, k)
  }

  /** `s.find(x => key(x) === k)`: the first entry with that id, if any. */
  function FindFirst<T>(s: seq<T>, key: T -> int, k: int): (r: Option<T>)
    ensures r.None? <==> !HasKey(s, key, k)
    ensures r.Some? ==> exists i :: FirstWithKey(s, key, k, i) && s[i] == r.value
  {
    var i := FirstIndex(s, key, k);
    if i < |s| then
      assert FirstWithKey(s, key, k, i);
      Some(s[i])
    else
      None
  }

  /** In a list without repeated ids, `find` returns the one entry with that id. */
  lemma FindUnique<T>(s: seq<T>, key: T -> int, x: T)
    requires UniqueKeys(s, key)
    requires x in s
    ensures FindFirst(s, key, key(x)) == Some(x)
  {
    var n :| 0 <= n < |s| && s[n] == x;
    var r := FindFirst(s, key, key(x));
    assert HasKey(s, key, key(x));
    var i :| FirstWithKey(s, key, key(x), i) && s[i] == r.value;
    assert i == n;
  }

  /** `s.map(x => key(x) === k ? f(x) : x)` */
  function UpdateWhere<T>(s: seq<T>, key: T -> int, k: int, f: T -> T): (r: seq<T>)
    ensures |r| == |s|
    ensures forall i :: 0 <= i < |s| ==> r[i] == (if key(s[i]) == k then f(s[i]) else s[i])
    decreases |s|
  {
    if |s| == 0 then []
    else [if key(s[0]) == k then f(s[0]) else s[0]] + UpdateWhere(s[1..], key, k, f)
  }

  /** `s.map(x => key(x) === k ? y : x)` */
  function ReplaceWhere<T>(s: seq<T>, key: T -> int, k: int, y: T): (r: seq<T>)
    ensures |r| == |s|
    ensures forall i :: 0 <= i < |s| ==> r[i] == (if key(s[i]) == k then y else s[i])
    ensures key(y) == k ==> Keys(r, key) == Keys(s, key)
  {
    UpdateWhere(s, key, k, _ => y)
  }

  /** `s.filter(x => key(x) !== k)` */
  function RemoveWhere<T>(s: seq<T>, key: T -> int, k: int): (r: seq<T>)
    ensures |r| <= |s|
    ensures !HasKey(s, key, k) ==> r == s
    decreases |s|
  {
    if |s| == 0 then []
    else if key(s[0]) == k then RemoveWhere(s[1..], key, k)
    else [s[0]] + RemoveWhere(s[1..], key, k)
  }

  /** The filtered list holds exactly the entries whose id is not `k`. */
  lemma {:induction false} RemoveMembers<T>(s: seq<T>, key: T -> int, k: int)
    ensures forall x :: x in RemoveWhere(s, key, k) ==> x in s && key(x) != k
    ensures forall x :: x in s && key(x) != k ==> x in RemoveWhere(s, key, k)
    decreases |s|
  {
    if |s| > 0 {
      RemoveMembers(s[1..], key, k);
      assert s == [s[0]] + s[1..];
    }
  }

  /** Filtering distributes over concatenation, so the entries it keeps stay
      in their original order. */
  lemma {:induction false} RemoveConcat<T>(a: seq<T>, b: seq<T>, key: T -> int, k: int)
    ensures RemoveWhere(a + b, key, k) == RemoveWhere(a, key, k) + RemoveWhere(b, key, k)
    decreases |a|
  {
    if |a| == 0 {
      assert a + b == b;
    } else {
      var ab := a + b;
      assert ab[0] == a[0];
      assert ab[1..] == a[1..] + b;
      RemoveConcat(a[1..], b, key, k);
      var restA := RemoveWhere(a[1..], key, k);
      var restB := RemoveWhere(b, key, k);
      if key(a[0]) != k {
        assert RemoveWhere(ab, key, k) == [a[0]] + (restA + restB);
        assert RemoveWhere(a, key, k) == [a[0]] + restA;
        assert [a[0]] + (restA + restB) == ([a[0]] + restA) + restB;
      }
    }
  }

  /** In a list without repeated ids, deleting an id that is present removes
      exactly that one entry and closes the gap. */
  lemma RemoveUniquePresent<T>(s: seq<T>, key: T -> int, i: int)
    requires UniqueKeys(s, key)
    requires 0 <= i < |s|
    ensures RemoveWhere(s, key, key(s[i])) == s[..i] + s[i + 1..]
    ensures |RemoveWhere(s, key, key(s[i]))| == |s| - 1
  {
    var k := key(s[i]);
    assert s == (s[..i] + [s[i]]) + s[i + 1..];
    RemoveConcat(s[..i] + [s[i]], s[i + 1..], key, k);
    RemoveConcat(s[..i], [s[i]], key, k);
    assert !HasKey(s[..i], key, k) by {
      forall j | 0 <= j < i ensures key(s[..i][j]) != k {
        assert s[..i][j] == s[j];
      }
    }
    var after := s[i + 1..];
    assert !HasKey(after, key, k) by {
      forall j | 0 <= j < |after| ensures key(after[j]) != k {
        assert after[j] == s[i + 1 + j];
      }
    }
    assert RemoveWhere([s[i]], key, k) == [];
  }

  /** In a list without repeated ids, replacing a listed entry's id with
      that same entry leaves the list as it was. */
  lemma ReplaceUniqueSame<T>(s: seq<T>, key: T -> int, x: T)
    requires UniqueKeys(s, key)
    requires x in s
    ensures ReplaceWhere(s, key, key(x), x) == s
  {
    var n :| 0 <= n < |s| && s[n] == x;
    var r := ReplaceWhere(s, key, key(x), x);
    forall i | 0 <= i < |s| ensures r[i] == s[i] {
      if key(s[i]) == key(x) {
        assert i == n;
      }
    }
  }

  /** Deleting the id of an entry just appended with a fresh id gives back
      the list as it was before the append. */
  lemma RemoveAppended<T>(s: seq<T>, key: T -> int, x: T)
    requires !HasKey(s, key, key(x))
    ensures RemoveWhere(s + [x], key, key(x)) == s
  {
    RemoveConcat(s, [x], key, key(x));
    assert RemoveWhere([x], key, key(x)) == [];
  }

  /** Filtering never introduces a repeated id. */
  lemma {:induction false} RemoveKeepsUnique<T>(s: seq<T>, key: T -> int, k: int)
    requires UniqueKeys(s, key)
    ensures UniqueKeys(RemoveWhere(s, key, k), key)
    decreases |s|
  {
    if |s| > 0 {
      var rest := s[1..];
      assert UniqueKeys(rest, key) by {
        forall i, j | 0 <= i < j < |rest| ensures key(rest[i]) != key(rest[j]) {
          assert rest[i] == s[i + 1] && rest[j] == s[j + 1];
        }
      }
      RemoveKeepsUnique(rest, key, k);
      RemoveMembers(rest, key, k);
      if key(s[0]) != k {
        var tail := RemoveWhere(rest, key, k);
        forall y | y in tail ensures key(y) != key(s[0]) {
          var m :| 0 <= m < |rest| && rest[m] == y;
          assert s[m + 1] == y;
        }
        var r := [s[0]] + tail;
        forall i, j | 0 <= i < j < |r| ensures key(r[i]) != key(r[j]) {
          assert r[j] == tail[j - 1];
          if i > 0 {
            assert r[i] == tail[i - 1];
          }
        }
      }
    }
  }

  /** `visibleDetails[id]`, where a missing entry reads as hidden. */
  function Visible(m: map<int, bool>, id: int): bool
  {
    id in m && m[id]
  }

  /** `{...m, [id]: !m[id]}` */
  function Toggle(m: map<int, bool>, id: int): (r: map<int, bool>)
    ensures Visible(r, id) == !Visible(m, id)
    ensures forall k :: k != id ==> Visible(r, k) == Visible(m, k)
    ensures r.Keys == m.Keys + {id}
    ensures forall k :: k in m && k != id ==> r[k] == m[k]
  {
    m[id := !Visible(m, id)]
  }

  /** Toggling the same id twice shows and hides exactly what was shown
      and hidden before. */
  lemma ToggleTwice(m: map<int, bool>, id: int, k: int)
    ensures Visible(Toggle(Toggle(m, id), id), k) == Visible(m, k)
  {
  }
}
