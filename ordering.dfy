/** The ordering by identifier that both paths of the paginated listing
    apply: the store query sorts by "_id", the cached array is sorted with a
    comparator on `_id`. The model sorts by insertion; with unique
    identifiers every sorting method gives the same order
    (`SortByIdCanonical`), so stability is neither needed nor proved. */
module Ordering {
  import opened Records

  ghost predicate SortedById(s: seq<User>) {
    forall i, j :: 0 <= i < j < |s| ==> s[i].id <= s[j].id
  }

  ghost predicate StrictlySortedById(s: seq<User>) {
    forall i, j :: 0 <= i < j < |s| ==> s[i].id < s[j].id
  }

  /** `x` placed before the first element whose identifier is not
      smaller. */
  function Insert(x: User, s: seq<User>): (r: seq<User>)
    ensures multiset(r) == multiset(s) + multiset{x}
    ensures |r| == |s| + 1 && (r[0] == x || (s != [] && r[0] == s[0]))
  {
    if s == [] || x.id <= s[0].id then [x] + s
    else
      assert s == [s[0]] + s[1..];
      [s[0]] + Insert(x, s[1..])
  }

  /** Inserting into a sorted sequence keeps it sorted. */
  lemma {:induction false} InsertSorted(x: User, s: seq<User>)
    requires SortedById(s)
    ensures SortedById(Insert(x, s))
  {
    if s != [] && x.id > s[0].id {
      var rest := Insert(x, s[1..]);
      InsertSorted(x, s[1..]);
      var r := [s[0]] + rest;
      assert r == Insert(x, s);
      forall i, j | 0 <= i < j < |r| ensures r[i].id <= r[j].id {
        if i == 0 {
          assert rest[0].id <= rest[j - 1].id;
        } else {
          assert r[i] == rest[i - 1] && r[j] == rest[j - 1];
        }
      }
    }
  }

  /** The users of `s` in ascending identifier order. */
  function SortById(s: seq<User>): (r: seq<User>)
    ensures SortedById(r)
    ensures multiset(r) == multiset(s)
  {
    if s == [] then []
    else
      assert s == [s[0]] + s[1..];
      InsertSorted(s[0], SortById(s[1..]));
      Insert(s[0], SortById(s[1..]))
  }

  /** Sorting a sequence already in order changes nothing. */
  lemma {:induction false} SortByIdOfSorted(s: seq<User>)
    requires SortedById(s)
    ensures SortById(s) == s
  {
    if s != [] {
      var rest := s[1..];
      assert SortedById(rest);
      SortByIdOfSorted(rest);
      assert rest != [] ==> s[0].id <= rest[0].id;
    }
  }

  /** Deleting by id keeps a sorted store sorted. */
  lemma {:induction false} RemoveSorted(s: seq<User>, id: int)
    requires SortedById(s)
    ensures SortedById(RemoveById(s, id))
  {
    if s != [] {
      var rest := s[1..];
      assert SortedById(rest);
      RemoveSorted(rest, id);
      if s[0].id != id {
        var tail := RemoveById(rest, id);
        forall y | y in tail ensures s[0].id <= y.id {
          var m :| 0 <= m < |rest| && rest[m] == y;
          assert rest[m] == s[m + 1];
        }
        PrependSorted(s[0], tail);
      }
    }
  }

  /** A user no later than every member of a sorted sequence can go in
      front of it. */
  lemma PrependSorted(x: User, s: seq<User>)
    requires SortedById(s) && forall y :: y in s ==> x.id <= y.id
    ensures SortedById([x] + s)
  {
    var r := [x] + s;
    forall i, j | 0 <= i < j < |r| ensures r[i].id <= r[j].id {
      assert r[j] == s[j - 1];
      if i > 0 {
        assert r[i] == s[i - 1];
      }
    }
  }

  /** Sorted with unique identifiers means strictly increasing. */
  lemma SortedUniqueIsStrict(s: seq<User>)
    requires SortedById(s) && UniqueIds(s)
    ensures StrictlySortedById(s)
  {
  }

  /** Two strictly sorted sequences holding the same users are equal: the
      order by identifier leaves no choice. */
  lemma {:induction false} StrictlySortedUnique(a: seq<User>, b: seq<User>)
    requires StrictlySortedById(a) && StrictlySortedById(b)
    requires multiset(a) == multiset(b)
    ensures a == b
  {
    if a == [] {
      assert |b| == |multiset(b)| == 0;
    } else {
      assert a[0] in multiset(b);
      HeadIsLeast(b, a[0]);
      assert b != [] && b[0] in multiset(a);
      HeadIsLeast(a, b[0]);
      assert a[0] == b[0];
      Tail(a);
      Tail(b);
      StrictlySortedUnique(a[1..], b[1..]);
    }
  }

  lemma Tail(s: seq<User>)
    requires StrictlySortedById(s) && s != []
    ensures StrictlySortedById(s[1..])
    ensures multiset(s[1..]) == multiset(s) - multiset{s[0]}
    ensures s == [s[0]] + s[1..]
  {
    assert s == [s[0]] + s[1..];
  }

  /** The head of a strictly sorted sequence has the least identifier, and
      is the only element with it. */
  lemma HeadIsLeast(s: seq<User>, y: User)
    requires StrictlySortedById(s) && y in s
    ensures s[0].id <= y.id
    ensures y.id == s[0].id ==> y == s[0]
  {
    var k :| 0 <= k < |s| && s[k] == y;
    assert k == 0 || s[0].id < s[k].id;
  }

  /** Sorting a permutation of a set of users with unique identifiers gives
      the same sequence: the cached snapshot and the store, when they hold
      the same users in any order, sort to the same listing. */
  lemma SortByIdCanonical(a: seq<User>, b: seq<User>)
    requires UniqueIds(a) && multiset(a) == multiset(b)
    ensures SortById(a) == SortById(b)
  {
    var sa, sb := SortById(a), SortById(b);
    UniqueUnderPermutation(a, sa);
    SortedUniqueIsStrict(sa);
    UniqueUnderPermutation(a, sb);
    SortedUniqueIsStrict(sb);
    StrictlySortedUnique(sa, sb);
  }

  /** Uniqueness of identifiers survives reordering. */
  lemma UniqueUnderPermutation(a: seq<User>, b: seq<User>)
    requires UniqueIds(a) && multiset(a) == multiset(b)
    ensures UniqueIds(b)
  {
    forall i, j | 0 <= i < j < |b| ensures b[i].id != b[j].id {
      assert b[i] in multiset(a) && b[j] in multiset(a);
      var p :| 0 <= p < |a| && a[p] == b[i];
      var q :| 0 <= q < |a| && a[q] == b[j];
      if p != q {
        assert a[p].id != a[q].id;
      } else {
        // b[i] == b[j] would occur twice in b but only once in a
        MultisetTwice(b, i, j);
        MultisetOnce(a, p);
        assert false;
      }
    }
  }

  lemma MultisetTwice(s: seq<User>, i: int, j: int)
    requires 0 <= i < j < |s| && s[i] == s[j]
    ensures multiset(s)[s[i]] >= 2
  {
    assert s == s[..i] + [s[i]] + s[i + 1..j] + [s[j]] + s[j + 1..];
  }

  /** In a sequence with unique identifiers each user occurs once. */
  lemma {:induction false} MultisetOnce(s: seq<User>, p: int)
    requires UniqueIds(s) && 0 <= p < |s|
    ensures multiset(s)[s[p]] == 1
  {
    assert s == s[..p] + [s[p]] + s[p + 1..];
    assert forall k :: 0 <= k < p ==> s[k].id != s[p].id;
    assert forall k :: p < k < |s| ==> s[k].id != s[p].id;
    assert s[p] !in s[..p];
    assert s[p] !in s[p + 1..];
  }
}
