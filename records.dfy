/** The entities the user controller works on, and the queries it makes of
    the persistent store (find by id, find by username, delete by id,
    delete blogs by owner), written as functions on sequences. */
module Records {

  datatype Option<T> = None | Some(value: T)

  /** Payload fields of a user that play no part in caching. */
  datatype Profile = Profile(
    firstName: string,
    lastName: string,
    email: string,
    birthDate: string,
    address: string)

  /** A stored user; `id` is the store-assigned identifier (the sort key),
      `password` the stored hash. */
  datatype User = User(
    id: int,
    username: string,
    password: string,
    role: string,
    profile: Profile)

  /** A blog record, owned by the user whose id is `owner`. */
  datatype Blog = Blog(owner: int, title: string)

  /** A value held in the process-wide cache: a user list (key "users"),
      a count (key "totalUsers") or a blog list (key "allBlogs"). */
  datatype CacheValue =
    | UserList(users: seq<User>)
    | Count(n: int)
    | BlogList(blogs: seq<Blog>)

  const USERS_KEY := "users"
  const TOTAL_USERS_KEY := "totalUsers"
  const ALL_BLOGS_KEY := "allBlogs"

  /** Each of the three keys, when present, holds the kind of value the
      controller writes under it. */
  ghost predicate WellTyped(cache: map<string, CacheValue>) {
    && (USERS_KEY in cache ==> cache[USERS_KEY].UserList?)
    && (TOTAL_USERS_KEY in cache ==> cache[TOTAL_USERS_KEY].Count?)
    && (ALL_BLOGS_KEY in cache ==> cache[ALL_BLOGS_KEY].BlogList?)
  }

  function Ids(s: seq<User>): set<int> {
    set u | u in s :: u.id
  }

  /** The store never holds two users with the same identifier. */
  ghost predicate UniqueIds(s: seq<User>) {
    forall i, j :: 0 <= i < j < |s| ==> s[i].id != s[j].id
  }

  /** The first user of `s` whose identifier is `id` (the store's findById
      and the cached array's `find`). */
  function FindById(s: seq<User>, id: int): (r: Option<User>)
    ensures r.None? <==> id !in Ids(s)
    ensures r.Some? ==> r.value in s && r.value.id == id
  {
    if s == [] then None
    else if s[0].id == id then Some(s[0])
    else
      assert forall u :: u in s[1..] ==> u in s;
      assert forall u :: u in s && u != s[0] ==> u in s[1..];
      FindById(s[1..], id)
  }

  /** With unique identifiers the lookup returns exactly the user holding
      the identifier. */
  lemma {:induction false} FindByIdUnique(s: seq<User>, u: User)
    requires UniqueIds(s) && u in s
    ensures FindById(s, u.id) == Some(u)
  {
    if s[0] != u {
      assert s[0].id != u.id by {
        var k :| 0 <= k < |s| && s[k] == u;
        assert k != 0;
      }
      assert u in s[1..];
      FindByIdUnique(s[1..], u);
    }
  }

  /** Whether some stored user has this username (the findOne({username})
      query). */
  predicate HasUsername(s: seq<User>, username: string) {
    exists u :: u in s && u.username == username
  }

  /** An identifier no stored user carries: larger than every stored
      identifier and at least 1, in the way newly allocated object ids
      grow. */
  function FreshId(s: seq<User>): (r: int)
    ensures forall u :: u in s ==> u.id < r
    ensures r >= 1
  {
    if s == [] then 1
    else
      var rest := FreshId(s[1..]);
      assert forall u :: u in s && u != s[0] ==> u in s[1..];
      if s[0].id < rest then rest else s[0].id + 1
  }

  /** The user as returned by the store query that excludes the password
      field. */
  function WithoutPassword(u: User): User {
    u.(password := "")
  }

  /** The store after deleting the user with identifier `id`; the others
      keep their order. */
  function RemoveById(s: seq<User>, id: int): (r: seq<User>)
    ensures forall u :: u in r <==> u in s && u.id != id
    ensures |r| <= |s|
  {
    if s == [] then []
    else
      assert forall u :: u in s <==> u == s[0] || u in s[1..];
      if s[0].id == id then RemoveById(s[1..], id)
      else [s[0]] + RemoveById(s[1..], id)
  }

  /** Deleting by id keeps the identifiers unique and, when the id is
      stored, removes exactly one user. */
  lemma {:induction false} RemoveByIdUnique(s: seq<User>, id: int)
    requires UniqueIds(s)
    ensures UniqueIds(RemoveById(s, id))
    ensures Ids(RemoveById(s, id)) == Ids(s) - {id}
    ensures id in Ids(s) ==> |RemoveById(s, id)| == |s| - 1
  {
    if s != [] {
      var rest := s[1..];
      UniqueTail(s);
      RemoveByIdUnique(rest, id);
      assert s[0].id !in Ids(rest) by {
        forall k | 0 <= k < |rest| ensures rest[k].id != s[0].id {
          assert rest[k] == s[k + 1];
        }
      }
      assert forall u :: u in s <==> u == s[0] || u in rest;
      assert Ids(s) == {s[0].id} + Ids(rest);
      if s[0].id != id {
        var r := [s[0]] + RemoveById(rest, id);
        assert r == RemoveById(s, id);
        forall i, j | 0 <= i < j < |r| ensures r[i].id != r[j].id {
          if i == 0 {
            assert r[j] in RemoveById(rest, id);
          }
        }
        assert Ids(r) == {s[0].id} + Ids(RemoveById(rest, id));
      } else {
        assert id !in Ids(rest);
        assert RemoveById(rest, id) == rest by {
          RemoveNothing(rest, id);
        }
      }
    }
  }

  /** Deleting an identifier nobody holds changes nothing. */
  lemma {:induction false} RemoveNothing(s: seq<User>, id: int)
    requires id !in Ids(s)
    ensures RemoveById(s, id) == s
  {
    if s != [] {
      assert s[0] in s;
      assert forall u :: u in s[1..] ==> u in s;
      RemoveNothing(s[1..], id);
    }
  }

  lemma UniqueTail(s: seq<User>)
    requires UniqueIds(s) && s != []
    ensures UniqueIds(s[1..])
  {
    var rest := s[1..];
    forall i, j | 0 <= i < j < |rest| ensures rest[i].id != rest[j].id {
      assert rest[i] == s[i + 1] && rest[j] == s[j + 1];
    }
  }

  /** Any slice of a sequence with unique identifiers has unique
      identifiers. */
  lemma UniqueSlice(s: seq<User>, a: int, b: int)
    requires UniqueIds(s) && 0 <= a <= b <= |s|
    ensures UniqueIds(s[a..b])
  {
    var w := s[a..b];
    forall i, j | 0 <= i < j < |w| ensures w[i].id != w[j].id {
      assert w[i] == s[a + i] && w[j] == s[a + j];
    }
  }

  /** The store after saving `u` over the user with the same identifier:
      that user gives way to `u`, every other user stays. */
  function ReplaceById(s: seq<User>, u: User): (r: seq<User>)
    ensures |r| == |s|
    ensures Ids(r) == Ids(s)
    ensures forall v :: v in r <==> (v == u && u.id in Ids(s)) || (v in s && v.id != u.id)
  {
    var r := seq(|s|, k requires 0 <= k < |s| => if s[k].id == u.id then u else s[k]);
    ReplacedMembers(s, u, r);
    r
  }

  lemma ReplacedMembers(s: seq<User>, u: User, r: seq<User>)
    requires |r| == |s|
    requires forall k :: 0 <= k < |s| ==> r[k] == (if s[k].id == u.id then u else s[k])
    ensures Ids(r) == Ids(s)
    ensures forall v :: v in r <==> (v == u && u.id in Ids(s)) || (v in s && v.id != u.id)
  {
    forall v | v in r ensures (v == u && u.id in Ids(s)) || (v in s && v.id != u.id) {
      var k :| 0 <= k < |r| && r[k] == v;
      assert s[k] in s;
    }
    forall v | (v == u && u.id in Ids(s)) || (v in s && v.id != u.id) ensures v in r {
      if v in s && v.id != u.id {
        var k :| 0 <= k < |s| && s[k] == v;
        assert r[k] == v;
      } else {
        var w :| w in s && w.id == u.id;
        var k :| 0 <= k < |s| && s[k] == w;
        assert r[k] == u;
      }
    }
    forall x | x in Ids(s) ensures x in Ids(r) {
      var v :| v in s && v.id == x;
      var k :| 0 <= k < |s| && s[k] == v;
      assert r[k].id == x;
    }
    forall x | x in Ids(r) ensures x in Ids(s) {
      var v :| v in r && v.id == x;
      var k :| 0 <= k < |r| && r[k] == v;
      assert s[k].id == x;
    }
  }

  /** Saving over a stored identifier keeps the identifiers unique and
      makes the saved value the one found under that id. */
  lemma ReplaceByIdFacts(s: seq<User>, u: User)
    requires UniqueIds(s) && u.id in Ids(s)
    ensures UniqueIds(ReplaceById(s, u))
    ensures FindById(ReplaceById(s, u), u.id) == Some(u)
  {
    var r := ReplaceById(s, u);
    assert forall k :: 0 <= k < |s| ==> r[k].id == s[k].id;
    assert u in r;
    FindByIdUnique(r, u);
  }

  /** The blogs left after deleting every blog owned by `owner` (the
      deleteMany({user: id}) query). */
  function BlogsWithout(blogs: seq<Blog>, owner: int): (r: seq<Blog>)
    ensures forall b :: b in r <==> b in blogs && b.owner != owner
    ensures forall b :: multiset(r)[b] == if b.owner == owner then 0 else multiset(blogs)[b]
    ensures |r| <= |blogs|
  {
    if blogs == [] then []
    else
      assert blogs == [blogs[0]] + blogs[1..];
      assert forall b :: b in blogs <==> b == blogs[0] || b in blogs[1..];
      if blogs[0].owner == owner then BlogsWithout(blogs[1..], owner)
      else [blogs[0]] + BlogsWithout(blogs[1..], owner)
  }
}
