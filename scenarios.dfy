/** Clients of the controller: request sequences over a store whose users
    are in ascending identifier order, with outcomes that follow from the
    handlers' contracts alone. */
module Scenarios {
  import opened Records
  import opened Ordering
  import opened Pagination
  import opened UserController

  /** The hit path and the miss path of the listing agree whenever the
      cached snapshot holds exactly the stored users, in whatever order. */
  lemma SnapshotListingAgrees(snapshot: seq<User>, stored: seq<User>, page: int, pageSize: int)
    requires UniqueIds(stored) && multiset(snapshot) == multiset(stored)
    requires pageSize >= 1
    ensures Page(SortById(snapshot), page, pageSize) == Page(SortById(stored), page, pageSize)
  {
    SortByIdCanonical(stored, snapshot);
  }

  lemma StrictPrefix(s: seq<User>, n: nat)
    requires StrictlySortedById(s) && n <= |s|
    ensures StrictlySortedById(s[..n]) && SortedById(s[..n]) && UniqueIds(s[..n])
  {
  }

  /** Three stored users, pages of 2. The first listing publishes page 1
      as the "users" snapshot; page 2 is then cut from that snapshot and is
      empty, and the third user is not found, although the store holds it. */
  method PartialSnapshotScenario(stored: seq<User>) returns (first: Response, second: Response, lookup: Response)
    requires |stored| == 3 && StrictlySortedById(stored)
    ensures first == UserPage(stored[..2])
    ensures second == UserPage([])
    ensures lookup == UserNotFound
  {
    StrictPrefix(stored, 3);
    assert stored[..3] == stored;
    StrictPrefix(stored, 2);
    SortByIdOfSorted(stored);
    SortByIdOfSorted(stored[..2]);
    var c := new Controller(stored, []);
    assert TotalPages(3, 2) == 2;
    assert Page(stored, 1, 2) == stored[..2];
    first := c.GetAllUsers(Some(1), Some(2));
    assert Page(stored[..2], 2, 2) == [];
    second := c.GetAllUsers(Some(2), Some(2));
    assert Ids([]) == {};
    lookup := c.GetUserById(Some(stored[2].id));
  }

  /** With an empty store every page from 1 on is out of range, while page
      0 passes the test and yields an empty page. */
  method EmptyStoreScenario() returns (first: Response, zeroth: Response)
    ensures first == PageOutOfRange
    ensures zeroth == UserPage([])
  {
    var c := new Controller([], []);
    first := c.GetAllUsers(Some(1), Some(5));
    zeroth := c.GetAllUsers(Some(0), Some(5));
  }

  /** A lookup after a create is answered from the rebuilt snapshot, which
      carries the stored password hash; the same lookup against the store
      alone leaves the password out. */
  method CreateThenLookupScenario(stored: seq<User>, form: NewUserForm, hash: string -> string)
    returns (created: Response, fromCache: Response, fromStore: Response)
    requires UniqueIds(stored) && RequiredPresent(form) && !HasUsername(stored, form.username)
    ensures created == UserCreated
    ensures fromCache == UserFound(CreatedUser(stored, form, hash))
    ensures fromStore == UserFound(WithoutPassword(CreatedUser(stored, form, hash)))
  {
    var c := new Controller(stored, []);
    created := c.AdminCreateUser(form, false, true, Some(Upload(Some("png"))), hash);
    var u := CreatedUser(stored, form, hash);
    assert c.users == stored + [u];
    fromCache := c.GetUserById(Some(u.id));
    FindByIdUnique(c.users, fromCache.user);
    var plain := new Controller(c.users, []);
    fromStore := plain.GetUserById(Some(u.id));
    var v :| v in plain.users && fromStore.user == WithoutPassword(v);
    FindByIdUnique(plain.users, v);
  }

  /** A member deleting someone else gets the refusal, and store and
      cache stay as they were. */
  method RefusedDeleteScenario(stored: seq<User>, blogs: seq<Blog>, member: int, target: int)
    returns (refused: Response, untouched: bool)
    requires UniqueIds(stored) && target in Ids(stored) && member != target
    ensures refused == DeleteForbidden && untouched
  {
    var c := new Controller(stored, blogs);
    refused := c.DeleteUser(member, "user", target);
    untouched := c.users == stored && c.blogs == blogs && c.cache == map[];
  }

  /** A listing against a snapshot that holds the whole store in order
      yields the store's own page. */
  method ListConsistent(c: Controller, page: int, pageSize: int) returns (listing: Response)
    requires c.Valid() && c.Consistent() && SortedById(c.users)
    requires pageSize >= 1 && page <= TotalPages(|c.users|, pageSize)
    modifies c`cache
    ensures listing == UserPage(Page(c.users, page, pageSize))
  {
    SortByIdOfSorted(c.users);
    listing := c.GetAllUsers(Some(page), Some(pageSize));
  }

  /** An admin deletes a stored user: the user's blogs go, the count and
      the snapshot are rebuilt, and every listing page is then the page of
      the store without that user. */
  method DeleteThenListScenario(stored: seq<User>, blogs: seq<Blog>, admin: int, target: int,
                                page: int, pageSize: int)
    returns (deleted: Response, listing: Response)
    requires StrictlySortedById(stored) && target in Ids(stored)
    requires pageSize >= 1 && page <= TotalPages(|stored| - 1, pageSize)
    ensures deleted == UserDeleted
    ensures listing == UserPage(Page(RemoveById(stored, target), page, pageSize))
  {
    assert UniqueIds(stored) && SortedById(stored);
    RemoveSorted(stored, target);
    var c := new Controller(stored, blogs);
    deleted := c.DeleteUser(admin, "admin", target);
    listing := ListConsistent(c, page, pageSize);
  }

  /** After an admin deletes a stored user, looking that user up finds
      nothing: the rebuilt snapshot no longer holds the identifier. */
  method DeleteThenLookupScenario(stored: seq<User>, blogs: seq<Blog>, admin: int, target: int)
    returns (deleted: Response, lookup: Response)
    requires UniqueIds(stored) && target in Ids(stored)
    ensures deleted == UserDeleted
    ensures lookup == UserNotFound
  {
    var c := new Controller(stored, blogs);
    deleted := c.DeleteUser(admin, "admin", target);
    lookup := c.GetUserById(Some(target));
  }
}
